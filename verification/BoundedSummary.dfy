/** The clipboard summary: as many formatted entries as fit a byte limit together with a footer that counts them. */
module BoundedSummary {
  import opened Vault
  import opened DiagnosticRing
  import ExactIdentifier

  const MIN_DIAGNOSTIC_SUMMARY_BYTES := 1_024
  const DIAGNOSTIC_CLIPBOARD_MAX_BYTES := 64 * 1_024

  const EMPTY_LINE := "(no retained events at this level)\n"

  function Decimal(n: nat): (digits: string)
    ensures digits != ""
  {
    if n < 10 then ['0' + n as char] else Decimal(n / 10) + ['0' + (n % 10) as char]
  }

  /** Counting up by one adds at most one digit, and never loses one. */
  lemma {:induction false} DecimalGrows(n: nat)
    ensures |Decimal(n)| <= |Decimal(n + 1)| <= |Decimal(n)| + 1
  {
    if n + 1 >= 10 {
      if (n + 1) / 10 != n / 10 {
        assert (n + 1) / 10 == n / 10 + 1;
        DecimalGrows(n / 10);
      }
    }
  }

  /// ---- sizes in bytes --------------------------------------------------------------------------------------

  /** The UTF-8 bytes of one character. */
  function CharSize(c: char): (n: nat)
    ensures n >= 1
  {
    if c as int < 0x80 then 1 else if c as int < 0x800 then 2 else if c as int < 0x1_0000 then 3 else 4
  }

  lemma CharSizeIsUtf8(c: char)
    requires (c as int) < 0x11_0000
    ensures CharSize(c) == |ExactIdentifier.Utf8Of(c as int)|
  {
  }

  /** encoder.encode(s).byteLength. */
  function Size(s: string): nat {
    if s == "" then 0 else Size(s[..|s| - 1]) + CharSize(s[|s| - 1])
  }

  lemma {:induction false} SizeOfConcat(a: string, b: string)
    ensures Size(a + b) == Size(a) + Size(b)
  {
    if b == "" {
      assert a + b == a;
    } else {
      var n := |b| - 1;
      SizeOfConcat(a, b[..n]);
      assert (a + b)[..|a| + n] == a + b[..n];
    }
  }

  lemma {:induction false} SizeOfDecimal(n: nat)
    ensures Size(Decimal(n)) == |Decimal(n)|
  {
    if n >= 10 {
      SizeOfDecimal(n / 10);
    } else {
      assert Decimal(n)[..0] == "";
    }
  }

  lemma SizeOfFour(a: string, b: string, c: string, d: string)
    ensures Size(a + b + c + d) == Size(a) + Size(b) + Size(c) + Size(d)
  {
    SizeOfConcat(a, b);
    SizeOfConcat(a + b, c);
    SizeOfConcat(a + b + c, d);
  }

  /// ---- the texts around the entries --------------------------------------------------------------------------

  const EMITTED_LABEL := "\nstructured_records: omitted\nclipboard_emitted_entries: "
  const OMITTED_LABEL := "\nclipboard_omitted_entries: "

  function ClipboardFooter(emitted: nat, omitted: nat): string {
    Footer(EMITTED_LABEL, OMITTED_LABEL, emitted, omitted)
  }

  function Footer(emittedLabel: string, omittedLabel: string, emitted: nat, omitted: nat): string {
    emittedLabel + Decimal(emitted) + omittedLabel + (Decimal(omitted) + "\n")
  }

  lemma FooterSize(emittedLabel: string, omittedLabel: string, emitted: nat, omitted: nat)
    ensures Size(Footer(emittedLabel, omittedLabel, emitted, omitted)) ==
            Size(emittedLabel) + Size(omittedLabel) + Size("\n") + |Decimal(emitted)| + |Decimal(omitted)|
  {
    SizeOfFour(emittedLabel, Decimal(emitted), omittedLabel, Decimal(omitted) + "\n");
    SizeOfConcat(Decimal(omitted), "\n");
    SizeOfDecimal(emitted);
    SizeOfDecimal(omitted);
  }

  /** The lines of the first `n` entries, joined. */
  function Lines(entries: seq<Entry>, format: Entry -> string, n: nat): string
    requires n <= |entries|
  {
    if n == 0 then "" else Lines(entries, format, n - 1) + (format(entries[n - 1]) + "\n")
  }

  /** The fixed texts around the entries. */
  datatype Frame = Frame(header: string, format: Entry -> string, emptyLine: string, footer: (nat, nat) -> string)

  /** Moving an entry from omitted to emitted costs the footer at most one byte. */
  ghost predicate SteadyFooter(f: Frame) {
    forall e: nat, o: nat :: SteadyAt(f, e, o)
  }

  predicate SteadyAt(f: Frame, e: nat, o: nat) {
    Size(f.footer(e, o + 1)) <= Size(f.footer(e + 1, o)) + 1
  }

  function ClipboardFrame(header: string, format: Entry -> string): Frame {
    Frame(header, format, EMPTY_LINE, ClipboardFooter)
  }

  lemma ClipboardFooterIsSteady(header: string, format: Entry -> string)
    ensures SteadyFooter(ClipboardFrame(header, format))
  {
    var f := ClipboardFrame(header, format);
    forall e: nat, o: nat ensures SteadyAt(f, e, o) {
      FooterSize(EMITTED_LABEL, OMITTED_LABEL, e, o + 1);
      FooterSize(EMITTED_LABEL, OMITTED_LABEL, e + 1, o);
      DecimalGrows(e);
      DecimalGrows(o);
    }
  }

  predicate Counted(plan: ExportPlan) {
    plan.selectedEntries == |plan.entries|
  }

  /** The report that emits the first `n` entries. */
  function Report(plan: ExportPlan, f: Frame, n: nat): string
    requires Counted(plan) && n <= |plan.entries|
  {
    f.header + Lines(plan.entries, f.format, n) + (if plan.selectedEntries == 0 then f.emptyLine else "")
    + f.footer(n, plan.selectedEntries - n)
  }

  /// ---- the same sizes as sums ----------------------------------------------------------------------------------

  function LineBytes(entries: seq<Entry>, format: Entry -> string, k: nat): nat
    requires k < |entries|
  {
    Size(format(entries[k]) + "\n")
  }

  function LinesBytes(entries: seq<Entry>, format: Entry -> string, n: nat): nat
    requires n <= |entries|
  {
    if n == 0 then 0 else LinesBytes(entries, format, n - 1) + LineBytes(entries, format, n - 1)
  }

  function ReportBytes(plan: ExportPlan, f: Frame, n: nat): nat
    requires Counted(plan) && n <= |plan.entries|
  {
    Size(f.header) + LinesBytes(plan.entries, f.format, n) + (if plan.selectedEntries == 0 then Size(f.emptyLine) else 0)
    + Size(f.footer(n, plan.selectedEntries - n))
  }

  lemma LineNotEmpty(entries: seq<Entry>, format: Entry -> string, k: nat)
    requires k < |entries|
    ensures LineBytes(entries, format, k) >= 1
  {
    SizeOfConcat(format(entries[k]), "\n");
  }

  lemma Associative(x: string, y: string, z: string)
    ensures x + y + z == x + (y + z)
  {
  }

  lemma NothingAdded(x: string)
    ensures x + "" == x
  {
  }

  lemma {:induction false} LinesSize(entries: seq<Entry>, format: Entry -> string, n: nat)
    requires n <= |entries|
    ensures Size(Lines(entries, format, n)) == LinesBytes(entries, format, n)
  {
    if n > 0 {
      LinesSize(entries, format, n - 1);
      SizeOfWhole(Lines(entries, format, n - 1), format(entries[n - 1]) + "\n", Lines(entries, format, n));
    }
  }

  lemma {:induction false} SizeOfWhole(before: string, line: string, whole: string)
    requires whole == before + line
    ensures Size(whole) == Size(before) + Size(line)
  {
    SizeOfConcat(before, line);
  }

  lemma ReportSize(plan: ExportPlan, f: Frame, n: nat)
    requires Counted(plan) && n <= |plan.entries|
    ensures Size(Report(plan, f, n)) == ReportBytes(plan, f, n)
  {
    LinesSize(plan.entries, f.format, n);
    SizeOfFour(f.header, Lines(plan.entries, f.format, n), if plan.selectedEntries == 0 then f.emptyLine else "",
               f.footer(n, plan.selectedEntries - n));
  }

  lemma {:induction false} LongerSums(plan: ExportPlan, f: Frame, n: nat, m: nat)
    requires Counted(plan) && n <= m <= |plan.entries| && SteadyFooter(f)
    ensures ReportBytes(plan, f, n) <= ReportBytes(plan, f, m)
    decreases m
  {
    if n < m {
      LongerSums(plan, f, n, m - 1);
      LineNotEmpty(plan.entries, f.format, m - 1);
      assert SteadyAt(f, m - 1, plan.selectedEntries - m);
    }
  }

  /** Another entry never makes the report shorter: its line outweighs a digit the omitted count may lose. */
  lemma LongerReports(plan: ExportPlan, f: Frame, n: nat, m: nat)
    requires Counted(plan) && n <= m <= |plan.entries| && SteadyFooter(f)
    ensures Size(Report(plan, f, n)) <= Size(Report(plan, f, m))
  {
    LongerSums(plan, f, n, m);
    ReportSize(plan, f, n);
    ReportSize(plan, f, m);
  }

  datatype Summary = Summary(text: string, byteLength: nat, emittedEntries: nat, omittedEntries: nat)

  /** The emitted entries are the longest prefix whose report fits. */
  predicate Fullest(plan: ExportPlan, f: Frame, s: Summary, maxBytes: int) {
    && Counted(plan)
    && s.emittedEntries + s.omittedEntries == plan.selectedEntries
    && s.text == Report(plan, f, s.emittedEntries)
    && s.byteLength == Size(s.text) <= maxBytes
    && forall m :: s.emittedEntries < m <= plan.selectedEntries ==> Size(Report(plan, f, m)) > maxBytes
  }

  /** collectBoundedDiagnosticSummary; None is a thrown range error. */
  method CollectBoundedDiagnosticSummary(plan: ExportPlan, header: string, format: Entry -> string, maxBytes: int)
    returns (summary: Option<Summary>)
    requires Counted(plan)
    ensures summary.Some? <==>
              && MIN_DIAGNOSTIC_SUMMARY_BYTES <= maxBytes <= DIAGNOSTIC_CLIPBOARD_MAX_BYTES
              && Size(Report(plan, ClipboardFrame(header, format), 0)) <= maxBytes
    ensures summary.Some? ==> Fullest(plan, ClipboardFrame(header, format), summary.value, maxBytes)
  {
    if maxBytes < MIN_DIAGNOSTIC_SUMMARY_BYTES || maxBytes > DIAGNOSTIC_CLIPBOARD_MAX_BYTES {
      return None;
    }
    ClipboardFooterIsSteady(header, format);
    summary := Collect(plan, ClipboardFrame(header, format), maxBytes);
  }

  method Collect(plan: ExportPlan, f: Frame, maxBytes: nat) returns (summary: Option<Summary>)
    requires Counted(plan) && SteadyFooter(f)
    ensures summary.Some? <==> Size(Report(plan, f, 0)) <= maxBytes
    ensures summary.Some? ==> Fullest(plan, f, summary.value, maxBytes)
  {
    var eventLines, emitted := EmitLines(plan, f, maxBytes);
    if plan.selectedEntries == 0 {
      eventLines := eventLines + f.emptyLine;
    }
    var omitted := plan.selectedEntries - emitted;
    var text := f.header + eventLines + f.footer(emitted, omitted);
    SameReport(plan, f, emitted, eventLines, text);
    LongerReports(plan, f, 0, emitted);
    var byteLength := Size(text);
    if byteLength > maxBytes {
      return None;
    }
    summary := Some(Summary(text, byteLength, emitted, omitted));
  }

  lemma SameReport(plan: ExportPlan, f: Frame, n: nat, eventLines: string, text: string)
    requires Counted(plan) && n <= |plan.entries|
    requires eventLines ==
             if plan.selectedEntries == 0 then Lines(plan.entries, f.format, n) + f.emptyLine else Lines(plan.entries, f.format, n)
    requires text == f.header + eventLines + f.footer(n, plan.selectedEntries - n)
    ensures text == Report(plan, f, n)
  {
    var lines := Lines(plan.entries, f.format, n);
    if plan.selectedEntries == 0 {
      Associative(f.header, lines, f.emptyLine);
    } else {
      NothingAdded(f.header + lines);
    }
  }

  /** The greedy loop: entries until the next does not fit with the footer it would need. */
  method EmitLines(plan: ExportPlan, f: Frame, maxBytes: nat) returns (eventLines: string, emitted: nat)
    requires Counted(plan) && SteadyFooter(f)
    ensures emitted <= plan.selectedEntries && eventLines == Lines(plan.entries, f.format, emitted)
    ensures emitted > 0 ==> Size(Report(plan, f, emitted)) <= maxBytes
    ensures forall m :: emitted < m <= plan.selectedEntries ==> Size(Report(plan, f, m)) > maxBytes
  {
    eventLines, emitted := "", 0;
    var byteLengthWithoutFooter := Size(f.header);
    while emitted < |plan.entries|
      invariant emitted <= |plan.entries| && eventLines == Lines(plan.entries, f.format, emitted)
      invariant byteLengthWithoutFooter == Size(f.header) + LinesBytes(plan.entries, f.format, emitted)
      invariant emitted > 0 ==> ReportBytes(plan, f, emitted) <= maxBytes
    {
      var candidate := f.format(plan.entries[emitted]) + "\n";
      var candidateBytes := Size(candidate);
      var candidateFooterBytes := Size(f.footer(emitted + 1, plan.selectedEntries - emitted - 1));
      assert ReportBytes(plan, f, emitted + 1) == byteLengthWithoutFooter + candidateBytes + candidateFooterBytes;
      if byteLengthWithoutFooter + candidateBytes + candidateFooterBytes > maxBytes { break; }
      eventLines := eventLines + candidate;
      emitted := emitted + 1;
      byteLengthWithoutFooter := byteLengthWithoutFooter + candidateBytes;
    }
    ReportSize(plan, f, emitted);
    forall m: nat | emitted < m <= plan.selectedEntries ensures Size(Report(plan, f, m)) > maxBytes {
      LongerSums(plan, f, emitted + 1, m);
      ReportSize(plan, f, m);
    }
  }

  /// ---- reading a report ----------------------------------------------------------------------------------------

  predicate IsDigit(c: char) {
    '0' <= c <= '9'
  }

  /** Where the digits that begin at a position end. */
  function DigitsEnd(s: string, from: nat): (end: nat)
    requires from <= |s|
    ensures from <= end <= |s|
    decreases |s| - from
  {
    if from < |s| && IsDigit(s[from]) then DigitsEnd(s, from + 1) else from
  }

  function ReadNumber(digits: string): int {
    if digits == "" then 0 else 10 * ReadNumber(digits[..|digits| - 1]) + (digits[|digits| - 1] as int - '0' as int)
  }

  /** The decimal form has digits only, no leading zero, and gives the number back. */
  lemma {:induction false} DecimalReads(n: nat)
    ensures ReadNumber(Decimal(n)) == n
    ensures forall k :: 0 <= k < |Decimal(n)| ==> IsDigit(Decimal(n)[k])
    ensures n > 0 ==> Decimal(n)[0] != '0'
    ensures Decimal(0) == "0"
  {
    if n >= 10 {
      DecimalReads(n / 10);
      assert Decimal(n)[..|Decimal(n)| - 1] == Decimal(n / 10);
    } else {
      assert Decimal(n)[..0] == "";
    }
  }

  lemma {:induction false} DigitsEndThere(s: string, from: nat, end: nat)
    requires from <= end <= |s| && (forall k :: from <= k < end ==> IsDigit(s[k])) && (end < |s| ==> !IsDigit(s[end]))
    ensures DigitsEnd(s, from) == end
    decreases end - from
  {
    if from < end {
      DigitsEndThere(s, from + 1, end);
    }
  }

  /** A number between two texts, of which the second does not begin with a digit. */
  lemma NumberReads(before: string, n: nat, after: string, whole: string)
    requires whole == before + Decimal(n) + after && (after != "" ==> !IsDigit(after[0]))
    ensures var end := DigitsEnd(whole, |before|);
            end == |before| + |Decimal(n)| && ReadNumber(whole[|before|..end]) == n && whole[..|before|] == before && whole[end..] == after
  {
    DecimalReads(n);
    var end := |before| + |Decimal(n)|;
    assert whole[|before|..end] == Decimal(n);
    forall k | |before| <= k < end ensures IsDigit(whole[k]) {
      assert whole[k] == Decimal(n)[k - |before|];
    }
    DigitsEndThere(whole, |before|, end);
  }

  /** The footer names both counts, and the numbers after its labels are those counts. */
  lemma ClipboardFooterReads(emitted: nat, omitted: nat) returns (first: string, second: string)
    ensures first == "\nstructured_records: omitted\nclipboard_emitted_entries: " && second == "\nclipboard_omitted_entries: "
    ensures
      var f := ClipboardFooter(emitted, omitted);
      && |first| <= |f| && f[..|first|] == first
      && var middle := DigitsEnd(f, |first|);
      && ReadNumber(f[|first|..middle]) == emitted
      && middle + |second| <= |f| && f[middle..middle + |second|] == second
      && var end := DigitsEnd(f, middle + |second|);
      ReadNumber(f[middle + |second|..end]) == omitted && f[end..] == "\n"
  {
    first, second := EMITTED_LABEL, OMITTED_LABEL;
    var f, rest := ClipboardFooter(emitted, omitted), second + (Decimal(omitted) + "\n");
    assert f == first + Decimal(emitted) + rest;
    NumberReads(first, emitted, rest, f);
    var before := first + Decimal(emitted) + second;
    assert f == before + Decimal(omitted) + "\n";
    NumberReads(before, omitted, "\n", f);
  }

  /** The line of entry `k` stands where the earlier ones end. */
  lemma {:induction false} LinePlace(entries: seq<Entry>, format: Entry -> string, k: nat, n: nat)
    requires k < n <= |entries|
    ensures
      var at, line := |Lines(entries, format, k)|, format(entries[k]) + "\n";
      && at + |line| == |Lines(entries, format, k + 1)| <= |Lines(entries, format, n)|
      && Lines(entries, format, n)[at..at + |line|] == line
  {
    if k + 1 < n {
      LinePlace(entries, format, k, n - 1);
      var front, at, end := Lines(entries, format, n - 1), |Lines(entries, format, k)|, |Lines(entries, format, k + 1)|;
      assert Lines(entries, format, n)[..|front|] == front;
      assert Lines(entries, format, n)[at..end] == front[at..end];
    }
  }

  /** A report is its header, its lines, the note that there are none if so, and the footer for what it emits. */
  lemma ReportReads(plan: ExportPlan, f: Frame, n: nat)
    requires Counted(plan) && n <= |plan.entries|
    ensures
      var text, lines, footer := Report(plan, f, n), Lines(plan.entries, f.format, n), f.footer(n, |plan.entries| - n);
      var end := |text| - |footer|;
      && |f.header| + |lines| <= end
      && text[..|f.header|] == f.header
      && text[|f.header|..|f.header| + |lines|] == lines
      && text[|f.header| + |lines|..end] == (if plan.entries == [] then f.emptyLine else "")
      && text[end..] == footer
  {
  }
}
