/** The excerpt of one section: a window around the anchor, its highlighted segments, and their final trimming. */
module Excerpt {
  import opened Arithmetic
  import opened Vault
  import opened ExcerptSearch

  const EXCERPT_WINDOW_CHARACTERS := 240
  const EXCERPT_LEAD_CHARACTERS := 80
  const MAX_HYDRATED_EXCERPT_CHARACTERS := 512
  const BOUNDARY_SLACK := 40

  const ELLIPSIS: Units := [0x2026]

  /** The white space of a regular expression's \s. */
  predicate IsSpace(u: CodeUnit) {
    || 0x09 <= u <= 0x0d || u == 0x20 || u == 0xa0 || u == 0x1680 || 0x2000 <= u <= 0x200a
    || u == 0x2028 || u == 0x2029 || u == 0x202f || u == 0x205f || u == 0x3000 || u == 0xfeff
  }

  predicate Blank(s: Units) {
    forall i :: 0 <= i < |s| ==> IsSpace(s[i])
  }

  /** sanitizeExcerptText replaces the two highlight markers, unit for unit. */
  function SanitizeUnit(u: CodeUnit): CodeUnit {
    if u == 0xe000 || u == 0xe001 then 0xfffd else u
  }

  function Sanitize(s: Units): (t: Units)
    ensures |t| == |s| && forall i :: 0 <= i < |s| ==> t[i] == SanitizeUnit(s[i])
  {
    seq(|s|, i requires 0 <= i < |s| => SanitizeUnit(s[i]))
  }

  /// ---- the window -----------------------------------------------------------------------------------------

  /** The first white space from `from` on is at `start`, and only white space follows before `end`. */
  predicate FirstRun(text: Units, from: nat, start: nat, end: nat)
    requires end <= |text|
  {
    && from <= start < end
    && (forall j :: from <= j < start ==> !IsSpace(text[j])) && (forall j :: start <= j < end ==> IsSpace(text[j]))
  }

  /** Past the first run of white space, if one starts before the limit. */
  method NextBoundary(text: Units, from: nat, limit: nat) returns (boundary: nat)
    requires from <= |text| && limit <= |text|
    ensures boundary == from || (from < boundary <= limit && IsSpace(text[boundary - 1]))
    ensures boundary == from && from < limit ==> forall i :: from <= i < limit ==> !IsSpace(text[i])
    ensures boundary > from && boundary < limit ==> !IsSpace(text[boundary])
    ensures boundary > from ==>
              exists i: nat :: FirstRun(text, from, i, boundary)
  {
    var index := from;
    while index < limit
      invariant from <= index && (from <= limit ==> index <= limit)
      invariant forall i :: from <= i < index && i < |text| ==> !IsSpace(text[i])
    {
      if IsSpace(text[index]) {
        boundary := index;
        while boundary < limit && IsSpace(text[boundary])
          invariant index <= boundary <= limit
          invariant forall i :: index <= i < boundary ==> IsSpace(text[i])
        {
          boundary := boundary + 1;
        }
        assert FirstRun(text, from, index, boundary);
        return;
      }
      index := index + 1;
    }
    boundary := from;
  }

  /** The last white space above the limit, if there is any. */
  method PreviousBoundary(text: Units, from: nat, limit: nat) returns (boundary: nat)
    requires from <= |text|
    ensures boundary == from || (limit <= boundary < from && IsSpace(text[boundary]))
    ensures forall j :: limit <= j < from && (boundary == from || j > boundary) ==> !IsSpace(text[j])
  {
    var index := from;
    while index > limit
      invariant 0 <= index <= from && (limit <= from ==> limit <= index)
      invariant forall j :: index <= j < from ==> !IsSpace(text[j])
    {
      if IsSpace(text[index - 1]) {
        return index - 1;
      }
      index := index - 1;
    }
    boundary := from;
  }

  /** The lead-in starts past the first white space of its slack, if there is any. */
  ghost predicate StartsAtWord(text: Units, from: nat, limit: nat, start: nat)
    requires from <= start && limit <= |text| && start <= |text|
  {
    if start == from then from < limit ==> forall j :: from <= j < limit ==> !IsSpace(text[j])
    else start <= limit && IsSpace(text[start - 1]) && (start < limit ==> !IsSpace(text[start]))
  }

  /** A window that is cut off ends before white space, or has none in its last units. */
  ghost predicate EndsAtWord(text: Units, anchorEnd: nat, window: Match)
    requires window.start <= window.end < |text|
  {
    var full := Max(window.start + EXCERPT_WINDOW_CHARACTERS, anchorEnd);
    || IsSpace(text[window.end])
    || (window.end == full && forall j :: Max(anchorEnd, full - BOUNDARY_SLACK) <= j < full && j < |text| ==> !IsSpace(text[j]))
  }

  /**
   The window holds the whole anchor. It starts with the text, or 40 to 80 units before the anchor and past the first
   white space there; it is no longer than 240 units or the anchor needs, and 40 units shorter at most, to end at a word.
   */
  ghost predicate Located(text: Units, anchor: nat, anchorEnd: nat, window: Match)
    requires anchor <= anchorEnd <= |text|
  {
    && window.start <= anchor && anchorEnd <= window.end <= |text|
    && anchor <= window.start + EXCERPT_LEAD_CHARACTERS
    && window.end - window.start <= Max(EXCERPT_WINDOW_CHARACTERS, anchorEnd - window.start)
    && (anchor <= EXCERPT_LEAD_CHARACTERS ==> window.start == 0)
    && (anchor > EXCERPT_LEAD_CHARACTERS ==>
          var from := anchor - EXCERPT_LEAD_CHARACTERS;
          from <= window.start <= from + BOUNDARY_SLACK && StartsAtWord(text, from, from + BOUNDARY_SLACK, window.start))
    && (window.end == |text| || window.end >= window.start + EXCERPT_WINDOW_CHARACTERS - BOUNDARY_SLACK)
    && (window.end < |text| ==> EndsAtWord(text, anchorEnd, window))
  }

  /** locateWindow: the window holds the whole anchor, with bounded lead-in and size. */
  method LocateWindow(text: Units, anchor: nat, anchorEnd: nat) returns (window: Match)
    requires anchor <= anchorEnd <= |text|
    ensures Located(text, anchor, anchorEnd, window)
  {
    var start := Max(0, anchor - EXCERPT_LEAD_CHARACTERS);
    if start > 0 {
      start := NextBoundary(text, start, Min(anchor, start + BOUNDARY_SLACK));
    }
    var end := Min(|text|, start + EXCERPT_WINDOW_CHARACTERS);
    if end < anchorEnd {
      end := Min(|text|, anchorEnd);
    }
    if end < |text| {
      end := PreviousBoundary(text, end, Max(anchorEnd, end - BOUNDARY_SLACK));
    }
    window := Match(start, end);
  }

  /// ---- segments -------------------------------------------------------------------------------------------

  datatype Segment = Segment(text: Units, highlighted: bool)

  /** One rendered unit and whether it is highlighted. */
  datatype Cell = Cell(unit: CodeUnit, marked: bool)

  function CellsOf(s: Segment): (cells: seq<Cell>)
    ensures |cells| == |s.text|
    ensures forall i :: 0 <= i < |cells| ==> cells[i] == Cell(s.text[i], s.highlighted)
  {
    seq(|s.text|, i requires 0 <= i < |s.text| => Cell(s.text[i], s.highlighted))
  }

  function Cells(segments: seq<Segment>): seq<Cell> {
    if segments == [] then []
    else Cells(segments[..|segments| - 1]) + CellsOf(segments[|segments| - 1])
  }

  lemma {:induction false} CellsAppend(segments: seq<Segment>, s: Segment)
    ensures Cells(segments + [s]) == Cells(segments) + CellsOf(s)
  {
    assert (segments + [s])[..|segments|] == segments;
  }

  lemma CellsUpTo(segments: seq<Segment>, k: nat)
    requires k < |segments|
    ensures Cells(segments[..k + 1]) == Cells(segments[..k]) + CellsOf(segments[k])
  {
    assert segments[..k + 1] == segments[..k] + [segments[k]];
    CellsAppend(segments[..k], segments[k]);
  }

  lemma {:induction false} CellsConcatAppend(a: seq<Segment>, b: seq<Segment>, last: Segment, whole: seq<Segment>)
    requires Cells(a + b) == Cells(a) + Cells(b) && whole == b + [last]
    ensures Cells(a + whole) == Cells(a) + Cells(whole)
  {
    Associative(a, b, [last]);
    CellsAppend(a + b, last);
    CellsAppend(b, last);
    Associative(Cells(a), Cells(b), CellsOf(last));
  }

  lemma Associative<T>(x: seq<T>, y: seq<T>, z: seq<T>)
    ensures (x + y) + z == x + (y + z)
  {
  }

  lemma {:induction false} CellsConcat(a: seq<Segment>, b: seq<Segment>)
    ensures Cells(a + b) == Cells(a) + Cells(b)
  {
    if b == [] {
      assert a + b == a;
    } else {
      var n := |b| - 1;
      CellsConcat(a, b[..n]);
      CellsConcatAppend(a, b[..n], b[n], b);
    }
  }

  /** The cells of a slice that is highlighted where `matches` cover it. */
  ghost predicate Painted(cells: seq<Cell>, slice: Units, matches: seq<Match>, upTo: nat) {
    && |cells| == upTo <= |slice|
    && forall x :: 0 <= x < upTo ==> cells[x].unit == slice[x] && (cells[x].marked <==> Covered(matches, x))
  }

  /** The cells spell the slice; nothing is lost or repeated whatever the offset map is. */
  predicate Spells(cells: seq<Cell>, slice: Units, upTo: nat) {
    |cells| == upTo <= |slice| && forall x :: 0 <= x < upTo ==> cells[x].unit == slice[x]
  }

  lemma PaintPlain(cells: seq<Cell>, slice: Units, matches: seq<Match>, from: nat, to: nat)
    requires Painted(cells, slice, matches, from) && from <= to <= |slice|
    requires forall x :: from <= x < to ==> !Covered(matches, x)
    ensures Painted(cells + CellsOf(Segment(slice[from..to], false)), slice, matches, to)
  {
  }

  lemma PaintMatch(cells: seq<Cell>, slice: Units, matches: seq<Match>, k: nat)
    requires k < |matches| && matches[k].start <= matches[k].end <= |slice|
    requires Painted(cells, slice, matches, matches[k].start)
    ensures Painted(cells + CellsOf(Segment(slice[matches[k].start..matches[k].end], true)), slice, matches, matches[k].end)
  {
    forall x | matches[k].start <= x < matches[k].end ensures Covered(matches, x) {
    }
  }

  /** Between two matches that are apart, and after the last, nothing is covered. */
  lemma GapUncovered(matches: seq<Match>, length: nat, k: nat, from: nat, x: nat)
    requires Apart(matches, length) && k <= |matches| && from <= x
    requires k > 0 ==> matches[k - 1].end <= from
    requires k < |matches| ==> x < matches[k].start
    ensures !Covered(matches, x)
  {
    forall j | 0 <= j < |matches| ensures !(matches[j].start <= x < matches[j].end) {
      if j + 1 < k {
        assert matches[j].end < matches[k - 1].start;
      }
      if k < j {
        assert matches[k].end < matches[j].start;
      }
    }
  }

  /** The text between two matches. */
  method AddPlain(segments: seq<Segment>, slice: Units, ghost matches: seq<Match>, from: nat, to: nat, ghost exact: bool)
    returns (more: seq<Segment>)
    requires Spells(Cells(segments), slice, from) && from < to <= |slice|
    requires exact ==> Painted(Cells(segments), slice, matches, from) && forall x :: from <= x < to ==> !Covered(matches, x)
    ensures Spells(Cells(more), slice, to)
    ensures exact ==> Painted(Cells(more), slice, matches, to)
  {
    more := segments + [Segment(slice[from..to], false)];
    CellsAppend(segments, Segment(slice[from..to], false));
    if exact { PaintPlain(Cells(segments), slice, matches, from, to); }
  }

  /** A match, at the source units its folded ends map to. */
  method AddMatch(segments: seq<Segment>, slice: Units, ghost matches: seq<Match>, ghost k: nat, start: nat, end: nat, ghost exact: bool)
    returns (more: seq<Segment>)
    requires Spells(Cells(segments), slice, start) && start <= end <= |slice| && k < |matches|
    requires exact ==> Painted(Cells(segments), slice, matches, start) && matches[k] == Match(start, end)
    ensures Spells(Cells(more), slice, end)
    ensures exact ==> Painted(Cells(more), slice, matches, end)
  {
    more := segments + [Segment(slice[start..end], true)];
    CellsAppend(segments, Segment(slice[start..end], true));
    if exact { PaintMatch(Cells(segments), slice, matches, k); }
  }

  lemma GapsUncovered(matches: seq<Match>, length: nat, k: nat, from: nat, to: nat)
    requires Apart(matches, length) && k <= |matches|
    requires k > 0 ==> matches[k - 1].end <= from
    requires k < |matches| ==> to <= matches[k].start
    ensures forall x :: from <= x < to ==> !Covered(matches, x)
  {
    forall x | from <= x < to ensures !Covered(matches, x) {
      GapUncovered(matches, length, k, from, x);
    }
  }

  predicate IsIdentity(origins: seq<nat>, slice: Units, foldedLength: nat) {
    Identity(origins) && |origins| == |slice| == foldedLength
  }

  /** Where a match of the folded text lies in the slice. */
  function SourceOf(origins: seq<nat>, m: Match, length: nat): (s: Match)
    requires Monotone(origins, length) && m.start <= m.end
    ensures s.start <= s.end <= length
    ensures Identity(origins) && |origins| == length && m.end <= length ==> s == m
  {
    Match(if m.start < |origins| then origins[m.start] else length, SourceEnd(origins, m.end, length))
  }

  /** The segment loop of hydrateExcerpt. */
  method BuildSegments(slice: Units, origins: seq<nat>, matches: seq<Match>, ghost foldedLength: nat)
    returns (segments: seq<Segment>)
    requires Monotone(origins, |slice|) && Apart(matches, foldedLength)
    ensures Spells(Cells(segments), slice, |slice|)
    ensures IsIdentity(origins, slice, foldedLength) ==> Painted(Cells(segments), slice, matches, |slice|)
  {
    segments := [];
    var cursor: nat := 0;
    ghost var exact := IsIdentity(origins, slice, foldedLength);
    for k := 0 to |matches|
      invariant cursor <= |slice| && Spells(Cells(segments), slice, cursor)
      invariant exact ==> Painted(Cells(segments), slice, matches, cursor)
      invariant exact ==> cursor == if k == 0 then 0 else matches[k - 1].end
    {
      var source := SourceOf(origins, matches[k], |slice|);
      if source.start < cursor {
        assert !exact;
        continue;
      }
      if source.start > cursor {
        if exact { GapsUncovered(matches, foldedLength, k, cursor, source.start); }
        segments := AddPlain(segments, slice, matches, cursor, source.start, exact);
      }
      segments := AddMatch(segments, slice, matches, k, source.start, source.end, exact);
      cursor := source.end;
    }
    if cursor < |slice| {
      if exact { GapsUncovered(matches, foldedLength, |matches|, cursor, |slice|); }
      segments := AddPlain(segments, slice, matches, cursor, |slice|, exact);
    }
  }

  /// ---- the final excerpt ----------------------------------------------------------------------------------

  function TrimStart(s: Units): (t: Units)
    ensures |t| <= |s| && t == s[|s| - |t|..] && Blank(s[..|s| - |t|])
  {
    if s != [] && IsSpace(s[0]) then
      var t := TrimStart(s[1..]);
      assert s[..|s| - |t|] == [s[0]] + s[1..][..|s| - 1 - |t|];
      t
    else s
  }

  function TrimEnd(s: Units): (t: Units)
    ensures |t| <= |s| && t == s[..|t|] && Blank(s[|t|..])
  {
    if s != [] && IsSpace(s[|s| - 1]) then
      var t := TrimEnd(s[..|s| - 1]);
      assert s[|t|..] == s[..|s| - 1][|t|..] + [s[|s| - 1]];
      t
    else s
  }

  /** The segments cut to the cap; `clipped` says that something was cut off. */
  method Clip(segments: seq<Segment>) returns (bounded: seq<Segment>, clipped: bool)
    ensures Cells(bounded) == Cells(segments)[..Min(|Cells(segments)|, MAX_HYDRATED_EXCERPT_CHARACTERS)]
    ensures clipped <==> |Cells(segments)| > MAX_HYDRATED_EXCERPT_CHARACTERS
  {
    bounded, clipped := [], false;
    var total := 0;
    for k := 0 to |segments|
      invariant !clipped && Cells(bounded) == Cells(segments[..k])
      invariant total == |Cells(bounded)| <= MAX_HYDRATED_EXCERPT_CHARACTERS
    {
      var segment := segments[k];
      CellsUpTo(segments, k);
      if segment.text == [] { continue; }
      var room := MAX_HYDRATED_EXCERPT_CHARACTERS - total;
      if |segment.text| > room {
        PrefixCells(segments, k + 1);
        if room > 0 {
          CellsAppend(bounded, segment.(text := segment.text[..room]));
          bounded := bounded + [segment.(text := segment.text[..room])];
        }
        return bounded, true;
      }
      CellsAppend(bounded, segment);
      bounded := bounded + [segment];
      total := total + |segment.text|;
    }
    assert segments[..|segments|] == segments;
  }

  lemma {:induction false} PrefixCells(segments: seq<Segment>, k: nat)
    requires k <= |segments|
    ensures Cells(segments[..k]) <= Cells(segments)
  {
    CellsConcat(segments[..k], segments[k..]);
    assert segments == segments[..k] + segments[k..];
  }

  /** Cells that trimming may drop: white space that is not highlighted. */
  predicate PlainSpace(cells: seq<Cell>) {
    forall x :: 0 <= x < |cells| ==> IsSpace(cells[x].unit) && !cells[x].marked
  }

  method TrimFirst(bounded: seq<Segment>) returns (trimmed: seq<Segment>, ghost dropped: nat)
    ensures |trimmed| == |bounded| && dropped <= |Cells(bounded)|
    ensures Cells(trimmed) == Cells(bounded)[dropped..] && PlainSpace(Cells(bounded)[..dropped])
  {
    if bounded == [] || bounded[0].highlighted {
      return bounded, 0;
    }
    var first := bounded[0];
    var t := first.(text := TrimStart(first.text));
    dropped := |first.text| - |t.text|;
    trimmed := [t] + bounded[1..];
    assert bounded == [first] + bounded[1..];
    CellsCons(first, bounded[1..]);
    CellsCons(t, bounded[1..]);
    PlainStart(first, dropped);
    TrimmedCells(CellsOf(first), CellsOf(t), Cells(bounded[1..]), dropped);
  }

  lemma PlainStart(s: Segment, n: nat)
    requires n <= |s.text| && Blank(s.text[..n]) && !s.highlighted
    ensures PlainSpace(CellsOf(s)[..n]) && CellsOf(s.(text := s.text[n..])) == CellsOf(s)[n..]
  {
    forall x | 0 <= x < n ensures IsSpace(s.text[x]) {
      assert s.text[..n][x] == s.text[x];
    }
  }

  lemma {:induction false} CellsCons(s: Segment, rest: seq<Segment>)
    ensures Cells([s] + rest) == CellsOf(s) + Cells(rest)
  {
    CellsConcat([s], rest);
    CellsAppend([], s);
    assert [] + [s] == [s];
  }

  lemma TrimmedCells(first: seq<Cell>, t: seq<Cell>, rest: seq<Cell>, dropped: nat)
    requires dropped <= |first| && t == first[dropped..]
    ensures t + rest == (first + rest)[dropped..]
    ensures (first + rest)[..dropped] == first[..dropped]
  {
  }

  method TrimLast(bounded: seq<Segment>) returns (trimmed: seq<Segment>, ghost kept: nat)
    ensures |trimmed| == |bounded| && kept <= |Cells(bounded)|
    ensures Cells(trimmed) == Cells(bounded)[..kept] && PlainSpace(Cells(bounded)[kept..])
  {
    if bounded == [] || bounded[|bounded| - 1].highlighted {
      return bounded, |Cells(bounded)|;
    }
    var n := |bounded| - 1;
    var last := bounded[n];
    var t := last.(text := TrimEnd(last.text));
    kept := |Cells(bounded)| - (|last.text| - |t.text|);
    trimmed := bounded[..n] + [t];
    CellsAppend(bounded[..n], t);
    assert CellsOf(t) == CellsOf(last)[..|t.text|];
    assert Cells(bounded)[kept..] == CellsOf(last)[|t.text|..];
  }

  lemma SameCellsNext(filled: seq<Segment>, segments: seq<Segment>, k: nat)
    requires k < |segments| && Cells(filled) == Cells(segments[..k])
    ensures Cells(filled + [segments[k]]) == Cells(segments[..k + 1])
    ensures segments[k].text == [] ==> Cells(filled) == Cells(segments[..k + 1])
  {
    CellsUpTo(segments, k);
    CellsAppend(filled, segments[k]);
    assert segments[k].text == [] ==> CellsOf(segments[k]) == [];
  }

  method DropEmpty(segments: seq<Segment>) returns (filled: seq<Segment>)
    ensures Cells(filled) == Cells(segments)
    ensures forall k :: 0 <= k < |filled| ==> filled[k].text != []
  {
    filled := [];
    for k := 0 to |segments|
      invariant Cells(filled) == Cells(segments[..k])
      invariant forall j :: 0 <= j < |filled| ==> filled[j].text != []
    {
      SameCellsNext(filled, segments, k);
      if segments[k].text != [] {
        filled := filled + [segments[k]];
      }
    }
    assert segments[..|segments|] == segments;
  }

  function Framed(lead: bool, body: seq<Segment>, tail: bool): seq<Segment> {
    (if lead then [Segment(ELLIPSIS, false)] else []) + body + (if tail then [Segment(ELLIPSIS, false)] else [])
  }

  lemma FramedCells(lead: bool, body: seq<Segment>, tail: bool)
    ensures |Cells(Framed(lead, body, tail))| == |Cells(body)| + (if lead then 1 else 0) + (if tail then 1 else 0)
  {
    var ellipsis := Segment(ELLIPSIS, false);
    var front, back: seq<Segment> := if lead then [ellipsis] else [], if tail then [ellipsis] else [];
    CellsConcat(front + body, back);
    CellsConcat(front, body);
    CellsAppend([], ellipsis);
    assert [] + [ellipsis] == [ellipsis];
  }

  /**
   finalizeSegments: what remains is a stretch of the capped cells, with their marks; only plain white space
   is dropped at its ends. An excerpt left with nothing has no ellipsis either.
   */
  method FinalizeSegments(segments: seq<Segment>, truncatedStart: bool, truncatedEnd: bool)
    returns (result: seq<Segment>, ghost body: seq<Segment>, ghost from: nat, ghost to: nat)
    ensures from <= to <= Min(|Cells(segments)|, MAX_HYDRATED_EXCERPT_CHARACTERS)
    ensures Cells(body) == Cells(segments)[from..to]
    ensures PlainSpace(Cells(segments)[..from])
    ensures PlainSpace(Cells(segments)[to..Min(|Cells(segments)|, MAX_HYDRATED_EXCERPT_CHARACTERS)])
    ensures result == if body == [] then [] else
                        Framed(truncatedStart, body, truncatedEnd || |Cells(segments)| > MAX_HYDRATED_EXCERPT_CHARACTERS)
    ensures forall k :: 0 <= k < |body| ==> body[k].text != []
    ensures |Cells(result)| <= MAX_HYDRATED_EXCERPT_CHARACTERS + 2
  {
    var bounded, clipped := Clip(segments);
    bounded, from, to := TrimEnds(bounded);
    PrefixSlices(Cells(segments), Min(|Cells(segments)|, MAX_HYDRATED_EXCERPT_CHARACTERS), from, to);
    var trimmed := DropEmpty(bounded);
    body := trimmed;
    if trimmed == [] {
      return [], body, from, to;
    }
    result := Framed(truncatedStart, trimmed, truncatedEnd || clipped);
    FramedCells(truncatedStart, trimmed, truncatedEnd || clipped);
  }

  /** White space goes from the first segment and from the last, unless they are highlighted. */
  method TrimEnds(bounded: seq<Segment>) returns (trimmed: seq<Segment>, ghost from: nat, ghost to: nat)
    ensures from <= to <= |Cells(bounded)| && Cells(trimmed) == Cells(bounded)[from..to]
    ensures PlainSpace(Cells(bounded)[..from]) && PlainSpace(Cells(bounded)[to..])
  {
    ghost var dropped, kept;
    trimmed, dropped := TrimFirst(bounded);
    trimmed, kept := TrimLast(trimmed);
    from, to := dropped, dropped + kept;
    SliceOfSuffix(Cells(bounded), dropped, kept);
  }

  lemma SliceOfSuffix<T>(s: seq<T>, dropped: nat, kept: nat)
    requires dropped + kept <= |s|
    ensures s[dropped..][..kept] == s[dropped..dropped + kept] && s[dropped..][kept..] == s[dropped + kept..]
  {
  }

  lemma PrefixSlices<T>(s: seq<T>, n: nat, from: nat, to: nat)
    requires from <= to <= n <= |s|
    ensures s[..n][from..to] == s[from..to] && s[..n][..from] == s[..from] && s[..n][to..] == s[to..n]
  {
  }

  /// ---- the whole excerpt ------------------------------------------------------------------------------------

  /** The unit at `x` belongs to an occurrence of a term. */
  ghost predicate InTerm(low: Units, terms: seq<Units>, x: nat) {
    exists m: Match :: IsOccurrence(low, terms, m) && m.start <= x < m.end
  }

  ghost predicate MarksInTerms(cells: seq<Cell>, low: Units, terms: seq<Units>, origin: nat) {
    forall x :: 0 <= x < |cells| && cells[x].marked ==> InTerm(low, terms, origin + x)
  }

  /** A unit is marked exactly if a collected match covers it; the cells start at `offset` of the window. */
  ghost predicate MarksCollected(cells: seq<Cell>, low: Units, terms: seq<Units>, offset: nat) {
    NoEmptyTerm(terms) ==>
      forall y :: 0 <= y < |cells| ==> (cells[y].marked <==> Covered(Collected(low, terms), offset + y))
  }

  ghost predicate SomeMarked(cells: seq<Cell>) {
    exists x :: 0 <= x < |cells| && cells[x].marked
  }

  predicate SomeHighlight(segments: seq<Segment>) {
    exists k :: 0 <= k < |segments| && segments[k].highlighted
  }

  lemma ShiftOccurrence(low: Units, from: nat, end: nat, terms: seq<Units>, m: Match)
    requires from <= end <= |low| && IsOccurrence(low[from..end], terms, m)
    ensures IsOccurrence(low, terms, Match(from + m.start, from + m.end))
  {
    var k :| 0 <= k < |terms| && OccursAt(low[from..end], terms[k], m.start) && m.end == m.start + |terms[k]|;
    OccursInChunk(low, from, end, terms[k], m.start);
  }

  /** Terms that fit in an excerpt together with their lead-in. */
  predicate Showable(terms: seq<Units>) {
    forall t :: t in terms ==> 1 <= |t| <= MAX_HYDRATED_EXCERPT_CHARACTERS - EXCERPT_LEAD_CHARACTERS
  }

  /** A collected match starts in the part of a lower-cased window that the cap keeps. */
  ghost predicate Shown(low: Units, terms: seq<Units>) {
    exists m :: m in Collected(low, terms) && m.start < MAX_HYDRATED_EXCERPT_CHARACTERS
  }

  /** A window under the cap shows a term whenever it holds one. */
  lemma ShownUnderCap(low: Units, terms: seq<Units>)
    requires |low| <= MAX_HYDRATED_EXCERPT_CHARACTERS && NoEmptyTerm(terms)
    requires forall m :: m in Collected(low, terms) ==> IsOccurrence(low, terms, m)
    requires Occurs(low, terms) <==> Collected(low, terms) != []
    ensures Shown(low, terms) <==> Occurs(low, terms)
  {
    if Occurs(low, terms) {
      var m := Collected(low, terms)[0];
      assert m in Collected(low, terms);
    }
  }

  /** With no more matches than are collected, a term that occurs in the kept part is shown. */
  lemma ShownUnderMatchCap(low: Units, terms: seq<Units>, t: Units, i: nat)
    requires t in terms && t != [] && OccursAt(low, t, i) && i < MAX_HYDRATED_EXCERPT_CHARACTERS
    requires |Collection(low, terms)| <= MAX_MATCHES
    ensures Shown(low, terms)
  {
    var k :| 0 <= k < |terms| && terms[k] == t;
    var m := CollectionHoldsFirst(low, terms, k, i);
  }

  function Kept(cells: seq<Cell>): (kept: seq<Cell>)
    ensures |kept| == Min(|cells|, MAX_HYDRATED_EXCERPT_CHARACTERS) && kept <= cells
  {
    cells[..Min(|cells|, MAX_HYDRATED_EXCERPT_CHARACTERS)]
  }

  lemma SomeKept(cells: seq<Cell>)
    ensures SomeMarked(Kept(cells)) ==> SomeMarked(cells)
  {
    if x :| 0 <= x < |Kept(cells)| && Kept(cells)[x].marked {
      assert cells[x].marked;
    }
  }

  lemma PaintedShown(cells: seq<Cell>, slice: Units, merged: seq<Match>, low: Units, terms: seq<Units>)
    requires |low| == |slice| && Painted(cells, slice, merged, |slice|) && NoEmptyTerm(terms)
    requires forall x: nat :: Covered(merged, x) <==> Covered(Collected(low, terms), x)
    requires forall m :: m in Collected(low, terms) ==> IsOccurrence(low, terms, m)
    ensures SomeMarked(Kept(cells)) <==> Shown(low, terms)
  {
    var found := Collected(low, terms);
    if x :| 0 <= x < |Kept(cells)| && Kept(cells)[x].marked {
      assert cells[x].marked && Covered(found, x);
      var k :| 0 <= k < |found| && found[k].start <= x < found[k].end;
      assert found[k] in found;
    }
    if m :| m in found && m.start < MAX_HYDRATED_EXCERPT_CHARACTERS {
      assert IsOccurrence(low, terms, m);
      var k :| 0 <= k < |found| && found[k] == m;
      assert found[k].start <= m.start < found[k].end && Covered(found, m.start);
      assert Kept(cells)[m.start].marked;
    }
  }

  /** What the matches of a lower-cased window say about its highlighted units. */
  lemma PaintedWindow(cells: seq<Cell>, slice: Units, merged: seq<Match>, found: seq<Match>, terms: seq<Units>,
                      low: Units, from: nat, end: nat)
    requires from <= end <= |low| && Lower(slice) == low[from..end] && Painted(cells, slice, merged, |slice|)
    requires forall x: nat :: Covered(merged, x) <==> Covered(found, x)
    requires forall m :: m in found ==> IsOccurrence(Lower(slice), terms, m)
    requires Occurs(Lower(slice), terms) <==> found != []
    requires NoEmptyTerm(terms) ==> found == Collected(Lower(slice), terms)
    ensures MarksInTerms(cells, low, terms, from)
    ensures MarksCollected(cells, low[from..end], terms, 0)
    ensures NoEmptyTerm(terms) ==> (SomeMarked(cells) <==> Occurs(low[from..end], terms))
    ensures NoEmptyTerm(terms) ==> (SomeMarked(Kept(cells)) <==> Shown(low[from..end], terms))
    ensures NoEmptyTerm(terms) && end - from <= MAX_HYDRATED_EXCERPT_CHARACTERS ==>
              (Shown(low[from..end], terms) <==> Occurs(low[from..end], terms))
  {
    forall x | 0 <= x < |cells| && cells[x].marked ensures InTerm(low, terms, from + x) {
      var k :| 0 <= k < |found| && found[k].start <= x < found[k].end;
      assert found[k] in found;
      ShiftOccurrence(low, from, end, terms, found[k]);
      assert IsOccurrence(low, terms, Match(from + found[k].start, from + found[k].end));
    }
    if NoEmptyTerm(terms) {
      PaintedShown(cells, slice, merged, Lower(slice), terms);
      if end - from <= MAX_HYDRATED_EXCERPT_CHARACTERS { ShownUnderCap(Lower(slice), terms); }
    }
    if NoEmptyTerm(terms) && found != [] {
      assert found[0] in found;
      assert Covered(found, found[0].start);
      assert cells[found[0].start].marked;
    }
  }

  /** A window in lower case. */
  function Window(scoped: Units, window: Match): Units
    requires window.start <= window.end <= |scoped|
  {
    Lower(scoped)[window.start..window.end]
  }

  /** Whether something is highlighted, in terms of the window. */
  ghost predicate Highlights(some: bool, low: Units, terms: seq<Units>) {
    NoEmptyTerm(terms) ==>
      && (some <==> Shown(low, terms))
      && (some ==> Occurs(low, terms))
      && (|low| <= MAX_HYDRATED_EXCERPT_CHARACTERS ==> (some <==> Occurs(low, terms)))
  }

  /** The window's segments, before they are finalized. */
  method PaintWindow(scoped: Units, window: Match, terms: seq<Units>, fold: Folding) returns (segments: seq<Segment>)
    requires window.start <= window.end <= |scoped|
    ensures PaintedAs(scoped, terms, window, Cells(segments))
    ensures Ascii(scoped) && NoEmptyTerm(terms) ==>
              (SomeMarked(Cells(segments)) <==> Occurs(Window(scoped, window), terms))
    ensures Ascii(scoped) ==> Highlights(SomeMarked(Kept(Cells(segments))), Window(scoped, window), terms)
  {
    var slice := Sanitize(scoped[window.start..window.end]);
    var folded := FoldWithMap(slice, fold);
    var merged; ghost var found;
    merged, found := FindMatches(folded.folded, terms);
    segments := BuildSegments(slice, folded.origins, merged, |folded.folded|);
    if Ascii(scoped) {
      assert slice == scoped[window.start..window.end];
      LowerOfSlice(scoped, window.start, window.end);
      SomeKept(Cells(segments));
      PaintedWindow(Cells(segments), slice, merged, found, terms, Lower(scoped), window.start, window.end);
    }
  }

  lemma {:induction false} MarkedSegment(segments: seq<Segment>)
    requires forall k :: 0 <= k < |segments| ==> segments[k].text != []
    ensures SomeMarked(Cells(segments)) <==> SomeHighlight(segments)
  {
    if segments != [] {
      var n := |segments| - 1;
      MarkedSegment(segments[..n]);
      var front, last := Cells(segments[..n]), CellsOf(segments[n]);
      if x :| 0 <= x < |front| && front[x].marked {
        assert Cells(segments)[x].marked;
      }
      if segments[n].highlighted {
        assert Cells(segments)[|front|] == last[0];
      }
      if x :| 0 <= x < |Cells(segments)| && Cells(segments)[x].marked {
        if x < |front| {
          assert front[x].marked;
        }
      }
    }
  }

  predicate NoBlankTerm(terms: seq<Units>) {
    forall t :: t in terms ==> !Blank(t)
  }

  /** Blank text holds no occurrence of a term that is not blank. */
  lemma NoTermInBlank(scoped: Units, terms: seq<Units>, limit: nat)
    requires Blank(scoped) && limit <= |scoped| && NoBlankTerm(terms)
    ensures !Occurs(Lower(scoped)[..limit], terms)
  {
    var low := Lower(scoped)[..limit];
    assert Blank(low);
    forall t, i: nat | t in terms ensures !OccursAt(low, t, i) {
      var k :| 0 <= k < |t| && !IsSpace(t[k]);
      assert i + |t| <= |low| ==> low[i..i + |t|][k] == low[i + k];
    }
  }

  lemma NoChunkInBlank(scoped: Units, terms: seq<Units>)
    requires Blank(scoped) && NoBlankTerm(terms)
    ensures !SomeChunkHolds(Lower(scoped), terms, Limit(scoped))
  {
    NoTermInBlank(scoped, terms, Limit(scoped));
    if SomeChunkHolds(Lower(scoped), terms, Limit(scoped)) {
      ChunksAreScanned(Lower(scoped), terms, Limit(scoped));
    }
  }

  /** Whether the window shows a term is whether a scanned chunk holds one. */
  lemma WindowShowsTerm(low: Units, terms: seq<Units>, limit: nat, anchor: Option<Match>, window: Match)
    requires 0 < limit <= |low| && window.start <= window.end <= |low|
    requires anchor.Some? <==> SomeChunkHolds(low, terms, limit)
    requires anchor.Some? ==>
               && window.start <= anchor.value.start <= anchor.value.end <= window.end
               && exists t :: t in terms && OccursAt(low, t, anchor.value.start) && anchor.value.end == anchor.value.start + |t|
    requires anchor.None? ==> window.start == 0 && window.end <= ChunkEnd(0, limit)
    ensures Occurs(low[window.start..window.end], terms) <==> SomeChunkHolds(low, terms, limit)
  {
    if anchor.Some? {
      var t :| t in terms && OccursAt(low, t, anchor.value.start) && anchor.value.end == anchor.value.start + |t|;
      OccursInSlice(low, terms, window.start, window.end, t, anchor.value.start);
    } else if Occurs(low[window.start..window.end], terms) {
      var t, i := SliceOccursIn(low, terms, window.start, window.end);
      OccursInSlice(low, terms, 0, ChunkEnd(0, limit), t, i);
      assert ChunkHolds(low, terms, 0, limit);
    }
  }

  /** A term starts within the lead-in of the window. */
  ghost predicate HeldEarly(low: Units, terms: seq<Units>) {
    exists t, i: nat :: t in terms && i <= EXCERPT_LEAD_CHARACTERS && OccursAt(low, t, i)
  }

  lemma AnchorHeldEarly(low: Units, terms: seq<Units>, anchor: Match, window: Match)
    requires window.start <= anchor.start <= anchor.end <= window.end <= |low|
    requires anchor.start <= window.start + EXCERPT_LEAD_CHARACTERS
    requires exists t :: t in terms && OccursAt(low, t, anchor.start) && anchor.end == anchor.start + |t|
    ensures HeldEarly(low[window.start..window.end], terms)
  {
    var t :| t in terms && OccursAt(low, t, anchor.start) && anchor.end == anchor.start + |t|;
    OccursInChunk(low, window.start, window.end, t, anchor.start - window.start);
  }

  lemma AnchorTerm(low: Units, terms: seq<Units>, limit: nat, m: Match)
    requires limit <= |low| && IsAnchor(low, terms, limit, m)
    ensures exists t :: t in terms && OccursAt(low, t, m.start) && m.end == m.start + |t|
  {
    var k: nat :| AnchorInChunk(low, terms, limit, m, k);
  }

  /** On ASCII: the window around the anchor, or at the start of the section when no chunk holds a term. */
  ghost predicate Anchored(scoped: Units, terms: seq<Units>, window: Match) {
    if SomeChunkHolds(Lower(scoped), terms, Limit(scoped))
    then exists m: Match :: AnchoredAt(scoped, terms, window, m)
    else Located(scoped, 0, 0, window)
  }

  ghost predicate AnchoredAt(scoped: Units, terms: seq<Units>, window: Match, m: Match) {
    m.start <= m.end <= |scoped| && IsAnchor(Lower(scoped), terms, Limit(scoped), m) && Located(scoped, m.start, m.end, window)
  }

  /** The window around the anchor, or at the start of the section when there is none. */
  method AnchorWindow(scoped: Units, terms: seq<Units>, fold: Folding) returns (window: Match)
    requires scoped != []
    ensures window.start <= window.end <= |scoped|
    ensures Ascii(scoped) ==>
              && (Occurs(Window(scoped, window), terms) <==> SomeChunkHolds(Lower(scoped), terms, Limit(scoped)))
              && (SomeChunkHolds(Lower(scoped), terms, Limit(scoped)) ==> HeldEarly(Window(scoped, window), terms))
              && (Showable(terms) ==> window.end - window.start <= MAX_HYDRATED_EXCERPT_CHARACTERS)
    ensures Ascii(scoped) ==> Anchored(scoped, terms, window)
    ensures window.end >= Min(|scoped|, window.start + EXCERPT_WINDOW_CHARACTERS - BOUNDARY_SLACK)
  {
    var anchor := FindAnchor(scoped, terms, fold);
    if anchor.Some? {
      window := LocateWindow(scoped, anchor.value.start, anchor.value.end);
    } else {
      window := LocateWindow(scoped, 0, 0);
    }
    if Ascii(scoped) {
      if anchor.Some? {
        assert AnchoredAt(scoped, terms, window, anchor.value);
        AnchorTerm(Lower(scoped), terms, Limit(scoped), anchor.value);
        AnchorHeldEarly(Lower(scoped), terms, anchor.value, window);
      }
      WindowShowsTerm(Lower(scoped), terms, Limit(scoped), anchor, window);
    }
  }

  /** A stretch of the window's cells still renders the text and still marks only terms. */
  lemma StretchOfWindow(cells: seq<Cell>, part: seq<Cell>, from: nat, to: nat, scoped: Units, window: Match, terms: seq<Units>, origin: nat)
    requires window.start <= window.end <= |scoped| && from <= to <= |cells| && part == cells[from..to]
    requires origin == window.start + from
    requires Spells(cells, Sanitize(scoped[window.start..window.end]), window.end - window.start)
    ensures Renders(part, scoped, origin)
    ensures MarksInTerms(cells, Lower(scoped), terms, window.start) ==> MarksInTerms(part, Lower(scoped), terms, origin)
    ensures MarksCollected(cells, Window(scoped, window), terms, 0) ==> MarksCollected(part, Window(scoped, window), terms, origin - window.start)
  {
    forall y | 0 <= y < |part| ensures part[y].unit == SanitizeUnit(scoped[origin + y]) {
      assert part[y] == cells[from + y];
    }
    if MarksInTerms(cells, Lower(scoped), terms, window.start) {
      forall y | 0 <= y < |part| && part[y].marked ensures InTerm(Lower(scoped), terms, origin + y) {
        assert cells[from + y].marked;
      }
    }
    if NoEmptyTerm(terms) && MarksCollected(cells, Window(scoped, window), terms, 0) {
      forall y | 0 <= y < |part| ensures part[y].marked <==> Covered(Collected(Window(scoped, window), terms), origin - window.start + y) {
        assert cells[from + y].marked <==> Covered(Collected(Window(scoped, window), terms), 0 + (from + y));
      }
    }
  }

  /** An excerpt with nothing in it has no ellipsis either. */
  ghost predicate IsFramed(result: seq<Segment>, body: seq<Segment>) {
    if body == [] then result == [] else exists lead, tail :: result == Framed(lead, body, tail)
  }

  /** Every cell shows the unit of the text it stands for, apart from the two replaced markers. */
  predicate Renders(cells: seq<Cell>, text: Units, origin: nat) {
    && origin + |cells| <= |text|
    && forall y :: 0 <= y < |cells| ==> cells[y].unit == SanitizeUnit(text[origin + y])
  }

  lemma MarkedInside(cells: seq<Cell>, from: nat, to: nat, x: nat)
    requires from <= to <= |cells| && x < |cells| && cells[x].marked
    requires PlainSpace(cells[..from]) && PlainSpace(cells[to..])
    ensures from <= x < to && cells[from..to][x - from].marked
  {
    var head, tail := cells[..from], cells[to..];
    assert forall y :: 0 <= y < from ==> head[y] == cells[y];
    assert forall y :: to <= y < |cells| ==> tail[y - to] == cells[y];
  }

  /** Under the cap, finalizing loses no highlight. */
  lemma {:induction false} HighlightSurvives(cells: seq<Cell>, from: nat, to: nat, capped: nat, body: seq<Segment>, result: seq<Segment>)
    requires from <= to <= capped == |cells| && Cells(body) == cells[from..to]
    requires PlainSpace(cells[..from]) && PlainSpace(cells[to..capped])
    requires IsFramed(result, body)
    requires forall k :: 0 <= k < |body| ==> body[k].text != []
    ensures SomeHighlight(result) <==> SomeMarked(cells)
  {
    MarkedSegment(body);
    if x :| 0 <= x < |cells| && cells[x].marked {
      MarkedInside(cells, from, to, x);
    }
    if x :| 0 <= x < |Cells(body)| && Cells(body)[x].marked {
      assert cells[from + x].marked;
    }
    if body != [] {
      var lead, tail :| result == Framed(lead, body, tail);
      var n := if lead then 1 else 0;
      if k :| 0 <= k < |body| && body[k].highlighted {
        assert result[n + k].highlighted;
      }
      if k :| 0 <= k < |result| && result[k].highlighted {
        assert body[k - n].highlighted;
      }
    }
  }

  lemma KeptHighlights(cells: seq<Cell>, from: nat, to: nat, body: seq<Segment>, result: seq<Segment>)
    requires from <= to <= |Kept(cells)| && Cells(body) == cells[from..to]
    requires PlainSpace(cells[..from]) && PlainSpace(cells[to..|Kept(cells)|])
    requires IsFramed(result, body)
    requires forall k :: 0 <= k < |body| ==> body[k].text != []
    ensures SomeHighlight(result) <==> SomeMarked(Kept(cells))
  {
    var kept := Kept(cells);
    PrefixSlices(cells, |kept|, from, to);
    HighlightSurvives(kept, from, to, |kept|, body, result);
  }

  /** What remains of the cells when the excerpt is finished. */
  ghost predicate Finished(cells: seq<Cell>, truncatedStart: bool, truncatedEnd: bool,
                           result: seq<Segment>, body: seq<Segment>, from: nat, to: nat)
  {
    && from <= to <= |Kept(cells)| && Cells(body) == cells[from..to]
    && PlainSpace(cells[..from]) && PlainSpace(cells[to..|Kept(cells)|])
    && result == if body == [] then []
                 else Framed(truncatedStart, body, truncatedEnd || |cells| > MAX_HYDRATED_EXCERPT_CHARACTERS)
  }

  /**
   finalizeSegments, with what its callers need: a stretch remains, with every highlight the cap keeps; only plain
   white space is dropped from what the cap keeps, and an ellipsis stands where text is cut off.
   */
  method FinishSegments(segments: seq<Segment>, truncatedStart: bool, truncatedEnd: bool)
    returns (result: seq<Segment>, ghost body: seq<Segment>, ghost from: nat, ghost to: nat)
    ensures Finished(Cells(segments), truncatedStart, truncatedEnd, result, body, from, to)
    ensures SomeHighlight(result) <==> SomeMarked(Kept(Cells(segments)))
  {
    result, body, from, to := FinalizeSegments(segments, truncatedStart, truncatedEnd);
    FramedBy(result, body, truncatedStart, truncatedEnd || |Cells(segments)| > MAX_HYDRATED_EXCERPT_CHARACTERS);
    KeptHighlights(Cells(segments), from, to, body, result);
  }

  lemma FramedBy(result: seq<Segment>, body: seq<Segment>, lead: bool, tail: bool)
    requires result == if body == [] then [] else Framed(lead, body, tail)
    ensures IsFramed(result, body)
  {
  }

  /**
   The excerpt shows its window from `origin` on: of the first 512 units it leaves out white space at the ends
   only, it has an ellipsis at its start iff the window does not start the text, and one at its end iff the window
   does not end the text or is longer than that.
   */
  ghost predicate Excerpted(scoped: Units, window: Match, result: seq<Segment>, body: seq<Segment>, origin: nat)
    requires window.start <= window.end <= |scoped|
  {
    var shown := Min(window.end, window.start + MAX_HYDRATED_EXCERPT_CHARACTERS);
    && window.start <= origin && origin + |Cells(body)| <= shown
    && (forall x :: window.start <= x < shown && !(origin <= x < origin + |Cells(body)|) ==> IsSpace(scoped[x]))
    && result == if body == [] then []
                 else Framed(window.start > 0, body, window.end < |scoped| || window.end > window.start + MAX_HYDRATED_EXCERPT_CHARACTERS)
  }

  lemma ExcerptedStretch(cells: seq<Cell>, from: nat, to: nat, scoped: Units, window: Match,
                         result: seq<Segment>, body: seq<Segment>, origin: nat)
    requires window.start <= window.end <= |scoped| && from <= to <= |Kept(cells)| && origin == window.start + from
    requires Spells(cells, Sanitize(scoped[window.start..window.end]), window.end - window.start)
    requires Cells(body) == cells[from..to]
    requires PlainSpace(cells[..from]) && PlainSpace(cells[to..|Kept(cells)|])
    requires result == if body == [] then []
                       else Framed(window.start > 0, body, window.end < |scoped| || |cells| > MAX_HYDRATED_EXCERPT_CHARACTERS)
    ensures Excerpted(scoped, window, result, body, origin)
  {
    var shown := |Kept(cells)|;
    forall x | window.start <= x < window.start + shown && !(window.start + from <= x < window.start + to) ensures IsSpace(scoped[x]) {
      DroppedIsSpace(cells, from, to, shown, x - window.start);
      assert cells[x - window.start].unit == SanitizeUnit(scoped[x]);
    }
  }

  lemma DroppedIsSpace(cells: seq<Cell>, from: nat, to: nat, n: nat, x: nat)
    requires from <= to <= n <= |cells| && x < n && !(from <= x < to)
    requires PlainSpace(cells[..from]) && PlainSpace(cells[to..n])
    ensures IsSpace(cells[x].unit)
  {
    var head, tail := cells[..from], cells[to..n];
    if x < from {
      assert head[x] == cells[x];
    } else {
      assert tail[x - to] == cells[x];
    }
  }

  /**
   `body` is the excerpt without its ellipses, cut from `origin` on. It shows the text; on ASCII what it marks lies in
   occurrences of terms, and is exactly what the collected matches of the window cover.
   */
  ghost predicate Rendered(scoped: Units, terms: seq<Units>, window: Match, result: seq<Segment>, body: seq<Segment>, origin: nat) {
    && window.start <= window.end <= |scoped|
    && |Cells(result)| <= MAX_HYDRATED_EXCERPT_CHARACTERS + 2
    && Renders(Cells(body), scoped, origin)
    && Excerpted(scoped, window, result, body, origin)
    && (Ascii(scoped) ==>
          && MarksInTerms(Cells(body), Lower(scoped), terms, origin)
          && MarksCollected(Cells(body), Window(scoped, window), terms, origin - window.start))
  }

  /** What painting gives. */
  ghost predicate PaintedAs(scoped: Units, terms: seq<Units>, window: Match, cells: seq<Cell>)
    requires window.start <= window.end <= |scoped|
  {
    && Spells(cells, Sanitize(scoped[window.start..window.end]), window.end - window.start)
    && (Ascii(scoped) ==> MarksInTerms(cells, Lower(scoped), terms, window.start) && MarksCollected(cells, Window(scoped, window), terms, 0))
  }

  lemma FramedSize(result: seq<Segment>, body: seq<Segment>, lead: bool, tail: bool)
    requires result == if body == [] then [] else Framed(lead, body, tail)
    ensures |Cells(result)| <= |Cells(body)| + 2
  {
    FramedCells(lead, body, tail);
  }

  lemma RenderedStretch(scoped: Units, terms: seq<Units>, window: Match, cells: seq<Cell>, from: nat, to: nat,
                        result: seq<Segment>, body: seq<Segment>, origin: nat)
    requires origin == window.start + from
    requires window.start <= window.end <= |scoped| && PaintedAs(scoped, terms, window, cells)
    requires Finished(cells, window.start > 0, window.end < |scoped|, result, body, from, to)
    ensures Rendered(scoped, terms, window, result, body, origin)
  {
    FramedSize(result, body, window.start > 0, window.end < |scoped| || |cells| > MAX_HYDRATED_EXCERPT_CHARACTERS);
    ExcerptedStretch(cells, from, to, scoped, window, result, body, origin);
    StretchOfWindow(cells, Cells(body), from, to, scoped, window, terms, origin);
  }

  /** The window's excerpt. */
  method RenderWindow(scoped: Units, window: Match, terms: seq<Units>, fold: Folding)
    returns (result: seq<Segment>, ghost body: seq<Segment>, ghost origin: nat)
    requires window.start <= window.end <= |scoped|
    ensures Rendered(scoped, terms, window, result, body, origin)
    ensures Ascii(scoped) ==> Highlights(SomeHighlight(result), Window(scoped, window), terms)
  {
    var segments := PaintWindow(scoped, window, terms, fold);
    result, body, origin := FinishWindow(segments, scoped, window, terms);
    assert SomeHighlight(result) == SomeMarked(Kept(Cells(segments)));
  }

  method FinishWindow(segments: seq<Segment>, scoped: Units, window: Match, ghost terms: seq<Units>)
    returns (result: seq<Segment>, ghost body: seq<Segment>, ghost origin: nat)
    requires window.start <= window.end <= |scoped| && PaintedAs(scoped, terms, window, Cells(segments))
    ensures Rendered(scoped, terms, window, result, body, origin)
    ensures SomeHighlight(result) <==> SomeMarked(Kept(Cells(segments)))
  {
    ghost var from, to;
    result, body, from, to := FinishSegments(segments, window.start > 0, window.end < |scoped|);
    origin := window.start + from;
    RenderedStretch(scoped, terms, window, Cells(segments), from, to, result, body, origin);
  }

  /** Only the cap on matches can lose a term whose anchor was found. */
  lemma ShownIfFewMatches(low: Units, terms: seq<Units>)
    requires NoEmptyTerm(terms) && |Collection(low, terms)| <= MAX_MATCHES
    ensures HeldEarly(low, terms) ==> Shown(low, terms)
  {
    if t, i: nat :| t in terms && i <= EXCERPT_LEAD_CHARACTERS && OccursAt(low, t, i) {
      ShownUnderMatchCap(low, terms, t, i);
    }
  }

  /**
   On ASCII, whether the excerpt highlights anything: exactly if a collected match starts in the first 512 units of
   the window. With terms that fit there, or no more matches than are collected, exactly if a scanned chunk holds a
   term; with terms of up to 257 units, exactly if the scanned part does.
   */
  ghost predicate HighlightsExactly(scoped: Units, terms: seq<Units>, window: Match, some: bool)
    requires window.start <= window.end <= |scoped|
  {
    && (some <==> Shown(Window(scoped, window), terms))
    && (Showable(terms) || |Collection(Window(scoped, window), terms)| <= MAX_MATCHES ==>
          (some <==> SomeChunkHolds(Lower(scoped), terms, Limit(scoped))))
    && (Scannable(terms) ==> (some <==> Occurs(Lower(scoped)[..Limit(scoped)], terms)))
  }

  lemma BlankHighlights(scoped: Units, terms: seq<Units>)
    requires Blank(scoped) && NoBlankTerm(terms)
    ensures HighlightsExactly(scoped, terms, Match(0, 0), false)
  {
    NoChunkInBlank(scoped, terms);
    NothingCollected(terms);
    if Scannable(terms) { ChunksCoverScannable(Lower(scoped), terms, Limit(scoped)); }
  }

  lemma WindowHighlights(scoped: Units, terms: seq<Units>, window: Match, some: bool)
    requires window.start <= window.end <= |scoped| && NoBlankTerm(terms) && Highlights(some, Window(scoped, window), terms)
    requires Occurs(Window(scoped, window), terms) <==> SomeChunkHolds(Lower(scoped), terms, Limit(scoped))
    requires SomeChunkHolds(Lower(scoped), terms, Limit(scoped)) ==> HeldEarly(Window(scoped, window), terms)
    requires Showable(terms) ==> window.end - window.start <= MAX_HYDRATED_EXCERPT_CHARACTERS
    ensures HighlightsExactly(scoped, terms, window, some)
  {
    if Scannable(terms) { ChunksCoverScannable(Lower(scoped), terms, Limit(scoped)); }
    if |Collection(Window(scoped, window), terms)| <= MAX_MATCHES { ShownIfFewMatches(Window(scoped, window), terms); }
  }

  /** hydrateExcerpt of one section of a text. */
  method HydrateExcerpt(scoped: Units, terms: seq<Units>, fold: Folding)
    returns (result: seq<Segment>, ghost body: seq<Segment>, ghost origin: nat, ghost window: Match)
    ensures Rendered(scoped, terms, window, result, body, origin)
    ensures Blank(scoped) ==> result == []
    ensures !Blank(scoped) ==> window.end >= Min(|scoped|, window.start + EXCERPT_WINDOW_CHARACTERS - BOUNDARY_SLACK)
    ensures Ascii(scoped) && !Blank(scoped) ==> Anchored(scoped, terms, window)
    ensures Ascii(scoped) && NoBlankTerm(terms) ==> HighlightsExactly(scoped, terms, window, SomeHighlight(result))
  {
    if forall i :: 0 <= i < |scoped| ==> IsSpace(scoped[i]) {
      if NoBlankTerm(terms) { BlankHighlights(scoped, terms); }
      return [], [], 0, Match(0, 0);
    }
    var around := AnchorWindow(scoped, terms, fold);
    window := around;
    result, body, origin := RenderWindow(scoped, around, terms, fold);
    if Ascii(scoped) && NoBlankTerm(terms) { WindowHighlights(scoped, terms, window, SomeHighlight(result)); }
  }

  /** In a run of one letter at the end of a text, every place is a match of that letter. */
  lemma {:induction false} RunOfMatches(text: Units, letter: CodeUnit, from: nat, at: nat)
    requires from <= at <= |text| && forall i :: from <= i < |text| ==> (text[i] == letter <==> at <= i)
    ensures |Greedy(text, [letter], from)| == |text| - at
    ensures forall m :: m in Greedy(text, [letter], from) ==> at <= m.start
    decreases |text| - at
  {
    forall i: nat | from <= i < |text| ensures OccursAt(text, [letter], i) <==> at <= i {
      assert text[i..i + 1] == [text[i]];
    }
    if at < |text| {
      assert OccursAt(text, [letter], at);
      assert IndexOf(text, [letter], from) == at;
      RunOfMatches(text, letter, at + 1, at + 1);
    } else {
      assert IndexOf(text, [letter], from) == -1;
    }
  }

  /** The first term's matches use up the cap. */
  lemma FirstTermTakesAll(text: Units, first: Units, second: Units)
    requires |Greedy(text, first, 0)| >= MAX_MATCHES
    ensures Collected(text, [first, second]) == Greedy(text, first, 0)[..MAX_MATCHES]
  {
    var terms, matches := [first, second], Greedy(text, first, 0);
    CollectionStep(text, terms, 0);
    CollectionPrefix(text, terms, 1);
    assert Collection(text, terms[..0]) == [] && [] + matches == matches;
  }

  lemma WholeTextIsTerm(text: Units, terms: seq<Units>, k: nat)
    requires k < |terms| && terms[k] == text && 0 < |text| <= ANCHOR_SCAN_WINDOW
    ensures SomeChunkHolds(text, terms, Limit(text)) && HeldEarly(text, terms)
  {
    assert text[0..|text|] == text && OccursAt(text, text, 0) && text in terms;
    OccursInSlice(text, terms, 0, ChunkEnd(0, |text|), text, 0);
    assert ChunkHolds(text, terms, 0, |text|);
  }

  /** A text that is itself a term, and is not highlighted: the letter queried before it uses up all matches past the cap. */
  lemma LostHighlight() returns (text: Units, terms: seq<Units>)
    ensures Ascii(text) && Lower(text) == text && NoBlankTerm(terms) && |text| <= 4096
    ensures terms == [[98], text] && SomeChunkHolds(text, terms, Limit(text)) && HeldEarly(text, terms)
    ensures !Shown(text, terms)
  {
    text := seq(900, i => if i < 600 then 97 else 98);
    terms := [[98], text];
    assert !IsSpace(text[0]) && !IsSpace(terms[0][0]);
    WholeTextIsTerm(text, terms, 1);
    RunOfMatches(text, 98, 0, 600);
    FirstTermTakesAll(text, [98], text);
  }

  lemma {:induction false} NothingCollected(terms: seq<Units>)
    requires NoEmptyTerm(terms)
    ensures Collection([], terms) == []
  {
    if terms != [] {
      NothingCollected(terms[..|terms| - 1]);
    }
  }
}
