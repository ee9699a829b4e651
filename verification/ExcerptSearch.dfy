/** Finding query terms in a section: the chunked anchor scan, and all matches within the excerpt window. */
module ExcerptSearch {
  import opened Vault

  const MAX_ANCHOR_SCAN_CHARACTERS := 256 * 1024
  const ANCHOR_SCAN_WINDOW := 8 * 1024
  const ANCHOR_SCAN_OVERLAP := 256
  const MAX_MATCHES := 256

  datatype Match = Match(start: nat, end: nat)

  /** The folded text, and for each folded code point the source unit it came from. */
  datatype FoldedText = FoldedText(folded: Units, origins: seq<nat>)

  /** foldText of one character, as the code points of the result; any function will do. */
  type Folding = Units -> seq<Units>

  predicate Ascii(s: Units) {
    forall i :: 0 <= i < |s| ==> s[i] < 0x80
  }

  function LowerUnit(u: CodeUnit): CodeUnit {
    if 0x41 <= u <= 0x5a then u + 0x20 else u
  }

  /** toLowerCase on ASCII text. */
  function Lower(s: Units): (t: Units)
    ensures |t| == |s| && forall i :: 0 <= i < |s| ==> t[i] == LowerUnit(s[i])
  {
    seq(|s|, i requires 0 <= i < |s| => LowerUnit(s[i]))
  }

  /// ---- occurrences ----------------------------------------------------------------------------------------

  predicate OccursAt(s: Units, t: Units, i: nat) {
    i + |t| <= |s| && s[i..i + |t|] == t
  }

  ghost predicate Occurs(s: Units, terms: seq<Units>) {
    exists t, i :: t in terms && OccursAt(s, t, i)
  }

  /** String.indexOf, -1 when there is none. */
  function IndexOf(s: Units, t: Units, from: nat): (at: int)
    ensures at == -1 ==> forall i: nat :: from <= i ==> !OccursAt(s, t, i)
    ensures at != -1 ==> from <= at && OccursAt(s, t, at) && forall i: nat :: from <= i < at ==> !OccursAt(s, t, i)
    decreases |s| - from
  {
    if from + |t| > |s| then -1
    else if OccursAt(s, t, from) then from
    else IndexOf(s, t, from + 1)
  }

  /** An occurrence in a chunk is one in the text, and conversely if it lies in the chunk. */
  lemma OccursInChunk(s: Units, from: nat, end: nat, t: Units, i: nat)
    requires from <= end <= |s|
    ensures OccursAt(s[from..end], t, i) <==> from + i + |t| <= end && OccursAt(s, t, from + i)
  {
    if from + i + |t| <= end {
      var chunk, n := s[from..end], |t|;
      var left, right := chunk[i..i + n], s[from + i..from + i + n];
      forall k | 0 <= k < n ensures left[k] == right[k] {
        assert chunk[i + k] == s[from + i + k];
      }
      assert left == right;
    }
  }

  lemma LowerOfSlice(s: Units, from: nat, end: nat)
    requires from <= end <= |s|
    ensures Lower(s[from..end]) == Lower(s)[from..end]
  {
  }

  /** The earliest match of any term, the longest of those that start there. */
  method FirstMatch(folded: Units, terms: seq<Units>) returns (best: Option<Match>)
    ensures best.None? <==> !Occurs(folded, terms)
    ensures best.Some? ==>
              && (exists t :: t in terms && OccursAt(folded, t, best.value.start) && best.value.end == best.value.start + |t|)
              && (forall t, i: nat :: t in terms && OccursAt(folded, t, i) ==>
                    best.value.start < i || (best.value.start == i && i + |t| <= best.value.end))
  {
    best := None;
    for k := 0 to |terms|
      invariant best.None? ==> forall j, i: nat :: 0 <= j < k ==> !OccursAt(folded, terms[j], i)
      invariant best.Some? ==>
                  && (exists j :: 0 <= j < k && OccursAt(folded, terms[j], best.value.start)
                                  && best.value.end == best.value.start + |terms[j]|)
                  && (forall j, i: nat :: 0 <= j < k && OccursAt(folded, terms[j], i) ==>
                        best.value.start < i || (best.value.start == i && i + |terms[j]| <= best.value.end))
    {
      var term := terms[k];
      var at := IndexOf(folded, term, 0);
      if at < 0 { continue; }
      if best.None? || at < best.value.start
         || (at == best.value.start && |term| > best.value.end - best.value.start) {
        best := Some(Match(at, at + |term|));
      }
    }
  }

  /// ---- folding --------------------------------------------------------------------------------------------

  predicate Monotone(origins: seq<nat>, length: nat) {
    && (forall i, j :: 0 <= i < j < |origins| ==> origins[i] <= origins[j])
    && (forall i :: 0 <= i < |origins| ==> origins[i] < length)
  }

  predicate Identity(origins: seq<nat>) {
    forall i :: 0 <= i < |origins| ==> origins[i] == i
  }

  function PointWidth(value: Units, index: nat): (w: nat)
    requires index < |value|
    ensures 1 <= w <= 2 && index + w <= |value|
  {
    if IsHighSurrogate(value[index]) && index + 1 < |value| && IsLowSurrogate(value[index + 1]) then 2 else 1
  }

  /** foldWithMap: one origin for each code point, so origins lag behind units after a surrogate pair. */
  method FoldWithMap(value: Units, fold: Folding) returns (r: FoldedText)
    ensures Monotone(r.origins, |value|)
    ensures Ascii(value) ==> r.folded == Lower(value) && |r.origins| == |value| && Identity(r.origins)
  {
    var folded: Units, origins: seq<nat> := [], [];
    var index := 0;
    while index < |value|
      invariant index <= |value| && Monotone(origins, index)
      invariant Ascii(value) ==> folded == Lower(value[..index]) && |origins| == index && Identity(origins)
    {
      var unit := value[index];
      if unit < 0x80 {
        assert value[..index + 1] == value[..index] + [unit];
        folded, origins := folded + [LowerUnit(unit)], origins + [index];
        index := index + 1;
        continue;
      }
      var width := PointWidth(value, index);
      var pieces := fold(value[index..index + width]);
      for p := 0 to |pieces|
        invariant Monotone(origins, index + 1)
      {
        folded, origins := folded + pieces[p], origins + [index];
      }
      index := index + width;
    }
    assert value[..|value|] == value;
    r := FoldedText(folded, origins);
  }

  function SourceEnd(origins: seq<nat>, foldedEnd: nat, length: nat): nat {
    if foldedEnd < |origins| then origins[foldedEnd] else length
  }

  /// ---- the anchor scan --------------------------------------------------------------------------------------

  function Limit(scoped: Units): nat {
    if |scoped| < MAX_ANCHOR_SCAN_CHARACTERS then |scoped| else MAX_ANCHOR_SCAN_CHARACTERS
  }

  /** Terms no chunk edge can hide: the overlap keeps any term of up to one unit more than itself in one chunk. */
  predicate Scannable(terms: seq<Units>) {
    forall t :: t in terms ==> 1 <= |t| <= ANCHOR_SCAN_OVERLAP + 1
  }

  /** Of the occurrences between two positions the earliest, and of those that start there the longest. */
  ghost predicate FirstIn(low: Units, terms: seq<Units>, from: nat, end: nat, m: Match) {
    && from <= m.start && m.end <= end
    && (exists t :: t in terms && OccursAt(low, t, m.start) && m.end == m.start + |t|)
    && (forall t, i: nat :: t in terms && from <= i && i + |t| <= end && OccursAt(low, t, i) ==>
          m.start < i || (m.start == i && i + |t| <= m.end))
  }

  lemma FirstInChunk(low: Units, terms: seq<Units>, from: nat, end: nat, best: Match)
    requires from <= end <= |low|
    requires exists t :: t in terms && OccursAt(low[from..end], t, best.start) && best.end == best.start + |t|
    requires forall t, i: nat :: t in terms && OccursAt(low[from..end], t, i) ==>
               best.start < i || (best.start == i && i + |t| <= best.end)
    ensures FirstIn(low, terms, from, end, Match(from + best.start, from + best.end))
  {
    var t :| t in terms && OccursAt(low[from..end], t, best.start) && best.end == best.start + |t|;
    OccursInChunk(low, from, end, t, best.start);
    forall t, i: nat | t in terms && from <= i && i + |t| <= end && OccursAt(low, t, i)
      ensures from + best.start < i || (from + best.start == i && i + |t| <= from + best.end)
    {
      OccursInChunk(low, from, end, t, i - from);
      assert OccursAt(low[from..end], t, i - from);
    }
  }

  /** One chunk: an ASCII one is lower-cased, any other folded with its map. */
  method ScanChunk(scoped: Units, from: nat, end: nat, terms: seq<Units>, fold: Folding) returns (found: Option<Match>)
    requires from < end <= |scoped|
    ensures found.Some? ==> from <= found.value.start <= found.value.end <= end
    ensures Ascii(scoped) ==>
              && (found.None? ==> !Occurs(Lower(scoped)[from..end], terms))
              && (found.Some? ==> FirstIn(Lower(scoped), terms, from, end, found.value))
  {
    var chunk := scoped[from..end];
    LowerOfSlice(scoped, from, end);
    if exists i :: 0 <= i < |chunk| && chunk[i] >= 0x80 {
      var folded := FoldWithMap(chunk, fold);
      var best := FirstMatch(folded.folded, terms);
      if best.None? { return None; }
      var start := if best.value.start < |folded.origins| then folded.origins[best.value.start] else 0;
      found := Some(Match(from + start, from + SourceEnd(folded.origins, best.value.end, |chunk|)));
    } else {
      var best := FirstMatch(Lower(chunk), terms);
      if best.None? { return None; }
      found := Some(Match(from + best.value.start, from + best.value.end));
      if Ascii(scoped) { FirstInChunk(Lower(scoped), terms, from, end, best.value); }
    }
  }

  /// ---- what the chunks of an ASCII section hold -----------------------------------------------------------

  /** Chunks start a window less the overlap apart. */
  function ChunkStart(k: nat): (start: nat)
    ensures start == 7936 * k
  {
    k * (ANCHOR_SCAN_WINDOW - ANCHOR_SCAN_OVERLAP)
  }

  function ChunkEnd(k: nat, limit: nat): nat {
    if ChunkStart(k) + ANCHOR_SCAN_WINDOW < limit then ChunkStart(k) + ANCHOR_SCAN_WINDOW else limit
  }

  ghost predicate ChunkHolds(low: Units, terms: seq<Units>, k: nat, limit: nat)
    requires limit <= |low|
  {
    ChunkStart(k) < limit && Occurs(low[ChunkStart(k)..ChunkEnd(k, limit)], terms)
  }

  ghost predicate SomeChunkHolds(low: Units, terms: seq<Units>, limit: nat)
    requires limit <= |low|
  {
    exists k :: ChunkHolds(low, terms, k, limit)
  }

  /** An occurrence lies in a chunk exactly when it starts in it and ends by its end. */
  lemma OccursInSlice(low: Units, terms: seq<Units>, from: nat, end: nat, t: Units, i: nat)
    requires t in terms && OccursAt(low, t, i) && from <= i && i + |t| <= end <= |low|
    ensures Occurs(low[from..end], terms)
  {
    OccursInChunk(low, from, end, t, i - from);
    assert OccursAt(low[from..end], t, i - from);
  }

  lemma SliceOccursIn(low: Units, terms: seq<Units>, from: nat, end: nat) returns (t: Units, i: nat)
    requires from <= end <= |low| && Occurs(low[from..end], terms)
    ensures t in terms && OccursAt(low, t, i) && from <= i && i + |t| <= end
  {
    var term, j: nat :| term in terms && OccursAt(low[from..end], term, j);
    OccursInChunk(low, from, end, term, j);
    t, i := term, from + j;
  }

  /** Once a chunk reaches the limit, the later ones hold nothing that it does not. */
  lemma LastChunkHoldsAll(low: Units, terms: seq<Units>, k: nat, later: nat, limit: nat)
    requires limit <= |low| && ChunkEnd(k, limit) == limit && k <= later && ChunkHolds(low, terms, later, limit)
    ensures ChunkHolds(low, terms, k, limit)
  {
    var t, i := SliceOccursIn(low, terms, ChunkStart(later), ChunkEnd(later, limit));
    OccursInSlice(low, terms, ChunkStart(k), limit, t, i);
  }

  lemma ChunksAreScanned(low: Units, terms: seq<Units>, limit: nat)
    requires limit <= |low| && SomeChunkHolds(low, terms, limit)
    ensures Occurs(low[..limit], terms)
  {
    assert low[..limit] == low[0..limit];
    var k :| ChunkHolds(low, terms, k, limit);
    var t, i := SliceOccursIn(low, terms, ChunkStart(k), ChunkEnd(k, limit));
    OccursInSlice(low, terms, 0, limit, t, i);
  }

  /** A term of up to one unit more than the overlap lies in one chunk wherever it starts. */
  lemma ChunksCoverScannable(low: Units, terms: seq<Units>, limit: nat)
    requires Scannable(terms) && limit <= |low|
    ensures SomeChunkHolds(low, terms, limit) <==> Occurs(low[..limit], terms)
  {
    assert low[..limit] == low[0..limit];
    if SomeChunkHolds(low, terms, limit) {
      ChunksAreScanned(low, terms, limit);
    }
    if Occurs(low[..limit], terms) {
      var t, i := SliceOccursIn(low, terms, 0, limit);
      var k := i / 7936;
      assert ChunkStart(k) <= i < ChunkStart(k) + 7936;
      OccursInSlice(low, terms, ChunkStart(k), ChunkEnd(k, limit), t, i);
      assert ChunkHolds(low, terms, k, limit);
    }
  }

  /** The first occurrence in the first chunk that holds one. */
  ghost predicate IsAnchor(low: Units, terms: seq<Units>, limit: nat, m: Match)
    requires limit <= |low|
  {
    exists k: nat :: AnchorInChunk(low, terms, limit, m, k)
  }

  ghost predicate AnchorInChunk(low: Units, terms: seq<Units>, limit: nat, m: Match, k: nat)
    requires limit <= |low|
  {
    && ChunkStart(k) < limit && FirstIn(low, terms, ChunkStart(k), ChunkEnd(k, limit), m)
    && forall j: nat :: j < k ==> !ChunkHolds(low, terms, j, limit)
  }

  /** findAnchor. On ASCII it finds a term exactly when one of its chunks holds one. */
  method FindAnchor(scoped: Units, terms: seq<Units>, fold: Folding) returns (anchor: Option<Match>)
    ensures anchor.Some? ==> anchor.value.start <= anchor.value.end <= Limit(scoped)
    ensures Ascii(scoped) ==> (anchor.Some? <==> SomeChunkHolds(Lower(scoped), terms, Limit(scoped)))
    ensures Ascii(scoped) && Scannable(terms) ==>
              (anchor.Some? <==> Occurs(Lower(scoped)[..Limit(scoped)], terms))
    ensures Ascii(scoped) && anchor.Some? ==> IsAnchor(Lower(scoped), terms, Limit(scoped), anchor.value)
  {
    ghost var low := Lower(scoped);
    if Scannable(terms) { ChunksCoverScannable(low, terms, Limit(scoped)); }
    if terms == [] { return None; }
    var limit := Limit(scoped);
    var from := 0;
    ghost var k: nat := 0;
    while from < limit
      invariant from <= limit
      invariant Ascii(scoped) ==> from == ChunkStart(k) && (from < limit || limit == 0)
      invariant Ascii(scoped) ==> forall j :: 0 <= j < k ==> !ChunkHolds(low, terms, j, limit)
    {
      var end := if from + ANCHOR_SCAN_WINDOW < limit then from + ANCHOR_SCAN_WINDOW else limit;
      if end < limit && IsHighSurrogate(scoped[end - 1]) { end := end - 1; }
      anchor := ScanChunk(scoped, from, end, terms, fold);
      if anchor.Some? {
        if Ascii(scoped) {
          FoundInChunk(low, terms, k, limit, anchor.value);
          assert AnchorInChunk(low, terms, limit, anchor.value, k);
        }
        return;
      }
      if end >= limit {
        if Ascii(scoped) {
          forall later | k <= later ensures !ChunkHolds(low, terms, later, limit) {
            if ChunkHolds(low, terms, later, limit) { LastChunkHoldsAll(low, terms, k, later, limit); }
          }
        }
        return None;
      }
      var next := if from + 1 > end - ANCHOR_SCAN_OVERLAP then from + 1 else end - ANCHOR_SCAN_OVERLAP;
      if IsLowSurrogate(scoped[next]) { next := next - 1; }
      from, k := next, k + 1;
    }
    anchor := None;
  }

  lemma FoundInChunk(low: Units, terms: seq<Units>, k: nat, limit: nat, m: Match)
    requires ChunkStart(k) < limit <= |low| && ChunkStart(k) <= m.start && m.end <= ChunkEnd(k, limit)
    requires exists t :: t in terms && OccursAt(low, t, m.start) && m.end == m.start + |t|
    ensures SomeChunkHolds(low, terms, limit)
  {
    var t :| t in terms && OccursAt(low, t, m.start) && m.end == m.start + |t|;
    OccursInSlice(low, terms, ChunkStart(k), ChunkEnd(k, limit), t, m.start);
    assert ChunkHolds(low, terms, k, limit);
  }

  /** Every ASCII text whose scanned part holds a term of this length has a chunk that holds it. */
  ghost predicate AlwaysFound(n: nat) {
    forall text: Units, term: Units ::
      Ascii(text) && |term| == n && Occurs(Lower(text)[..Limit(text)], [term]) ==>
        SomeChunkHolds(Lower(text), [term], Limit(text))
  }

  /**
   A term is found wherever the scanned part of an ASCII text holds it iff it is at most one unit longer than the
   overlap; one longer than the scan is never in the scanned part.
   */
  lemma AlwaysFoundIff(n: nat)
    requires 1 <= n
    ensures AlwaysFound(n) <==> n <= ANCHOR_SCAN_OVERLAP + 1 || n > MAX_ANCHOR_SCAN_CHARACTERS
  {
    if n <= ANCHOR_SCAN_OVERLAP + 1 {
      forall text: Units, term: Units | Ascii(text) && |term| == n && Occurs(Lower(text)[..Limit(text)], [term])
        ensures SomeChunkHolds(Lower(text), [term], Limit(text))
      {
        ChunksCoverScannable(Lower(text), [term], Limit(text));
      }
    } else if n <= MAX_ANCHOR_SCAN_CHARACTERS {
      var text, term := MissedTerm(n);
      assert Occurs(Lower(text)[..Limit(text)], [term]) && !SomeChunkHolds(Lower(text), [term], Limit(text));
    }
  }

  /** For every longer length, a text that holds a term of it which no chunk holds. */
  lemma MissedTerm(n: nat) returns (text: Units, term: Units)
    requires ANCHOR_SCAN_OVERLAP + 1 < n <= MAX_ANCHOR_SCAN_CHARACTERS
    ensures Ascii(text) && |term| == n && Lower(text) == text
    ensures Occurs(text[..Limit(text)], [term]) && !SomeChunkHolds(text, [term], Limit(text))
  {
    var at: nat := if n <= ANCHOR_SCAN_WINDOW then ANCHOR_SCAN_WINDOW - ANCHOR_SCAN_OVERLAP - 1 else 0;
    text := seq(at + n, i => if i < at then 120 else if i == at then 97 else 98);
    term := text[at..];
    assert text[at..at + n] == term && term in [term];
    var whole := text[..Limit(text)];
    assert whole == text;
    assert OccursAt(whole, term, at);
    forall k: nat ensures !ChunkHolds(text, [term], k, Limit(text)) {
      NoChunkHolds(text, term, at, k);
    }
  }

  lemma NoChunkHolds(text: Units, term: Units, at: nat, k: nat)
    requires |text| == at + |term| <= MAX_ANCHOR_SCAN_CHARACTERS && |term| > ANCHOR_SCAN_OVERLAP + 1
    requires if |term| <= ANCHOR_SCAN_WINDOW then at == ANCHOR_SCAN_WINDOW - ANCHOR_SCAN_OVERLAP - 1 else at == 0
    requires forall i :: 0 <= i < |text| ==> (text[i] == term[0] <==> i == at)
    ensures !ChunkHolds(text, [term], k, |text|)
  {
    forall i: nat ensures !(ChunkStart(k) <= i && i + |term| <= ChunkEnd(k, |text|) && OccursAt(text, term, i)) {
      assert i + |term| <= |text| ==> text[i..i + |term|][0] == text[i];
    }
    if ChunkHolds(text, [term], k, |text|) {
      var _, _ := SliceOccursIn(text, [term], ChunkStart(k), ChunkEnd(k, |text|));
    }
  }

  /// ---- all matches of a window ----------------------------------------------------------------------------

  ghost predicate Covered(matches: seq<Match>, x: nat) {
    exists k :: 0 <= k < |matches| && matches[k].start <= x < matches[k].end
  }

  predicate IsMatch(folded: Units, term: Units, m: Match) {
    OccursAt(folded, term, m.start) && m.end == m.start + |term|
  }

  predicate IsOccurrence(folded: Units, terms: seq<Units>, m: Match) {
    exists k :: 0 <= k < |terms| && IsMatch(folded, terms[k], m)
  }

  /** Every occurrence of the term starts inside one found for it. */
  ghost predicate Exhausted(folded: Units, term: Units, found: seq<Match>, before: nat) {
    term != [] ==> forall i: nat :: i < before && OccursAt(folded, term, i) ==> Covered(found, i)
  }

  predicate NoEmptyTerm(terms: seq<Units>) {
    [] !in terms
  }

  /** The occurrences of a term from a position on, left to right and not overlapping. */
  function Greedy(s: Units, t: Units, from: nat): seq<Match>
    requires from <= |s|
    decreases |s| - from
  {
    var at := IndexOf(s, t, from);
    if at < 0 || t == [] then [] else [Match(at, at + |t|)] + Greedy(s, t, at + |t|)
  }

  /** Where the search for match `k` begins: at `from`, or where the match before it ends. */
  function SearchFrom(ms: seq<Match>, from: nat, k: nat): nat
    requires k <= |ms|
  {
    if k == 0 then from else ms[k - 1].end
  }

  /** Match `k` is the first occurrence from there on. */
  predicate NextOccurrence(s: Units, t: Units, from: nat, ms: seq<Match>, k: nat)
    requires k < |ms|
  {
    && SearchFrom(ms, from, k) <= ms[k].start && IsMatch(s, t, ms[k])
    && forall i: nat :: SearchFrom(ms, from, k) <= i < ms[k].start ==> !OccursAt(s, t, i)
  }

  /** A match in front of others is where their search began. */
  lemma NextAfter(s: Units, t: Units, from: nat, first: Match, rest: seq<Match>, k: nat)
    requires k < |rest| && NextOccurrence(s, t, first.end, rest, k)
    ensures NextOccurrence(s, t, from, [first] + rest, k + 1)
  {
    assert SearchFrom([first] + rest, from, k + 1) == SearchFrom(rest, first.end, k);
  }

  /** Each match is the next occurrence after the one before it, and after the last there is none. */
  lemma {:induction false} GreedyExactly(s: Units, t: Units, from: nat)
    requires from <= |s| && t != []
    ensures forall k: nat :: k < |Greedy(s, t, from)| ==> NextOccurrence(s, t, from, Greedy(s, t, from), k)
    ensures forall i: nat :: SearchFrom(Greedy(s, t, from), from, |Greedy(s, t, from)|) <= i ==> !OccursAt(s, t, i)
    decreases |s| - from
  {
    var at := IndexOf(s, t, from);
    if at >= 0 {
      var end := at + |t|;
      var first, rest := Match(at, end), Greedy(s, t, end);
      GreedyExactly(s, t, end);
      assert SearchFrom([first] + rest, from, |rest| + 1) == SearchFrom(rest, end, |rest|);
      forall k: nat | k < |rest| + 1 ensures NextOccurrence(s, t, from, [first] + rest, k) {
        if k > 0 {
          NextAfter(s, t, from, first, rest, k - 1);
        }
      }
    }
  }

  /** The match is one of those of a term. */
  predicate FoundFor(s: Units, terms: seq<Units>, m: Match) {
    exists k :: 0 <= k < |terms| && m in Greedy(s, terms[k], 0)
  }

  lemma FoundForLast(s: Units, front: seq<Units>, last: Units, m: Match)
    ensures FoundFor(s, front + [last], m) <==> FoundFor(s, front, m) || m in Greedy(s, last, 0)
  {
    var terms := front + [last];
    if k :| 0 <= k < |front| && m in Greedy(s, front[k], 0) {
      assert m in Greedy(s, terms[k], 0);
    }
    if m in Greedy(s, last, 0) {
      assert m in Greedy(s, terms[|front|], 0);
    }
  }

  /** What is collected are the matches of each term. */
  lemma {:induction false} CollectionExactly(s: Units, terms: seq<Units>, m: Match)
    ensures m in Collection(s, terms) <==> FoundFor(s, terms, m)
  {
    if terms != [] {
      var front, last := terms[..|terms| - 1], terms[|terms| - 1];
      CollectionExactly(s, front, m);
      assert terms == front + [last];
      FoundForLast(s, front, last, m);
    }
  }

  /** The occurrences of all terms, term by term. */
  function Collection(s: Units, terms: seq<Units>): seq<Match> {
    if terms == [] then []
    else Collection(s, terms[..|terms| - 1]) + Greedy(s, terms[|terms| - 1], 0)
  }

  /** The matches that are kept. */
  function Collected(s: Units, terms: seq<Units>): seq<Match> {
    var all := Collection(s, terms);
    if |all| <= MAX_MATCHES then all else all[..MAX_MATCHES]
  }

  lemma {:induction false} CollectionPrefix(s: Units, terms: seq<Units>, k: nat)
    requires k <= |terms|
    ensures Collection(s, terms[..k]) <= Collection(s, terms)
    decreases |terms|
  {
    if k == |terms| {
      assert terms[..k] == terms;
    } else {
      var front := terms[..|terms| - 1];
      CollectionPrefix(s, front, k);
      assert front[..k] == terms[..k];
    }
  }

  lemma CollectionStep(s: Units, terms: seq<Units>, k: nat)
    requires k < |terms|
    ensures Collection(s, terms[..k + 1]) == Collection(s, terms[..k]) + Greedy(s, terms[k], 0)
  {
    assert terms[..k + 1][..k] == terms[..k];
  }

  /** A term that occurs is matched no later than it occurs. */
  lemma CollectionHoldsFirst(s: Units, terms: seq<Units>, k: nat, i: nat) returns (m: Match)
    requires k < |terms| && terms[k] != [] && OccursAt(s, terms[k], i)
    ensures m in Collection(s, terms) && m.start <= i
  {
    m := Greedy(s, terms[k], 0)[0];
    CollectionStep(s, terms, k);
    CollectionPrefix(s, terms, k + 1);
    assert m in Collection(s, terms[..k + 1]);
  }

  /** The occurrences of one term are in, after those of earlier terms, up to the cap. */
  ghost predicate TermCollected(folded: Units, term: Units, before: seq<Match>, found: seq<Match>) {
    && before <= found
    && (forall j :: |before| <= j < |found| ==> IsMatch(folded, term, found[j]))
    && (|found| < MAX_MATCHES ==> Exhausted(folded, term, found, |folded| + 1))
    && (forall i: nat :: OccursAt(folded, term, i) ==> found != [])
    && (term != [] ==> found <= before + Greedy(folded, term, 0))
    && (term != [] && |found| < MAX_MATCHES ==> found == before + Greedy(folded, term, 0))
  }

  /** The occurrences of one term, left to right and not overlapping, until the cap. */
  method CollectTerm(folded: Units, term: Units, before: seq<Match>) returns (found: seq<Match>)
    requires |before| < MAX_MATCHES
    ensures |found| <= MAX_MATCHES && TermCollected(folded, term, before, found)
  {
    found := before;
    var from: nat := 0;
    CollectingStart(folded, term, before);
    while true
      invariant |found| < MAX_MATCHES && Collecting(folded, term, before, found, from)
      decreases MAX_MATCHES - |found|
    {
      var at := IndexOf(folded, term, from);
      if at < 0 { break; }
      CollectingNext(folded, term, before, found, from, at);
      found := found + [Match(at, at + |term|)];
      from := at + |term|;
      if |found| >= MAX_MATCHES {
        CollectingFull(folded, term, before, found, from);
        return;
      }
    }
    CollectingEnd(folded, term, before, found, from);
  }

  /** What is collected once the scan for a term has come to a position. */
  ghost predicate Collecting(folded: Units, term: Units, before: seq<Match>, found: seq<Match>, from: nat) {
    && before <= found && from <= |folded| && (from > 0 ==> found != [])
    && (forall j :: |before| <= j < |found| ==> IsMatch(folded, term, found[j]))
    && Exhausted(folded, term, found, from)
    && (term != [] ==> found + Greedy(folded, term, from) == before + Greedy(folded, term, 0))
  }

  lemma CollectingNext(folded: Units, term: Units, before: seq<Match>, found: seq<Match>, from: nat, at: nat)
    requires Collecting(folded, term, before, found, from) && at == IndexOf(folded, term, from)
    ensures Collecting(folded, term, before, found + [Match(at, at + |term|)], at + |term|)
  {
    ExhaustedNext(folded, term, found, from, at);
    if term != [] { ConcatStep(found, Match(at, at + |term|), Greedy(folded, term, at + |term|)); }
  }

  lemma CollectingStart(folded: Units, term: Units, before: seq<Match>)
    ensures Collecting(folded, term, before, before, 0)
  {
  }

  lemma CollectingFull(folded: Units, term: Units, before: seq<Match>, found: seq<Match>, from: nat)
    requires Collecting(folded, term, before, found, from) && |found| >= MAX_MATCHES
    ensures TermCollected(folded, term, before, found)
  {
  }

  lemma CollectingEnd(folded: Units, term: Units, before: seq<Match>, found: seq<Match>, from: nat)
    requires Collecting(folded, term, before, found, from) && IndexOf(folded, term, from) < 0
    ensures TermCollected(folded, term, before, found)
  {
    assert found + [] == found;
  }

  lemma ConcatStep<T>(front: seq<T>, x: T, rest: seq<T>)
    ensures front + ([x] + rest) == (front + [x]) + rest
  {
  }

  lemma ExhaustedNext(folded: Units, term: Units, found: seq<Match>, from: nat, at: nat)
    requires Exhausted(folded, term, found, from) && at == IndexOf(folded, term, from)
    ensures Exhausted(folded, term, found + [Match(at, at + |term|)], at + |term|)
  {
    CoveredMore(found, Match(at, at + |term|));
  }

  /** More matches cover at least as much. */
  lemma ExhaustedMore(folded: Units, term: Units, found: seq<Match>, more: seq<Match>, before: nat)
    requires Exhausted(folded, term, found, before) && found <= more
    ensures Exhausted(folded, term, more, before)
  {
    forall i: nat | i < before && OccursAt(folded, term, i) && term != [] ensures Covered(more, i) {
      var k :| 0 <= k < |found| && found[k].start <= i < found[k].end;
      assert more[k] == found[k];
    }
  }

  /** A full collection is the first part of the whole one. */
  lemma FullCollection(s: Units, terms: seq<Units>, k: nat, found: seq<Match>)
    requires k < |terms| && |found| == MAX_MATCHES
    requires found <= Collection(s, terms[..k]) + Greedy(s, terms[k], 0)
    ensures found == Collected(s, terms)
  {
    CollectionStep(s, terms, k);
    CollectionPrefix(s, terms, k + 1);
    assert found <= Collection(s, terms);
  }

  /** The occurrences of the first `k` terms are in. */
  ghost predicate TermsCollected(folded: Units, terms: seq<Units>, k: nat, found: seq<Match>) {
    && k <= |terms|
    && (forall m :: m in found ==> IsOccurrence(folded, terms, m))
    && (forall j :: 0 <= j < k ==> Exhausted(folded, terms[j], found, |folded| + 1))
    && (forall j, i: nat :: 0 <= j < k && OccursAt(folded, terms[j], i) ==> found != [])
    && (NoEmptyTerm(terms) ==> found == Collection(folded, terms[..k]))
  }

  lemma MoreOccurrences(folded: Units, terms: seq<Units>, k: nat, found: seq<Match>, more: seq<Match>)
    requires k < |terms| && TermsCollected(folded, terms, k, found) && TermCollected(folded, terms[k], found, more)
    ensures forall m :: m in more ==> IsOccurrence(folded, terms, m)
  {
    forall m | m in more ensures IsOccurrence(folded, terms, m) {
      var j :| 0 <= j < |more| && more[j] == m;
      if j < |found| {
        assert m in found;
      }
    }
  }

  lemma TermAdded(folded: Units, terms: seq<Units>, k: nat, found: seq<Match>, more: seq<Match>)
    requires k < |terms| && TermsCollected(folded, terms, k, found) && TermCollected(folded, terms[k], found, more)
    requires |more| < MAX_MATCHES
    ensures TermsCollected(folded, terms, k + 1, more)
  {
    MoreOccurrences(folded, terms, k, found, more);
    forall j | 0 <= j < k ensures Exhausted(folded, terms[j], more, |folded| + 1) {
      ExhaustedMore(folded, terms[j], found, more, |folded| + 1);
    }
    CollectionStep(folded, terms, k);
  }

  /** The occurrences of every term, up to the cap. */
  method CollectMatches(folded: Units, terms: seq<Units>) returns (found: seq<Match>)
    ensures forall m :: m in found ==> IsOccurrence(folded, terms, m)
    ensures |found| <= MAX_MATCHES
    ensures |found| < MAX_MATCHES ==> forall t :: t in terms ==> Exhausted(folded, t, found, |folded| + 1)
    ensures Occurs(folded, terms) ==> found != []
    ensures NoEmptyTerm(terms) ==> found == Collected(folded, terms)
  {
    found := [];
    var k := 0;
    while k < |terms|
      invariant |found| < MAX_MATCHES && TermsCollected(folded, terms, k, found)
    {
      var more := CollectTerm(folded, terms[k], found);
      if |more| >= MAX_MATCHES {
        MoreOccurrences(folded, terms, k, found, more);
        if NoEmptyTerm(terms) { FullCollection(folded, terms, k, more); }
        return more;
      }
      TermAdded(folded, terms, k, found, more);
      found := more;
      k := k + 1;
    }
    assert terms[..|terms|] == terms;
  }

  lemma CoveredMore(found: seq<Match>, m: Match)
    ensures forall x: nat :: Covered(found + [m], x) <==> Covered(found, x) || m.start <= x < m.end
  {
    forall x: nat ensures Covered(found + [m], x) <==> Covered(found, x) || m.start <= x < m.end {
      if k :| 0 <= k < |found| && found[k].start <= x < found[k].end {
        assert (found + [m])[k].start <= x;
      }
      if m.start <= x < m.end {
        assert (found + [m])[|found|].start <= x;
      }
    }
  }

  /** found.sort: by start, the longer first. */
  predicate Before(a: Match, b: Match) {
    a.start < b.start || (a.start == b.start && a.end >= b.end)
  }

  predicate InOrder(s: seq<Match>) {
    forall i, j :: 0 <= i < j < |s| ==> Before(s[i], s[j])
  }

  function Insert(s: seq<Match>, m: Match): (r: seq<Match>)
    ensures multiset(r) == multiset(s) + multiset{m}
  {
    if s == [] then [m]
    else if Before(s[|s| - 1], m) then s + [m]
    else
      assert s == s[..|s| - 1] + [s[|s| - 1]];
      Insert(s[..|s| - 1], m) + [s[|s| - 1]]
  }

  lemma {:induction false} InsertKeepsOrder(s: seq<Match>, m: Match)
    requires InOrder(s)
    ensures InOrder(Insert(s, m))
  {
    if s == [] {
    } else if Before(s[|s| - 1], m) {
      forall i | 0 <= i < |s| ensures Before(s[i], m) {
        assert i < |s| - 1 ==> Before(s[i], s[|s| - 1]);
      }
    } else {
      var n := |s| - 1;
      InsertKeepsOrder(s[..n], m);
      var front := Insert(s[..n], m);
      forall i | 0 <= i < |front| ensures Before(front[i], s[n]) {
        assert front[i] in multiset(front);
        assert front[i] in multiset(s[..n]) || front[i] == m;
      }
    }
  }

  method Sort(found: seq<Match>) returns (sorted: seq<Match>)
    ensures InOrder(sorted) && multiset(sorted) == multiset(found)
  {
    sorted := [];
    for k := 0 to |found|
      invariant InOrder(sorted) && multiset(sorted) == multiset(found[..k])
    {
      InsertKeepsOrder(sorted, found[k]);
      assert found[..k + 1] == found[..k] + [found[k]];
      sorted := Insert(sorted, found[k]);
    }
    assert found[..|found|] == found;
  }

  lemma SameCovered(s: seq<Match>, t: seq<Match>, x: nat)
    requires multiset(s) == multiset(t)
    ensures Covered(s, x) <==> Covered(t, x)
  {
    if k :| 0 <= k < |s| && s[k].start <= x < s[k].end {
      assert s[k] in multiset(t);
      var j :| 0 <= j < |t| && t[j] == s[k];
    }
    if k :| 0 <= k < |t| && t[k].start <= x < t[k].end {
      assert t[k] in multiset(s);
      var j :| 0 <= j < |s| && s[j] == t[k];
    }
  }

  /** Apart from each other, in order, and within the text. */
  predicate Apart(merged: seq<Match>, length: nat) {
    && (forall k :: 0 <= k < |merged| ==> merged[k].start <= merged[k].end <= length)
    && (forall j, k :: 0 <= j < k < |merged| ==> merged[j].end < merged[k].start)
  }

  lemma CoveredExtended(merged: seq<Match>, end: nat, m: Match)
    requires merged != [] && merged[|merged| - 1].start <= m.start <= merged[|merged| - 1].end < m.end == end
    ensures var now := merged[|merged| - 1 := Match(merged[|merged| - 1].start, end)];
            forall x: nat :: Covered(now, x) <==> Covered(merged, x) || m.start <= x < m.end
  {
    var n := |merged| - 1;
    var now := merged[n := Match(merged[n].start, end)];
    forall x: nat ensures Covered(now, x) <==> Covered(merged, x) || m.start <= x < m.end {
      if k :| 0 <= k < |merged| && merged[k].start <= x < merged[k].end {
        assert now[k].start <= x;
      }
      if m.start <= x < m.end {
        assert now[n].start <= x;
      }
      if k :| 0 <= k < |now| && now[k].start <= x < now[k].end {
        assert merged[k].start <= x;
      }
    }
  }

  /** The next match extends the last merged one, lies within it, or starts a new one. */
  method MergeNext(merged: seq<Match>, next: Match, length: nat) returns (more: seq<Match>)
    requires Apart(merged, length) && next.start <= next.end <= length
    requires merged != [] ==> merged[|merged| - 1].start <= next.start
    ensures Apart(more, length) && more != [] && more[|more| - 1].start <= next.start
    ensures forall x: nat :: Covered(more, x) <==> Covered(merged, x) || next.start <= x < next.end
  {
    var n := |merged| - 1;
    if n < 0 || next.start > merged[n].end {
      CoveredMore(merged, next);
      return merged + [next];
    }
    if next.end > merged[n].end {
      CoveredExtended(merged, next.end, next);
      return merged[n := Match(merged[n].start, next.end)];
    }
    forall x: nat | next.start <= x < next.end ensures Covered(merged, x) {
      assert merged[n].start <= x;
    }
    more := merged;
  }

  /** Overlapping or touching matches become one. */
  method Merge(sorted: seq<Match>, length: nat) returns (merged: seq<Match>)
    requires InOrder(sorted) && forall m :: m in sorted ==> m.start <= m.end <= length
    ensures Apart(merged, length)
    ensures forall x: nat :: Covered(merged, x) <==> Covered(sorted, x)
    ensures sorted == [] <==> merged == []
  {
    merged := [];
    for k := 0 to |sorted|
      invariant Apart(merged, length) && (k == 0 <==> merged == [])
      invariant merged != [] ==> forall j :: k <= j < |sorted| ==> merged[|merged| - 1].start <= sorted[j].start
      invariant forall x: nat :: Covered(merged, x) <==> Covered(sorted[..k], x)
    {
      assert sorted[k] in sorted;
      assert sorted[..k + 1] == sorted[..k] + [sorted[k]];
      CoveredMore(sorted[..k], sorted[k]);
      merged := MergeNext(merged, sorted[k], length);
    }
    assert sorted[..|sorted|] == sorted;
  }

  /** findMatches: `found` is the collection before sorting and merging, which cover the same units. */
  method FindMatches(folded: Units, terms: seq<Units>) returns (merged: seq<Match>, ghost found: seq<Match>)
    ensures Apart(merged, |folded|)
    ensures forall x: nat :: Covered(merged, x) <==> Covered(found, x)
    ensures forall m :: m in found ==> IsOccurrence(folded, terms, m)
    ensures |found| < MAX_MATCHES ==> forall t :: t in terms ==> Exhausted(folded, t, found, |folded| + 1)
    ensures (Occurs(folded, terms) <==> merged != []) && (merged == [] <==> found == [])
    ensures NoEmptyTerm(terms) ==> found == Collected(folded, terms)
  {
    var all := CollectMatches(folded, terms);
    found := all;
    var sorted := Sort(all);
    forall m | m in sorted ensures m.start <= m.end <= |folded| {
      assert m in multiset(sorted) && m in multiset(all);
      assert IsOccurrence(folded, terms, m);
    }
    merged := Merge(sorted, |folded|);
    forall x: nat ensures Covered(sorted, x) <==> Covered(found, x) {
      SameCovered(sorted, found, x);
    }
    if found != [] {
      assert found[0] in found;
    }
    assert |sorted| == |multiset(sorted)| == |found|;
  }
}
