/** Vault paths and file contents, the values every index structure stores, and the units and bytes they are made of. */
module Vault {
  /** One UTF-16 code unit, the unit in which the client compares paths. */
  type CodeUnit = u: int | 0 <= u < 0x1_0000

  /** A string of the client. */
  type Units = seq<CodeUnit>

  predicate IsHighSurrogate(u: CodeUnit) { 0xd800 <= u <= 0xdbff }

  predicate IsLowSurrogate(u: CodeUnit) { 0xdc00 <= u <= 0xdfff }

  type Byte = b: int | 0 <= b < 256

  /** The largest file the client reads whole. */
  const MAX_INDEXABLE_SOURCE_BYTES := 10 * 1024 * 1024

  /** The most sources a reconciliation or a checkpoint may list. */
  const MAX_RECONCILIATION_SOURCES := 200_000

  datatype Path = Path(units: Units)

  /** The bytes of one source file. */
  datatype Content = Content(bytes: seq<int>)

  type Files = map<Path, Content>

  datatype Option<+T> = None | Some(value: T)

  function Lookup(files: Files, p: Path): Option<Content> {
    if p in files then Some(files[p]) else None
  }

  /** Two file maps with the same lookups are the same map. */
  lemma SameLookups(f: Files, g: Files)
    requires forall p :: Lookup(f, p) == Lookup(g, p)
    ensures f == g
  {
    forall p ensures p in f <==> p in g {
      assert Lookup(f, p) == Lookup(g, p);
    }
    forall p | p in f ensures f[p] == g[p] {
      assert Lookup(f, p) == Lookup(g, p);
    }
  }

  /** comparePaths: `Less(a, b)` iff comparePaths(a, b) is negative. */
  predicate Less(a: Path, b: Path) {
    UnitsLess(a.units, b.units)
  }

  predicate AtMost(a: Path, b: Path) {
    a == b || Less(a, b)
  }

  predicate UnitsLess(a: seq<CodeUnit>, b: seq<CodeUnit>) {
    b != [] &&
    (a == [] || a[0] < b[0] || (a[0] == b[0] && UnitsLess(a[1..], b[1..])))
  }

  /** The strings agree on their first `k` units, and there `a` ends first or has the smaller unit. */
  predicate FirstDiffers(a: seq<CodeUnit>, b: seq<CodeUnit>, k: nat) {
    && k <= |a| && k < |b| && a[..k] == b[..k]
    && (k == |a| || a[k] < b[k])
  }

  /** The order of JavaScript strings: by the first code unit that differs, a prefix before what it begins. */
  lemma {:induction false} LessExactly(a: seq<CodeUnit>, b: seq<CodeUnit>)
    ensures UnitsLess(a, b) <==> exists k: nat :: FirstDiffers(a, b, k)
  {
    if a == [] || b == [] || a[0] != b[0] {
      assert FirstDiffers(a, b, 0) <==> UnitsLess(a, b);
      forall k: nat ensures FirstDiffers(a, b, k) ==> k == 0 {
        if 0 < k <= |a| && k <= |b| {
          assert a[..k][0] == a[0] && b[..k][0] == b[0];
        }
      }
    } else {
      LessExactly(a[1..], b[1..]);
      if k: nat :| FirstDiffers(a[1..], b[1..], k) {
        assert a[..k + 1] == [a[0]] + a[1..][..k] && b[..k + 1] == [b[0]] + b[1..][..k];
        assert FirstDiffers(a, b, k + 1);
      }
      if k: nat :| FirstDiffers(a, b, k) {
        var rest := k - 1;
        assert a[1..][..rest] == a[..k][1..] && b[1..][..rest] == b[..k][1..];
        assert FirstDiffers(a[1..], b[1..], rest);
      }
    }
  }

  lemma {:induction false} UnitsTrichotomy(a: seq<CodeUnit>, b: seq<CodeUnit>)
    ensures a == b || UnitsLess(a, b) || UnitsLess(b, a)
    ensures !(UnitsLess(a, b) && UnitsLess(b, a))
    ensures !UnitsLess(a, a)
  {
    if a != [] {
      UnitsTrichotomy(a[1..], a[1..]);
      if b != [] {
        UnitsTrichotomy(a[1..], b[1..]);
        assert a == [a[0]] + a[1..] && b == [b[0]] + b[1..];
      }
    }
  }

  lemma {:induction false} UnitsTransitive(a: seq<CodeUnit>, b: seq<CodeUnit>, c: seq<CodeUnit>)
    requires UnitsLess(a, b) && UnitsLess(b, c)
    ensures UnitsLess(a, c)
  {
    if a != [] && a[0] == b[0] == c[0] {
      UnitsTransitive(a[1..], b[1..], c[1..]);
    }
  }

  /** comparePaths is a strict total order. */
  lemma PathOrder(a: Path, b: Path, c: Path)
    ensures a == b || Less(a, b) || Less(b, a)
    ensures !(Less(a, b) && Less(b, a))
    ensures !Less(a, a)
    ensures Less(a, b) && Less(b, c) ==> Less(a, c)
  {
    UnitsTrichotomy(a.units, b.units);
    if Less(a, b) && Less(b, c) {
      UnitsTransitive(a.units, b.units, c.units);
    }
  }

  predicate Ascending(paths: seq<Path>) {
    forall i, j :: 0 <= i < j < |paths| ==> Less(paths[i], paths[j])
  }

  /** The first path, in comparePaths order, of a nonempty set. */
  method LeastPath(paths: set<Path>) returns (least: Path)
    requires paths != {}
    ensures least in paths
    ensures forall p :: p in paths ==> AtMost(least, p)
  {
    least :| least in paths;
    var rest := paths - {least};
    while rest != {}
      invariant rest <= paths
      invariant least in paths
      invariant forall p :: p in paths && p !in rest ==> AtMost(least, p)
      decreases rest
    {
      var p :| p in rest;
      PathOrder(least, p, p);
      if Less(p, least) {
        forall q | q in paths && q !in rest ensures AtMost(p, q) {
          PathOrder(p, least, q);
        }
        least := p;
      }
      rest := rest - {p};
    }
  }
}
