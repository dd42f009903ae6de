/**
 * Sorted directory listings: `filepath.Glob` of a pattern `<dir>/\*<ext>` and
 * `os.ReadDir(dir)` both hand back names in ascending byte order. The file
 * system is a map, so a listing is the matching paths of one directory,
 * ordered by Go's string comparison.
 */
module Listing {
  import opened Bytes
  import opened Paths

  /** Go's `a <= b` on strings: byte-wise, a proper prefix first. */
  predicate LexLe(a: Bytes, b: Bytes) {
    a == [] || (b != [] && (a[0] < b[0] || (a[0] == b[0] && LexLe(a[1..], b[1..]))))
  }

  lemma {:induction false} LexLeRefl(a: Bytes)
    ensures LexLe(a, a)
  {
    if a != [] {
      LexLeRefl(a[1..]);
    }
  }

  lemma {:induction false} LexLeTotal(a: Bytes, b: Bytes)
    ensures LexLe(a, b) || LexLe(b, a)
  {
    if a != [] && b != [] && a[0] == b[0] {
      LexLeTotal(a[1..], b[1..]);
    }
  }

  lemma {:induction false} LexLeTrans(a: Bytes, b: Bytes, c: Bytes)
    requires LexLe(a, b) && LexLe(b, c)
    ensures LexLe(a, c)
  {
    if a != [] && a[0] == b[0] && b[0] == c[0] {
      LexLeTrans(a[1..], b[1..], c[1..]);
    }
  }

  lemma {:induction false} LexLeAntisym(a: Bytes, b: Bytes)
    requires LexLe(a, b) && LexLe(b, a)
    ensures a == b
  {
    if a != [] {
      LexLeAntisym(a[1..], b[1..]);
      assert a == [a[0]] + a[1..] && b == [b[0]] + b[1..];
    }
  }

  /** Strictly ascending: every name before a later one, no name twice. */
  predicate Ascending(s: seq<Path>) {
    forall i, j :: 0 <= i < j < |s| ==> LexLe(s[i], s[j]) && s[i] != s[j]
  }

  predicate IsLeast(p: Path, s: set<Path>) {
    p in s && forall q :: q in s ==> LexLe(p, q)
  }

  /** A finite non-empty set of names has a least element. */
  lemma {:induction false} LeastExists(s: set<Path>)
    requires s != {}
    ensures exists p :: IsLeast(p, s)
    decreases |s|
  {
    var x :| x in s;
    LexLeRefl(x);
    if s == {x} {
      assert IsLeast(x, s);
    } else {
      LeastExists(s - {x});
      var y :| IsLeast(y, s - {x});
      LexLeTotal(x, y);
      if LexLe(x, y) {
        forall q | q in s ensures LexLe(x, q) {
          if q != x {
            LexLeTrans(x, y, q);
          }
        }
        assert IsLeast(x, s);
      } else {
        assert IsLeast(y, s);
      }
    }
  }

  lemma LeastUnique(p: Path, q: Path, s: set<Path>)
    requires IsLeast(p, s) && IsLeast(q, s)
    ensures p == q
  {
    LexLeAntisym(p, q);
  }

  /** The names of `s` in ascending order. */
  ghost function Sorted(s: set<Path>): (r: seq<Path>)
    decreases |s|
  {
    if s == {} then []
    else
      LeastExists(s);
      var p :| IsLeast(p, s);
      [p] + Sorted(s - {p})
  }

  /** Sorted lists every element of the set exactly once, in ascending order. */
  lemma {:induction false} SortedAscending(s: set<Path>)
    ensures Ascending(Sorted(s))
    ensures forall p :: p in Sorted(s) <==> p in s
    decreases |s|
  {
    if s != {} {
      LeastExists(s);
      var p :| IsLeast(p, s);
      SortedLeast(p, s);
      var t := Sorted(s - {p});
      SortedAscending(s - {p});
      var r := [p] + t;
      forall i, j | 0 <= i < j < |r| ensures LexLe(r[i], r[j]) && r[i] != r[j] {
        assert r[j] == t[j - 1];
        if i > 0 {
          assert r[i] == t[i - 1];
        } else {
          assert t[j - 1] in t;
        }
      }
      forall x ensures x in r <==> x in s {
        assert x in r <==> x == p || x in t;
      }
    }
  }

  /** Sorted peels off the least element first. */
  lemma SortedLeast(p: Path, s: set<Path>)
    requires IsLeast(p, s)
    ensures Sorted(s) == [p] + Sorted(s - {p})
  {
    LeastExists(s);
    var q :| IsLeast(q, s) && Sorted(s) == [q] + Sorted(s - {q});
    LeastUnique(p, q, s);
  }

  /** An ascending list is determined by its elements. */
  lemma {:induction false} AscendingUnique(a: seq<Path>, s: set<Path>)
    requires Ascending(a) && forall p :: p in a <==> p in s
    ensures a == Sorted(s)
    decreases |a|
  {
    if a == [] {
      assert s == {};
    } else {
      forall q | q in s ensures LexLe(a[0], q) {
        if q != a[0] {
          var j :| 0 <= j < |a| && a[j] == q;
        } else {
          LexLeRefl(q);
        }
      }
      SortedLeast(a[0], s);
      var t := a[1..];
      forall p ensures p in t <==> p in s - {a[0]} {
        if p in t {
          var j :| 0 <= j < |t| && t[j] == p;
          assert a[j + 1] == p;
        }
        if p in s && p != a[0] {
          var j :| 0 <= j < |a| && a[j] == p;
          assert t[j - 1] == p;
        }
      }
      assert Ascending(t) by {
        forall i, j | 0 <= i < j < |t| ensures LexLe(t[i], t[j]) && t[i] != t[j] {
          assert t[i] == a[i + 1] && t[j] == a[j + 1];
        }
      }
      AscendingUnique(t, s - {a[0]});
      HeadTail(a);
    }
  }

  // ---------------------------------------------------------------------------
  // Listings

  /** The files directly inside `dir` whose name ends in `ext`. */
  function Matches(fs: FileSystem, dir: Path, ext: Bytes): set<Path> {
    set p | p in fs && Dir(p) == dir && HasSuffix(Base(p), ext)
  }

  /** The matching files of `dir`, ascending. */
  ghost function Listed(fs: FileSystem, dir: Path, ext: Bytes): (r: seq<Path>)
    ensures Ascending(r) && forall p :: p in r <==> p in Matches(fs, dir, ext)
    ensures forall p :: p in r ==> p in fs
  {
    SortedAscending(Matches(fs, dir, ext));
    Sorted(Matches(fs, dir, ext))
  }

  /**
   * filepath.Glob(Join(dir, "*" + ext)): the matching files in ascending
   * order, found by taking the least remaining match each round.
   */
  method Glob(fs: FileSystem, dir: Path, ext: Bytes) returns (list: seq<Path>)
    ensures list == Listed(fs, dir, ext)
  {
    var all := Matches(fs, dir, ext);
    var rest := all;
    list := [];
    while rest != {}
      invariant rest <= all
      invariant list + Sorted(rest) == Sorted(all)
      decreases |rest|
    {
      LeastExists(rest);
      var p :| IsLeast(p, rest);
      SortedLeast(p, rest);
      AppendAssoc(list, [p], Sorted(rest - {p}));
      list, rest := list + [p], rest - {p};
    }
    SortedAscending(all);
  }
}
