/**
 * Fragment naming and discovery: the `<stem>_%04d.part` names the splitter
 * writes, and `checkFiles`, which lists a directory, keeps the regular files
 * whose name matches `_(\d{4})\.part$`, reads the index from the four digits,
 * and sorts the result by index.
 */
module Discovery {
  import opened Bytes
  import opened Paths

  const Underscore: uint8 := 95   // '_'
  const Digit0: uint8 := 48       // '0'
  /** ".part" */
  const PartExt: Bytes := [46, 112, 97, 114, 116]
  /** ".tmp" */
  const TmpExt: Bytes := [46, 116, 109, 112]

  predicate IsDigit(b: uint8) { Digit0 <= b <= Digit0 + 9 }

  predicate AllDigits(s: Bytes) { forall k :: 0 <= k < |s| ==> IsDigit(s[k]) }

  // ---------------------------------------------------------------------------
  // Decimal numerals

  /** fmt's %d of a non-negative integer. */
  function Decimal(i: nat): (r: Bytes)
    ensures |r| >= 1 && AllDigits(r)
    ensures |r| == 1 <==> i < 10
    ensures |r| <= 2 <==> i < 100
    ensures |r| <= 3 <==> i < 1000
    ensures |r| <= 4 <==> i < 10000
  {
    if i < 10 then [Digit0 + i]
    else
      var d := Decimal(i / 10);
      d + [Digit0 + i % 10]
  }

  /** The value of a string of decimal digits (what Sscanf's %d reads from it). */
  function DigitsValue(s: Bytes): nat
    requires AllDigits(s)
  {
    if s == [] then 0 else DigitsValue(s[..|s| - 1]) * 10 + (s[|s| - 1] - Digit0)
  }

  function Repeat(b: uint8, n: nat): (r: Bytes)
    ensures |r| == n && forall k :: 0 <= k < n ==> r[k] == b
  {
    seq(n, _ => b)
  }

  /** fmt's %04d of a non-negative integer: at least four digits, zero-padded on the left. */
  function Pad4(i: nat): (r: Bytes)
    ensures AllDigits(r) && |r| >= 4
    ensures |r| == 4 <==> i < 10000
  {
    var d := Decimal(i);
    if |d| >= 4 then d else Repeat(Digit0, 4 - |d|) + d
  }

  lemma {:induction false} DigitsValueDecimal(i: nat)
    ensures DigitsValue(Decimal(i)) == i
  {
    if i >= 10 {
      var d := Decimal(i);
      assert d[..|d| - 1] == Decimal(i / 10);
      DigitsValueDecimal(i / 10);
    }
  }

  lemma {:induction false} DigitsValueLeadingZeros(n: nat, s: Bytes)
    requires AllDigits(s)
    ensures DigitsValue(Repeat(Digit0, n) + s) == DigitsValue(s)
  {
    if s == [] {
      if n > 0 {
        assert (Repeat(Digit0, n) + s)[..n - 1] == Repeat(Digit0, n - 1) + s;
        DigitsValueLeadingZeros(n - 1, s);
      }
    } else {
      var t := Repeat(Digit0, n) + s;
      assert t[..|t| - 1] == Repeat(Digit0, n) + s[..|s| - 1];
      DigitsValueLeadingZeros(n, s[..|s| - 1]);
    }
  }

  /** A %04d numeral reads back as the number it was made from. */
  lemma Pad4Value(i: nat)
    ensures DigitsValue(Pad4(i)) == i
  {
    var d := Decimal(i);
    DigitsValueDecimal(i);
    if |d| < 4 {
      DigitsValueLeadingZeros(4 - |d|, d);
    }
  }

  // ---------------------------------------------------------------------------
  // Fragment names

  /** fmt.Sprintf("%s_%04d.part", stem, i). */
  function ChunkName(stem: Bytes, i: nat): Bytes {
    stem + [Underscore] + Pad4(i) + PartExt
  }

  /**
   * The index that `checkFiles` reads from a file name: the name must end in
   * `_`, four decimal digits and `.part`; whatever comes before is free.
   */
  function ChunkIndex(name: Bytes): (r: Option<nat>)
    ensures r.Some? ==> r.value < 10000
  {
    if |name| >= 10 && HasSuffix(name, PartExt) && name[|name| - 10] == Underscore
       && AllDigits(name[|name| - 9..|name| - 5])
    then
      var digits := name[|name| - 9..|name| - 5];
      assert digits == Pad4(DigitsValue(digits)) || DigitsValue(digits) < 10000 by {
        DigitsValueBound(digits);
      }
      Some(DigitsValue(digits))
    else None
  }

  lemma {:induction false} DigitsValueBound(s: Bytes)
    requires AllDigits(s)
    ensures DigitsValue(s) < Pow10(|s|)
  {
    if s != [] { DigitsValueBound(s[..|s| - 1]); }
  }

  function Pow10(n: nat): nat { if n == 0 then 1 else 10 * Pow10(n - 1) }

  /**
   * The regular expression `_(\d{4})\.part$`: a name is a fragment name if
   * and only if it is some prefix, `_`, four digits and `.part`.
   */
  lemma ChunkIndexMatches(name: Bytes)
    ensures ChunkIndex(name).Some? <==>
      exists prefix: Bytes, digits: Bytes :: |digits| == 4 && AllDigits(digits)
        && name == prefix + [Underscore] + digits + PartExt
  {
    if ChunkIndex(name).Some? {
      var prefix, digits := name[..|name| - 10], name[|name| - 9..|name| - 5];
      assert name == prefix + [Underscore] + digits + PartExt;
    }
    if exists prefix: Bytes, digits: Bytes :: |digits| == 4 && AllDigits(digits)
        && name == prefix + [Underscore] + digits + PartExt {
      var prefix: Bytes, digits: Bytes :| |digits| == 4 && AllDigits(digits)
        && name == prefix + [Underscore] + digits + PartExt;
      assert name[|name| - 9..|name| - 5] == digits;
      assert name[|name| - 5..] == PartExt;
    }
  }

  /**
   * The name written for fragment `i` is found again with index `i`, as long
   * as `i` has at most four digits; from 10000 on, the name is not recognised.
   */
  lemma ChunkNameIndex(stem: Bytes, i: nat)
    ensures ChunkIndex(ChunkName(stem, i)) == if i < 10000 then Some(i) else None
  {
    var name := ChunkName(stem, i);
    var p := Pad4(i);
    assert name[|name| - 5..] == PartExt;
    if i < 10000 {
      assert name[|name| - 10] == Underscore;
      assert name[|name| - 9..|name| - 5] == p;
      Pad4Value(i);
    } else {
      assert |p| >= 5;
      assert name[|name| - 10] == p[|p| - 5];
    }
  }

  /** A leftover temporary first fragment (`.tmp`) is never taken for a fragment. */
  lemma TmpNotChunk(name: Bytes)
    requires HasSuffix(name, TmpExt)
    ensures ChunkIndex(name) == None
  {
    assert name[|name| - 1] == TmpExt[3];
    if |name| >= 5 {
      assert name[|name| - 5..][4] == name[|name| - 1];
    }
  }

  // ---------------------------------------------------------------------------
  // checkFiles

  /** `parsedChunk`: a fragment file found in the directory. */
  datatype ParsedChunk = ParsedChunk(first: bool, name: Path, index: nat)

  /** `c` describes a fragment file that lies directly in `dir`. */
  predicate IsMatch(fs: FileSystem, dir: Path, c: ParsedChunk) {
    c.name in fs && Dir(c.name) == dir && ChunkIndex(Base(c.name)) == Some(c.index)
    && c.first == (c.index == 0)
  }

  predicate SortedByIndex(s: seq<ParsedChunk>) {
    forall i, j :: 0 <= i < j < |s| ==> s[i].index <= s[j].index
  }

  predicate Distinct(s: seq<ParsedChunk>) {
    forall i, j :: 0 <= i < j < |s| ==> s[i] != s[j]
  }

  /**
   * What `checkFiles(dir)` may return: every fragment file of `dir` exactly
   * once, ascending by index. Between fragments with equal indices the order
   * is unspecified, as `sort.Slice` is not stable.
   */
  ghost predicate Discovered(fs: FileSystem, dir: Path, chunks: seq<ParsedChunk>) {
    && dir != []
    && SortedByIndex(chunks)
    && Distinct(chunks)
    && (forall c :: c in chunks <==> IsMatch(fs, dir, c))
  }

  function Insert(c: ParsedChunk, s: seq<ParsedChunk>): (r: seq<ParsedChunk>)
    requires SortedByIndex(s)
    ensures SortedByIndex(r) && multiset(r) == multiset(s) + multiset{c}
  {
    if s == [] || c.index <= s[0].index then [c] + s
    else
      var t := Insert(c, s[1..]);
      InsertBehind(c, s, t);
      [s[0]] + t
  }

  /** Inserting behind the head: the head stays first and the result stays sorted. */
  lemma InsertBehind(c: ParsedChunk, s: seq<ParsedChunk>, t: seq<ParsedChunk>)
    requires SortedByIndex(s) && s != [] && s[0].index < c.index
    requires SortedByIndex(t) && multiset(t) == multiset(s[1..]) + multiset{c}
    ensures SortedByIndex([s[0]] + t) && multiset([s[0]] + t) == multiset(s) + multiset{c}
  {
    assert s == [s[0]] + s[1..];
    forall x | x in t ensures s[0].index <= x.index {
      assert x in multiset(t);
      if x != c {
        assert x in multiset(s[1..]);
        var k :| 0 <= k < |s[1..]| && s[1..][k] == x;
        assert x == s[k + 1];
      }
    }
    var r := [s[0]] + t;
    forall i, j | 0 <= i < j < |r| ensures r[i].index <= r[j].index {
      if i == 0 {
        assert r[j] == t[j - 1];
      } else {
        assert r[i] == t[i - 1] && r[j] == t[j - 1];
      }
    }
  }

  /** sort.Slice(chunks, by index), written as an insertion sort. */
  function SortByIndex(s: seq<ParsedChunk>): (r: seq<ParsedChunk>)
    ensures SortedByIndex(r) && multiset(r) == multiset(s)
  {
    if s == [] then []
    else
      assert s == [s[0]] + s[1..];
      Insert(s[0], SortByIndex(s[1..]))
  }

  lemma {:induction false} DistinctCount(s: seq<ParsedChunk>, x: ParsedChunk)
    requires Distinct(s)
    ensures multiset(s)[x] <= 1
  {
    if s != [] {
      assert s == [s[0]] + s[1..];
      DistinctCount(s[1..], x);
      if x == s[0] {
        assert x !in s[1..];
      }
    }
  }

  /** A permutation of a sequence without repetitions has none either. */
  lemma PermutationDistinct(a: seq<ParsedChunk>, b: seq<ParsedChunk>)
    requires Distinct(a) && multiset(a) == multiset(b)
    ensures Distinct(b)
  {
    forall i, j | 0 <= i < j < |b| ensures b[i] != b[j] {
      if b[i] == b[j] {
        var x := b[i];
        assert b == b[..j] + [b[j]] + b[j + 1..];
        assert x in b[..j];
        assert multiset(b)[x] >= 2 by {
          assert multiset(b) == multiset(b[..j]) + multiset{x} + multiset(b[j + 1..]);
        }
        DistinctCount(a, x);
      }
    }
  }

  /**
   * checkFiles: lists `dir` (os.ReadDir fails on an empty name), keeps the
   * fragment files in whatever order the listing gives them, then sorts by
   * index. Each fragment is named by filepath.Join of the directory and the
   * entry, so by its cleaned path.
   */
  method CheckFiles(fs: FileSystem, dir: Path) returns (r: Option<seq<ParsedChunk>>)
    ensures r.None? <==> dir == []
    ensures r.Some? ==> Discovered(fs, Clean(dir), r.value)
  {
    if dir == [] {
      return None;
    }
    var d := Clean(dir);
    // os.ReadDir: the regular files directly inside `dir`, in no particular order
    var entries := set p | p in fs && Dir(p) == d;
    var rest := entries;
    var chunks: seq<ParsedChunk> := [];
    while rest != {}
      invariant rest <= entries
      invariant forall c :: c in chunks <==> IsMatch(fs, d, c) && c.name !in rest
      invariant Distinct(chunks)
      decreases rest
    {
      var p :| p in rest;
      rest := rest - {p};
      match ChunkIndex(Base(p)) {
        case None =>
        case Some(idx) =>
          assert forall c :: c in chunks ==> c.name != p;
          chunks := chunks + [ParsedChunk(idx == 0, p, idx)];
      }
    }
    var sorted := SortByIndex(chunks);
    assert forall c :: c in sorted <==> c in chunks by {
      forall c ensures c in sorted <==> c in chunks {
        assert c in sorted <==> c in multiset(sorted);
      }
    }
    PermutationDistinct(chunks, sorted);
    return Some(sorted);
  }

  // ---------------------------------------------------------------------------
  // Order independence

  predicate StrictlySorted(s: seq<ParsedChunk>) {
    forall i, j :: 0 <= i < j < |s| ==> s[i].index < s[j].index
  }

  /** No two fragment files of `dir` carry the same index. */
  ghost predicate UniqueIndices(fs: FileSystem, dir: Path) {
    forall c1, c2 :: IsMatch(fs, dir, c1) && IsMatch(fs, dir, c2) && c1.index == c2.index ==> c1 == c2
  }

  lemma DiscoveredStrictly(fs: FileSystem, dir: Path, chunks: seq<ParsedChunk>)
    requires Discovered(fs, dir, chunks) && UniqueIndices(fs, dir)
    ensures StrictlySorted(chunks)
  {
    forall i, j | 0 <= i < j < |chunks| ensures chunks[i].index < chunks[j].index {
      assert IsMatch(fs, dir, chunks[i]) && IsMatch(fs, dir, chunks[j]);
    }
  }

  lemma StrictTail(a: seq<ParsedChunk>)
    requires StrictlySorted(a) && a != []
    ensures forall c :: c in a[1..] <==> c in a && c.index > a[0].index
  {
    assert a == [a[0]] + a[1..];
  }

  lemma StrictMinimum(a: seq<ParsedChunk>, c: ParsedChunk)
    requires StrictlySorted(a) && c in a
    ensures a[0].index <= c.index && (c.index == a[0].index ==> c == a[0])
  {
    StrictTail(a);
  }

  lemma NoMembers(s: seq<ParsedChunk>)
    ensures (forall c :: c !in s) ==> s == []
  {
    if s != [] {
      assert s[0] in s;
    }
  }

  /** Two strictly sorted sequences with the same elements are the same sequence. */
  lemma {:induction false} StrictlySortedUnique(a: seq<ParsedChunk>, b: seq<ParsedChunk>)
    requires StrictlySorted(a) && StrictlySorted(b)
    requires forall c :: c in a <==> c in b
    ensures a == b
  {
    if a == [] {
      NoMembers(b);
    } else if b == [] {
      NoMembers(a);
    } else {
      StrictMinimum(a, b[0]);
      StrictMinimum(b, a[0]);
      StrictTail(a);
      StrictTail(b);
      assert a[0] == b[0];
      StrictlySortedUnique(a[1..], b[1..]);
      assert a == [a[0]] + a[1..] && b == [b[0]] + b[1..];
    }
  }

  /**
   * Discovery does not depend on the order of the directory listing: when no
   * two fragment files share an index, there is only one possible result.
   */
  lemma DiscoveryDeterministic(fs: FileSystem, dir: Path, a: seq<ParsedChunk>, b: seq<ParsedChunk>)
    requires Discovered(fs, dir, a) && Discovered(fs, dir, b) && UniqueIndices(fs, dir)
    ensures a == b
  {
    DiscoveredStrictly(fs, dir, a);
    DiscoveredStrictly(fs, dir, b);
    StrictlySortedUnique(a, b);
  }
}
