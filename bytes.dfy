/**
 * Byte-level vocabulary shared by the whole model: the fixed-width integer
 * types of the Go source, big-endian integer images as `encoding/binary`
 * writes them, and the handful of `bytes`/`strings` helpers the codec uses.
 *
 * Go strings are byte strings, so file names and paths are modelled as
 * `Bytes` too; the few literals the code needs are spelled out as byte lists.
 */
module Bytes {

  type uint8 = x: int | 0 <= x < 0x100
  type uint32 = x: int | 0 <= x < 0x1_0000_0000
  type int64 = x: int | -0x8000_0000_0000_0000 <= x < 0x8000_0000_0000_0000
  type Bytes = seq<uint8>

  const MaxInt64: int := 0x7FFF_FFFF_FFFF_FFFF

  datatype Option<+T> = None | Some(value: T)

  function Min(a: int, b: int): int { if a <= b then a else b }

  lemma SplitAt<T>(s: seq<T>, k: nat)
    requires k <= |s|
    ensures s[..k] + s[k..] == s
  {
  }

  lemma HeadTail<T>(s: seq<T>)
    requires s != []
    ensures s == [s[0]] + s[1..]
  {
  }

  lemma TakeSnoc<T>(s: seq<T>, n: nat)
    requires 0 < n <= |s|
    ensures s[..n] == s[..n - 1] + [s[n - 1]]
  {
  }

  lemma AppendAssoc<T>(a: seq<T>, b: seq<T>, c: seq<T>)
    ensures a + b + c == a + (b + c)
  {
  }

  /** The first `n` bytes of `s`, or all of it when it is shorter. */
  function Take(s: Bytes, n: nat): Bytes { s[..Min(n, |s|)] }

  // ---------------------------------------------------------------------------
  // Big-endian unsigned integers

  function Pow256(n: nat): (r: nat)
    ensures r >= 1
  {
    if n == 0 then 1 else 256 * Pow256(n - 1)
  }

  /** The big-endian image of `x` in `width` bytes (most significant first). */
  function EncodeBE(x: nat, width: nat): (r: Bytes)
    requires x < Pow256(width)
    ensures |r| == width
  {
    if width == 0 then []
    else
      assert x / 256 < Pow256(width - 1);
      EncodeBE(x / 256, width - 1) + [x % 256]
  }

  /** The unsigned value of a big-endian byte string. */
  function DecodeBE(s: Bytes): (r: nat)
    ensures r < Pow256(|s|)
  {
    if s == [] then 0
    else
      var hi := DecodeBE(s[..|s| - 1]);
      assert hi * 256 + s[|s| - 1] < Pow256(|s|) by {
        assert hi <= Pow256(|s| - 1) - 1;
        assert hi * 256 <= Pow256(|s| - 1) * 256 - 256;
      }
      hi * 256 + s[|s| - 1]
  }

  lemma {:induction false} DecodeEncodeBE(x: nat, width: nat)
    requires x < Pow256(width)
    ensures DecodeBE(EncodeBE(x, width)) == x
  {
    if width > 0 {
      var e := EncodeBE(x, width);
      assert x / 256 < Pow256(width - 1);
      assert e[..width - 1] == EncodeBE(x / 256, width - 1);
      DecodeEncodeBE(x / 256, width - 1);
    }
  }

  lemma {:induction false} EncodeDecodeBE(s: Bytes)
    ensures EncodeBE(DecodeBE(s), |s|) == s
  {
    if s != [] {
      var init := s[..|s| - 1];
      var v := DecodeBE(s);
      assert v / 256 == DecodeBE(init) && v % 256 == s[|s| - 1];
      EncodeDecodeBE(init);
      assert s == init + [s[|s| - 1]];
    }
  }

  // ---------------------------------------------------------------------------
  // Two's-complement int64, as binary.BigEndian writes a Go int64

  const TwoTo63: int := 0x8000_0000_0000_0000
  const TwoTo64: int := 0x1_0000_0000_0000_0000

  lemma Pow256Eight()
    ensures Pow256(8) == TwoTo64 && Pow256(4) == 0x1_0000_0000
  {
    assert Pow256(4) == 0x1_0000_0000;
    assert Pow256(8) == Pow256(4) * Pow256(4) by {
      assert Pow256(8) == 256 * 256 * 256 * 256 * Pow256(4);
    }
  }

  function EncodeInt64(x: int64): (r: Bytes)
    ensures |r| == 8
  {
    Pow256Eight();
    EncodeBE(if x < 0 then x + TwoTo64 else x, 8)
  }

  function DecodeInt64(s: Bytes): int64
    requires |s| == 8
  {
    Pow256Eight();
    var u := DecodeBE(s);
    if u >= TwoTo63 then u - TwoTo64 else u
  }

  lemma DecodeEncodeInt64(x: int64)
    ensures DecodeInt64(EncodeInt64(x)) == x
  {
    Pow256Eight();
    DecodeEncodeBE(if x < 0 then x + TwoTo64 else x, 8);
  }

  lemma EncodeDecodeInt64(s: Bytes)
    requires |s| == 8
    ensures EncodeInt64(DecodeInt64(s)) == s
  {
    Pow256Eight();
    EncodeDecodeBE(s);
  }

  function EncodeUint32(x: uint32): (r: Bytes)
    ensures |r| == 4
  {
    Pow256Eight();
    EncodeBE(x, 4)
  }

  function DecodeUint32(s: Bytes): uint32
    requires |s| == 4
  {
    Pow256Eight();
    DecodeBE(s)
  }

  lemma DecodeEncodeUint32(x: uint32)
    ensures DecodeUint32(EncodeUint32(x)) == x
  {
    Pow256Eight();
    DecodeEncodeBE(x, 4);
  }

  lemma EncodeDecodeUint32(s: Bytes)
    requires |s| == 4
    ensures EncodeUint32(DecodeUint32(s)) == s
  {
    Pow256Eight();
    EncodeDecodeBE(s);
  }

  // ---------------------------------------------------------------------------
  // bytes / strings helpers

  predicate HasSuffix(s: Bytes, suffix: Bytes) {
    |suffix| <= |s| && s[|s| - |suffix|..] == suffix
  }

  function TrimSuffix(s: Bytes, suffix: Bytes): (r: Bytes)
    ensures HasSuffix(s, suffix) ==> r == s[..|s| - |suffix|]
    ensures !HasSuffix(s, suffix) ==> r == s
  {
    if HasSuffix(s, suffix) then s[..|s| - |suffix|] else s
  }

  /** `pat` occurs in `s` starting at position `j`. */
  predicate OccursAt(s: Bytes, pat: Bytes, j: int) {
    0 <= j && j + |pat| <= |s| && s[j..j + |pat|] == pat
  }

  /** An occurrence past the first byte is an occurrence in the rest. */
  lemma OccursShift(s: Bytes, pat: Bytes, j: int)
    requires s != [] && 1 <= j
    ensures OccursAt(s, pat, j) <==> OccursAt(s[1..], pat, j - 1)
  {
    if j + |pat| <= |s| {
      var a, b := s[j..j + |pat|], s[1..][j - 1..j - 1 + |pat|];
      assert |a| == |b|;
      forall k | 0 <= k < |a| ensures a[k] == b[k] {
        assert a[k] == s[j + k] && b[k] == s[j + k];
      }
      assert a == b;
    }
  }

  /** Index of the leftmost occurrence of a non-empty `pat` in `s`. */
  function IndexOf(s: Bytes, pat: Bytes): (r: Option<nat>)
    requires pat != []
    ensures r.Some? ==> OccursAt(s, pat, r.value)
    ensures r.Some? ==> forall j :: 0 <= j < r.value ==> !OccursAt(s, pat, j)
    ensures r.None? ==> forall j :: !OccursAt(s, pat, j)
  {
    if |s| < |pat| then None
    else if s[..|pat|] == pat then Some(0)
    else
      var rest := IndexOf(s[1..], pat);
      assert forall j :: 1 <= j ==> (OccursAt(s, pat, j) <==> OccursAt(s[1..], pat, j - 1)) by {
        forall j | 1 <= j ensures OccursAt(s, pat, j) <==> OccursAt(s[1..], pat, j - 1) {
          OccursShift(s, pat, j);
        }
      }
      assert !OccursAt(s, pat, 0);
      match rest
      case None => None
      case Some(k) => Some(k + 1)
  }

  /** strings.Replace(s, pat, repl, 1): replaces the leftmost occurrence only. */
  function ReplaceFirst(s: Bytes, pat: Bytes, repl: Bytes): (r: Bytes)
    requires pat != []
    ensures IndexOf(s, pat).None? ==> r == s
    ensures IndexOf(s, pat).Some? ==>
      var i := IndexOf(s, pat).value;
      r == s[..i] + repl + s[i + |pat|..]
  {
    match IndexOf(s, pat)
    case None => s
    case Some(i) => s[..i] + repl + s[i + |pat|..]
  }

  /** Replacing a pattern found only at the very end of `j + pat` swaps that end for `repl`. */
  lemma ReplaceAtEnd(j: Bytes, pat: Bytes, repl: Bytes)
    requires pat != [] && IndexOf(j + pat, pat) == Some(|j|)
    ensures ReplaceFirst(j + pat, pat, repl) == j + repl
  {
    assert (j + pat)[..|j|] == j;
    assert (j + pat)[|j| + |pat|..] == [];
  }

  /** bytes.Trim(s, "\x00"): strips NUL bytes from both ends. */
  function TrimZeros(s: Bytes): Bytes {
    TrimTrailingZeros(TrimLeadingZeros(s))
  }

  function TrimLeadingZeros(s: Bytes): Bytes {
    if s != [] && s[0] == 0 then TrimLeadingZeros(s[1..]) else s
  }

  function TrimTrailingZeros(s: Bytes): Bytes {
    if s != [] && s[|s| - 1] == 0 then TrimTrailingZeros(s[..|s| - 1]) else s
  }

  function Zeros(n: nat): (r: Bytes)
    ensures |r| == n && forall k :: 0 <= k < n ==> r[k] == 0
  {
    seq(n, _ => 0)
  }

  lemma {:induction false} TrimTrailingPadding(name: Bytes, padding: nat)
    requires name == [] || name[|name| - 1] != 0
    ensures TrimTrailingZeros(name + Zeros(padding)) == name
  {
    if padding > 0 {
      assert (name + Zeros(padding))[..|name| + padding - 1] == name + Zeros(padding - 1);
      TrimTrailingPadding(name, padding - 1);
    } else {
      assert name + Zeros(0) == name;
    }
  }

  lemma {:induction false} TrimLeadingAllZeros(n: nat)
    ensures TrimLeadingZeros(Zeros(n)) == []
  {
    if n > 0 {
      assert Zeros(n)[1..] == Zeros(n - 1);
      TrimLeadingAllZeros(n - 1);
    }
  }

  /**
   * A name written into a zero-padded field comes back from bytes.Trim
   * unchanged, provided it has no NUL byte at either end.
   */
  lemma TrimZerosPadded(name: Bytes, padding: nat)
    requires name == [] || (name[0] != 0 && name[|name| - 1] != 0)
    ensures TrimZeros(name + Zeros(padding)) == name
  {
    if name == [] {
      assert name + Zeros(padding) == Zeros(padding);
      TrimLeadingAllZeros(padding);
    } else {
      TrimTrailingPadding(name, padding);
    }
  }
}
