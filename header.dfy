/**
 * The header record that the splitter embeds at the front of fragment 0:
 * Go's `metadata` struct as `binary.Write(buf, binary.BigEndian, meta)`
 * lays it out. Fields follow each other with no padding:
 *   [0:32) Hash, [32:36) Total, [36:44) Size, [44:52) Time, [52:98) Name.
 */
module Header {
  import opened Bytes

  const HashSize: nat := 32
  const MaxFilenameLength: nat := 46
  /** binary.Size(metadata{}). */
  const HeaderSize: nat := 98

  /**
   * The digest the codec uses (SHA-256 in the source), left uninterpreted:
   * any function that always yields 32 bytes.
   */
  type Hasher = f: Bytes -> Bytes | forall s :: |f(s)| == HashSize witness ZeroDigest

  function ZeroDigest(s: Bytes): Bytes { Zeros(HashSize) }

  datatype Metadata = Metadata(hash: Bytes, total: uint32, size: int64, time: int64, name: Bytes)

  /** The fixed-size arrays of the Go struct have their declared lengths. */
  predicate WellFormed(m: Metadata) {
    |m.hash| == HashSize && |m.name| == MaxFilenameLength
  }

  /** The 98-byte big-endian image of a header. */
  function Encode(m: Metadata): (r: Bytes)
    requires WellFormed(m)
    ensures |r| == HeaderSize
    ensures r[..32] == m.hash && r[52..98] == m.name
    ensures DecodeUint32(r[32..36]) == m.total
    ensures DecodeInt64(r[36..44]) == m.size && DecodeInt64(r[44..52]) == m.time
  {
    var r := m.hash + EncodeUint32(m.total) + EncodeInt64(m.size) + EncodeInt64(m.time) + m.name;
    assert r[32..36] == EncodeUint32(m.total);
    assert r[36..44] == EncodeInt64(m.size);
    assert r[44..52] == EncodeInt64(m.time);
    DecodeEncodeUint32(m.total);
    DecodeEncodeInt64(m.size);
    DecodeEncodeInt64(m.time);
    r
  }

  /**
   * binary.Read of a header from the front of a file: it needs all 98 bytes
   * and fails on a shorter file; bytes after the header are not looked at.
   */
  function Decode(s: Bytes): (r: Option<Metadata>)
    ensures r.None? <==> |s| < HeaderSize
    ensures r.Some? ==> WellFormed(r.value)
    ensures r.Some? ==> r.value.hash == s[..32] && r.value.name == s[52..98]
  {
    if |s| < HeaderSize then None
    else Some(Metadata(s[..32], DecodeUint32(s[32..36]), DecodeInt64(s[36..44]),
                       DecodeInt64(s[44..52]), s[52..98]))
  }

  /** Decoding a header written by Encode gives back the record, whatever follows it. */
  lemma DecodeEncode(m: Metadata, rest: Bytes)
    requires WellFormed(m)
    ensures Decode(Encode(m) + rest) == Some(m)
  {
    var s := Encode(m) + rest;
    assert s[..HeaderSize] == Encode(m);
    assert s[..32] == Encode(m)[..32] && s[52..98] == Encode(m)[52..98];
    assert s[32..36] == Encode(m)[32..36];
    assert s[36..44] == Encode(m)[36..44] && s[44..52] == Encode(m)[44..52];
  }

  /** Every 98-byte prefix is the image of exactly the record Decode returns. */
  lemma EncodeDecode(s: Bytes)
    requires |s| >= HeaderSize
    ensures Decode(s).Some? && Encode(Decode(s).value) == s[..HeaderSize]
  {
    var m := Decode(s).value;
    EncodeDecodeUint32(s[32..36]);
    EncodeDecodeInt64(s[36..44]);
    EncodeDecodeInt64(s[44..52]);
    assert s[..HeaderSize] == s[..32] + s[32..36] + s[36..44] + s[44..52] + s[52..98];
  }

  /** Two records with the same image are the same record. */
  lemma EncodeInjective(m1: Metadata, m2: Metadata)
    requires WellFormed(m1) && WellFormed(m2) && Encode(m1) == Encode(m2)
    ensures m1 == m2
  {
    DecodeEncode(m1, []);
    DecodeEncode(m2, []);
    assert Encode(m1) + [] == Encode(m2) + [];
  }
}
