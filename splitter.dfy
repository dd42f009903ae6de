/**
 * `SplitFile` and `injectMetadata`: the source is read in buffer-sized
 * pieces, piece `i` is written as `<stem>_%04d.part` (piece 0 under a
 * temporary name in which the first "part" of the full path became "tmp"),
 * and the header is then put in front of piece 0 under the `.part` name
 * rebuilt from the temporary name's extension.
 */
module Splitter {
  import opened Bytes
  import opened Paths
  import opened Header
  import opened Discovery
  import opened Errors

  const MinChunks: int := 2
  /** "part", the word strings.Replace looks for in piece 0's path */
  const PartWord: Bytes := [112, 97, 114, 116]
  /** "tmp" */
  const TmpWord: Bytes := [116, 109, 112]

  /** The open file handed to SplitFile: the name it was opened under and its contents. */
  datatype SourceFile = SourceFile(name: Path, content: Bytes)

  /** A file name without its extension. */
  function Stem(name: Path): (r: Path)
    ensures r == name[..|name| - |Ext(name)|]
  {
    TrimSuffix(name, Ext(name))
  }

  // ---------------------------------------------------------------------------
  // Sizes

  /** chunkSize = fileSize/chunks + 1, the length of the read buffer. */
  function BufferSize(size: nat, chunks: int): (b: nat)
    requires chunks >= MinChunks
    ensures b >= 1
  {
    size / chunks + 1
  }

  /** `chunks` buffers of that size hold the whole source. */
  lemma BufferCovers(size: nat, chunks: int)
    requires chunks >= MinChunks
    ensures size < BufferSize(size, chunks) * chunks
  {
  }

  /** How many non-empty reads a source of `size` bytes takes with a `b`-byte buffer. */
  function FragmentCount(size: nat, b: nat): nat
    requires b >= 1
  {
    (size + b - 1) / b
  }

  lemma MulLe(x: nat, y: nat, b: nat)
    requires x <= y
    ensures x * b <= y * b
  {
  }

  /** Fragment `i` starts inside the source exactly when `i` is below the fragment count. */
  lemma CountBelow(size: nat, b: nat, i: nat)
    requires b >= 1
    ensures i * b < size <==> i < FragmentCount(size, b)
  {
    var k := FragmentCount(size, b);
    assert k * b <= size + b - 1 < k * b + b;
    if i < k {
      MulLe(i + 1, k, b);
      assert (i + 1) * b == i * b + b;
    } else {
      MulLe(k, i, b);
    }
  }

  /**
   * The split writes at most the requested number of fragments, and none at
   * all for an empty source: k = ceil(L/B) <= C.
   */
  lemma FragmentCountBound(size: nat, chunks: int)
    requires chunks >= MinChunks
    ensures FragmentCount(size, BufferSize(size, chunks)) <= chunks
    ensures FragmentCount(size, BufferSize(size, chunks)) == 0 <==> size == 0
  {
    var b := BufferSize(size, chunks);
    BufferCovers(size, chunks);
    CountBelow(size, b, chunks);
    CountBelow(size, b, 0);
  }

  /** Fewer fragments than requested: 5 bytes in 4 give 3, 2 bytes in 2 give 1. */
  lemma FewerFragmentsThanRequested()
    ensures FragmentCount(5, BufferSize(5, 4)) == 3
    ensures FragmentCount(2, BufferSize(2, 2)) == 1
  {
  }

  /** The bytes of the `i`-th read: source[i*B .. min((i+1)*B, L)). */
  function Fragment(data: Bytes, b: nat, i: nat): (r: Bytes)
    requires b >= 1 && i < FragmentCount(|data|, b)
    ensures 1 <= |r| <= b
  {
    CountBelow(|data|, b, i);
    data[i * b .. Min((i + 1) * b, |data|)]
  }

  /** The first read takes the first `b` bytes, or all of them when there are fewer. */
  lemma FirstFragment(data: Bytes, b: nat)
    requires b >= 1 && 0 < FragmentCount(|data|, b)
    ensures Fragment(data, b, 0) == Take(data, b)
  {
    assert 0 * b == 0 && (0 + 1) * b == b;
  }

  /** The first `n` fragments, one after the other. */
  function Fragments(data: Bytes, b: nat, n: nat): Bytes
    requires b >= 1 && n <= FragmentCount(|data|, b)
  {
    if n == 0 then [] else Fragments(data, b, n - 1) + Fragment(data, b, n - 1)
  }

  lemma {:induction false} FragmentsPrefix(data: Bytes, b: nat, n: nat)
    requires b >= 1 && n <= FragmentCount(|data|, b)
    ensures Fragments(data, b, n) == data[..Min(n * b, |data|)]
  {
    if n > 0 {
      FragmentsPrefix(data, b, n - 1);
      CountBelow(|data|, b, n - 1);
      assert (n - 1) * b + b == n * b;
      assert data[..Min(n * b, |data|)]
          == data[..(n - 1) * b] + data[(n - 1) * b .. Min(n * b, |data|)];
    }
  }

  /** The fragments tile the source: their concatenation in index order is the whole file. */
  lemma FragmentsTile(data: Bytes, b: nat)
    requires b >= 1
    ensures Fragments(data, b, FragmentCount(|data|, b)) == data
  {
    var k := FragmentCount(|data|, b);
    FragmentsPrefix(data, b, k);
    CountBelow(|data|, b, k);
  }

  // ---------------------------------------------------------------------------
  // Names

  /** The full path fragment 0 is first written to. */
  function TempPath(outDir: Path, stem: Path): Path {
    ReplaceFirst(Join(outDir, ChunkName(stem, 0)), PartWord, TmpWord)
  }

  /** The path fragment `i` is first written to. */
  function FragmentPath(outDir: Path, stem: Path, i: nat): Path {
    if i == 0 then TempPath(outDir, stem) else Join(outDir, ChunkName(stem, i))
  }

  /** injectMetadata's destination: the temporary path with its extension replaced by `.part`. */
  function FinalPath(chunkPath: Path): Path {
    Join(Dir(chunkPath), Stem(Base(chunkPath)) + PartExt)
  }

  lemma JoinInjective(d: Path, x: Path, y: Path)
    requires x != [] && y != [] && Join(d, x) == Join(d, y)
    ensures x == y
  {
    if d != [] && d != CurrentDir {
      var pre := if d[|d| - 1] == Slash then d else d + [Slash];
      assert Join(d, x) == pre + x && Join(d, y) == pre + y;
      assert x == (pre + x)[|pre|..];
      assert y == (pre + y)[|pre|..];
    }
  }

  lemma JoinLength(d: Path, x: Path, y: Path)
    requires x != [] && y != [] && |x| <= |y|
    ensures |Join(d, x)| <= |Join(d, y)|
  {
  }

  lemma ChunkNameInjective(stem: Path, i: nat, j: nat)
    requires ChunkName(stem, i) == ChunkName(stem, j)
    ensures i == j
  {
    var n := ChunkName(stem, i);
    assert |Pad4(i)| == |Pad4(j)|;
    assert Pad4(i) == n[|stem| + 1 .. |stem| + 1 + |Pad4(i)|];
    assert Pad4(j) == n[|stem| + 1 .. |stem| + 1 + |Pad4(j)|];
    Pad4Value(i);
    Pad4Value(j);
  }

  lemma TempPathShape(outDir: Path, stem: Path)
    ensures |TempPath(outDir, stem)| + 1 == |Join(outDir, ChunkName(stem, 0))|
  {
    var full := Join(outDir, ChunkName(stem, 0));
    var n0 := stem + [Underscore] + Pad4(0) + PartExt;
    assert n0 == (stem + [Underscore] + Pad4(0) + [Dot]) + PartWord;
    JoinAppend(outDir, stem + [Underscore] + Pad4(0) + [Dot], PartWord);
    assert OccursAt(full, PartWord, |full| - 4);
  }

  /** Different fragments are written to different paths. */
  lemma FragmentPathsDistinct(outDir: Path, stem: Path, i: nat, j: nat)
    requires i != j
    ensures FragmentPath(outDir, stem, i) != FragmentPath(outDir, stem, j)
  {
    if i != 0 && j != 0 {
      if Join(outDir, ChunkName(stem, i)) == Join(outDir, ChunkName(stem, j)) {
        JoinInjective(outDir, ChunkName(stem, i), ChunkName(stem, j));
        ChunkNameInjective(stem, i, j);
      }
    } else {
      var k := if i == 0 then j else i;
      TempPathShape(outDir, stem);
      JoinLength(outDir, ChunkName(stem, 0), ChunkName(stem, k));
    }
  }

  // ---------------------------------------------------------------------------
  // The header

  /** copy(meta.Name[:], nameBase): the first 46 bytes of the name, zero-padded. */
  function NameField(name: Bytes): (r: Bytes)
    ensures |r| == MaxFilenameLength
  {
    if |name| >= MaxFilenameLength then name[..MaxFilenameLength]
    else name + Zeros(MaxFilenameLength - |name|)
  }

  /** The header SplitFile builds: requested count (as uint32), size, time, name and digest. */
  function HeaderFor(src: SourceFile, chunks: int, now: int64, sha: Hasher): (m: Metadata)
    requires |src.content| <= MaxInt64
    ensures WellFormed(m)
  {
    Metadata(sha(src.content), chunks % 0x1_0000_0000, |src.content|, now, NameField(Base(src.name)))
  }

  // ---------------------------------------------------------------------------
  // The file system effect

  /** The file system after the first `n` reads have been written out. */
  function WriteFragments(fs: FileSystem, data: Bytes, outDir: Path, stem: Path, b: nat, n: nat): FileSystem
    requires b >= 1 && n <= FragmentCount(|data|, b)
  {
    if n == 0 then fs
    else WriteFragments(fs, data, outDir, stem, b, n - 1)[FragmentPath(outDir, stem, n - 1) := Fragment(data, b, n - 1)]
  }

  /** After the writes, fragment `i` holds its bytes and every other path is as it was. */
  lemma {:induction false} WriteFragmentsContents(fs: FileSystem, data: Bytes, outDir: Path, stem: Path, b: nat, n: nat)
    requires b >= 1 && n <= FragmentCount(|data|, b)
    ensures forall i :: 0 <= i < n ==>
      Holds(WriteFragments(fs, data, outDir, stem, b, n), FragmentPath(outDir, stem, i), Fragment(data, b, i))
    ensures forall p :: (forall i :: 0 <= i < n ==> p != FragmentPath(outDir, stem, i)) ==>
      SameAt(fs, WriteFragments(fs, data, outDir, stem, b, n), p)
  {
    forall i | 0 <= i < n
      ensures Holds(WriteFragments(fs, data, outDir, stem, b, n), FragmentPath(outDir, stem, i), Fragment(data, b, i))
    {
      WriteFragmentAt(fs, data, outDir, stem, b, n, i);
    }
    forall p | forall i :: 0 <= i < n ==> p != FragmentPath(outDir, stem, i)
      ensures SameAt(fs, WriteFragments(fs, data, outDir, stem, b, n), p)
    {
      WriteFragmentsFrame(fs, data, outDir, stem, b, n, p);
    }
  }

  /** Fragment `i` is still there after the later writes. */
  lemma {:induction false} WriteFragmentAt(fs: FileSystem, data: Bytes, outDir: Path, stem: Path, b: nat, n: nat, i: nat)
    requires b >= 1 && i < n <= FragmentCount(|data|, b)
    ensures Holds(WriteFragments(fs, data, outDir, stem, b, n), FragmentPath(outDir, stem, i), Fragment(data, b, i))
  {
    var prev := WriteFragments(fs, data, outDir, stem, b, n - 1);
    var last := FragmentPath(outDir, stem, n - 1);
    assert WriteFragments(fs, data, outDir, stem, b, n) == prev[last := Fragment(data, b, n - 1)];
    if i < n - 1 {
      WriteFragmentAt(fs, data, outDir, stem, b, n - 1, i);
      FragmentPathsDistinct(outDir, stem, i, n - 1);
      HoldsAfterWrite(prev, last, Fragment(data, b, n - 1), FragmentPath(outDir, stem, i), Fragment(data, b, i));
    }
  }

  /** A path none of the writes names keeps what it held. */
  lemma {:induction false} WriteFragmentsFrame(fs: FileSystem, data: Bytes, outDir: Path, stem: Path, b: nat, n: nat, p: Path)
    requires b >= 1 && n <= FragmentCount(|data|, b)
    requires forall i :: 0 <= i < n ==> p != FragmentPath(outDir, stem, i)
    ensures SameAt(fs, WriteFragments(fs, data, outDir, stem, b, n), p)
  {
    if n > 0 {
      WriteFragmentsFrame(fs, data, outDir, stem, b, n - 1, p);
    }
  }

  /**
   * injectMetadata: opens the temporary file (failing for a missing file or
   * the empty path), writes header ++ its bytes to the `.part` path, then
   * removes the temporary file.
   *
   * When the `.part` path is the temporary file itself, os.Create truncates
   * the file the source handle still reads, the header is written, and
   * io.Copy then reads back the bytes it appends itself, so it ends only
   * when a write fails: the call returns the copy error, the fragment's own
   * bytes are gone and the file is not removed. The model keeps the header
   * as that file's contents.
   */
  function Inject(fs: FileSystem, chunkPath: Path, meta: Metadata): (Status, FileSystem)
    requires WellFormed(meta)
  {
    if chunkPath == [] || chunkPath !in fs then (Err(OpenFailed(chunkPath)), fs)
    else if FinalPath(chunkPath) == chunkPath then (Err(CopyFailed(chunkPath)), fs[chunkPath := Encode(meta)])
    else
      var written := fs[FinalPath(chunkPath) := Encode(meta) + fs[chunkPath]];
      (Ok, written - {chunkPath})
  }

  /** What SplitFile returns and leaves behind. */
  function SplitSpec(fs: FileSystem, src: SourceFile, outDir: Path, chunks: int, now: int64, sha: Hasher)
    : (Status, FileSystem)
    requires |src.content| <= MaxInt64
  {
    if chunks < MinChunks then (Err(TooFewChunks), fs)
    else if outDir == [] then (Err(MkdirFailed), fs)
    else
      var data := src.content;
      var b := BufferSize(|data|, chunks);
      var k := FragmentCount(|data|, b);
      var stem := Stem(Base(src.name));
      var first := if |data| == 0 then [] else TempPath(outDir, stem);
      Inject(WriteFragments(fs, data, outDir, stem, b, k), first, HeaderFor(src, chunks, now, sha))
  }

  /** One read: the buffer takes fragment `i`, and the offset moves to where fragment `i + 1` starts. */
  lemma ReadStep(data: Bytes, b: nat, i: nat, offset: nat)
    requires b >= 1 && offset == Min(i * b, |data|) && offset < |data|
    ensures i < FragmentCount(|data|, b)
    ensures offset + Min(b, |data| - offset) == Min((i + 1) * b, |data|)
    ensures i + 1 <= FragmentCount(|data|, b)
    ensures data[offset .. offset + Min(b, |data| - offset)] == Fragment(data, b, i)
  {
    CountBelow(|data|, b, i);
    assert (i + 1) * b == i * b + b;
  }

  /** Writing read `i` to the path the loop computes extends the file system by fragment `i`. */
  lemma WriteStep(fs: FileSystem, data: Bytes, outDir: Path, stem: Path, b: nat, i: nat, fullPath: Path)
    requires b >= 1 && i < FragmentCount(|data|, b)
    requires fullPath == if i == 0 then ReplaceFirst(Join(outDir, ChunkName(stem, i)), PartWord, TmpWord)
                         else Join(outDir, ChunkName(stem, i))
    ensures WriteFragments(fs, data, outDir, stem, b, i)[fullPath := Fragment(data, b, i)]
         == WriteFragments(fs, data, outDir, stem, b, i + 1)
    ensures i == 0 ==> fullPath == TempPath(outDir, stem)
  {
  }

  /** Feeding the next read to the digest: what it has seen stays a prefix of the source. */
  lemma Feed(data: Bytes, hashed: Bytes, offset: nat, n: nat)
    requires offset + n <= |data| && hashed == data[..offset]
    ensures hashed + data[offset..offset + n] == data[..offset + n]
  {
    assert data[..offset + n] == data[..offset] + data[offset..offset + n];
  }

  lemma TakeAll(data: Bytes)
    ensures data[..|data|] == data
  {
  }

  /**
   * The read loop of SplitFile: reads the source with a `chunkSize` buffer
   * until end of file, writes each non-empty read as the next fragment (the
   * first under the temporary name, remembered in `firstChunk`), and feeds
   * every byte read to the digest, whose input is returned as `hashed`.
   */
  method WriteReads(fs: FileSystem, data: Bytes, outDir: Path, stem: Path, chunkSize: nat)
    returns (fs': FileSystem, hashed: Bytes, firstChunk: Path)
    requires chunkSize >= 1
    ensures fs' == WriteFragments(fs, data, outDir, stem, chunkSize, FragmentCount(|data|, chunkSize))
    ensures hashed == data
    ensures firstChunk == if |data| == 0 then [] else TempPath(outDir, stem)
  {
    var fileSize := |data|;
    ghost var k := FragmentCount(fileSize, chunkSize);
    firstChunk := [];
    hashed := [];
    fs' := fs;
    var offset: nat := 0;
    var i: nat := 0;
    while offset < fileSize
      invariant i <= k && offset == Min(i * chunkSize, fileSize)
      invariant hashed == data[..offset]
      invariant fs' == WriteFragments(fs, data, outDir, stem, chunkSize, i)
      invariant firstChunk == if i == 0 then [] else TempPath(outDir, stem)
      decreases fileSize - offset
    {
      ReadStep(data, chunkSize, i, offset);
      // file.Read fills the buffer, except for the last piece
      var n := Min(chunkSize, fileSize - offset);
      var fullPath := Join(outDir, ChunkName(stem, i));
      if i == 0 {
        fullPath := ReplaceFirst(fullPath, PartWord, TmpWord);
        firstChunk := fullPath;
      }
      var piece := data[offset .. offset + n];
      WriteStep(fs, data, outDir, stem, chunkSize, i, fullPath);
      fs' := fs'[fullPath := piece];
      Feed(data, hashed, offset, n);
      hashed := hashed + piece;
      offset := offset + n;
      i := i + 1;
    }
    // the next read reports io.EOF
    CountBelow(fileSize, chunkSize, i);
    CountBelow(fileSize, chunkSize, 0);
    TakeAll(data);
  }

  /**
   * SplitFile: checks the chunk count, sizes the read buffer, runs the read
   * loop, and on end of file puts the header in front of fragment 0.
   */
  method SplitFile(fs: FileSystem, src: SourceFile, outDir: Path, chunks: int, now: int64, sha: Hasher)
    returns (status: Status, fs': FileSystem)
    requires |src.content| <= MaxInt64
    ensures (status, fs') == SplitSpec(fs, src, DirArg(outDir), chunks, now, sha)
  {
    if chunks < MinChunks {
      return Err(TooFewChunks), fs;
    }
    if outDir == [] {
      return Err(MkdirFailed), fs;
    }
    // every fragment path is filepath.Join(outDir, name), so lies in the cleaned directory
    var dir := DirArg(outDir);
    var fileSize := |src.content|;
    var chunkSize := BufferSize(fileSize, chunks);
    var nameBase := Base(src.name);
    var meta := Metadata(Zeros(HashSize), chunks % 0x1_0000_0000, fileSize, now, NameField(nameBase));
    var written, hashed, firstChunk := WriteReads(fs, src.content, dir, Stem(nameBase), chunkSize);
    meta := meta.(hash := sha(hashed));
    var injected := Inject(written, firstChunk, meta);
    status, fs' := injected.0, injected.1;
  }

  // ---------------------------------------------------------------------------
  // Properties of a split

  /** Fewer than two chunks, or no output directory: an error, and nothing is written. */
  lemma SplitRejects(fs: FileSystem, src: SourceFile, outDir: Path, chunks: int, now: int64, sha: Hasher)
    requires |src.content| <= MaxInt64 && (chunks < MinChunks || outDir == [])
    ensures SplitSpec(fs, src, outDir, chunks, now, sha).0.Err?
    ensures SplitSpec(fs, src, outDir, chunks, now, sha).1 == fs
  {
  }

  /**
   * An empty source gives no read, so `firstChunk` stays empty and opening
   * it fails; no file is written.
   */
  lemma SplitEmptySource(fs: FileSystem, name: Path, outDir: Path, chunks: int, now: int64, sha: Hasher)
    requires chunks >= MinChunks && outDir != []
    ensures SplitSpec(fs, SourceFile(name, []), outDir, chunks, now, sha) == (Err(OpenFailed([])), fs)
  {
    FragmentCountBound(0, chunks);
  }

  /** The header: requested count (not the number written), size, time, truncated name, digest. */
  lemma HeaderFields(src: SourceFile, chunks: int, now: int64, sha: Hasher)
    requires |src.content| <= MaxInt64 && chunks >= MinChunks
    ensures var m := HeaderFor(src, chunks, now, sha);
      && m.total == chunks % 0x1_0000_0000
      && (chunks < 0x1_0000_0000 ==> m.total == chunks)
      && m.size == |src.content| && m.time == now && m.hash == sha(src.content)
      && var base := Base(src.name);
         m.name == base[..Min(|base|, MaxFilenameLength)] + Zeros(MaxFilenameLength - Min(|base|, MaxFilenameLength))
  {
    var m := HeaderFor(src, chunks, now, sha);
    var base := Base(src.name);
    var c := Min(|base|, MaxFilenameLength);
    assert m.name == m.name[..c] + m.name[c..];
  }

  /** ExtBefore finds the dot at `j` when nothing between it and `i` is a dot or a slash. */
  lemma {:induction false} ExtBeforeFinds(p: Path, i: nat, j: nat)
    requires j < i <= |p| && p[j] == Dot
    requires forall k :: j < k < i ==> p[k] != Dot && p[k] != Slash
    ensures ExtBefore(p, i) == p[j..]
  {
    if i - 1 != j {
      ExtBeforeFinds(p, i - 1, j);
    }
  }

  /** The first "part" of the full path is the one in its `.part` extension. */
  predicate FirstPartIsExtension(outDir: Path, stem: Path) {
    var full := Join(outDir, ChunkName(stem, 0));
    IndexOf(full, PartWord) == Some(|full| - 4)
  }

  lemma Pad4Zero()
    ensures Pad4(0) == [Digit0, Digit0, Digit0, Digit0]
  {
  }

  /** `<stem>_0000.tmp`, the name fragment 0 is written under when the first "part" is its extension. */
  function TmpName(stem: Path): Path {
    stem + [Underscore] + Pad4(0) + TmpExt
  }

  /** When the first "part" is the extension, the temporary file is `<stem>_0000.tmp`. */
  lemma TempPathIsTmp(outDir: Path, stem: Path)
    requires FirstPartIsExtension(outDir, stem)
    ensures TempPath(outDir, stem) == Join(outDir, TmpName(stem))
  {
    var head := stem + [Underscore] + Pad4(0) + [Dot];
    NamesEndIn(stem);
    JoinAppend(outDir, head, PartWord);
    ReplaceInJoin(outDir, head, PartWord, TmpWord);
  }

  /** Fragment 0's name and the temporary name share everything up to the dot. */
  lemma NamesEndIn(stem: Path)
    ensures var head := stem + [Underscore] + Pad4(0) + [Dot];
      ChunkName(stem, 0) == head + PartWord && TmpName(stem) == head + TmpWord
  {
    var base := stem + [Underscore] + Pad4(0);
    AppendAssoc(base, [Dot], PartWord);
    AppendAssoc(base, [Dot], TmpWord);
  }

  /** Replacing an occurrence found at the end of a joined path swaps the tail of its last element. */
  lemma ReplaceInJoin(outDir: Path, head: Path, pat: Bytes, repl: Bytes)
    requires head != [] && pat != []
    requires IndexOf(Join(outDir, head + pat), pat) == Some(|Join(outDir, head)|)
    ensures ReplaceFirst(Join(outDir, head + pat), pat, repl) == Join(outDir, head + repl)
  {
    JoinAppend(outDir, head, pat);
    JoinAppend(outDir, head, repl);
    ReplaceAtEnd(Join(outDir, head), pat, repl);
  }

  /** The temporary name is one path element whose extension is `.tmp`. */
  lemma TmpNameParts(stem: Path)
    requires NoSlash(stem)
    ensures PlainName(TmpName(stem))
    ensures Stem(TmpName(stem)) == stem + [Underscore] + Pad4(0)
  {
    var t := TmpName(stem);
    Pad4Zero();
    assert NoSlash(t);
    ExtBeforeFinds(t, |t|, |t| - 4);
    assert Ext(t) == TmpExt;
  }

  /**
   * When the first "part" is the extension, injectMetadata's destination is
   * `<stem>_0000.part`.
   */
  lemma FinalPathOfTemp(outDir: Path, stem: Path)
    requires CleanDir(outDir) && NoSlash(stem) && FirstPartIsExtension(outDir, stem)
    ensures FinalPath(TempPath(outDir, stem)) == Join(outDir, ChunkName(stem, 0))
  {
    TempPathIsTmp(outDir, stem);
    TmpNameParts(stem);
    JoinSplits(outDir, TmpName(stem));
  }

  /** A plain name ending in `.part` is its own `.part` destination, in a clean directory. */
  lemma PartNameIsFinal(d: Path, n: Path)
    requires CleanDir(d) && PlainName(n) && |n| >= 5 && n[|n| - 5..] == PartExt
    ensures FinalPath(Join(d, n)) == Join(d, n)
  {
    var m := |n| - 5;
    assert forall k :: m < k < |n| ==> n[k] == PartExt[k - m];
    ExtBeforeFinds(n, |n|, m);
    assert Stem(n) == n[..m];
    assert Stem(n) + PartExt == n;
    JoinSplits(d, n);
  }

  /** The last ten bytes of fragment 0's name: `_0000.part`. */
  const ZeroPartTail: Bytes := ZeroMark + PartWord

  /** The bytes before the word "part" in that tail: `_0000.` */
  const ZeroMark: Bytes := [Underscore, Digit0, Digit0, Digit0, Digit0, Dot]

  lemma TailSplit(x: Bytes)
    ensures x + ZeroPartTail == (x + ZeroMark) + PartWord
  {
  }

  /** A word occurs where it ends a string. */
  lemma OccursAtEnd(y: Bytes, w: Bytes)
    ensures OccursAt(y + w, w, |y|)
  {
    assert (y + w)[|y|..] == w;
  }

  lemma ChunkNameZero(stem: Path)
    ensures ChunkName(stem, 0) == stem + ZeroPartTail
  {
    Pad4Zero();
  }

  /** A "part" that is not the last four bytes of `x + ZeroPartTail` ends before the tail. */
  lemma PartBeforeTail(x: Bytes, i: nat)
    requires OccursAt(x + ZeroPartTail, PartWord, i) && i != |x| + 6
    ensures i + 4 <= |x|
  {
    var full := x + ZeroPartTail;
    assert full[i + 3] == 116 by {
      assert full[i..i + 4] == PartWord;
    }
  }

  /** Replacing a "part" inside a plain `.part` name keeps a plain `.part` name. */
  lemma ReplaceInName(n: Path, j: nat)
    requires PlainName(n) && |n| >= 5 && n[|n| - 5..] == PartExt && j + 4 <= |n| - 5
    ensures var n1 := n[..j] + TmpWord + n[j + 4..];
      PlainName(n1) && |n1| >= 5 && n1[|n1| - 5..] == PartExt
  {
    var n1 := n[..j] + TmpWord + n[j + 4..];
    assert n1[|n1| - 5..] == n[|n| - 5..];
    forall k | 0 <= k < |n1| ensures n1[k] != Slash {
      if k >= j + 3 {
        assert n1[k] == n[k + 1];
      }
    }
  }

  /** Replacing a "part" inside a clean directory keeps it clean. */
  lemma ReplaceInDir(d: Path, i: nat)
    requires CleanDir(d) && d != [Slash] && i + 4 <= |d| && d[i..i + 4] == PartWord
    ensures var d1 := d[..i] + TmpWord + d[i + 4..];
      CleanDir(d1) && d1 != CurrentDir && d1 != [Slash]
  {
    var d1 := d[..i] + TmpWord + d[i + 4..];
    if i + 4 < |d| {
      assert d1[|d1| - 1] == d[|d| - 1];
    } else {
      assert d1[|d1| - 1] == TmpWord[2];
    }
  }

  /** A plain name ending in `.part`, such as fragment 0's. */
  predicate PartName(n: Path) {
    PlainName(n) && |n| >= 5 && n[|n| - 5..] == PartExt
  }

  lemma ChunkNameZeroIsPartName(stem: Path)
    requires NoSlash(stem)
    ensures PartName(ChunkName(stem, 0))
  {
    var n0 := ChunkName(stem, 0);
    ChunkNameZero(stem);
    assert forall k :: |stem| <= k < |n0| ==> n0[k] == ZeroPartTail[k - |stem|];
  }

  /** The replaced "part" lies in the name. */
  lemma ReplacedInName(outDir: Path, n: Path, i: nat)
    requires CleanDir(outDir) && PartName(n)
    requires var full := JoinPrefix(outDir) + n;
      |JoinPrefix(outDir)| <= i && i + 4 <= |full| - 5 && full[i..i + 4] == PartWord
    ensures var full := JoinPrefix(outDir) + n;
      var t := full[..i] + TmpWord + full[i + 4..];
      FinalPath(t) == t
  {
    var pre := JoinPrefix(outDir);
    var full := pre + n;
    var j := i - |pre|;
    var n1 := n[..j] + TmpWord + n[j + 4..];
    assert full[..i] == pre + n[..j];
    assert full[i + 4..] == n[j + 4..];
    var t := full[..i] + TmpWord + full[i + 4..];
    assert t == pre + n1;
    ReplaceInName(n, j);
    JoinIsPrefix(outDir, n1);
    PartNameIsFinal(outDir, n1);
    assert Join(outDir, n1) == t;
  }

  /** The replaced "part" lies in the directory. */
  lemma ReplacedInDir(outDir: Path, n: Path, i: nat)
    requires CleanDir(outDir) && PartName(n)
    requires var full := JoinPrefix(outDir) + n;
      i < |JoinPrefix(outDir)| && i + 4 <= |full| && full[i..i + 4] == PartWord
    ensures var full := JoinPrefix(outDir) + n;
      var t := full[..i] + TmpWord + full[i + 4..];
      FinalPath(t) == t
  {
    var pre := JoinPrefix(outDir);
    var full := pre + n;
    assert pre[|pre| - 1] == Slash;
    assert i + 4 <= |pre| by {
      assert full[|pre| - 1] == Slash;
      assert forall k :: i <= k < i + 4 ==> full[k] == PartWord[k - i];
    }
    assert pre == outDir + [Slash];
    var d1 := outDir[..i] + TmpWord + outDir[i + 4..];
    assert outDir[i..i + 4] == PartWord;
    ReplaceInDir(outDir, i);
    assert full[..i] + TmpWord + full[i + 4..] == d1 + [Slash] + n;
    PartNameIsFinal(d1, n);
  }

  /** A first "part" of `x + ZeroPartTail` other than the extension's lies within `x`. */
  lemma FirstPartInPrefix(x: Bytes)
    requires IndexOf(x + ZeroPartTail, PartWord) != Some(|x| + 6)
    ensures var full := x + ZeroPartTail;
      IndexOf(full, PartWord).Some? && IndexOf(full, PartWord).value + 4 <= |x|
  {
    var full := x + ZeroPartTail;
    TailSplit(x);
    OccursAtEnd(x + ZeroMark, PartWord);
    PartBeforeTail(x, IndexOf(full, PartWord).value);
  }

  /** Fragment 0's path is the directory prefix, the stem and `_0000.part`. */
  lemma ZeroPath(outDir: Path, stem: Path)
    requires CleanDir(outDir)
    ensures Join(outDir, ChunkName(stem, 0)) == (JoinPrefix(outDir) + stem) + ZeroPartTail
  {
    var n0 := ChunkName(stem, 0);
    ChunkNameZero(stem);
    JoinIsPrefix(outDir, n0);
  }

  /** Otherwise the first "part" of fragment 0's path starts before its last ten bytes. */
  lemma FirstPartBefore(outDir: Path, stem: Path)
    requires CleanDir(outDir) && NoSlash(stem) && !FirstPartIsExtension(outDir, stem)
    ensures var full := Join(outDir, ChunkName(stem, 0));
      && IndexOf(full, PartWord).Some?
      && var i := IndexOf(full, PartWord).value;
      && i + 4 <= |JoinPrefix(outDir) + stem|
      && full[i..i + 4] == PartWord
      && TempPath(outDir, stem) == full[..i] + TmpWord + full[i + 4..]
  {
    var n0 := ChunkName(stem, 0);
    var x := JoinPrefix(outDir) + stem;
    ZeroPath(outDir, stem);
    FirstPartInPrefix(x);
  }

  /**
   * When the first "part" of fragment 0's full path is NOT its extension
   * (it lies in the directory or in the stem), the replacement leaves the
   * `.part` extension in place, so injectMetadata's destination is the
   * temporary file itself.
   */
  lemma FirstPartElsewhere(outDir: Path, stem: Path)
    requires CleanDir(outDir) && NoSlash(stem) && !FirstPartIsExtension(outDir, stem)
    ensures FinalPath(TempPath(outDir, stem)) == TempPath(outDir, stem)
  {
    var n0 := ChunkName(stem, 0);
    FirstPartBefore(outDir, stem);
    ChunkNameZeroIsPartName(stem);
    JoinIsPrefix(outDir, n0);
    var i := IndexOf(Join(outDir, n0), PartWord).value;
    if i >= |JoinPrefix(outDir)| {
      ReplacedInName(outDir, n0, i);
    } else {
      ReplacedInDir(outDir, n0, i);
    }
  }

  /** `p` is none of the paths a split into `k` fragments writes. */
  predicate IsUntouched(outDir: Path, stem: Path, k: nat, p: Path) {
    && p != Join(outDir, ChunkName(stem, 0))
    && p != TempPath(outDir, stem)
    && forall i :: 0 < i < k ==> p != Join(outDir, ChunkName(stem, i))
  }

  /** The file system once every read of the source has been written out, before injection. */
  function Written(fs: FileSystem, src: SourceFile, outDir: Path, chunks: int): FileSystem
    requires chunks >= MinChunks
  {
    var data := src.content;
    var b := BufferSize(|data|, chunks);
    WriteFragments(fs, data, outDir, Stem(Base(src.name)), b, FragmentCount(|data|, b))
  }

  /** The written fragments, stated for the whole source. */
  lemma WrittenContents(fs: FileSystem, src: SourceFile, outDir: Path, chunks: int)
    requires 1 <= |src.content| && chunks >= MinChunks
    ensures var data := src.content;
      var b := BufferSize(|data|, chunks);
      var k := FragmentCount(|data|, b);
      var stem := Stem(Base(src.name));
      var w := Written(fs, src, outDir, chunks);
      && Holds(w, TempPath(outDir, stem), Take(data, b))
      && (forall i :: 0 < i < k ==> Holds(w, Join(outDir, ChunkName(stem, i)), Fragment(data, b, i)))
      && (forall p :: IsUntouched(outDir, stem, k, p) ==> SameAt(fs, w, p))
  {
    var data := src.content;
    var b := BufferSize(|data|, chunks);
    var k := FragmentCount(|data|, b);
    var stem := Stem(Base(src.name));
    FragmentCountBound(|data|, chunks);
    WriteFragmentsContents(fs, data, outDir, stem, b, k);
    assert TempPath(outDir, stem) == FragmentPath(outDir, stem, 0);
    FirstFragment(data, b);
    forall p | IsUntouched(outDir, stem, k, p)
      ensures forall i :: 0 <= i < k ==> p != FragmentPath(outDir, stem, i)
    {
    }
  }

  /** A split of a non-empty source writes the fragments, then injects the header into fragment 0. */
  lemma SplitShape(fs: FileSystem, src: SourceFile, outDir: Path, chunks: int, now: int64, sha: Hasher)
    requires |src.content| <= MaxInt64 && 1 <= |src.content| && chunks >= MinChunks && outDir != []
    ensures 1 <= FragmentCount(|src.content|, BufferSize(|src.content|, chunks)) <= chunks
    ensures SplitSpec(fs, src, outDir, chunks, now, sha)
         == Inject(Written(fs, src, outDir, chunks), TempPath(outDir, Stem(Base(src.name))), HeaderFor(src, chunks, now, sha))
  {
    FragmentCountBound(|src.content|, chunks);
  }

  /** What injectMetadata does when the temporary file exists and its `.part` name differs from it. */
  lemma InjectMoves(fs: FileSystem, chunkPath: Path, meta: Metadata)
    requires WellFormed(meta) && chunkPath != [] && chunkPath in fs && FinalPath(chunkPath) != chunkPath
    ensures Inject(fs, chunkPath, meta).0 == Ok
    ensures chunkPath !in Inject(fs, chunkPath, meta).1
    ensures Holds(Inject(fs, chunkPath, meta).1, FinalPath(chunkPath), Encode(meta) + fs[chunkPath])
    ensures forall p :: p != chunkPath && p != FinalPath(chunkPath) ==> SameAt(fs, Inject(fs, chunkPath, meta).1, p)
  {
  }

  /**
   * When the `.part` name is the temporary path itself, the copy fails: the
   * fragment's bytes are replaced and the file stays.
   */
  lemma InjectOntoItself(fs: FileSystem, chunkPath: Path, meta: Metadata)
    requires WellFormed(meta) && chunkPath != [] && chunkPath in fs && FinalPath(chunkPath) == chunkPath
    ensures Inject(fs, chunkPath, meta).0 == Err(CopyFailed(chunkPath))
    ensures Holds(Inject(fs, chunkPath, meta).1, chunkPath, Encode(meta))
    ensures forall p :: p != chunkPath ==> SameAt(fs, Inject(fs, chunkPath, meta).1, p)
  {
  }

  /** The temporary path, `<stem>_0000.part` and the later fragments' paths are pairwise different. */
  lemma FinalPathFresh(outDir: Path, stem: Path, k: nat)
    ensures Join(outDir, ChunkName(stem, 0)) != TempPath(outDir, stem)
    ensures forall i :: 0 < i < k ==> Join(outDir, ChunkName(stem, i)) != Join(outDir, ChunkName(stem, 0))
    ensures forall i :: 0 < i < k ==> Join(outDir, ChunkName(stem, i)) != TempPath(outDir, stem)
  {
    TempPathShape(outDir, stem);
    forall i | 0 < i < k
      ensures Join(outDir, ChunkName(stem, i)) != Join(outDir, ChunkName(stem, 0))
      ensures Join(outDir, ChunkName(stem, i)) != TempPath(outDir, stem)
    {
      FragmentPathsDistinct(outDir, stem, 0, i);
      if Join(outDir, ChunkName(stem, i)) == Join(outDir, ChunkName(stem, 0)) {
        JoinInjective(outDir, ChunkName(stem, i), ChunkName(stem, 0));
        ChunkNameInjective(stem, i, 0);
      }
    }
  }

  /**
   * After a split of a non-empty source, with the first "part" of the full
   * path in its extension: the call succeeds, `<stem>_0000.part` holds the
   * header followed by the first read, `<stem>_%04d.part` holds read `i` for
   * every later `i`, the temporary file is gone, and nothing else changed.
   */
  lemma SplitWrites(fs: FileSystem, src: SourceFile, outDir: Path, chunks: int, now: int64, sha: Hasher)
    requires |src.content| <= MaxInt64 && 1 <= |src.content| && chunks >= MinChunks
    requires CleanDir(outDir) && NoSlash(Stem(Base(src.name)))
    requires FirstPartIsExtension(outDir, Stem(Base(src.name)))
    ensures var data := src.content;
      var b := BufferSize(|data|, chunks);
      var k := FragmentCount(|data|, b);
      var stem := Stem(Base(src.name));
      var (status, fs') := SplitSpec(fs, src, outDir, chunks, now, sha);
      && status == Ok
      && TempPath(outDir, stem) !in fs'
      && Holds(fs', Join(outDir, ChunkName(stem, 0)), Encode(HeaderFor(src, chunks, now, sha)) + Take(data, b))
      && (forall i :: 0 < i < k ==> Holds(fs', Join(outDir, ChunkName(stem, i)), Fragment(data, b, i)))
      && (forall p :: IsUntouched(outDir, stem, k, p) ==> SameAt(fs, fs', p))
  {
    var data := src.content;
    var b := BufferSize(|data|, chunks);
    var k := FragmentCount(|data|, b);
    var stem := Stem(Base(src.name));
    var t := TempPath(outDir, stem);
    var final := Join(outDir, ChunkName(stem, 0));
    var m := HeaderFor(src, chunks, now, sha);
    SplitShape(fs, src, outDir, chunks, now, sha);
    var w := Written(fs, src, outDir, chunks);
    WrittenContents(fs, src, outDir, chunks);
    FinalPathOfTemp(outDir, stem);
    FinalPathFresh(outDir, stem, k);
    assert Holds(w, t, Take(data, b));
    InjectMoves(w, t, m);
    var fs' := Inject(w, t, m).1;
    assert Holds(fs', final, Encode(m) + Take(data, b));
    forall i | 0 < i < k ensures Holds(fs', Join(outDir, ChunkName(stem, i)), Fragment(data, b, i)) {
      assert SameAt(w, fs', Join(outDir, ChunkName(stem, i)));
    }
    forall p | IsUntouched(outDir, stem, k, p) ensures SameAt(fs, fs', p) {
      assert SameAt(fs, w, p) && SameAt(w, fs', p);
    }
  }

  /**
   * When injectMetadata's destination is the temporary path itself, the
   * split fails with the copy error: the temporary file stays, holding the
   * header instead of the first read, and every later fragment stays as
   * written.
   */
  lemma SplitFailsOnItself(fs: FileSystem, src: SourceFile, outDir: Path, chunks: int, now: int64, sha: Hasher)
    requires |src.content| <= MaxInt64 && 1 <= |src.content| && chunks >= MinChunks && outDir != []
    requires var t := TempPath(outDir, Stem(Base(src.name))); FinalPath(t) == t
    ensures var t := TempPath(outDir, Stem(Base(src.name)));
      var (status, fs') := SplitSpec(fs, src, outDir, chunks, now, sha);
      status == Err(CopyFailed(t)) && fs' == Written(fs, src, outDir, chunks)[t := Encode(HeaderFor(src, chunks, now, sha))]
  {
    var data := src.content;
    var b := BufferSize(|data|, chunks);
    var stem := Stem(Base(src.name));
    var t := TempPath(outDir, stem);
    SplitShape(fs, src, outDir, chunks, now, sha);
    WrittenContents(fs, src, outDir, chunks);
    var w := Written(fs, src, outDir, chunks);
    assert Holds(w, t, Take(data, b));
  }

  /**
   * For a source with at least one byte, a split succeeds exactly when the
   * first "part" of fragment 0's full path is its `.part` extension; in
   * every other case injectMetadata copies the temporary file onto itself.
   */
  lemma SplitSucceedsIff(fs: FileSystem, src: SourceFile, outDir: Path, chunks: int, now: int64, sha: Hasher)
    requires |src.content| <= MaxInt64 && 1 <= |src.content| && chunks >= MinChunks
    requires CleanDir(outDir) && NoSlash(Stem(Base(src.name)))
    ensures SplitSpec(fs, src, outDir, chunks, now, sha).0 == Ok <==> FirstPartIsExtension(outDir, Stem(Base(src.name)))
  {
    if FirstPartIsExtension(outDir, Stem(Base(src.name))) {
      SplitWrites(fs, src, outDir, chunks, now, sha);
    } else {
      FirstPartElsewhere(outDir, Stem(Base(src.name)));
      SplitFailsOnItself(fs, src, outDir, chunks, now, sha);
    }
  }
}
