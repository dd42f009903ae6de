/**
 * FileToQRCodes followed by QRCodesToFile on the same directory gives the
 * file back. The data files hold the split's fragments; copying them back
 * as `.part` files rebuilds exactly the directory a split leaves; the merge
 * restores the file there, and it is copied to the output path.
 */
module QrRoundTrip {
  import opened Bytes
  import opened Paths
  import opened Errors
  import opened Listing
  import opened Discovery
  import opened Header
  import Splitter
  import Merger
  import RoundTrip
  import opened QrTransfer

  /** Nothing lies at or below `d`. */
  ghost predicate Vacant(fs: FileSystem, d: Path) {
    forall p :: p in fs ==> !Within(p, d)
  }

  /** The QR encoder builds a symbol for every text at every recovery level. */
  ghost predicate EncodesAll(enc: Encoders) {
    forall t, l :: enc.qr(t, l).Some?
  }

  // ---------------------------------------------------------------------------
  // Directories

  lemma {:induction false} TrimmedAreSlashes(q: Path)
    ensures forall j :: |TrimTrailingSlashes(q)| <= j < |q| ==> q[j] == Slash
    decreases |q|
  {
    if q != [] && q[|q| - 1] == Slash {
      TrimmedAreSlashes(q[..|q| - 1]);
    }
  }

  /** A path lies within its directory, unless that is `.` or the root. */
  lemma DirWithin(p: Path)
    requires Dir(p) != CurrentDir && Dir(p) != [Slash]
    ensures Within(p, Dir(p))
  {
    var k := LastSlash(p).value;
    var q := p[..k + 1];
    var d := TrimTrailingSlashes(q);
    TrimmedAreSlashes(q);
    assert d == Dir(p);
    assert |d| <= k;
    assert q[|d|] == Slash;
    assert p[..|d|] == q[..|d|];
  }

  /** A vacant directory has no file directly inside it. */
  lemma VacantDir(fs: FileSystem, d: Path, p: Path)
    requires Vacant(fs, d) && d != CurrentDir && d != [Slash] && p in fs
    ensures Dir(p) != d
  {
    if Dir(p) == d {
      DirWithin(p);
    }
  }

  /** The three sub-directories: one prefix, then a name. */
  lemma SubDirShape(outDir: Path, name: Path)
    requires name == TempDirName || name == QrDirName || name == DataDirName
    ensures SubDir(outDir, name) == JoinPrefix(Clean(outDir)) + name
    ensures CleanDir(SubDir(outDir, name)) && SubDir(outDir, name) != CurrentDir && SubDir(outDir, name) != [Slash]
  {
    JoinIsPrefix(Clean(outDir), name);
  }

  /** The names differ in their first byte, so the sub-directories are different. */
  lemma SubDirsDistinct(outDir: Path)
    ensures SubDir(outDir, TempDirName) != SubDir(outDir, QrDirName)
    ensures SubDir(outDir, TempDirName) != SubDir(outDir, DataDirName)
    ensures SubDir(outDir, QrDirName) != SubDir(outDir, DataDirName)
  {
    var pre := JoinPrefix(Clean(outDir));
    SubDirShape(outDir, TempDirName);
    SubDirShape(outDir, QrDirName);
    SubDirShape(outDir, DataDirName);
    assert SubDir(outDir, TempDirName)[|pre|] == TempDirName[0];
    assert SubDir(outDir, QrDirName)[|pre|] == QrDirName[0];
    assert SubDir(outDir, DataDirName)[|pre|] == DataDirName[0];
  }

  /** Nothing in `outDir/data` or `outDir/qrcodes` lies within `outDir/temp`. */
  lemma SiblingNotWithin(outDir: Path, name: Path, n: Path)
    requires (name == QrDirName || name == DataDirName) && n != []
    ensures !Within(Join(SubDir(outDir, name), n), SubDir(outDir, TempDirName))
  {
    var pre := JoinPrefix(Clean(outDir));
    var sub := SubDir(outDir, name);
    var t := SubDir(outDir, TempDirName);
    SubDirShape(outDir, name);
    SubDirShape(outDir, TempDirName);
    JoinIsPrefix(sub, n);
    var p := Join(sub, n);
    assert p[|pre|] == sub[|pre|] == name[0];
    assert t[|pre|] == TempDirName[0];
  }

  // ---------------------------------------------------------------------------
  // Names

  /** The stem that fragment `i`'s `.part`, `.png` and `.dat` files share. */
  function ChunkStem(stem: Path, i: nat): Path {
    stem + [Underscore] + Pad4(i)
  }

  /** Fragment `i`'s file in the temporary directory. */
  function ChunkPath(tempDir: Path, stem: Path, i: nat): Path {
    Join(tempDir, ChunkName(stem, i))
  }

  /** `p` is one of the first `k` fragment files. */
  ghost predicate IsChunkPath(tempDir: Path, stem: Path, k: nat, p: Path) {
    exists i :: 0 <= i < k && p == ChunkPath(tempDir, stem, i)
  }

  /** `p` is the data file of one of the first `k` fragments. */
  ghost predicate IsDataPath(dataDir: Path, stem: Path, k: nat, p: Path) {
    exists i :: 0 <= i < k && p == DatPath(dataDir, ChunkStem(stem, i))
  }

  /** A file named `<x><ext>` lies in `d` and has stem `x`. */
  lemma ExtendedIn(d: Path, x: Path, ext: Bytes)
    requires CleanDir(d) && NoSlash(x) && IsExtension(ext)
    ensures Dir(Join(d, x + ext)) == d && Base(Join(d, x + ext)) == x + ext && FileStem(Join(d, x + ext)) == x
  {
    StemOfJoined(d, x, ext);
    JoinSplits(d, x + ext);
  }

  /** Fragment `i`'s file, its stem, and the data file and `.part` copy named after it. */
  lemma ChunkPathNames(tempDir: Path, dataDir: Path, stem: Path, i: nat)
    requires CleanDir(tempDir) && CleanDir(dataDir) && NoSlash(stem)
    ensures NoSlash(ChunkStem(stem, i))
    ensures var c := ChunkPath(tempDir, stem, i);
      Dir(c) == tempDir && FileStem(c) == ChunkStem(stem, i) && PartPath(tempDir, ChunkStem(stem, i)) == c
    ensures var d := DatPath(dataDir, ChunkStem(stem, i));
      Dir(d) == dataDir && FileStem(d) == ChunkStem(stem, i) && HasSuffix(Base(d), DatExt)
  {
    var x := ChunkStem(stem, i);
    FragmentStem(stem, i);
    KnownExtensions();
    ExtendedIn(tempDir, x, PartExt);
    ExtendedIn(dataDir, x, DatExt);
    assert (x + DatExt)[|x + DatExt| - |DatExt|..] == DatExt;
  }

  /** A fragment file's name ends in `.part`, never in `.tmp`. */
  lemma ChunkNotTmp(tempDir: Path, stem: Path, i: nat)
    requires CleanDir(tempDir) && NoSlash(stem)
    ensures HasSuffix(Base(ChunkPath(tempDir, stem, i)), PartExt)
    ensures !HasSuffix(Base(ChunkPath(tempDir, stem, i)), TmpExt)
  {
    var n := ChunkName(stem, i);
    RoundTrip.ChunkNamePlain(stem, i);
    JoinSplits(tempDir, n);
    assert n[|n| - 1] == PartExt[4];
    assert n[|n| - |PartExt|..] == PartExt;
  }

  // ---------------------------------------------------------------------------
  // The temporary directory after the split

  /** A path that is neither a fragment file nor the temporary file is one a split leaves alone. */
  lemma UntouchedOutside(tempDir: Path, stem: Path, k: nat, p: Path)
    requires 1 <= k && !IsChunkPath(tempDir, stem, k, p) && p != Splitter.TempPath(tempDir, stem)
    ensures Splitter.IsUntouched(tempDir, stem, k, p)
  {
    assert p != ChunkPath(tempDir, stem, 0);
    forall i | 0 < i < k ensures p != Join(tempDir, ChunkName(stem, i)) {
      assert p != ChunkPath(tempDir, stem, i);
    }
  }

  /** After a split, a file that is not a fragment file was there before, unchanged. */
  lemma FromBefore(fs: FileSystem, fs1: FileSystem, tempDir: Path, stem: Path, k: nat, p: Path)
    requires RoundTrip.Laid(fs, fs1, tempDir, stem, k) && 1 <= k
    requires p in fs1 && !IsChunkPath(tempDir, stem, k, p)
    ensures p in fs && fs1[p] == fs[p]
  {
    UntouchedOutside(tempDir, stem, k, p);
  }

  /** After a split into a vacant directory, every file there is a fragment file. */
  lemma OnlyFragmentsThere(fs: FileSystem, fs1: FileSystem, tempDir: Path, stem: Path, k: nat, p: Path)
    requires RoundTrip.Laid(fs, fs1, tempDir, stem, k) && 1 <= k
    requires Vacant(fs, tempDir) && tempDir != CurrentDir && tempDir != [Slash]
    requires p in fs1 && Dir(p) == tempDir
    ensures IsChunkPath(tempDir, stem, k, p)
  {
    if !IsChunkPath(tempDir, stem, k, p) {
      FromBefore(fs, fs1, tempDir, stem, k, p);
      VacantDir(fs, tempDir, p);
    }
  }

  /** A split into a vacant directory leaves exactly the fragment files there. */
  lemma SplitFilesOnly(fs: FileSystem, fs1: FileSystem, tempDir: Path, stem: Path, k: nat)
    requires RoundTrip.Laid(fs, fs1, tempDir, stem, k) && 1 <= k
    requires Vacant(fs, tempDir) && tempDir != CurrentDir && tempDir != [Slash]
    requires CleanDir(tempDir) && NoSlash(stem)
    ensures forall p :: p in fs1 && Dir(p) == tempDir <==> IsChunkPath(tempDir, stem, k, p)
  {
    forall p | IsChunkPath(tempDir, stem, k, p) ensures p in fs1 && Dir(p) == tempDir {
      var i :| 0 <= i < k && p == ChunkPath(tempDir, stem, i);
      ChunkPathNames(tempDir, tempDir, stem, i);
    }
    forall p | p in fs1 && Dir(p) == tempDir ensures IsChunkPath(tempDir, stem, k, p) {
      OnlyFragmentsThere(fs, fs1, tempDir, stem, k, p);
    }
  }

  /** The chunk loop visits exactly the fragment files, all of them `.part` files. */
  lemma ChunkFilesAfterSplit(fs1: FileSystem, tempDir: Path, stem: Path, k: nat)
    requires forall p :: p in fs1 && Dir(p) == tempDir <==> IsChunkPath(tempDir, stem, k, p)
    requires CleanDir(tempDir) && NoSlash(stem)
    ensures ChunkFiles(fs1, tempDir) == Listed(fs1, tempDir, PartExt)
    ensures forall p :: p in ChunkFiles(fs1, tempDir) <==> IsChunkPath(tempDir, stem, k, p)
  {
    var tmps := Listed(fs1, tempDir, TmpExt);
    if tmps != [] {
      var p := tmps[0];
      assert p in Matches(fs1, tempDir, TmpExt);
      var i :| 0 <= i < k && p == ChunkPath(tempDir, stem, i);
      ChunkNotTmp(tempDir, stem, i);
    }
    assert ChunkFiles(fs1, tempDir) == Listed(fs1, tempDir, PartExt);
    forall p ensures p in Listed(fs1, tempDir, PartExt) <==> IsChunkPath(tempDir, stem, k, p) {
      if IsChunkPath(tempDir, stem, k, p) {
        var i :| 0 <= i < k && p == ChunkPath(tempDir, stem, i);
        ChunkNotTmp(tempDir, stem, i);
      }
    }
  }

  // ---------------------------------------------------------------------------
  // Publication

  /** Two fragment files with the same stem are the same file. */
  lemma ChunkStemsDiffer(tempDir: Path, stem: Path, k: nat, p: Path, q: Path)
    requires CleanDir(tempDir) && NoSlash(stem)
    requires IsChunkPath(tempDir, stem, k, p) && IsChunkPath(tempDir, stem, k, q) && p != q
    ensures FileStem(p) != FileStem(q)
  {
    var a :| 0 <= a < k && p == ChunkPath(tempDir, stem, a);
    var b :| 0 <= b < k && q == ChunkPath(tempDir, stem, b);
    ChunkPathNames(tempDir, tempDir, stem, a);
    ChunkPathNames(tempDir, tempDir, stem, b);
  }

  /** No image or data file of a fragment lies in the temporary directory. */
  lemma TargetsElsewhere(tempDir: Path, qrDir: Path, dataDir: Path, stem: Path, k: nat, c: Path)
    requires CleanDir(tempDir) && CleanDir(qrDir) && CleanDir(dataDir) && NoSlash(stem)
    requires tempDir != qrDir && tempDir != dataDir && IsChunkPath(tempDir, stem, k, c)
    ensures Dir(c) == tempDir
    ensures Dir(PngPath(qrDir, FileStem(c))) == qrDir && Dir(DatPath(dataDir, FileStem(c))) == dataDir
  {
    var a :| 0 <= a < k && c == ChunkPath(tempDir, stem, a);
    ChunkPathNames(tempDir, dataDir, stem, a);
    KnownExtensions();
    ExtendedIn(qrDir, ChunkStem(stem, a), PngExt);
  }

  /** The fragment files satisfy what the chunk loop's frame lemmas ask for. */
  lemma FragmentsSeparate(files: seq<Path>, tempDir: Path, qrDir: Path, dataDir: Path, stem: Path, k: nat)
    requires Ascending(files) && forall p :: p in files ==> IsChunkPath(tempDir, stem, k, p)
    requires CleanDir(tempDir) && CleanDir(qrDir) && CleanDir(dataDir) && NoSlash(stem)
    requires tempDir != qrDir && tempDir != dataDir
    ensures Separate(files, qrDir, dataDir)
  {
    forall i, j | 0 <= i < j < |files| ensures FileStem(files[i]) != FileStem(files[j]) {
      assert files[i] in files && files[j] in files;
      ChunkStemsDiffer(tempDir, stem, k, files[i], files[j]);
    }
    forall c, c2 | c in files && c2 in files
      ensures c != PngPath(qrDir, FileStem(c2)) && c != DatPath(dataDir, FileStem(c2))
    {
      TargetsElsewhere(tempDir, qrDir, dataDir, stem, k, c);
      TargetsElsewhere(tempDir, qrDir, dataDir, stem, k, c2);
    }
  }

  /** With an encoder that never fails, the chunk loop runs to the end. */
  lemma {:induction false} EmitSucceeds(fs: FileSystem, files: seq<Path>, qrDir: Path, dataDir: Path, s: Settings,
                                        enc: Encoders)
    requires forall q :: q in files ==> q in fs
    requires EncodesAll(enc)
    ensures Emit(fs, files, qrDir, dataDir, s, enc).0 == Ok
    decreases |files|
  {
    if files != [] {
      var p := files[0];
      assert p in files;
      assert enc.qr(Payload(FileStem(p), enc.base64(fs[p])), s.recoveryLevel).Some?;
      var fs1 := EmitOne(fs, p, qrDir, dataDir, s, enc).value;
      assert forall q :: q in files[1..] ==> q in files;
      EmitSucceeds(fs1, files[1..], qrDir, dataDir, s, enc);
    }
  }

  /** The data file of fragment `i` survives the removal of the temporary directory with the fragment's bytes. */
  lemma PublishedCopy(fs1: FileSystem, files: seq<Path>, outDir: Path, stem: Path, k: nat, s: Settings,
                      enc: Encoders, i: nat)
    requires NoSlash(stem) && i < k
    requires forall p :: p in files <==> IsChunkPath(SubDir(outDir, TempDirName), stem, k, p)
    requires forall p :: p in files ==> p in fs1
    requires Separate(files, SubDir(outDir, QrDirName), SubDir(outDir, DataDirName))
    requires Emit(fs1, files, SubDir(outDir, QrDirName), SubDir(outDir, DataDirName), s, enc).0 == Ok
    ensures var tempDir := SubDir(outDir, TempDirName);
      var emitted := Emit(fs1, files, SubDir(outDir, QrDirName), SubDir(outDir, DataDirName), s, enc).1;
      && ChunkPath(tempDir, stem, i) in fs1
      && Holds(RemoveAll(emitted, tempDir), DatPath(SubDir(outDir, DataDirName), ChunkStem(stem, i)),
               fs1[ChunkPath(tempDir, stem, i)])
  {
    var tempDir := SubDir(outDir, TempDirName);
    var qrDir := SubDir(outDir, QrDirName);
    var dataDir := SubDir(outDir, DataDirName);
    var c := ChunkPath(tempDir, stem, i);
    SubDirShape(outDir, TempDirName);
    SubDirShape(outDir, DataDirName);
    assert c in files;
    EmitCopies(fs1, files, qrDir, dataDir, s, enc, c);
    ChunkPathNames(tempDir, dataDir, stem, i);
    SiblingNotWithin(outDir, DataDirName, ChunkStem(stem, i) + DatExt);
  }

  /** After publication, every `.dat` file in the data directory is one a fragment wrote. */
  lemma PublishedOnlyData(fs: FileSystem, fs1: FileSystem, files: seq<Path>, outDir: Path, stem: Path, k: nat,
                          s: Settings, enc: Encoders, p: Path)
    requires RoundTrip.Laid(fs, fs1, SubDir(outDir, TempDirName), stem, k) && 1 <= k && NoSlash(stem)
    requires Vacant(fs, SubDir(outDir, DataDirName))
    requires forall q :: q in files <==> IsChunkPath(SubDir(outDir, TempDirName), stem, k, q)
    requires forall q :: q in files ==> q in fs1
    requires p in Emit(fs1, files, SubDir(outDir, QrDirName), SubDir(outDir, DataDirName), s, enc).1
    requires Dir(p) == SubDir(outDir, DataDirName)
    ensures IsDataPath(SubDir(outDir, DataDirName), stem, k, p)
  {
    var tempDir := SubDir(outDir, TempDirName);
    var qrDir := SubDir(outDir, QrDirName);
    var dataDir := SubDir(outDir, DataDirName);
    SubDirShape(outDir, TempDirName);
    SubDirShape(outDir, QrDirName);
    SubDirShape(outDir, DataDirName);
    SubDirsDistinct(outDir);
    if !IsDataPath(dataDir, stem, k, p) {
      forall c | c in files ensures p != PngPath(qrDir, FileStem(c)) && p != DatPath(dataDir, FileStem(c)) {
        TargetsElsewhere(tempDir, qrDir, dataDir, stem, k, c);
        var a :| 0 <= a < k && c == ChunkPath(tempDir, stem, a);
        ChunkPathNames(tempDir, dataDir, stem, a);
      }
      EmitFrame(fs1, files, qrDir, dataDir, s, enc, p);
      if IsChunkPath(tempDir, stem, k, p) {
        TargetsElsewhere(tempDir, qrDir, dataDir, stem, k, p);
      } else {
        FromBefore(fs, fs1, tempDir, stem, k, p);
        VacantDir(fs, dataDir, p);
      }
    }
  }

  // ---------------------------------------------------------------------------
  // Staging

  /** The data files of the fragments satisfy what the data-file loop's lemmas ask for. */
  lemma DataUnclashed(dats: seq<Path>, tempDir: Path, dataDir: Path, stem: Path, k: nat)
    requires Ascending(dats) && forall p :: p in dats ==> IsDataPath(dataDir, stem, k, p)
    requires CleanDir(tempDir) && CleanDir(dataDir) && tempDir != dataDir && NoSlash(stem)
    ensures Unclashed(dats, tempDir)
  {
    forall i, j | 0 <= i < j < |dats| ensures FileStem(dats[i]) != FileStem(dats[j]) {
      assert dats[i] in dats && dats[j] in dats;
      var a :| 0 <= a < k && dats[i] == DatPath(dataDir, ChunkStem(stem, a));
      var b :| 0 <= b < k && dats[j] == DatPath(dataDir, ChunkStem(stem, b));
      ChunkPathNames(tempDir, dataDir, stem, a);
      ChunkPathNames(tempDir, dataDir, stem, b);
    }
    forall c, d | c in dats && d in dats ensures d != PartPath(tempDir, FileStem(c)) {
      var a :| 0 <= a < k && c == DatPath(dataDir, ChunkStem(stem, a));
      var b :| 0 <= b < k && d == DatPath(dataDir, ChunkStem(stem, b));
      ChunkPathNames(tempDir, dataDir, stem, a);
      ChunkPathNames(tempDir, dataDir, stem, b);
    }
  }

  /** Fragment `i`'s data file is copied back to fragment `i`'s file. */
  lemma StagedCopy(fs: FileSystem, dats: seq<Path>, tempDir: Path, dataDir: Path, stem: Path, k: nat, i: nat)
    requires forall p :: p in dats <==> IsDataPath(dataDir, stem, k, p)
    requires forall p :: p in dats ==> p in fs
    requires Unclashed(dats, tempDir) && CleanDir(tempDir) && CleanDir(dataDir) && NoSlash(stem) && i < k
    ensures DatPath(dataDir, ChunkStem(stem, i)) in fs
    ensures Holds(Restage(fs, dats, tempDir), ChunkPath(tempDir, stem, i), fs[DatPath(dataDir, ChunkStem(stem, i))])
  {
    var d := DatPath(dataDir, ChunkStem(stem, i));
    assert d in dats;
    ChunkPathNames(tempDir, dataDir, stem, i);
    RestageCopies(fs, dats, tempDir, d);
  }

  /** The data-file loop writes nothing but fragment files. */
  lemma StagedFrame(fs: FileSystem, dats: seq<Path>, tempDir: Path, dataDir: Path, stem: Path, k: nat, p: Path)
    requires forall q :: q in dats ==> IsDataPath(dataDir, stem, k, q)
    requires forall q :: q in dats ==> q in fs
    requires CleanDir(tempDir) && CleanDir(dataDir) && NoSlash(stem) && !IsChunkPath(tempDir, stem, k, p)
    ensures SameAt(fs, Restage(fs, dats, tempDir), p)
  {
    forall c | c in dats ensures p != PartPath(tempDir, FileStem(c)) {
      var a :| 0 <= a < k && c == DatPath(dataDir, ChunkStem(stem, a));
      ChunkPathNames(tempDir, dataDir, stem, a);
    }
    RestageFrame(fs, dats, tempDir, p);
  }

  // ---------------------------------------------------------------------------
  // The staged directory is a fresh split

  /** The bytes a split of `src` leaves in fragment `i`'s file: the header and first read, or read `i`. */
  function FragmentBytes(src: Splitter.SourceFile, chunks: int, now: int64, sha: Hasher, i: nat): Bytes
    requires |src.content| <= MaxInt64 && chunks >= Splitter.MinChunks
    requires i < Splitter.FragmentCount(|src.content|, Splitter.BufferSize(|src.content|, chunks))
  {
    var b := Splitter.BufferSize(|src.content|, chunks);
    if i == 0 then Encode(Splitter.HeaderFor(src, chunks, now, sha)) + Take(src.content, b)
    else Splitter.Fragment(src.content, b, i)
  }

  /** `fs1` holds what a split of `src` into `outDir` writes, fragment by fragment. */
  ghost predicate CarriesSplit(fs1: FileSystem, src: Splitter.SourceFile, outDir: Path, chunks: int, now: int64,
                               sha: Hasher)
    requires |src.content| <= MaxInt64 && chunks >= Splitter.MinChunks
  {
    var k := Splitter.FragmentCount(|src.content|, Splitter.BufferSize(|src.content|, chunks));
    forall i :: 0 <= i < k ==>
      Holds(fs1, ChunkPath(outDir, Splitter.Stem(Base(src.name)), i), FragmentBytes(src, chunks, now, sha, i))
  }

  /** `fs` holds, in each fragment's data file, what the split wrote to that fragment's file. */
  ghost predicate DataCarries(fs: FileSystem, src: Splitter.SourceFile, dataDir: Path, chunks: int, now: int64,
                              sha: Hasher)
    requires |src.content| <= MaxInt64 && chunks >= Splitter.MinChunks
  {
    var k := Splitter.FragmentCount(|src.content|, Splitter.BufferSize(|src.content|, chunks));
    forall i :: 0 <= i < k ==>
      Holds(fs, DatPath(dataDir, ChunkStem(Splitter.Stem(Base(src.name)), i)), FragmentBytes(src, chunks, now, sha, i))
  }

  /**
   * What FileToQRCodes leaves for QRCodesToFile: no temporary directory, and
   * in `data` exactly one `.dat` file per fragment, holding what the split
   * wrote to that fragment's file.
   */
  ghost predicate Published(fsA: FileSystem, src: Splitter.SourceFile, outDir: Path, chunks: int, now: int64,
                            sha: Hasher)
    requires |src.content| <= MaxInt64 && chunks >= Splitter.MinChunks
  {
    var k := Splitter.FragmentCount(|src.content|, Splitter.BufferSize(|src.content|, chunks));
    && Vacant(fsA, SubDir(outDir, TempDirName))
    && (forall p :: p in DataFiles(fsA, outDir) <==> IsDataPath(SubDir(outDir, DataDirName), Splitter.Stem(Base(src.name)), k, p))
    && DataCarries(fsA, src, SubDir(outDir, DataDirName), chunks, now, sha)
  }

  /** A split that succeeds writes what CarriesSplit describes. */
  lemma SplitCarries(fs: FileSystem, src: Splitter.SourceFile, outDir: Path, chunks: int, now: int64, sha: Hasher)
    requires RoundTrip.Splittable(fs, src, outDir, chunks)
    ensures CarriesSplit(Splitter.SplitSpec(fs, src, outDir, chunks, now, sha).1, src, outDir, chunks, now, sha)
  {
    var k := Splitter.FragmentCount(|src.content|, Splitter.BufferSize(|src.content|, chunks));
    var stem := Splitter.Stem(Base(src.name));
    var fs1 := Splitter.SplitSpec(fs, src, outDir, chunks, now, sha).1;
    RoundTrip.StemNoSlash(Base(src.name));
    Splitter.SplitWrites(fs, src, outDir, chunks, now, sha);
    forall i | 0 <= i < k ensures Holds(fs1, ChunkPath(outDir, stem, i), FragmentBytes(src, chunks, now, sha, i)) {
    }
  }

  /** The temporary file of a split lies directly in its output directory. */
  lemma TempPathInDir(outDir: Path, stem: Path)
    requires CleanDir(outDir) && NoSlash(stem) && Splitter.FirstPartIsExtension(outDir, stem)
    ensures Dir(Splitter.TempPath(outDir, stem)) == outDir
  {
    Splitter.TempPathIsTmp(outDir, stem);
    Splitter.TmpNameParts(stem);
    JoinSplits(outDir, Splitter.TmpName(stem));
  }

  /** File systems that agree at every path are equal. */
  lemma SameEverywhere(fs: FileSystem, fs': FileSystem)
    requires forall p :: SameAt(fs, fs', p)
    ensures fs == fs'
  {
    forall p ensures (p in fs <==> p in fs') && (p in fs ==> fs[p] == fs'[p]) {
      assert SameAt(fs, fs', p);
    }
    assert fs.Keys == fs'.Keys;
  }

  /**
   * A directory that carries a split's fragment files, and otherwise
   * matches a vacant `fs`, is exactly what that split leaves in `fs`.
   */
  lemma StagedIsSplit(fs: FileSystem, st: FileSystem, src: Splitter.SourceFile, tempDir: Path, chunks: int,
                      now: int64, sha: Hasher)
    requires RoundTrip.Splittable(fs, src, tempDir, chunks)
    requires Vacant(fs, tempDir) && tempDir != CurrentDir && tempDir != [Slash]
    requires CarriesSplit(st, src, tempDir, chunks, now, sha)
    requires var k := Splitter.FragmentCount(|src.content|, Splitter.BufferSize(|src.content|, chunks));
      forall p :: !IsChunkPath(tempDir, Splitter.Stem(Base(src.name)), k, p) ==> SameAt(fs, st, p)
    ensures st == Splitter.SplitSpec(fs, src, tempDir, chunks, now, sha).1
  {
    var data := src.content;
    var b := Splitter.BufferSize(|data|, chunks);
    var k := Splitter.FragmentCount(|data|, b);
    var stem := Splitter.Stem(Base(src.name));
    var fs2 := Splitter.SplitSpec(fs, src, tempDir, chunks, now, sha).1;
    RoundTrip.SplitLayout(fs, src, tempDir, chunks, now, sha, fs2, stem, b, k);
    SplitCarries(fs, src, tempDir, chunks, now, sha);
    var t := Splitter.TempPath(tempDir, stem);
    TempPathInDir(tempDir, stem);
    if t in fs {
      VacantDir(fs, tempDir, t);
    }
    forall p ensures SameAt(st, fs2, p) {
      if IsChunkPath(tempDir, stem, k, p) {
        var i :| 0 <= i < k && p == ChunkPath(tempDir, stem, i);
        assert Holds(st, p, FragmentBytes(src, chunks, now, sha, i));
        assert Holds(fs2, p, FragmentBytes(src, chunks, now, sha, i));
      } else if p == t {
        assert SameAt(fs, st, p);
      } else {
        UntouchedOutside(tempDir, stem, k, p);
        assert SameAt(fs, st, p);
        assert SameAt(fs, fs2, p);
      }
    }
    SameEverywhere(st, fs2);
  }

  // ---------------------------------------------------------------------------
  // Copying the rebuilt file out

  /** After the merge, the rebuilt file is the only entry left in the temporary directory. */
  lemma MergedFound(fs: FileSystem, fs2: FileSystem, tempDir: Path, stem: Path, k: nat, out: Path, content: Bytes)
    requires RoundTrip.Restored(fs, fs2, out, content, tempDir, stem, k) && 1 <= k
    requires Vacant(fs, tempDir) && tempDir != CurrentDir && tempDir != [Slash]
    requires Dir(out) == tempDir && IsResultName(out)
    ensures FirstKept(Listed(fs2, tempDir, [])) == Some(out)
  {
    var entries := Listed(fs2, tempDir, []);
    forall p | p in entries ensures p == out {
      assert p in Matches(fs2, tempDir, []);
      if p != out {
        forall i | 0 <= i < k ensures p != ChunkPath(tempDir, stem, i) {
          assert Join(tempDir, ChunkName(stem, i)) !in fs2;
        }
        assert p != Splitter.TempPath(tempDir, stem);
        UntouchedOutside(tempDir, stem, k, p);
        assert SameAt(fs, fs2, p);
        VacantDir(fs, tempDir, p);
      }
    }
    assert Base(out)[|Base(out)|..] == [];
    assert out in Matches(fs2, tempDir, []);
  }

  // ---------------------------------------------------------------------------
  // The round trip

  /** The files the chunk loop visits after a split into a vacant directory, and what it needs of them. */
  lemma VisitedFragments(fs: FileSystem, fs1: FileSystem, outDir: Path, stem: Path, k: nat)
    requires RoundTrip.Laid(fs, fs1, SubDir(outDir, TempDirName), stem, k) && 1 <= k && NoSlash(stem)
    requires Vacant(fs, SubDir(outDir, TempDirName))
    ensures var files := ChunkFiles(fs1, SubDir(outDir, TempDirName));
      && (forall p :: p in files <==> IsChunkPath(SubDir(outDir, TempDirName), stem, k, p))
      && Separate(files, SubDir(outDir, QrDirName), SubDir(outDir, DataDirName))
  {
    var tempDir := SubDir(outDir, TempDirName);
    SubDirShape(outDir, TempDirName);
    SubDirShape(outDir, QrDirName);
    SubDirShape(outDir, DataDirName);
    SubDirsDistinct(outDir);
    SplitFilesOnly(fs, fs1, tempDir, stem, k);
    ChunkFilesAfterSplit(fs1, tempDir, stem, k);
    FragmentsSeparate(ChunkFiles(fs1, tempDir), tempDir, SubDir(outDir, QrDirName), SubDir(outDir, DataDirName), stem, k);
  }

  /**
   * Publishing the fragment files of a split into a vacant `temp`, with a
   * vacant `data` and an encoder that never fails, succeeds, removes the
   * temporary directory, and leaves one data file per fragment holding that
   * fragment file's bytes, and no other `.dat` file in `data`.
   */
  lemma PublishFacts(fs: FileSystem, fs1: FileSystem, outDir: Path, stem: Path, k: nat, s: Settings, enc: Encoders)
    requires RoundTrip.Laid(fs, fs1, SubDir(outDir, TempDirName), stem, k) && 1 <= k && NoSlash(stem)
    requires Vacant(fs, SubDir(outDir, TempDirName)) && Vacant(fs, SubDir(outDir, DataDirName))
    requires EncodesAll(enc)
    ensures var tempDir := SubDir(outDir, TempDirName);
      var dataDir := SubDir(outDir, DataDirName);
      var r := Publish(fs1, tempDir, SubDir(outDir, QrDirName), dataDir, s, enc);
      && r.0 == Ok
      && Vacant(r.1, tempDir)
      && (forall p :: p in DataFiles(r.1, outDir) <==> IsDataPath(dataDir, stem, k, p))
      && forall i :: 0 <= i < k ==>
           ChunkPath(tempDir, stem, i) in fs1
           && Holds(r.1, DatPath(dataDir, ChunkStem(stem, i)), fs1[ChunkPath(tempDir, stem, i)])
  {
    var tempDir := SubDir(outDir, TempDirName);
    var qrDir := SubDir(outDir, QrDirName);
    var dataDir := SubDir(outDir, DataDirName);
    VisitedFragments(fs, fs1, outDir, stem, k);
    var files := ChunkFiles(fs1, tempDir);
    EmitSucceeds(fs1, files, qrDir, dataDir, s, enc);
    var fsA := RemoveAll(Emit(fs1, files, qrDir, dataDir, s, enc).1, tempDir);
    assert Publish(fs1, tempDir, qrDir, dataDir, s, enc) == (Ok, fsA);
    forall i | 0 <= i < k
      ensures ChunkPath(tempDir, stem, i) in fs1
      ensures Holds(fsA, DatPath(dataDir, ChunkStem(stem, i)), fs1[ChunkPath(tempDir, stem, i)])
    {
      PublishedCopy(fs1, files, outDir, stem, k, s, enc, i);
    }
    forall p ensures p in DataFiles(fsA, outDir) <==> IsDataPath(dataDir, stem, k, p) {
      if p in DataFiles(fsA, outDir) {
        assert p in Matches(fsA, dataDir, DatExt);
        PublishedOnlyData(fs, fs1, files, outDir, stem, k, s, enc, p);
      }
      if IsDataPath(dataDir, stem, k, p) {
        var i :| 0 <= i < k && p == DatPath(dataDir, ChunkStem(stem, i));
        SubDirShape(outDir, TempDirName);
        SubDirShape(outDir, DataDirName);
        ChunkPathNames(tempDir, dataDir, stem, i);
        assert p in Matches(fsA, dataDir, DatExt);
      }
    }
  }

  /**
   * FileToQRCodes into an output directory whose `temp` and `data`
   * sub-directories are vacant, with an encoder that never fails, succeeds;
   * it leaves no temporary directory and exactly one data file per
   * fragment, holding the bytes the split wrote to that fragment's file.
   */
  lemma PublishedFragments(fs: FileSystem, s: Settings, filePath: Path, outDir: Path, now: int64, sha: Hasher,
                           enc: Encoders, content: Bytes)
    requires ReadAt(fs, filePath) == Some(content)
    requires RoundTrip.Splittable(fs, Splitter.SourceFile(filePath, content), SubDir(outDir, TempDirName),
                                  NumChunks(|content|))
    requires Vacant(fs, SubDir(outDir, TempDirName)) && Vacant(fs, SubDir(outDir, DataDirName))
    requires EncodesAll(enc)
    ensures |content| <= MaxInt64 && NumChunks(|content|) >= Splitter.MinChunks
    ensures var r := FileToQRCodesSpec(fs, s, filePath, outDir, now, sha, enc);
      && r.0 == Ok
      && Published(r.1, Splitter.SourceFile(filePath, content), outDir, NumChunks(|content|), now, sha)
  {
    var src := Splitter.SourceFile(filePath, content);
    var n := NumChunks(|content|);
    var tempDir := SubDir(outDir, TempDirName);
    var dataDir := SubDir(outDir, DataDirName);
    var s1 := s.(maxChunkSize := ChunkSizeFor(|content|));
    var b := Splitter.BufferSize(|content|, n);
    var k := Splitter.FragmentCount(|content|, b);
    var stem := FileStem(filePath);
    var fs1 := Splitter.SplitSpec(fs, src, tempDir, n, now, sha).1;
    RoundTrip.SplitLayout(fs, src, tempDir, n, now, sha, fs1, stem, b, k);
    SplitCarries(fs, src, tempDir, n, now, sha);
    FileToQRCodesOpens(fs, s, filePath, outDir, now, sha, enc, content);
    PublishFacts(fs, fs1, outDir, stem, k, s1, enc);
    var fsA := Publish(fs1, tempDir, SubDir(outDir, QrDirName), dataDir, s1, enc).1;
    assert FileToQRCodesSpec(fs, s, filePath, outDir, now, sha, enc) == (Ok, fsA);
    assert stem == Splitter.Stem(Base(src.name));
    forall i | 0 <= i < k ensures Holds(fsA, DatPath(dataDir, ChunkStem(stem, i)), FragmentBytes(src, n, now, sha, i)) {
      assert Holds(fs1, ChunkPath(tempDir, stem, i), FragmentBytes(src, n, now, sha, i));
    }
    assert DataCarries(fsA, src, dataDir, n, now, sha);
    assert Published(fsA, src, outDir, n, now, sha);
  }

  /** Removing the temporary directory leaves the split's conditions in place. */
  lemma SplittableAgain(fs: FileSystem, fsA: FileSystem, src: Splitter.SourceFile, tempDir: Path, chunks: int)
    requires RoundTrip.Splittable(fs, src, tempDir, chunks)
    requires Vacant(fsA, tempDir) && tempDir != CurrentDir && tempDir != [Slash]
    ensures RoundTrip.Splittable(fsA, src, tempDir, chunks)
  {
    forall p | p in fsA ensures Dir(p) != tempDir {
      VacantDir(fsA, tempDir, p);
    }
  }

  /**
   * Copying the data files back as `.part` files rebuilds exactly the
   * directory a split of the same source into the vacant `temp` leaves.
   */
  lemma StagedFromData(fsA: FileSystem, src: Splitter.SourceFile, outDir: Path, chunks: int, now: int64, sha: Hasher)
    requires RoundTrip.Splittable(fsA, src, SubDir(outDir, TempDirName), chunks)
    requires Vacant(fsA, SubDir(outDir, TempDirName))
    requires var k := Splitter.FragmentCount(|src.content|, Splitter.BufferSize(|src.content|, chunks));
      forall p :: p in DataFiles(fsA, outDir) <==> IsDataPath(SubDir(outDir, DataDirName), Splitter.Stem(Base(src.name)), k, p)
    requires DataCarries(fsA, src, SubDir(outDir, DataDirName), chunks, now, sha)
    ensures Staged(fsA, outDir) == Splitter.SplitSpec(fsA, src, SubDir(outDir, TempDirName), chunks, now, sha).1
  {
    var tempDir := SubDir(outDir, TempDirName);
    var dataDir := SubDir(outDir, DataDirName);
    var k := Splitter.FragmentCount(|src.content|, Splitter.BufferSize(|src.content|, chunks));
    var stem := Splitter.Stem(Base(src.name));
    SubDirShape(outDir, TempDirName);
    SubDirShape(outDir, DataDirName);
    SubDirsDistinct(outDir);
    RoundTrip.StemNoSlash(Base(src.name));
    var dats := DataFiles(fsA, outDir);
    DataUnclashed(dats, tempDir, dataDir, stem, k);
    var st := Restage(fsA, dats, tempDir);
    forall i | 0 <= i < k ensures Holds(st, ChunkPath(tempDir, stem, i), FragmentBytes(src, chunks, now, sha, i)) {
      StagedCopy(fsA, dats, tempDir, dataDir, stem, k, i);
    }
    assert CarriesSplit(st, src, tempDir, chunks, now, sha);
    forall p | !IsChunkPath(tempDir, stem, k, p) ensures SameAt(fsA, st, p) {
      StagedFrame(fsA, dats, tempDir, dataDir, stem, k, p);
    }
    StagedIsSplit(fsA, st, src, tempDir, chunks, now, sha);
  }

  /** A publication of at least one fragment leaves a data file. */
  lemma SomeDataFile(fsA: FileSystem, outDir: Path, stem: Path, k: nat)
    requires 1 <= k && forall p :: p in DataFiles(fsA, outDir) <==> IsDataPath(SubDir(outDir, DataDirName), stem, k, p)
    ensures DataFiles(fsA, outDir) != []
  {
    assert IsDataPath(SubDir(outDir, DataDirName), stem, k, DatPath(SubDir(outDir, DataDirName), ChunkStem(stem, 0)));
  }

  /** When the data files exist and the merge succeeds, QRCodesToFile is the copy out of the merged directory. */
  lemma MergedIsCopied(fs: FileSystem, inDir: Path, outFilePath: Path, sha: Hasher, chunks: seq<ParsedChunk>)
    requires Merger.AllPresent(Staged(fs, inDir), chunks) && DataFiles(fs, inDir) != []
    requires Merger.MergeSpec(Staged(fs, inDir), SubDir(inDir, TempDirName), chunks, sha).0 == Ok
    ensures QRCodesToFileSpec(fs, inDir, outFilePath, sha, chunks)
         == CopyOut(Merger.MergeSpec(Staged(fs, inDir), SubDir(inDir, TempDirName), chunks, sha).1,
                    SubDir(inDir, TempDirName), outFilePath)
  {
  }

  /** Copying out a found entry to a path outside the temporary directory leaves its contents there. */
  lemma CopyOutFound(fs2: FileSystem, tempDir: Path, outFilePath: Path, r: Path)
    requires FirstKept(Listed(fs2, tempDir, [])) == Some(r) && r in fs2
    requires FileKey(outFilePath).Some? && !Within(Clean(outFilePath), tempDir)
    ensures CopyOut(fs2, tempDir, outFilePath).0 == Ok
    ensures Holds(CopyOut(fs2, tempDir, outFilePath).1, Clean(outFilePath), fs2[r])
  {
    FileKeyClean(outFilePath);
  }

  /**
   * Merging the fragment files a split left in the vacant `tempDir`
   * succeeds, and the rebuilt file is the first entry of `tempDir` that
   * QRCodesToFile may copy out.
   */
  lemma MergeLeavesResult(fsA: FileSystem, st: FileSystem, src: Splitter.SourceFile, tempDir: Path, chunks: int,
                          now: int64, sha: Hasher, found: seq<ParsedChunk>)
    requires RoundTrip.Splittable(fsA, src, tempDir, chunks)
    requires Vacant(fsA, tempDir) && tempDir != CurrentDir && tempDir != [Slash] && IsResultName(src.name)
    requires st == Splitter.SplitSpec(fsA, src, tempDir, chunks, now, sha).1
    requires Discovered(st, tempDir, found)
    ensures Merger.AllPresent(st, found)
    ensures Merger.MergeSpec(st, tempDir, found, sha).0 == Ok
    ensures var merged := Merger.MergeSpec(st, tempDir, found, sha).1;
      var out := Join(tempDir, Base(src.name));
      FirstKept(Listed(merged, tempDir, [])) == Some(out) && Holds(merged, out, src.content)
  {
    var b := Splitter.BufferSize(|src.content|, chunks);
    var k := Splitter.FragmentCount(|src.content|, b);
    var stem := Splitter.Stem(Base(src.name));
    RoundTrip.SplitLayout(fsA, src, tempDir, chunks, now, sha, st, stem, b, k);
    RoundTrip.SplitThenMerge(fsA, src, tempDir, chunks, now, sha, found);
    var merged := Merger.MergeSpec(st, tempDir, found, sha).1;
    var out := Join(tempDir, Base(src.name));
    JoinSplits(tempDir, Base(src.name));
    MergedFound(fsA, merged, tempDir, stem, k, out, src.content);
  }

  /**
   * QRCodesToFile on a directory whose data files restage into what a split
   * of the source would leave in `temp` succeeds and writes the source's
   * contents to the output path.
   */
  lemma MergeCopiesOut(fsA: FileSystem, src: Splitter.SourceFile, outDir: Path, chunks: int, now: int64, sha: Hasher,
                       outFilePath: Path, found: seq<ParsedChunk>)
    requires RoundTrip.Splittable(fsA, src, SubDir(outDir, TempDirName), chunks)
    requires Vacant(fsA, SubDir(outDir, TempDirName)) && IsResultName(src.name)
    requires Staged(fsA, outDir) == Splitter.SplitSpec(fsA, src, SubDir(outDir, TempDirName), chunks, now, sha).1
    requires DataFiles(fsA, outDir) != []
    requires FileKey(outFilePath).Some? && !Within(Clean(outFilePath), SubDir(outDir, TempDirName))
    requires Discovered(Staged(fsA, outDir), SubDir(outDir, TempDirName), found)
    ensures Merger.AllPresent(Staged(fsA, outDir), found)
    ensures QRCodesToFileSpec(fsA, outDir, outFilePath, sha, found).0 == Ok
    ensures Holds(QRCodesToFileSpec(fsA, outDir, outFilePath, sha, found).1, Clean(outFilePath), src.content)
  {
    var tempDir := SubDir(outDir, TempDirName);
    var st := Staged(fsA, outDir);
    SubDirShape(outDir, TempDirName);
    MergeLeavesResult(fsA, st, src, tempDir, chunks, now, sha, found);
    var merged := Merger.MergeSpec(st, tempDir, found, sha).1;
    MergedIsCopied(fsA, outDir, outFilePath, sha, found);
    CopyOutFound(merged, tempDir, outFilePath, Join(tempDir, Base(src.name)));
  }

  /** QRCodesToFile on what FileToQRCodes published gives the source back at the output path. */
  lemma RestoredFromPublished(fs: FileSystem, fsA: FileSystem, src: Splitter.SourceFile, outDir: Path, chunks: int,
                              now: int64, sha: Hasher, outFilePath: Path, found: seq<ParsedChunk>)
    requires RoundTrip.Splittable(fs, src, SubDir(outDir, TempDirName), chunks)
    requires Published(fsA, src, outDir, chunks, now, sha) && IsResultName(src.name)
    requires FileKey(outFilePath).Some? && !Within(Clean(outFilePath), SubDir(outDir, TempDirName))
    requires Discovered(Staged(fsA, outDir), SubDir(outDir, TempDirName), found)
    ensures Merger.AllPresent(Staged(fsA, outDir), found)
    ensures QRCodesToFileSpec(fsA, outDir, outFilePath, sha, found).0 == Ok
    ensures Holds(QRCodesToFileSpec(fsA, outDir, outFilePath, sha, found).1, Clean(outFilePath), src.content)
  {
    var tempDir := SubDir(outDir, TempDirName);
    var k := Splitter.FragmentCount(|src.content|, Splitter.BufferSize(|src.content|, chunks));
    SubDirShape(outDir, TempDirName);
    SplittableAgain(fs, fsA, src, tempDir, chunks);
    Splitter.FragmentCountBound(|src.content|, chunks);
    SomeDataFile(fsA, outDir, Splitter.Stem(Base(src.name)), k);
    StagedFromData(fsA, src, outDir, chunks, now, sha);
    MergeCopiesOut(fsA, src, outDir, chunks, now, sha, outFilePath, found);
  }

  /**
   * FileToQRCodes followed by QRCodesToFile on the same directory writes
   * the original contents to the output path. The output directory's
   * `temp` and `data` start out vacant, the encoder never fails, the source
   * meets the split's conditions, its name is not itself a fragment or
   * temporary name, and the output path lies outside `temp`.
   */
  lemma FileThroughQRCodes(fs: FileSystem, s: Settings, filePath: Path, outDir: Path, now: int64, sha: Hasher,
                           enc: Encoders, content: Bytes, outFilePath: Path, found: seq<ParsedChunk>)
    requires ReadAt(fs, filePath) == Some(content)
    requires RoundTrip.Splittable(fs, Splitter.SourceFile(filePath, content), SubDir(outDir, TempDirName),
                                  NumChunks(|content|))
    requires Vacant(fs, SubDir(outDir, TempDirName)) && Vacant(fs, SubDir(outDir, DataDirName))
    requires EncodesAll(enc) && IsResultName(filePath)
    requires FileKey(outFilePath).Some? && !Within(Clean(outFilePath), SubDir(outDir, TempDirName))
    requires Discovered(Staged(FileToQRCodesSpec(fs, s, filePath, outDir, now, sha, enc).1, outDir),
                        SubDir(outDir, TempDirName), found)
    ensures var r := FileToQRCodesSpec(fs, s, filePath, outDir, now, sha, enc);
      && r.0 == Ok
      && Merger.AllPresent(Staged(r.1, outDir), found)
      && QRCodesToFileSpec(r.1, outDir, outFilePath, sha, found).0 == Ok
      && Holds(QRCodesToFileSpec(r.1, outDir, outFilePath, sha, found).1, Clean(outFilePath), content)
  {
    var src := Splitter.SourceFile(filePath, content);
    PublishedFragments(fs, s, filePath, outDir, now, sha, enc, content);
    var r := FileToQRCodesSpec(fs, s, filePath, outDir, now, sha, enc);
    RestoredFromPublished(fs, r.1, src, outDir, NumChunks(|content|), now, sha, outFilePath, found);
  }
}
