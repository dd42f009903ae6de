/**
 * QRFileTransfer: turns a file into QR images and raw data files through
 * the splitter, and rebuilds it from the data files through the merger.
 * The QR symbol encoder, the PNG writer, base64 and the float scaling of the
 * size estimate are parameters (`Encoders`).
 */
module QrTransfer {
  import opened Bytes
  import opened Paths
  import opened Errors
  import opened Header
  import opened Discovery
  import opened Listing
  import Splitter
  import Merger

  /** qrcode.RecoveryLevel. */
  datatype RecoveryLevel = Low | Medium | High | Highest

  /** The fields of a QRFileTransfer other than its splitter, as one value. */
  datatype Settings = Settings(maxChunkSize: int, recoveryLevel: RecoveryLevel, qrSize: int,
                               minQRSize: int, maxQRSize: int, autoAdjustQRSize: bool)

  const Defaults: Settings := Settings(2000, Medium, 800, 400, 1600, true)

  /**
   * What lies outside the model: `scale(n)` is int(float64(n) * 1.34),
   * `base64` the padded standard encoding, `qr` builds a symbol for a text at
   * a recovery level (None: the text does not fit), `png` draws a symbol at a
   * pixel size.
   */
  datatype Encoders = Encoders(scale: nat -> nat, base64: Bytes -> Bytes,
                               qr: (Bytes, RecoveryLevel) -> Option<Bytes>, png: (Bytes, int) -> Bytes)

  const TempDirName: Path := [116, 101, 109, 112]                  // "temp"
  const QrDirName: Path := [113, 114, 99, 111, 100, 101, 115]     // "qrcodes"
  const DataDirName: Path := [100, 97, 116, 97]                    // "data"

  /** filepath.Join of a directory argument and one of the fixed sub-directory names: a cleaned path. */
  function SubDir(dir: Path, name: Path): (r: Path)
    requires name == TempDirName || name == QrDirName || name == DataDirName
    ensures r != [] && Clean(r) == r && DirArg(r) == r
  {
    CleanIdempotent(dir);
    CleanOfJoin(Clean(dir), name);
    JoinIsPrefix(Clean(dir), name);
    Join(Clean(dir), name)
  }
  const PngExt: Bytes := [46, 112, 110, 103]                       // ".png"
  const DatExt: Bytes := [46, 100, 97, 116]                        // ".dat"

  // ---------------------------------------------------------------------------
  // The number of chunks

  /** numChunks: at least two, and more the larger the file. */
  function NumChunks(size: nat): (n: int)
    ensures n >= Splitter.MinChunks
  {
    if size <= 1000 then 2
    else if size <= 5000 then size / 1000 + 1
    else if size <= 20000 then size / 800 + 1
    else size / 500 + 1
  }

  /** The new maxChunkSize: the read buffer SplitFile uses for that many chunks. */
  function ChunkSizeFor(size: nat): (b: int)
    ensures b == Splitter.BufferSize(size, NumChunks(size))
  {
    size / NumChunks(size) + 1
  }

  lemma QuotientBelow(x: nat, n: int, c: nat)
    requires n >= 1 && x < c * n
    ensures x / n < c
  {
  }

  /**
   * The buffer SplitFile then uses (the new maxChunkSize) is at most 1000
   * bytes, at most 800 above 5000 bytes and at most 500 above 20000 bytes.
   */
  lemma ChunkSizeBound(size: nat)
    ensures var b := ChunkSizeFor(size);
      b <= 1000 && (size > 5000 ==> b <= 800) && (size > 20000 ==> b <= 500)
  {
    var n := NumChunks(size);
    if size <= 1000 {
    } else if size <= 5000 {
      QuotientBelow(size, n, 1000);
    } else if size <= 20000 {
      QuotientBelow(size, n, 800);
    } else {
      QuotientBelow(size, n, 500);
    }
  }

  lemma MulCancel(x: int, y: int, d: int)
    requires d >= 1 && x * d < y * d
    ensures x < y
  {
    assert (y - x) * d == y * d - x * d;
  }

  lemma DivMonotone(a: nat, b: nat, d: nat)
    requires a <= b && d >= 1
    ensures a / d <= b / d
  {
    var qa, qb := a / d, b / d;
    assert qa * d <= a;
    assert b < qb * d + d;
    assert (qb + 1) * d == qb * d + d;
    MulCancel(qa, qb + 1, d);
  }

  /** A larger file is never cut into fewer chunks. */
  lemma NumChunksMonotone(a: nat, b: nat)
    requires a <= b
    ensures NumChunks(a) <= NumChunks(b)
  {
    if 1000 < a && b <= 5000 {
      DivMonotone(a, b, 1000);
    } else if 5000 < a && b <= 20000 {
      DivMonotone(a, b, 800);
    } else if 20000 < a {
      DivMonotone(a, b, 500);
    }
  }

  // ---------------------------------------------------------------------------
  // The QR size

  const Thresholds: seq<int> := [16, 100, 271, 500, 858, 1300, 1732, 2300]
  const Versions: seq<int> := [1, 5, 10, 15, 20, 25, 30, 35, 40]

  /** The estimated QR version for an encoded size. */
  function EstimatedVersion(encodedSize: int): (v: int)
    ensures 1 <= v <= 40
  {
    if encodedSize < 16 then 1
    else if encodedSize < 100 then 5
    else if encodedSize < 271 then 10
    else if encodedSize < 500 then 15
    else if encodedSize < 858 then 20
    else if encodedSize < 1300 then 25
    else if encodedSize < 1732 then 30
    else if encodedSize < 2300 then 35
    else 40
  }

  /**
   * The estimate is the step function of the threshold table: below
   * threshold `i` the version is at most `Versions[i]`, from it on at least
   * `Versions[i + 1]`.
   */
  lemma VersionSteps(e: int)
    ensures forall i :: 0 <= i < |Thresholds| && e < Thresholds[i] ==> EstimatedVersion(e) <= Versions[i]
    ensures forall i :: 0 <= i < |Thresholds| && Thresholds[i] <= e ==> EstimatedVersion(e) >= Versions[i + 1]
  {
  }

  /** More data never gives a smaller version. */
  lemma VersionMonotone(a: int, b: int)
    requires a <= b
    ensures EstimatedVersion(a) <= EstimatedVersion(b)
  {
  }

  /** Modules per side of a version-`v` QR symbol: 21 for version 1, four more per version. */
  function ModuleCount(v: int): (m: int)
    requires 1 <= v <= 40
    ensures 21 <= m <= 177 && (m - 17) % 4 == 0
  {
    21 + (v - 1) * 4
  }

  /** The bound nearest to `p` when `p` is out of [lo, hi]; `p` itself otherwise. */
  function Clamp(p: int, lo: int, hi: int): (r: int)
    ensures lo <= hi ==> lo <= r <= hi
    ensures lo <= p <= hi ==> r == p
    ensures p < lo ==> r == lo
  {
    if p < lo then lo else if p > hi then hi else p
  }

  /**
   * calculateOptimalQRSize, given `scaled` = int(float64(chunkSize) * 1.34):
   * four pixels per module of the estimated version, kept in [minSize, maxSize].
   */
  function OptimalQRSize(scaled: nat, minSize: int, maxSize: int): (r: int)
    ensures minSize <= maxSize ==> minSize <= r <= maxSize
  {
    var encodedSize := scaled + 20;
    Clamp(ModuleCount(EstimatedVersion(encodedSize)) * 4, minSize, maxSize)
  }

  lemma ClampMonotone(p: int, q: int, lo: int, hi: int)
    requires p <= q && lo <= hi
    ensures Clamp(p, lo, hi) <= Clamp(q, lo, hi)
  {
  }

  /** A larger chunk never gets a smaller image, when the bounds are ordered. */
  lemma OptimalQRSizeMonotone(a: nat, b: nat, minSize: int, maxSize: int)
    requires a <= b && minSize <= maxSize
    ensures OptimalQRSize(a, minSize, maxSize) <= OptimalQRSize(b, minSize, maxSize)
  {
    VersionMonotone(a + 20, b + 20);
    ClampMonotone(ModuleCount(EstimatedVersion(a + 20)) * 4, ModuleCount(EstimatedVersion(b + 20)) * 4,
                  minSize, maxSize);
  }

  /**
   * With the default bounds the image is 400 pixels or four per module,
   * whichever is more, and never larger than 708: the 1600 cap is never used.
   */
  lemma DefaultQRSizes(scaled: nat)
    ensures var px := ModuleCount(EstimatedVersion(scaled + 20)) * 4;
      OptimalQRSize(scaled, Defaults.minQRSize, Defaults.maxQRSize) == (if px < 400 then 400 else px)
    ensures 400 <= OptimalQRSize(scaled, Defaults.minQRSize, Defaults.maxQRSize) <= 708
  {
  }

  /** The size a chunk's image is drawn at: computed when auto-adjusting, the fixed qrSize otherwise. */
  function ChosenQRSize(s: Settings, scaled: nat): (r: int)
    ensures s.autoAdjustQRSize && s.minQRSize <= s.maxQRSize ==> s.minQRSize <= r <= s.maxQRSize
    ensures !s.autoAdjustQRSize ==> r == s.qrSize
  {
    if s.autoAdjustQRSize then OptimalQRSize(scaled, s.minQRSize, s.maxQRSize) else s.qrSize
  }

  // ---------------------------------------------------------------------------
  // Names

  /** The base name without its last extension. */
  function FileStem(p: Path): Path {
    Splitter.Stem(Base(p))
  }

  function PngPath(qrDir: Path, stem: Path): Path { Join(qrDir, stem + PngExt) }
  function DatPath(dataDir: Path, stem: Path): Path { Join(dataDir, stem + DatExt) }
  function PartPath(tempDir: Path, stem: Path): Path { Join(tempDir, stem + PartExt) }

  /** A name `stem + ext`, with `ext` a dot and then neither dots nor slashes, has `stem` as its stem. */
  lemma StemOfExtended(stem: Path, ext: Bytes)
    requires IsExtension(ext)
    ensures Ext(stem + ext) == ext && Splitter.Stem(stem + ext) == stem
  {
    var n := stem + ext;
    Splitter.ExtBeforeFinds(n, |n|, |stem|);
    assert n[|stem|..] == ext;
    assert n[..|n| - |ext|] == stem;
  }

  /** An extension as filepath.Ext returns it: a dot, then neither dots nor separators. */
  predicate IsExtension(ext: Bytes) {
    |ext| >= 1 && ext[0] == Dot && forall k :: 1 <= k < |ext| ==> ext[k] != Dot && ext[k] != Slash
  }

  lemma KnownExtensions()
    ensures IsExtension(PartExt) && IsExtension(DatExt) && IsExtension(PngExt)
  {
    assert PartExt[0] == Dot && DatExt[0] == Dot && PngExt[0] == Dot;
  }

  /** The stem of `dir/<stem><ext>` is `stem`. */
  lemma StemOfJoined(d: Path, stem: Path, ext: Bytes)
    requires CleanDir(d) && NoSlash(stem) && IsExtension(ext)
    ensures Base(Join(d, stem + ext)) == stem + ext && FileStem(Join(d, stem + ext)) == stem
  {
    assert PlainName(stem + ext);
    JoinSplits(d, stem + ext);
    StemOfExtended(stem, ext);
  }

  /** The stem of fragment `i`: `<s>_<four digits>`. */
  lemma FragmentStem(s: Path, i: nat)
    requires NoSlash(s)
    ensures ChunkName(s, i) == s + [Underscore] + Pad4(i) + PartExt
    ensures NoSlash(s + [Underscore] + Pad4(i))
  {
    var p := Pad4(i);
    assert forall j :: 0 <= j < |p| ==> p[j] != Slash;
  }

  /**
   * The names of one chunk: fragment `<stem>.part` gives `<stem>.dat`,
   * which gives `<stem>.part` back in the temporary directory, where the
   * same fragment index is read from it.
   */
  lemma ChunkNameRoundTrip(s: Path, i: nat, tempIn: Path, dataDir: Path, tempOut: Path)
    requires NoSlash(s) && CleanDir(tempIn) && CleanDir(dataDir) && CleanDir(tempOut)
    ensures var stem := FileStem(Join(tempIn, ChunkName(s, i)));
      var back := PartPath(tempOut, FileStem(DatPath(dataDir, stem)));
      back == Join(tempOut, ChunkName(s, i)) && Dir(back) == tempOut
      && ChunkIndex(Base(back)) == if i < 10000 then Some(i) else None
  {
    var name := ChunkName(s, i);
    var stem := s + [Underscore] + Pad4(i);
    FragmentStem(s, i);
    KnownExtensions();
    StemOfJoined(tempIn, stem, PartExt);
    assert FileStem(Join(tempIn, name)) == stem;
    StemOfJoined(dataDir, stem, DatExt);
    assert FileStem(DatPath(dataDir, stem)) == stem;
    StemOfJoined(tempOut, stem, PartExt);
    assert PartPath(tempOut, stem) == Join(tempOut, name);
    JoinSplits(tempOut, stem + PartExt);
    ChunkNameIndex(s, i);
  }

  // ---------------------------------------------------------------------------
  // The QR text

  const ChunkLabel: Bytes := [67, 104, 117, 110, 107, 58, 32]   // "Chunk: "
  const DataLabel: Bytes := [10, 68, 97, 116, 97, 58, 32]       // "\nData: "
  const Newline: uint8 := 10

  /** The text put in a chunk's QR code: its stem and its bytes in base64. */
  function Payload(stem: Bytes, encoded: Bytes): Bytes {
    ChunkLabel + stem + DataLabel + encoded
  }

  /** Reads a QR text back: the stem up to the first "\nData: ", and everything after it. */
  function ParsePayload(s: Bytes): Option<(Bytes, Bytes)> {
    if |s| < |ChunkLabel| || s[..|ChunkLabel|] != ChunkLabel then None
    else
      var rest := s[|ChunkLabel|..];
      match IndexOf(rest, DataLabel)
      case None => None
      case Some(j) => Some((rest[..j], rest[j + |DataLabel|..]))
  }

  /** Any stem without a line break and any encoded text are read back from the QR text. */
  lemma PayloadParses(stem: Bytes, encoded: Bytes)
    requires Newline !in stem
    ensures ParsePayload(Payload(stem, encoded)) == Some((stem, encoded))
  {
    var s := Payload(stem, encoded);
    var rest := s[|ChunkLabel|..];
    assert rest == stem + DataLabel + encoded;
    assert OccursAt(rest, DataLabel, |stem|);
    forall k | 0 <= k < |stem| ensures !OccursAt(rest, DataLabel, k) {
      assert rest[k] == stem[k];
    }
    assert rest[..|stem|] == stem;
    assert rest[|stem| + |DataLabel|..] == encoded;
  }

  /** Whatever ParsePayload accepts is the payload of the parts it returns. */
  lemma ParsePayloadExact(s: Bytes)
    requires ParsePayload(s).Some?
    ensures Payload(ParsePayload(s).value.0, ParsePayload(s).value.1) == s
  {
    var rest := s[|ChunkLabel|..];
    var j := IndexOf(rest, DataLabel).value;
    assert rest == rest[..j] + DataLabel + rest[j + |DataLabel|..];
    assert s == ChunkLabel + rest;
  }

  // ---------------------------------------------------------------------------
  // FileToQRCodes

  /**
   * One round of the chunk loop: draw the fragment's QR code into
   * `qrcodes/<stem>.png` and copy its bytes to `data/<stem>.dat`.
   */
  function EmitOne(fs: FileSystem, p: Path, qrDir: Path, dataDir: Path, s: Settings, enc: Encoders)
    : (r: Result<FileSystem>)
    requires p in fs
    ensures r.Success? ==> fs.Keys <= r.value.Keys
  {
    var data := fs[p];
    var stem := FileStem(p);
    match enc.qr(Payload(stem, enc.base64(data)), s.recoveryLevel)
    case None => Failure(QrCodeFailed(p))
    case Some(symbol) =>
      var image := enc.png(symbol, ChosenQRSize(s, enc.scale(|data|)));
      Success(fs[PngPath(qrDir, stem) := image][DatPath(dataDir, stem) := data])
  }

  /** The chunk loop over `files` in order, stopping at the first QR code that cannot be built. */
  function Emit(fs: FileSystem, files: seq<Path>, qrDir: Path, dataDir: Path, s: Settings, enc: Encoders)
    : (r: (Status, FileSystem))
    requires forall p :: p in files ==> p in fs
    ensures fs.Keys <= r.1.Keys
    decreases |files|
  {
    if files == [] then (Ok, fs)
    else
      match EmitOne(fs, files[0], qrDir, dataDir, s, enc)
      case Failure(e) => (Err(e), fs)
      case Success(fs1) => Emit(fs1, files[1..], qrDir, dataDir, s, enc)
  }

  /** One round of the chunk loop, at position `i` of the list. */
  lemma EmitAdvance(fs: FileSystem, files: seq<Path>, i: nat, qrDir: Path, dataDir: Path, s: Settings, enc: Encoders)
    requires i < |files| && forall p :: p in files ==> p in fs
    ensures var p := files[i];
      var data := fs[p];
      var stem := FileStem(p);
      var symbol := enc.qr(Payload(stem, enc.base64(data)), s.recoveryLevel);
      Emit(fs, files[i..], qrDir, dataDir, s, enc)
      == if symbol.None? then (Err(QrCodeFailed(p)), fs)
         else Emit(fs[PngPath(qrDir, stem) := enc.png(symbol.value, ChosenQRSize(s, enc.scale(|data|)))]
                     [DatPath(dataDir, stem) := data], files[i + 1..], qrDir, dataDir, s, enc)
  {
    assert files[i..][0] == files[i] && files[i..][1..] == files[i + 1..];
  }

  /** p equals `d` or lies below it. */
  predicate Within(p: Path, d: Path) {
    p == d || (|p| > |d| && p[..|d|] == d && p[|d|] == Slash)
  }

  /** os.RemoveAll(d): `d` and everything below it disappear; nothing else changes. */
  function RemoveAll(fs: FileSystem, d: Path): (r: FileSystem)
    ensures forall p :: p in r <==> p in fs && !Within(p, d)
    ensures forall p :: p in r ==> r[p] == fs[p]
  {
    map p | p in fs && !Within(p, d) :: fs[p]
  }

  /** The fragment files the chunk loop visits: the `.tmp` ones, then the `.part` ones, each sorted. */
  ghost function ChunkFiles(fs: FileSystem, tempDir: Path): (r: seq<Path>)
    ensures forall p :: p in r ==> p in fs
  {
    Listed(fs, tempDir, TmpExt) + Listed(fs, tempDir, PartExt)
  }

  /** After the split: every fragment file drawn and copied, then the temporary directory removed. */
  ghost function Publish(fs1: FileSystem, tempDir: Path, qrDir: Path, dataDir: Path, s: Settings, enc: Encoders)
    : (Status, FileSystem)
  {
    var emitted := Emit(fs1, ChunkFiles(fs1, tempDir), qrDir, dataDir, s, enc);
    if emitted.0.Err? then emitted else (Ok, RemoveAll(emitted.1, tempDir))
  }

  /** The split into `outDir/temp`, and on success the QR images and data files, with settings `s`. */
  ghost function SplitAndPublishSpec(fs: FileSystem, src: Splitter.SourceFile, outDir: Path, numChunks: int,
                                     now: int64, sha: Hasher, s: Settings, enc: Encoders): (Status, FileSystem)
    requires |src.content| <= MaxInt64
  {
    var tempDir := SubDir(outDir, TempDirName);
    var split := Splitter.SplitSpec(fs, src, tempDir, numChunks, now, sha);
    if split.0.Err? then split
    else Publish(split.1, tempDir, SubDir(outDir, QrDirName), SubDir(outDir, DataDirName), s, enc)
  }

  /**
   * What FileToQRCodes returns and leaves behind, for the settings it
   * starts with: the chunk count follows from the file size, and the loop
   * runs with maxChunkSize already updated.
   */
  ghost function FileToQRCodesSpec(fs: FileSystem, s: Settings, filePath: Path, outDir: Path, now: int64,
                                   sha: Hasher, enc: Encoders): (Status, FileSystem)
    requires ReadAt(fs, filePath).Some? ==> |ReadAt(fs, filePath).value| <= MaxInt64
  {
    match ReadAt(fs, filePath)
    case None => (Err(OpenFailed(filePath)), fs)
    case Some(content) =>
      var s1 := s.(maxChunkSize := ChunkSizeFor(|content|));
      SplitAndPublishSpec(fs, Splitter.SourceFile(filePath, content), outDir, NumChunks(|content|), now, sha, s1, enc)
  }

  /** Once the file is read, FileToQRCodes is the split and publication of its contents. */
  lemma FileToQRCodesOpens(fs: FileSystem, s: Settings, filePath: Path, outDir: Path, now: int64,
                           sha: Hasher, enc: Encoders, content: Bytes)
    requires ReadAt(fs, filePath) == Some(content) && |content| <= MaxInt64
    ensures FileToQRCodesSpec(fs, s, filePath, outDir, now, sha, enc)
      == SplitAndPublishSpec(fs, Splitter.SourceFile(filePath, content), outDir, NumChunks(|content|), now, sha,
                             s.(maxChunkSize := ChunkSizeFor(|content|)), enc)
  {
  }

  // ---------------------------------------------------------------------------
  // QRCodesToFile

  /** The data-file loop: each `<stem>.dat` is written to `temp/<stem>.part`. */
  function Restage(fs: FileSystem, dats: seq<Path>, tempDir: Path): (r: FileSystem)
    requires forall p :: p in dats ==> p in fs
    ensures fs.Keys <= r.Keys
    decreases |dats|
  {
    if dats == [] then fs
    else Restage(fs[PartPath(tempDir, FileStem(dats[0])) := fs[dats[0]]], dats[1..], tempDir)
  }

  /** The `.dat` files of `inDir/data`, in ascending order. */
  ghost function DataFiles(fs: FileSystem, inDir: Path): (r: seq<Path>)
    ensures forall p :: p in r ==> p in fs
  {
    Listed(fs, SubDir(inDir, DataDirName), DatExt)
  }

  /** The file system the merge starts from. */
  ghost function Staged(fs: FileSystem, inDir: Path): FileSystem {
    Restage(fs, DataFiles(fs, inDir), SubDir(inDir, TempDirName))
  }

  /** A directory entry that can be the rebuilt file: neither a fragment nor a temporary file. */
  predicate IsResultName(p: Path) {
    !HasSuffix(Base(p), PartExt) && !HasSuffix(Base(p), TmpExt)
  }

  /** The first entry of a listing that can be the rebuilt file. */
  function FirstKept(entries: seq<Path>): (r: Option<Path>)
    ensures r.Some? ==> r.value in entries && IsResultName(r.value)
    ensures r.None? ==> forall p :: p in entries ==> !IsResultName(p)
  {
    if entries == [] then None
    else if IsResultName(entries[0]) then Some(entries[0])
    else FirstKept(entries[1..])
  }

  /** What QRCodesToFile returns and leaves behind, given the fragment list the merge discovered. */
  ghost function QRCodesToFileSpec(fs: FileSystem, inDir: Path, outFilePath: Path, sha: Hasher,
                                   chunks: seq<ParsedChunk>): (Status, FileSystem)
    requires Merger.AllPresent(Staged(fs, inDir), chunks)
  {
    var tempDir := SubDir(inDir, TempDirName);
    if DataFiles(fs, inDir) == [] then (Err(NoDataFiles), RemoveAll(fs, tempDir))
    else
      var merged := Merger.MergeSpec(Staged(fs, inDir), tempDir, chunks, sha);
      if merged.0.Err? then (merged.0, RemoveAll(merged.1, tempDir))
      else CopyOut(merged.1, tempDir, outFilePath)
  }

  /** After a successful merge: copy the rebuilt file out, then remove the staging directory. */
  ghost function CopyOut(fs2: FileSystem, tempDir: Path, outFilePath: Path): (Status, FileSystem) {
    match FirstKept(Listed(fs2, tempDir, []))
    case None => (Err(ReconstructedNotFound), RemoveAll(fs2, tempDir))
    case Some(r) =>
      match FileKey(outFilePath)
      case None => (Err(CreateFailed(outFilePath)), RemoveAll(fs2, tempDir))
      case Some(key) => (Ok, RemoveAll(fs2[key := fs2[r]], tempDir))
  }

  // ---------------------------------------------------------------------------
  // What the loops write

  /** Different stems give different paths in the same directory, for any one extension. */
  lemma JoinedDiffer(d: Path, x: Path, y: Path, ext: Bytes)
    requires ext != [] && x != y
    ensures Join(d, x + ext) != Join(d, y + ext)
  {
    var pre := JoinPrefix(d);
    JoinIsPrefix(d, x + ext);
    JoinIsPrefix(d, y + ext);
    if |x| == |y| {
      var k :| 0 <= k < |x| && x[k] != y[k];
      assert (pre + (x + ext))[|pre| + k] == x[k];
      assert (pre + (y + ext))[|pre| + k] == y[k];
    } else {
      assert |pre + (x + ext)| != |pre + (y + ext)|;
    }
  }

  /** An image path never equals a data-file path: one ends in `.png`, the other in `.dat`. */
  lemma PngNotDat(qrDir: Path, dataDir: Path, x: Path, y: Path)
    ensures PngPath(qrDir, x) != DatPath(dataDir, y)
  {
    JoinIsPrefix(qrDir, x + PngExt);
    JoinIsPrefix(dataDir, y + DatExt);
    var a, b := PngPath(qrDir, x), DatPath(dataDir, y);
    assert a[|a| - 1] == 103;
    assert b[|b| - 1] == 116;
  }

  /** `p` is neither the image nor the data file of any listed fragment. */
  predicate Untargeted(p: Path, files: seq<Path>, qrDir: Path, dataDir: Path) {
    forall c :: c in files ==> p != PngPath(qrDir, FileStem(c)) && p != DatPath(dataDir, FileStem(c))
  }

  /** No two listed files share a stem, and none lies where an image or a data file is written. */
  predicate Separate(files: seq<Path>, qrDir: Path, dataDir: Path) {
    && (forall i, j :: 0 <= i < j < |files| ==> FileStem(files[i]) != FileStem(files[j]))
    && (forall c :: c in files ==> Untargeted(c, files, qrDir, dataDir))
  }

  /** The chunk loop writes nothing but the images and data files of the listed fragments. */
  lemma {:induction false} EmitFrame(fs: FileSystem, files: seq<Path>, qrDir: Path, dataDir: Path, s: Settings,
                                     enc: Encoders, p: Path)
    requires forall q :: q in files ==> q in fs
    requires Untargeted(p, files, qrDir, dataDir)
    ensures SameAt(fs, Emit(fs, files, qrDir, dataDir, s, enc).1, p)
    decreases |files|
  {
    if files != [] {
      var step := EmitOne(fs, files[0], qrDir, dataDir, s, enc);
      if step.Success? {
        assert files[0] in files;
        assert forall c :: c in files[1..] ==> c in files;
        EmitFrame(step.value, files[1..], qrDir, dataDir, s, enc, p);
      }
    }
  }

  /** A finished loop took its first step successfully and went on from there. */
  lemma EmitStep(fs: FileSystem, files: seq<Path>, qrDir: Path, dataDir: Path, s: Settings, enc: Encoders)
    requires forall q :: q in files ==> q in fs
    requires files != [] && Emit(fs, files, qrDir, dataDir, s, enc).0 == Ok
    ensures EmitOne(fs, files[0], qrDir, dataDir, s, enc).Success?
    ensures forall q :: q in files[1..] ==> q in EmitOne(fs, files[0], qrDir, dataDir, s, enc).value
    ensures Emit(fs, files, qrDir, dataDir, s, enc)
         == Emit(EmitOne(fs, files[0], qrDir, dataDir, s, enc).value, files[1..], qrDir, dataDir, s, enc)
  {
    assert forall q :: q in files[1..] ==> q in files;
  }

  /** When the loop finishes, every listed fragment has its image and its data file. */
  lemma {:induction false} EmitWrites(fs: FileSystem, files: seq<Path>, qrDir: Path, dataDir: Path, s: Settings,
                                      enc: Encoders, c: Path)
    requires forall q :: q in files ==> q in fs
    requires c in files && Emit(fs, files, qrDir, dataDir, s, enc).0 == Ok
    ensures PngPath(qrDir, FileStem(c)) in Emit(fs, files, qrDir, dataDir, s, enc).1
    ensures DatPath(dataDir, FileStem(c)) in Emit(fs, files, qrDir, dataDir, s, enc).1
    decreases |files|
  {
    EmitStep(fs, files, qrDir, dataDir, s, enc);
    if c != files[0] {
      assert c in files[1..];
      EmitWrites(EmitOne(fs, files[0], qrDir, dataDir, s, enc).value, files[1..], qrDir, dataDir, s, enc, c);
    }
  }

  /** The first step wrote `p` with `fs[files[0]]`, or left `p` as it was if neither of its targets. */
  lemma EmitOneEffect(fs: FileSystem, p: Path, qrDir: Path, dataDir: Path, s: Settings, enc: Encoders, q: Path)
    requires p in fs && EmitOne(fs, p, qrDir, dataDir, s, enc).Success?
    ensures Holds(EmitOne(fs, p, qrDir, dataDir, s, enc).value, DatPath(dataDir, FileStem(p)), fs[p])
    ensures q != PngPath(qrDir, FileStem(p)) && q != DatPath(dataDir, FileStem(p)) ==>
      SameAt(fs, EmitOne(fs, p, qrDir, dataDir, s, enc).value, q)
  {
  }

  lemma SeparateTail(files: seq<Path>, qrDir: Path, dataDir: Path)
    requires files != [] && Separate(files, qrDir, dataDir)
    ensures Separate(files[1..], qrDir, dataDir)
  {
    var rest := files[1..];
    forall a, b | 0 <= a < b < |rest| ensures FileStem(rest[a]) != FileStem(rest[b]) {
      assert rest[a] == files[a + 1] && rest[b] == files[b + 1];
    }
    assert forall c :: c in rest ==> c in files;
  }

  /** No later step of the loop writes over the first fragment's data file. */
  lemma HeadUntargeted(files: seq<Path>, qrDir: Path, dataDir: Path)
    requires files != [] && Separate(files, qrDir, dataDir)
    ensures Untargeted(DatPath(dataDir, FileStem(files[0])), files[1..], qrDir, dataDir)
  {
    var p := DatPath(dataDir, FileStem(files[0]));
    var rest := files[1..];
    forall c | c in rest ensures p != PngPath(qrDir, FileStem(c)) && p != DatPath(dataDir, FileStem(c)) {
      PngNotDat(qrDir, dataDir, FileStem(c), FileStem(files[0]));
      var j :| 0 <= j < |rest| && rest[j] == c;
      assert files[j + 1] == c;
      JoinedDiffer(dataDir, FileStem(files[0]), FileStem(c), DatExt);
    }
  }

  /**
   * When the loop finishes over fragments with distinct stems, each data
   * file holds exactly the bytes of its fragment.
   */
  lemma {:induction false} EmitCopies(fs: FileSystem, files: seq<Path>, qrDir: Path, dataDir: Path, s: Settings,
                                      enc: Encoders, c: Path)
    requires forall q :: q in files ==> q in fs
    requires Separate(files, qrDir, dataDir)
    requires c in files && Emit(fs, files, qrDir, dataDir, s, enc).0 == Ok
    ensures Holds(Emit(fs, files, qrDir, dataDir, s, enc).1, DatPath(dataDir, FileStem(c)), fs[c])
    decreases |files|
  {
    EmitStep(fs, files, qrDir, dataDir, s, enc);
    var fs1 := EmitOne(fs, files[0], qrDir, dataDir, s, enc).value;
    EmitOneEffect(fs, files[0], qrDir, dataDir, s, enc, c);
    if c == files[0] {
      HeadUntargeted(files, qrDir, dataDir);
      EmitFrame(fs1, files[1..], qrDir, dataDir, s, enc, DatPath(dataDir, FileStem(c)));
    } else {
      assert files[0] in files;
      assert Untargeted(c, files, qrDir, dataDir);
      SeparateTail(files, qrDir, dataDir);
      assert c in files[1..];
      EmitCopies(fs1, files[1..], qrDir, dataDir, s, enc, c);
    }
  }

  /** The data-file loop writes nothing but `temp/<stem>.part` for the listed data files. */
  lemma {:induction false} RestageFrame(fs: FileSystem, dats: seq<Path>, tempDir: Path, p: Path)
    requires forall q :: q in dats ==> q in fs
    requires forall c :: c in dats ==> p != PartPath(tempDir, FileStem(c))
    ensures SameAt(fs, Restage(fs, dats, tempDir), p)
    decreases |dats|
  {
    if dats != [] {
      assert dats[0] in dats;
      assert forall c :: c in dats[1..] ==> c in dats;
      RestageFrame(fs[PartPath(tempDir, FileStem(dats[0])) := fs[dats[0]]], dats[1..], tempDir, p);
    }
  }

  /** No two data files share a stem, and none lies where a fragment is written. */
  predicate Unclashed(dats: seq<Path>, tempDir: Path) {
    && (forall i, j :: 0 <= i < j < |dats| ==> FileStem(dats[i]) != FileStem(dats[j]))
    && (forall c, d :: c in dats && d in dats ==> d != PartPath(tempDir, FileStem(c)))
  }

  lemma UnclashedTail(dats: seq<Path>, tempDir: Path)
    requires dats != [] && Unclashed(dats, tempDir)
    ensures Unclashed(dats[1..], tempDir)
  {
    var rest := dats[1..];
    forall a, b | 0 <= a < b < |rest| ensures FileStem(rest[a]) != FileStem(rest[b]) {
      assert rest[a] == dats[a + 1] && rest[b] == dats[b + 1];
    }
    assert forall c :: c in rest ==> c in dats;
  }

  /** No later data file is copied over the first one's fragment. */
  lemma HeadUnclashed(dats: seq<Path>, tempDir: Path)
    requires dats != [] && Unclashed(dats, tempDir)
    ensures forall c :: c in dats[1..] ==> PartPath(tempDir, FileStem(dats[0])) != PartPath(tempDir, FileStem(c))
  {
    var rest := dats[1..];
    forall c | c in rest ensures PartPath(tempDir, FileStem(dats[0])) != PartPath(tempDir, FileStem(c)) {
      var j :| 0 <= j < |rest| && rest[j] == c;
      assert dats[j + 1] == c;
      JoinedDiffer(tempDir, FileStem(dats[0]), FileStem(c), PartExt);
    }
  }

  /** Over data files with distinct stems, each `temp/<stem>.part` holds exactly its data file's bytes. */
  lemma {:induction false} RestageCopies(fs: FileSystem, dats: seq<Path>, tempDir: Path, d: Path)
    requires forall q :: q in dats ==> q in fs
    requires Unclashed(dats, tempDir) && d in dats
    ensures Holds(Restage(fs, dats, tempDir), PartPath(tempDir, FileStem(d)), fs[d])
    decreases |dats|
  {
    var p := PartPath(tempDir, FileStem(dats[0]));
    var fs1 := fs[p := fs[dats[0]]];
    var rest := dats[1..];
    assert forall c :: c in rest ==> c in dats;
    assert Restage(fs, dats, tempDir) == Restage(fs1, rest, tempDir);
    if d == dats[0] {
      HeadUnclashed(dats, tempDir);
      RestageFrame(fs1, rest, tempDir, p);
      assert Holds(fs1, p, fs[d]);
    } else {
      UnclashedTail(dats, tempDir);
      assert d in rest && d != p;
      assert fs1[d] == fs[d];
      RestageCopies(fs1, rest, tempDir, d);
    }
  }

  /** In an ascending listing, the first kept entry is the least kept entry. */
  lemma {:induction false} FirstKeptLeast(entries: seq<Path>)
    requires Ascending(entries)
    ensures FirstKept(entries).Some? ==>
      forall q :: q in entries && IsResultName(q) ==> LexLe(FirstKept(entries).value, q)
    decreases |entries|
  {
    if entries != [] {
      if IsResultName(entries[0]) {
        forall q | q in entries && IsResultName(q) ensures LexLe(entries[0], q) {
          var j :| 0 <= j < |entries| && entries[j] == q;
          if j == 0 {
            LexLeRefl(q);
          }
        }
      } else {
        var rest := entries[1..];
        assert Ascending(rest) by {
          forall a, b | 0 <= a < b < |rest| ensures LexLe(rest[a], rest[b]) && rest[a] != rest[b] {
            assert rest[a] == entries[a + 1] && rest[b] == entries[b + 1];
          }
        }
        FirstKeptLeast(rest);
        assert forall q :: q in entries && q != entries[0] ==> q in rest;
      }
    }
  }

  /** A run that succeeds got past the listing and the merge. */
  lemma QRCodesToFileOk(fs: FileSystem, inDir: Path, outFilePath: Path, sha: Hasher, chunks: seq<ParsedChunk>)
    requires Merger.AllPresent(Staged(fs, inDir), chunks)
    requires QRCodesToFileSpec(fs, inDir, outFilePath, sha, chunks).0 == Ok
    ensures var tempDir := SubDir(inDir, TempDirName);
      var m := Merger.MergeSpec(Staged(fs, inDir), tempDir, chunks, sha);
      DataFiles(fs, inDir) != [] && m.0 == Ok
      && QRCodesToFileSpec(fs, inDir, outFilePath, sha, chunks) == CopyOut(m.1, tempDir, outFilePath)
  {
  }

  /** A copy that succeeds found a rebuilt file and wrote it to the file the output path names. */
  lemma CopyOutOk(fs2: FileSystem, tempDir: Path, outFilePath: Path)
    requires CopyOut(fs2, tempDir, outFilePath).0 == Ok
    ensures var e := FirstKept(Listed(fs2, tempDir, []));
      e.Some? && FileKey(outFilePath).Some?
      && CopyOut(fs2, tempDir, outFilePath).1 == RemoveAll(fs2[Clean(outFilePath) := fs2[e.value]], tempDir)
  {
  }

  /**
   * After a successful QRCodesToFile, the output path (outside the temporary
   * directory) holds the entry that came first in name order among the
   * merged directory's files that are neither fragments nor temporary files.
   */
  lemma QRCodesToFileResult(fs: FileSystem, inDir: Path, outFilePath: Path, sha: Hasher, chunks: seq<ParsedChunk>)
    requires Merger.AllPresent(Staged(fs, inDir), chunks)
    requires QRCodesToFileSpec(fs, inDir, outFilePath, sha, chunks).0 == Ok
    requires !Within(Clean(outFilePath), SubDir(inDir, TempDirName))
    ensures var tempDir := SubDir(inDir, TempDirName);
      var merged := Merger.MergeSpec(Staged(fs, inDir), tempDir, chunks, sha).1;
      exists r :: r in Matches(merged, tempDir, []) && IsResultName(r)
        && (forall q :: q in Matches(merged, tempDir, []) && IsResultName(q) ==> LexLe(r, q))
        && Holds(QRCodesToFileSpec(fs, inDir, outFilePath, sha, chunks).1, Clean(outFilePath), merged[r])
  {
    var tempDir := SubDir(inDir, TempDirName);
    var merged := Merger.MergeSpec(Staged(fs, inDir), tempDir, chunks, sha).1;
    var out := QRCodesToFileSpec(fs, inDir, outFilePath, sha, chunks).1;
    QRCodesToFileOk(fs, inDir, outFilePath, sha, chunks);
    CopyOutOk(merged, tempDir, outFilePath);
    var entries := Listed(merged, tempDir, []);
    var r := FirstKept(entries).value;
    FirstKeptLeast(entries);
    assert r in Matches(merged, tempDir, []);
    assert Holds(out, Clean(outFilePath), merged[r]);
  }

  // ---------------------------------------------------------------------------
  // The object

  class QRFileTransfer {
    var maxChunkSize: int
    var recoveryLevel: RecoveryLevel
    var qrSize: int
    var minQRSize: int
    var maxQRSize: int
    var autoAdjustQRSize: bool

    function Current(): Settings
      reads this
    {
      Settings(maxChunkSize, recoveryLevel, qrSize, minQRSize, maxQRSize, autoAdjustQRSize)
    }

    /** NewQRFileTransfer: a 2000-byte chunk limit, Medium recovery, 800 pixels within [400, 1600], auto-adjusting. */
    constructor ()
      ensures Current() == Defaults
    {
      maxChunkSize := 2000;
      recoveryLevel := Medium;
      qrSize := 800;
      minQRSize := 400;
      maxQRSize := 1600;
      autoAdjustQRSize := true;
    }

    method SetRecoveryLevel(level: RecoveryLevel)
      modifies this
      ensures Current() == old(Current()).(recoveryLevel := level)
    {
      recoveryLevel := level;
    }

    method SetQRSize(size: int)
      modifies this
      ensures Current() == old(Current()).(qrSize := size)
    {
      qrSize := size;
    }

    method SetMinQRSize(size: int)
      modifies this
      ensures Current() == old(Current()).(minQRSize := size)
    {
      minQRSize := size;
    }

    method SetMaxQRSize(size: int)
      modifies this
      ensures Current() == old(Current()).(maxQRSize := size)
    {
      maxQRSize := size;
    }

    method SetAutoAdjustQRSize(enable: bool)
      modifies this
      ensures Current() == old(Current()).(autoAdjustQRSize := enable)
    {
      autoAdjustQRSize := enable;
    }

    /** The chunk loop of FileToQRCodes, with the current settings. */
    method EmitCodes(fs: FileSystem, files: seq<Path>, qrDir: Path, dataDir: Path, enc: Encoders)
      returns (status: Status, fs': FileSystem)
      requires forall p :: p in files ==> p in fs
      ensures (status, fs') == Emit(fs, files, qrDir, dataDir, Current(), enc)
    {
      fs' := fs;
      for i := 0 to |files|
        invariant fs.Keys <= fs'.Keys
        invariant Emit(fs, files, qrDir, dataDir, Current(), enc) == Emit(fs', files[i..], qrDir, dataDir, Current(), enc)
      {
        EmitAdvance(fs', files, i, qrDir, dataDir, Current(), enc);
        var chunkPath := files[i];
        var chunkData := fs'[chunkPath];
        var stem := FileStem(chunkPath);
        var qrFilePath := PngPath(qrDir, stem);
        var dataFilePath := DatPath(dataDir, stem);
        var symbol := enc.qr(Payload(stem, enc.base64(chunkData)), recoveryLevel);
        if symbol.None? {
          return Err(QrCodeFailed(chunkPath)), fs';
        }
        var size := qrSize;
        if autoAdjustQRSize {
          size := OptimalQRSize(enc.scale(|chunkData|), minQRSize, maxQRSize);
        }
        assert size == ChosenQRSize(Current(), enc.scale(|chunkData|));
        fs' := fs'[qrFilePath := enc.png(symbol.value, size)][dataFilePath := chunkData];
      }
      assert files[|files|..] == [];
      status := Ok;
    }

    /** The rest of FileToQRCodes once the split succeeded: list the fragments, emit them, clean up. */
    method PublishChunks(fs1: FileSystem, tempDir: Path, qrDir: Path, dataDir: Path, enc: Encoders)
      returns (status: Status, fs': FileSystem)
      ensures (status, fs') == Publish(fs1, tempDir, qrDir, dataDir, Current(), enc)
    {
      var chunkFiles := Glob(fs1, tempDir, PartExt);
      var firstChunk := Glob(fs1, tempDir, TmpExt);
      chunkFiles := firstChunk + chunkFiles;
      status, fs' := EmitCodes(fs1, chunkFiles, qrDir, dataDir, enc);
      if status.Err? {
        return;
      }
      fs' := RemoveAll(fs', tempDir);
    }

    /**
     * FileToQRCodes: picks the chunk count from the file size, records the
     * matching chunk size, splits into `outDir/temp`, writes a QR image and a
     * data file per fragment, and removes the temporary directory.
     */
    method FileToQRCodes(fs: FileSystem, filePath: Path, outDir: Path, now: int64, sha: Hasher, enc: Encoders)
      returns (status: Status, fs': FileSystem)
      modifies this
      requires ReadAt(fs, filePath).Some? ==> |ReadAt(fs, filePath).value| <= MaxInt64
      ensures (status, fs') == FileToQRCodesSpec(fs, old(Current()), filePath, outDir, now, sha, enc)
      ensures Current() == old(Current()).(maxChunkSize :=
        if ReadAt(fs, filePath).Some? then ChunkSizeFor(|ReadAt(fs, filePath).value|) else old(maxChunkSize))
    {
      var file := ReadAt(fs, filePath);
      if file.None? {
        return Err(OpenFailed(filePath)), fs;
      }
      var content := file.value;
      var numChunks := SizeChunks(|content|);
      FileToQRCodesOpens(fs, old(Current()), filePath, outDir, now, sha, enc, content);
      status, fs' := SplitAndPublish(fs, Splitter.SourceFile(filePath, content), outDir, numChunks, now, sha, enc);
    }

    /** FileToQRCodes' sizing step: the chunk count for the file size, and the chunk size it implies. */
    method SizeChunks(fileSize: nat) returns (numChunks: int)
      modifies this
      ensures numChunks == NumChunks(fileSize)
      ensures Current() == old(Current()).(maxChunkSize := ChunkSizeFor(fileSize))
    {
      numChunks := NumChunks(fileSize);
      maxChunkSize := fileSize / numChunks + 1;
    }

    /** The body of FileToQRCodes from the split on. */
    method SplitAndPublish(fs: FileSystem, src: Splitter.SourceFile, outDir: Path, numChunks: int, now: int64,
                           sha: Hasher, enc: Encoders) returns (status: Status, fs': FileSystem)
      requires |src.content| <= MaxInt64
      ensures (status, fs') == SplitAndPublishSpec(fs, src, outDir, numChunks, now, sha, Current(), enc)
    {
      var tempDir := SubDir(outDir, TempDirName);
      var splitStatus, fs1 := Splitter.SplitFile(fs, src, tempDir, numChunks, now, sha);
      if splitStatus.Err? {
        return splitStatus, fs1;
      }
      status, fs' := PublishChunks(fs1, tempDir, SubDir(outDir, QrDirName), SubDir(outDir, DataDirName), enc);
    }

    /** The data-file loop of QRCodesToFile. */
    method StageChunks(fs: FileSystem, dats: seq<Path>, tempDir: Path) returns (fs': FileSystem)
      requires forall p :: p in dats ==> p in fs
      ensures fs' == Restage(fs, dats, tempDir)
    {
      fs' := fs;
      for i := 0 to |dats|
        invariant fs.Keys <= fs'.Keys
        invariant Restage(fs, dats, tempDir) == Restage(fs', dats[i..], tempDir)
      {
        var dataFilePath := dats[i];
        var chunkData := fs'[dataFilePath];
        var chunkFilePath := PartPath(tempDir, FileStem(dataFilePath));
        assert dats[i..][1..] == dats[i + 1..];
        fs' := fs'[chunkFilePath := chunkData];
      }
    }

    /** The search for the rebuilt file: the first entry of the sorted listing that is kept. */
    method FindReconstructed(fs: FileSystem, dir: Path) returns (r: Option<Path>)
      ensures r == FirstKept(Listed(fs, dir, []))
    {
      var files := Glob(fs, dir, []);
      for i := 0 to |files|
        invariant FirstKept(files) == FirstKept(files[i..])
      {
        assert files[i..][1..] == files[i + 1..];
        if IsResultName(files[i]) {
          return Some(files[i]);
        }
      }
      return None;
    }

    /**
     * QRCodesToFile: copies every data file into `inDir/temp` as a fragment,
     * merges there, copies the first entry that is not a fragment to
     * `outFilePath`, and removes the temporary directory on every path out.
     */
    method QRCodesToFile(fs: FileSystem, inDir: Path, outFilePath: Path, sha: Hasher)
      returns (status: Status, fs': FileSystem, chunks: seq<ParsedChunk>)
      ensures Merger.AllPresent(Staged(fs, inDir), chunks)
      ensures DataFiles(fs, inDir) != [] ==> Discovered(Staged(fs, inDir), SubDir(inDir, TempDirName), chunks)
      ensures (status, fs') == QRCodesToFileSpec(fs, inDir, outFilePath, sha, chunks)
    {
      var tempDir := SubDir(inDir, TempDirName);
      var dataDir := SubDir(inDir, DataDirName);
      var dataFiles := Glob(fs, dataDir, DatExt);
      chunks := [];
      if |dataFiles| == 0 {
        return Err(NoDataFiles), RemoveAll(fs, tempDir), chunks;
      }
      var fs1 := StageChunks(fs, dataFiles, tempDir);
      assert fs1 == Staged(fs, inDir);
      assert tempDir != [];
      var mergeStatus, fs2;
      mergeStatus, fs2, chunks := Merger.MergeFile(fs1, tempDir, sha);
      assert Discovered(Staged(fs, inDir), tempDir, chunks);
      if mergeStatus.Err? {
        return mergeStatus, RemoveAll(fs2, tempDir), chunks;
      }
      var reconstructedFile := FindReconstructed(fs2, tempDir);
      if reconstructedFile.None? {
        return Err(ReconstructedNotFound), RemoveAll(fs2, tempDir), chunks;
      }
      var outKey := FileKey(outFilePath);
      if outKey.None? {
        return Err(CreateFailed(outFilePath)), RemoveAll(fs2, tempDir), chunks;
      }
      var copied := fs2[outKey.value := fs2[reconstructedFile.value]];
      status, fs' := Ok, RemoveAll(copied, tempDir);
    }
  }
}
