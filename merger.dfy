/**
 * `MergeFile` and `extractMetadata`: the fragments of a directory are
 * discovered, the header is read from fragment 0, every fragment is copied
 * in index order into the file named by the header (fragment 0 without its
 * header) while the digest is fed, and the fragments are removed only when
 * the digest matches the one in the header.
 */
module Merger {
  import opened Bytes
  import opened Paths
  import opened Header
  import opened Discovery
  import opened Errors

  // ---------------------------------------------------------------------------
  // extractMetadata

  /** binary.Read of the header at the front of `path`. */
  function ExtractMetadata(fs: FileSystem, path: Path): (r: Result<Metadata>)
    ensures r.Success? <==> path != [] && path in fs && |fs[path]| >= HeaderSize
    ensures r.Success? ==> WellFormed(r.value) && Encode(r.value) == fs[path][..HeaderSize]
    ensures r.Failure? && path != [] && path in fs ==> r.error == MetadataTruncated
  {
    if path == [] || path !in fs then Failure(OpenFailed(path))
    else match Decode(fs[path])
      case None => Failure(MetadataTruncated)
      case Some(m) =>
        EncodeDecode(fs[path]);
        Success(m)
  }

  // ---------------------------------------------------------------------------
  // The pieces of MergeFile

  /** The position of the first chunk marked `first`, as the loop that looks for it finds it. */
  function FirstChunk(chunks: seq<ParsedChunk>): (r: Option<nat>)
    ensures r.None? <==> forall c :: c in chunks ==> !c.first
    ensures r.Some? ==> r.value < |chunks| && chunks[r.value].first
    ensures r.Some? ==> forall j :: 0 <= j < r.value ==> !chunks[j].first
  {
    if chunks == [] then None
    else if chunks[0].first then Some(0)
    else match FirstChunk(chunks[1..])
      case None => None
      case Some(j) => Some(j + 1)
  }

  /** A chunk marked `first` with none before it is the one FirstChunk finds. */
  lemma FirstChunkAt(chunks: seq<ParsedChunk>, j: nat)
    requires j < |chunks| && chunks[j].first
    requires forall k :: 0 <= k < j ==> !chunks[k].first
    ensures FirstChunk(chunks) == Some(j)
  {
    assert chunks[j] in chunks;
  }

  /** The header read from the first chunk marked `first`; None when there is no such chunk. */
  function HeaderOf(fs: FileSystem, chunks: seq<ParsedChunk>): (r: Option<Result<Metadata>>)
    ensures r.None? <==> forall c :: c in chunks ==> !c.first
    ensures r.Some? ==> exists j :: 0 <= j < |chunks| && chunks[j].first && r.value == ExtractMetadata(fs, chunks[j].name)
  {
    match FirstChunk(chunks)
    case None => None
    case Some(j) => Some(ExtractMetadata(fs, chunks[j].name))
  }

  /**
   * The header names the model creates an output file for: one element other
   * than `.` and `..`, which filepath.Join puts directly inside the directory
   * (`CleanAppend`). Every other name is modelled as a failed create, although
   * os.Create of the cleaned join can succeed for some of them.
   */
  predicate Creatable(name: Path) {
    Proper(name) && name != ParentDir
  }

  /** The bytes a fragment contributes: all of it, or, for fragment 0, what follows the header. */
  function Payload(content: Bytes, first: bool): (r: Bytes)
    ensures !first ==> r == content
    ensures first ==> r == content[Min(HeaderSize, |content|)..]
  {
    // f.Seek(binary.Size(meta)) may move past the end of the file; reading then yields nothing
    if first then content[Min(HeaderSize, |content|)..] else content
  }

  predicate AllPresent(fs: FileSystem, chunks: seq<ParsedChunk>) {
    forall c :: c in chunks ==> c.name in fs
  }

  /** Where the copy loop stops: whether every copy finished, the file system, and the bytes fed to the digest. */
  datatype Copied = Copied(finished: bool, fs: FileSystem, hashed: Bytes)

  /**
   * The copy loop, chunk by chunk: each fragment is read as it is at that
   * moment and appended to `out`. When the chunk is `out` itself and there
   * is something left to read in it, io.Copy reads back the bytes it
   * appends and ends only when a write fails: the loop stops there with the
   * file system as it was before that copy. `hashed` holds the bytes the
   * finished copies fed to the digest.
   */
  function CopyFrom(fs: FileSystem, out: Path, chunks: seq<ParsedChunk>): Copied
    requires out in fs && AllPresent(fs, chunks)
    decreases |chunks|
  {
    if chunks == [] then Copied(true, fs, [])
    else
      var part := Payload(fs[chunks[0].name], chunks[0].first);
      if chunks[0].name == out && part != [] then Copied(false, fs, [])
      else
        var rest := CopyFrom(fs[out := fs[out] + part], out, chunks[1..]);
        Copied(rest.finished, rest.fs, part + rest.hashed)
  }

  /** The concatenation of the fragments' payloads in the given order, all read from `fs`. */
  function Payloads(fs: FileSystem, chunks: seq<ParsedChunk>): Bytes
    requires AllPresent(fs, chunks)
  {
    if chunks == [] then [] else Payload(fs[chunks[0].name], chunks[0].first) + Payloads(fs, chunks[1..])
  }

  function ChunkNames(chunks: seq<ParsedChunk>): set<Path> {
    set c | c in chunks :: c.name
  }

  /**
   * What MergeFile returns and leaves behind, given the list `checkFiles`
   * produced (empty when the directory could not be listed).
   */
  function MergeSpec(fs: FileSystem, inDir: Path, chunks: seq<ParsedChunk>, sha: Hasher): (Status, FileSystem)
    requires AllPresent(fs, chunks)
  {
    if inDir == [] then (Err(ReadDirFailed), fs)
    else if chunks == [] then (Err(NoChunkFiles), fs)
    else match HeaderOf(fs, chunks)
      case None => (Err(FirstChunkMissing), fs)
      case Some(Failure(e)) => (Err(e), fs)
      case Some(Success(meta)) => Assemble(fs, inDir, chunks, sha, meta)
  }

  /**
   * The rest of MergeFile once the header `meta` is read: create the file it
   * names, copy every fragment into it, and remove the fragments if every
   * copy finished and the digest matches.
   */
  function Assemble(fs: FileSystem, inDir: Path, chunks: seq<ParsedChunk>, sha: Hasher, meta: Metadata)
    : (Status, FileSystem)
    requires AllPresent(fs, chunks)
  {
    var name := TrimZeros(meta.name);
    var out := Join(inDir, name);
    if !Creatable(name) then (Err(CreateFailed(out)), fs)
    else
      var copied := CopyFrom(fs[out := []], out, chunks);
      if !copied.finished then (Err(CopyFailed(out)), copied.fs)
      else if sha(copied.hashed) != meta.hash then (Err(HashMismatch), copied.fs)
      else (Ok, copied.fs - ChunkNames(chunks))
  }

  // ---------------------------------------------------------------------------
  // MergeFile

  lemma CopyFromStep(fs: FileSystem, out: Path, chunks: seq<ParsedChunk>, i: nat)
    requires out in fs && i < |chunks| && AllPresent(fs, chunks[i..])
    ensures var part := Payload(fs[chunks[i].name], chunks[i].first);
      && AllPresent(fs[out := fs[out] + part], chunks[i + 1..])
      && CopyFrom(fs, out, chunks[i..])
         == if chunks[i].name == out && part != [] then Copied(false, fs, [])
            else
              var rest := CopyFrom(fs[out := fs[out] + part], out, chunks[i + 1..]);
              Copied(rest.finished, rest.fs, part + rest.hashed)
  {
    assert chunks[i..][0] == chunks[i];
    assert chunks[i..][1..] == chunks[i + 1..];
  }

  /**
   * The copy loop of MergeFile: every chunk, in list order, is opened,
   * fragment 0 past its header, and copied to the end of `out` through the
   * digest, whose input is returned as `hashed`. A copy of `out` onto
   * itself with bytes left to read fails and ends the loop.
   */
  method CopyChunks(fs: FileSystem, out: Path, list: seq<ParsedChunk>)
    returns (finished: bool, fs': FileSystem, hashed: Bytes)
    requires out in fs && AllPresent(fs, list)
    ensures finished == CopyFrom(fs, out, list).finished
    ensures fs' == CopyFrom(fs, out, list).fs
    ensures hashed == CopyFrom(fs, out, list).hashed
  {
    fs' := fs;
    hashed := [];
    var i := 0;
    assert list[0..] == list;
    assert [] + CopyFrom(fs, out, list).hashed == CopyFrom(fs, out, list).hashed;
    while i < |list|
      invariant 0 <= i <= |list| && out in fs' && AllPresent(fs', list[i..])
      invariant CopyFrom(fs, out, list).finished == CopyFrom(fs', out, list[i..]).finished
      invariant CopyFrom(fs, out, list).fs == CopyFrom(fs', out, list[i..]).fs
      invariant CopyFrom(fs, out, list).hashed == hashed + CopyFrom(fs', out, list[i..]).hashed
    {
      CopyFromStep(fs', out, list, i);
      var part := Payload(fs'[list[i].name], list[i].first);
      if list[i].name == out && part != [] {
        assert hashed + [] == hashed;
        return false, fs', hashed;
      }
      ghost var rest := CopyFrom(fs'[out := fs'[out] + part], out, list[i + 1..]).hashed;
      assert hashed + (part + rest) == (hashed + part) + rest;
      fs' := fs'[out := fs'[out] + part];
      hashed := hashed + part;
      i := i + 1;
    }
    assert list[i..] == [];
    assert hashed + [] == hashed;
    finished := true;
  }

  /** The removal loop of MergeFile: each chunk file goes; a file already gone is only a warning. */
  method RemoveChunks(fs: FileSystem, list: seq<ParsedChunk>) returns (fs': FileSystem)
    ensures fs' == fs - ChunkNames(list)
  {
    fs' := fs;
    var i := 0;
    while i < |list|
      invariant 0 <= i <= |list|
      invariant fs' == fs - set k | 0 <= k < i :: list[k].name
    {
      if list[i].name in fs' {
        fs' := fs' - {list[i].name};
      }
      i := i + 1;
    }
    assert (set k | 0 <= k < |list| :: list[k].name) == ChunkNames(list) by {
      forall p | p in ChunkNames(list) ensures p in (set k | 0 <= k < |list| :: list[k].name) {
        var c :| c in list && c.name == p;
        var k :| 0 <= k < |list| && list[k] == c;
      }
    }
  }

  /**
   * The header search of MergeFile: the chunks are scanned in list order
   * and the header is read from the first one marked as index 0; a header
   * that cannot be read ends the search with its error.
   */
  method ReadHeader(fs: FileSystem, list: seq<ParsedChunk>) returns (r: Option<Result<Metadata>>)
    ensures r == HeaderOf(fs, list)
  {
    var foundFirstChunk := false;
    var j := 0;
    r := None;
    while j < |list| && !foundFirstChunk
      invariant 0 <= j <= |list|
      invariant !foundFirstChunk ==> r.None? && forall k :: 0 <= k < j ==> !list[k].first
      invariant foundFirstChunk ==> 0 < j && FirstChunk(list) == Some(j - 1)
      invariant foundFirstChunk ==> r == Some(ExtractMetadata(fs, list[j - 1].name))
      decreases |list| - j, !foundFirstChunk
    {
      if list[j].first {
        FirstChunkAt(list, j);
        var extracted := ExtractMetadata(fs, list[j].name);
        r := Some(extracted);
        if extracted.Failure? {
          return;
        }
        foundFirstChunk := true;
      }
      j := j + 1;
    }
  }

  /**
   * MergeFile: discovers the fragments, reads the header of the first one
   * marked as index 0, creates the output file, copies every fragment into it
   * while feeding the digest, and removes the fragments only if the digest
   * matches. `chunks` is the list discovery produced.
   */
  method MergeFile(fs: FileSystem, inDir: Path, sha: Hasher)
    returns (status: Status, fs': FileSystem, chunks: seq<ParsedChunk>)
    ensures inDir != [] ==> Discovered(fs, Clean(inDir), chunks)
    ensures inDir == [] ==> chunks == []
    ensures AllPresent(fs, chunks) && (status, fs') == MergeSpec(fs, DirArg(inDir), chunks, sha)
  {
    var found := CheckFiles(fs, inDir);
    if found.None? {
      return Err(ReadDirFailed), fs, [];
    }
    var list := found.value;
    chunks := list;
    if |list| == 0 {
      return Err(NoChunkFiles), fs, chunks;
    }
    // extract the header from the first chunk
    var header := ReadHeader(fs, list);
    if header.None? {
      return Err(FirstChunkMissing), fs, chunks;
    }
    if header.value.Failure? {
      return Err(header.value.error), fs, chunks;
    }
    var meta := header.value.value;
    // create the output file
    var outputFileName := TrimZeros(meta.name);
    var out := Join(DirArg(inDir), outputFileName);
    if !Creatable(outputFileName) {
      return Err(CreateFailed(out)), fs, chunks;
    }
    fs' := fs[out := []];
    var finished, hashed;
    finished, fs', hashed := CopyChunks(fs', out, list);
    if !finished {
      return Err(CopyFailed(out)), fs', chunks;
    }
    // verify data integrity
    if sha(hashed) != meta.hash {
      return Err(HashMismatch), fs', chunks;
    }
    fs' := RemoveChunks(fs', list);
    status := Ok;
  }

  // ---------------------------------------------------------------------------
  // Properties of a merge

  /** With no fragment files, or none marked as index 0, the merge fails and nothing is written. */
  lemma MergeRejects(fs: FileSystem, inDir: Path, chunks: seq<ParsedChunk>, sha: Hasher)
    requires AllPresent(fs, chunks) && inDir != []
    requires forall c :: c in chunks ==> !c.first
    ensures MergeSpec(fs, inDir, chunks, sha) == (Err(if chunks == [] then NoChunkFiles else FirstChunkMissing), fs)
  {
  }

  lemma {:induction false} PayloadsFrame(fs: FileSystem, fs': FileSystem, chunks: seq<ParsedChunk>)
    requires AllPresent(fs, chunks)
    requires forall c :: c in chunks ==> SameAt(fs, fs', c.name)
    ensures AllPresent(fs', chunks) && Payloads(fs', chunks) == Payloads(fs, chunks)
  {
    if chunks != [] {
      assert forall c :: c in chunks[1..] ==> c in chunks;
      PayloadsFrame(fs, fs', chunks[1..]);
    }
  }

  lemma ChunkNamesTail(chunks: seq<ParsedChunk>)
    requires chunks != []
    ensures ChunkNames(chunks[1..]) <= ChunkNames(chunks)
  {
    forall p | p in ChunkNames(chunks[1..]) ensures p in ChunkNames(chunks) {
      var c :| c in chunks[1..] && c.name == p;
      assert c in chunks;
    }
  }

  /**
   * When the output file is not one of the fragments, the copy loop appends
   * the fragments' payloads, in list order, to the output file, and the
   * digest sees exactly those bytes.
   */
  lemma {:induction false} CopyFromAppends(fs: FileSystem, out: Path, chunks: seq<ParsedChunk>)
    requires out in fs && AllPresent(fs, chunks) && out !in ChunkNames(chunks)
    ensures CopyFrom(fs, out, chunks) == Copied(true, fs[out := fs[out] + Payloads(fs, chunks)], Payloads(fs, chunks))
  {
    if chunks != [] {
      ChunkNamesTail(chunks);
      var part := Payload(fs[chunks[0].name], chunks[0].first);
      var fs1 := fs[out := fs[out] + part];
      assert forall c :: c in chunks[1..] ==> c in chunks;
      PayloadsFrame(fs, fs1, chunks[1..]);
      CopyFromAppends(fs1, out, chunks[1..]);
      var rest := Payloads(fs, chunks[1..]);
      AppendAssoc(fs[out], part, rest);
      Overwrite(fs, out, fs[out] + part, fs[out] + (part + rest));
    } else {
      assert fs[out] + [] == fs[out];
      assert fs[out := fs[out]] == fs;
    }
  }

  /** The copy loop only ever changes the output file. */
  lemma {:induction false} CopyFromFrame(fs: FileSystem, out: Path, chunks: seq<ParsedChunk>)
    requires out in fs && AllPresent(fs, chunks)
    ensures out in CopyFrom(fs, out, chunks).fs
    ensures forall p :: p != out ==> SameAt(fs, CopyFrom(fs, out, chunks).fs, p)
  {
    if chunks != [] {
      var part := Payload(fs[chunks[0].name], chunks[0].first);
      if !(chunks[0].name == out && part != []) {
        var fs1 := fs[out := fs[out] + part];
        assert forall c :: c in chunks[1..] ==> c in chunks;
        CopyFromFrame(fs1, out, chunks[1..]);
        forall p | p != out ensures SameAt(fs, CopyFrom(fs, out, chunks).fs, p) {
          assert SameAt(fs, fs1, p) && SameAt(fs1, CopyFrom(fs1, out, chunks[1..]).fs, p);
        }
      }
    }
  }

  /**
   * When the output file is chunk `j`, and no earlier one, and by its turn
   * it holds something past where the read starts, the copy loop fails
   * there: the output holds the earlier payloads, and the digest has seen
   * just those.
   */
  lemma {:induction false} CopyOntoItself(fs: FileSystem, out: Path, chunks: seq<ParsedChunk>, j: nat)
    requires out in fs && AllPresent(fs, chunks) && j < |chunks| && chunks[j].name == out
    requires out !in ChunkNames(chunks[..j])
    requires Payload(fs[out] + Payloads(fs, chunks[..j]), chunks[j].first) != []
    ensures var before := Payloads(fs, chunks[..j]);
      CopyFrom(fs, out, chunks) == Copied(false, fs[out := fs[out] + before], before)
  {
    if j == 0 {
      assert chunks[..0] == [];
      assert fs[out] + [] == fs[out];
      assert fs[out := fs[out]] == fs;
    } else {
      assert chunks[0] == chunks[..j][0];
      var part := Payload(fs[chunks[0].name], chunks[0].first);
      var fs1 := fs[out := fs[out] + part];
      assert chunks[1..][..j - 1] == chunks[..j][1..];
      assert forall c :: c in chunks[1..] ==> c in chunks;
      assert forall c :: c in chunks[..j][1..] ==> c in chunks[..j];
      assert out !in ChunkNames(chunks[1..][..j - 1]);
      PayloadsFrame(fs, fs1, chunks[..j][1..]);
      var rest := Payloads(fs, chunks[..j][1..]);
      assert Payloads(fs, chunks[..j]) == part + rest;
      AppendAssoc(fs[out], part, rest);
      CopyOntoItself(fs1, out, chunks[1..], j - 1);
      Overwrite(fs, out, fs[out] + part, fs[out] + (part + rest));
    }
  }

  /**
   * When the header names a fragment that comes after other data in the
   * list, MergeFile fails with the copy error at that fragment: the output
   * holds the payloads copied before it, and every fragment file is kept.
   */
  lemma MergeOntoFragment(fs: FileSystem, inDir: Path, chunks: seq<ParsedChunk>, sha: Hasher, meta: Metadata, j: nat)
    requires AllPresent(fs, chunks) && inDir != [] && HeaderOf(fs, chunks) == Some(Success(meta))
    requires Creatable(TrimZeros(meta.name))
    requires var out := Join(inDir, TrimZeros(meta.name));
      j < |chunks| && chunks[j].name == out && out !in ChunkNames(chunks[..j])
      && Payload(Payloads(fs, chunks[..j]), chunks[j].first) != []
    ensures var out := Join(inDir, TrimZeros(meta.name));
      MergeSpec(fs, inDir, chunks, sha) == (Err(CopyFailed(out)), fs[out := Payloads(fs, chunks[..j])])
    ensures forall c :: c in chunks ==> c.name in MergeSpec(fs, inDir, chunks, sha).1
  {
    assert MergeSpec(fs, inDir, chunks, sha) == Assemble(fs, inDir, chunks, sha, meta);
    AssembleOntoFragment(fs, inDir, chunks, sha, meta, j);
  }

  lemma AssembleOntoFragment(fs: FileSystem, inDir: Path, chunks: seq<ParsedChunk>, sha: Hasher, meta: Metadata, j: nat)
    requires AllPresent(fs, chunks) && Creatable(TrimZeros(meta.name))
    requires var out := Join(inDir, TrimZeros(meta.name));
      j < |chunks| && chunks[j].name == out && out !in ChunkNames(chunks[..j])
      && Payload(Payloads(fs, chunks[..j]), chunks[j].first) != []
    ensures var out := Join(inDir, TrimZeros(meta.name));
      Assemble(fs, inDir, chunks, sha, meta) == (Err(CopyFailed(out)), fs[out := Payloads(fs, chunks[..j])])
  {
    var out := Join(inDir, TrimZeros(meta.name));
    var fs0 := fs[out := []];
    assert forall c :: c in chunks[..j] ==> c.name != out;
    assert forall c :: c in chunks[..j] ==> c in chunks;
    PayloadsFrame(fs, fs0, chunks[..j]);
    var before := Payloads(fs, chunks[..j]);
    assert fs0[out] + before == before;
    CopyOntoItself(fs0, out, chunks, j);
    Overwrite(fs, out, [], before);
  }

  /**
   * Once the header of fragment 0 is read and names a file that can be
   * created and is not itself a fragment, the output file receives every
   * payload in order; the fragments are removed exactly when the digest of
   * those bytes equals the recorded one, and are all kept otherwise.
   */
  lemma MergeOutcome(fs: FileSystem, inDir: Path, chunks: seq<ParsedChunk>, sha: Hasher, meta: Metadata)
    requires AllPresent(fs, chunks) && inDir != [] && HeaderOf(fs, chunks) == Some(Success(meta))
    requires Creatable(TrimZeros(meta.name))
    requires Join(inDir, TrimZeros(meta.name)) !in ChunkNames(chunks)
    ensures var out := Join(inDir, TrimZeros(meta.name));
      var payloads := Payloads(fs, chunks);
      MergeSpec(fs, inDir, chunks, sha)
      == if sha(payloads) == meta.hash then (Ok, fs[out := payloads] - ChunkNames(chunks))
         else (Err(HashMismatch), fs[out := payloads])
  {
    assert MergeSpec(fs, inDir, chunks, sha) == Assemble(fs, inDir, chunks, sha, meta);
    AssembleOutcome(fs, inDir, chunks, sha, meta);
  }

  lemma AssembleOutcome(fs: FileSystem, inDir: Path, chunks: seq<ParsedChunk>, sha: Hasher, meta: Metadata)
    requires AllPresent(fs, chunks) && Creatable(TrimZeros(meta.name))
    requires Join(inDir, TrimZeros(meta.name)) !in ChunkNames(chunks)
    ensures var out := Join(inDir, TrimZeros(meta.name));
      var payloads := Payloads(fs, chunks);
      Assemble(fs, inDir, chunks, sha, meta)
      == if sha(payloads) == meta.hash then (Ok, fs[out := payloads] - ChunkNames(chunks))
         else (Err(HashMismatch), fs[out := payloads])
  {
    var out := Join(inDir, TrimZeros(meta.name));
    var fs0 := fs[out := []];
    assert forall c :: c in chunks ==> c.name != out;
    PayloadsFrame(fs, fs0, chunks);
    CopyFromAppends(fs0, out, chunks);
    var payloads := Payloads(fs, chunks);
    assert fs0[out] + Payloads(fs0, chunks) == payloads;
    Overwrite(fs, out, [], payloads);
  }

  /** A digest mismatch leaves every fragment file in place, whatever the output file is. */
  lemma MergeMismatchKeepsChunks(fs: FileSystem, inDir: Path, chunks: seq<ParsedChunk>, sha: Hasher)
    requires AllPresent(fs, chunks) && MergeSpec(fs, inDir, chunks, sha).0 == Err(HashMismatch)
    ensures forall c :: c in chunks ==> c.name in MergeSpec(fs, inDir, chunks, sha).1
  {
    var meta := HeaderOf(fs, chunks).value.value;
    assert MergeSpec(fs, inDir, chunks, sha) == Assemble(fs, inDir, chunks, sha, meta);
    AssembleMismatchKeepsChunks(fs, inDir, chunks, sha, meta);
  }

  lemma AssembleMismatchKeepsChunks(fs: FileSystem, inDir: Path, chunks: seq<ParsedChunk>, sha: Hasher, meta: Metadata)
    requires AllPresent(fs, chunks) && Assemble(fs, inDir, chunks, sha, meta).0 == Err(HashMismatch)
    ensures forall c :: c in chunks ==> c.name in Assemble(fs, inDir, chunks, sha, meta).1
  {
    var out := Join(inDir, TrimZeros(meta.name));
    CopyFromFrame(fs[out := []], out, chunks);
    var copied := CopyFrom(fs[out := []], out, chunks);
    assert Assemble(fs, inDir, chunks, sha, meta).1 == copied.fs;
    forall c | c in chunks ensures c.name in copied.fs {
      assert c.name in fs[out := []];
      assert c.name == out || SameAt(fs[out := []], copied.fs, c.name);
    }
  }
}
