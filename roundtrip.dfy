/**
 * A split followed by a merge of the output directory gives the source file
 * back: the fragment files the split leaves are exactly the ones discovery
 * finds, the header read from fragment 0 is the one written, the payloads
 * tile the source, the digest matches, and the fragments are removed.
 */
module RoundTrip {
  import opened Bytes
  import opened Paths
  import opened Header
  import opened Discovery
  import opened Errors
  import opened Splitter
  import opened Merger

  /** The fragment list of a split into `k` fragments, as discovery reports it. */
  function SplitChunks(outDir: Path, stem: Path, k: nat): (r: seq<ParsedChunk>)
    ensures |r| == k
    ensures forall i :: 0 <= i < k ==> r[i] == ParsedChunk(i == 0, Join(outDir, ChunkName(stem, i)), i)
  {
    seq(k, i requires 0 <= i < k => ParsedChunk(i == 0, Join(outDir, ChunkName(stem, i)), i))
  }

  /** `dir` holds no file whose name discovery would take for a fragment. */
  ghost predicate NoFragmentFiles(fs: FileSystem, dir: Path) {
    forall p :: p in fs && Dir(p) == dir ==> ChunkIndex(Base(p)).None?
  }

  /**
   * The conditions under which a split can be merged back: a non-empty
   * source, at most 10000 fragment files written (the index has four digits
   * in the name, and discovery reads back only four), a clean output directory
   * without earlier fragments, a source name that fits the 46-byte header
   * field and has no NUL at either end, and the first "part" of fragment 0's
   * path in its extension.
   */
  ghost predicate Splittable(fs: FileSystem, src: SourceFile, outDir: Path, chunks: int) {
    && 1 <= |src.content| <= MaxInt64
    && MinChunks <= chunks
    && FragmentCount(|src.content|, BufferSize(|src.content|, chunks)) <= 10000
    && CleanDir(outDir)
    && NoFragmentFiles(fs, outDir)
    && var base := Base(src.name);
       && Creatable(base)
       && |base| <= MaxFilenameLength && base[0] != 0 && base[|base| - 1] != 0
       && FirstPartIsExtension(outDir, Stem(base))
  }

  // ---------------------------------------------------------------------------
  // Names

  lemma StemNoSlash(base: Path)
    requires NoSlash(base)
    ensures NoSlash(Stem(base))
  {
  }

  lemma ChunkNamePlain(stem: Path, i: nat)
    requires NoSlash(stem)
    ensures PlainName(ChunkName(stem, i))
  {
    var p := Pad4(i);
    assert forall j :: 0 <= j < |p| ==> p[j] != Slash;
  }

  /** Fragment `i`'s file lies in `outDir` and is recognised with index `i`. */
  lemma SplitChunkFile(outDir: Path, stem: Path, i: nat)
    requires CleanDir(outDir) && NoSlash(stem) && i < 10000
    ensures Dir(Join(outDir, ChunkName(stem, i))) == outDir
    ensures Base(Join(outDir, ChunkName(stem, i))) == ChunkName(stem, i)
    ensures ChunkIndex(ChunkName(stem, i)) == Some(i)
  {
    ChunkNamePlain(stem, i);
    JoinSplits(outDir, ChunkName(stem, i));
    ChunkNameIndex(stem, i);
  }

  /** A file name is never the fragment name built from its own stem: its extension starts with a dot. */
  lemma BaseNotChunkName(base: Path, i: nat)
    ensures base != ChunkName(Stem(base), i)
  {
    var stem := Stem(base);
    var e := Ext(base);
    var name := ChunkName(stem, i);
    assert name[|stem|] == Underscore;
    if e == [] {
      assert |base| == |stem| < |name|;
    } else {
      assert base[|stem|] == e[0] == Dot;
    }
  }

  /** Nor is it the temporary name built from its own stem. */
  lemma BaseNotTmpName(base: Path)
    ensures base != TmpName(Stem(base))
  {
    var stem := Stem(base);
    var e := Ext(base);
    var name := TmpName(stem);
    assert name[|stem|] == Underscore;
    if e == [] {
      assert |base| == |stem| < |name|;
    } else {
      assert base[|stem|] == e[0] == Dot;
    }
  }

  /** The file the merge writes is neither a fragment nor the split's temporary file. */
  lemma OutputNotFragment(outDir: Path, base: Path, k: nat)
    requires CleanDir(outDir) && PlainName(base) && FirstPartIsExtension(outDir, Stem(base))
    ensures Join(outDir, base) !in ChunkNames(SplitChunks(outDir, Stem(base), k))
    ensures Join(outDir, base) != TempPath(outDir, Stem(base))
  {
    var stem := Stem(base);
    StemNoSlash(base);
    TempPathIsTmp(outDir, stem);
    BaseNotTmpName(base);
    if Join(outDir, base) == Join(outDir, TmpName(stem)) {
      JoinInjective(outDir, base, TmpName(stem));
    }
    forall c | c in SplitChunks(outDir, stem, k) ensures c.name != Join(outDir, base) {
      var i := c.index;
      BaseNotChunkName(base, i);
      ChunkNamePlain(stem, i);
      if c.name == Join(outDir, base) {
        JoinInjective(outDir, base, ChunkName(stem, i));
      }
    }
  }

  /** The header's name field reads back as the name written into it. */
  lemma NameRestored(base: Path)
    requires base != [] && |base| <= MaxFilenameLength && base[0] != 0 && base[|base| - 1] != 0
    ensures TrimZeros(NameField(base)) == base
  {
    var pad := MaxFilenameLength - |base|;
    assert NameField(base) == base + Zeros(pad);
    TrimZerosPadded(base, pad);
  }

  // ---------------------------------------------------------------------------
  // The directory after the split

  /**
   * The files a split into `k` fragments leaves, from `fs` to `fs1`: every
   * fragment file exists, the temporary file is gone, and every other path
   * is as it was.
   */
  ghost predicate Laid(fs: FileSystem, fs1: FileSystem, outDir: Path, stem: Path, k: nat) {
    && TempPath(outDir, stem) !in fs1
    && (forall i :: 0 <= i < k ==> Join(outDir, ChunkName(stem, i)) in fs1)
    && (forall p :: IsUntouched(outDir, stem, k, p) ==> SameAt(fs, fs1, p))
  }

  /** Chunk `i` of the list holds, as its payload, fragment `i` of `data`. */
  predicate Carries(fs: FileSystem, chunks: seq<ParsedChunk>, data: Bytes, b: nat) {
    && b >= 1 && |chunks| <= FragmentCount(|data|, b)
    && forall i :: 0 <= i < |chunks| ==>
         chunks[i].name in fs && Payload(fs[chunks[i].name], chunks[i].first) == Fragment(data, b, i)
  }

  lemma CarriesFromHolds(fs1: FileSystem, outDir: Path, stem: Path, data: Bytes, b: nat, head: Bytes)
    requires b >= 1 && 1 <= FragmentCount(|data|, b) && |head| == HeaderSize
    requires Holds(fs1, Join(outDir, ChunkName(stem, 0)), head + Take(data, b))
    requires forall i :: 0 < i < FragmentCount(|data|, b) ==>
      Holds(fs1, Join(outDir, ChunkName(stem, i)), Fragment(data, b, i))
    ensures Carries(fs1, SplitChunks(outDir, stem, FragmentCount(|data|, b)), data, b)
  {
    var k := FragmentCount(|data|, b);
    var cs := SplitChunks(outDir, stem, k);
    FirstFragment(data, b);
    forall i | 0 <= i < k
      ensures cs[i].name in fs1 && Payload(fs1[cs[i].name], cs[i].first) == Fragment(data, b, i)
    {
      if i == 0 {
        var content0 := head + Take(data, b);
        assert content0[HeaderSize..] == Take(data, b);
      }
    }
  }

  /** The split, restated: it succeeds and leaves the layout of `k` fragments. */
  lemma SplitLayout(fs: FileSystem, src: SourceFile, outDir: Path, chunks: int, now: int64, sha: Hasher,
                    fs1: FileSystem, stem: Path, b: nat, k: nat)
    requires Splittable(fs, src, outDir, chunks)
    requires fs1 == SplitSpec(fs, src, outDir, chunks, now, sha).1 && stem == Stem(Base(src.name))
    requires b == BufferSize(|src.content|, chunks) && k == FragmentCount(|src.content|, b)
    ensures SplitSpec(fs, src, outDir, chunks, now, sha).0 == Ok
    ensures NoSlash(stem) && 1 <= k <= chunks
    ensures Laid(fs, fs1, outDir, stem, k)
  {
    StemNoSlash(Base(src.name));
    FragmentCountBound(|src.content|, chunks);
    SplitWrites(fs, src, outDir, chunks, now, sha);
    forall i | 0 <= i < k ensures Join(outDir, ChunkName(stem, i)) in fs1 {
      if i == 0 {
        assert Holds(fs1, Join(outDir, ChunkName(stem, 0)), Encode(HeaderFor(src, chunks, now, sha)) + Take(src.content, b));
      } else {
        assert Holds(fs1, Join(outDir, ChunkName(stem, i)), Fragment(src.content, b, i));
      }
    }
    assert TempPath(outDir, stem) !in fs1;
    assert forall p :: IsUntouched(outDir, stem, k, p) ==> SameAt(fs, fs1, p);
  }

  /** The split, restated: fragment 0 holds the header and the first read, and every fragment carries its bytes. */
  lemma SplitContents(fs: FileSystem, src: SourceFile, outDir: Path, chunks: int, now: int64, sha: Hasher,
                      fs1: FileSystem, stem: Path, b: nat, k: nat)
    requires Splittable(fs, src, outDir, chunks)
    requires fs1 == SplitSpec(fs, src, outDir, chunks, now, sha).1 && stem == Stem(Base(src.name))
    requires b == BufferSize(|src.content|, chunks) && k == FragmentCount(|src.content|, b)
    ensures Holds(fs1, Join(outDir, ChunkName(stem, 0)), Encode(HeaderFor(src, chunks, now, sha)) + Take(src.content, b))
    ensures Carries(fs1, SplitChunks(outDir, stem, k), src.content, b)
  {
    StemNoSlash(Base(src.name));
    FragmentCountBound(|src.content|, chunks);
    SplitWrites(fs, src, outDir, chunks, now, sha);
    CarriesFromHolds(fs1, outDir, stem, src.content, b, Encode(HeaderFor(src, chunks, now, sha)));
  }

  /** A fragment-named file of `outDir` after the split is one of the split's fragments. */
  lemma FragmentFileAfterSplit(fs: FileSystem, fs1: FileSystem, outDir: Path, stem: Path, k: nat, p: Path)
    requires Laid(fs, fs1, outDir, stem, k) && NoFragmentFiles(fs, outDir)
    requires 1 <= k && p in fs1 && Dir(p) == outDir && ChunkIndex(Base(p)).Some?
    ensures exists i :: 0 <= i < k && p == Join(outDir, ChunkName(stem, i))
  {
    if p != Join(outDir, ChunkName(stem, 0)) {
      assert p !in fs;
      assert !IsUntouched(outDir, stem, k, p);
    }
  }

  /** The chunks discovery may report after the split are the split's fragments, and no others. */
  lemma MatchesAfterSplit(fs: FileSystem, fs1: FileSystem, outDir: Path, stem: Path, k: nat)
    requires Laid(fs, fs1, outDir, stem, k) && NoFragmentFiles(fs, outDir)
    requires CleanDir(outDir) && NoSlash(stem) && 1 <= k <= 10000
    ensures forall c :: IsMatch(fs1, outDir, c) <==> c in SplitChunks(outDir, stem, k)
  {
    var sc := SplitChunks(outDir, stem, k);
    forall c ensures IsMatch(fs1, outDir, c) <==> c in sc {
      if IsMatch(fs1, outDir, c) {
        FragmentFileAfterSplit(fs, fs1, outDir, stem, k, c.name);
        var i :| 0 <= i < k && c.name == Join(outDir, ChunkName(stem, i));
        SplitChunkFile(outDir, stem, i);
        assert c == sc[i];
      }
      if c in sc {
        var i := c.index;
        assert c == sc[i];
        SplitChunkFile(outDir, stem, i);
      }
    }
  }

  /** When the matching files are exactly the split's fragments, discovery reports them in index order. */
  lemma FoundAfterSplit(fs1: FileSystem, outDir: Path, stem: Path, k: nat, found: seq<ParsedChunk>)
    requires forall c :: IsMatch(fs1, outDir, c) <==> c in SplitChunks(outDir, stem, k)
    requires Discovered(fs1, outDir, found)
    ensures found == SplitChunks(outDir, stem, k)
  {
    var sc := SplitChunks(outDir, stem, k);
    assert UniqueIndices(fs1, outDir) by {
      forall c1, c2 | IsMatch(fs1, outDir, c1) && IsMatch(fs1, outDir, c2) && c1.index == c2.index
        ensures c1 == c2
      {
        assert c1 == sc[c1.index] && c2 == sc[c2.index];
      }
    }
    DiscoveredStrictly(fs1, outDir, found);
    StrictlySortedUnique(found, sc);
  }

  // ---------------------------------------------------------------------------
  // Header and payloads

  /** The header read from fragment 0 is the header written in front of it. */
  lemma HeaderAfterSplit(fs1: FileSystem, outDir: Path, stem: Path, k: nat, m: Metadata, rest: Bytes)
    requires WellFormed(m) && 1 <= k && CleanDir(outDir) && NoSlash(stem)
    requires Holds(fs1, Join(outDir, ChunkName(stem, 0)), Encode(m) + rest)
    ensures HeaderOf(fs1, SplitChunks(outDir, stem, k)) == Some(Success(m))
  {
    var sc := SplitChunks(outDir, stem, k);
    assert FirstChunk(sc) == Some(0);
    ChunkNamePlain(stem, 0);
    var r := ExtractMetadata(fs1, sc[0].name);
    assert (Encode(m) + rest)[..HeaderSize] == Encode(m);
    EncodeInjective(r.value, m);
  }

  lemma {:induction false} PayloadsAppend(fs: FileSystem, a: seq<ParsedChunk>, c: seq<ParsedChunk>)
    requires AllPresent(fs, a) && AllPresent(fs, c)
    ensures AllPresent(fs, a + c) && Payloads(fs, a + c) == Payloads(fs, a) + Payloads(fs, c)
  {
    AllPresentAppend(fs, a, c);
    if a == [] {
      assert a + c == c;
    } else {
      var tail := a[1..];
      assert AllPresent(fs, tail) by {
        forall x | x in tail ensures x.name in fs {
          assert x in a;
        }
      }
      assert (a + c)[0] == a[0] && (a + c)[1..] == tail + c;
      PayloadsAppend(fs, tail, c);
      var head := Payload(fs[a[0].name], a[0].first);
      assert Payloads(fs, a + c) == head + Payloads(fs, tail + c);
      assert Payloads(fs, a) == head + Payloads(fs, tail);
      AppendAssoc(head, Payloads(fs, tail), Payloads(fs, c));
    }
  }

  lemma AllPresentAppend(fs: FileSystem, a: seq<ParsedChunk>, c: seq<ParsedChunk>)
    requires AllPresent(fs, a) && AllPresent(fs, c)
    ensures AllPresent(fs, a + c)
  {
    forall x | x in a + c ensures x.name in fs {
      if x !in a {
        assert x in c;
      }
    }
  }

  /** The payloads of the first `n` chunks are the first `n` fragments. */
  lemma {:induction false} PayloadsCarried(fs: FileSystem, chunks: seq<ParsedChunk>, data: Bytes, b: nat, n: nat)
    requires Carries(fs, chunks, data, b) && n <= |chunks|
    ensures AllPresent(fs, chunks[..n]) && Payloads(fs, chunks[..n]) == Fragments(data, b, n)
  {
    if n > 0 {
      PayloadsCarried(fs, chunks, data, b, n - 1);
      var last := chunks[n - 1];
      var front := chunks[..n - 1];
      TakeSnoc(chunks, n);
      var pl := Payload(fs[last.name], last.first);
      assert pl == Fragment(data, b, n - 1);
      assert [last][1..] == [];
      assert Payloads(fs, [last]) == pl + Payloads(fs, []);
      assert Payloads(fs, []) == [] && pl + [] == pl;
      PayloadsAppend(fs, front, [last]);
      assert Payloads(fs, front + [last]) == Payloads(fs, front) + pl;
    }
  }

  /** Chunks that carry every fragment of `data` have `data` as their payloads. */
  lemma PayloadsRestore(fs: FileSystem, chunks: seq<ParsedChunk>, data: Bytes, b: nat)
    requires Carries(fs, chunks, data, b) && |chunks| == FragmentCount(|data|, b)
    ensures AllPresent(fs, chunks) && Payloads(fs, chunks) == data
  {
    PayloadsCarried(fs, chunks, data, b, |chunks|);
    assert chunks[..|chunks|] == chunks;
    FragmentsTile(data, b);
  }

  // ---------------------------------------------------------------------------
  // The round trip

  /**
   * What the merge leaves: the source under its base name in `outDir`, no
   * fragment and no temporary file, and every file neither step writes as
   * it was before the split.
   */
  ghost predicate Restored(fs: FileSystem, fs2: FileSystem, out: Path, content: Bytes, outDir: Path, stem: Path, k: nat) {
    && Holds(fs2, out, content)
    && TempPath(outDir, stem) !in fs2
    && (forall i :: 0 <= i < k ==> Join(outDir, ChunkName(stem, i)) !in fs2)
    && (forall p :: IsUntouched(outDir, stem, k, p) && p != out ==> SameAt(fs, fs2, p))
  }

  lemma MergeRestores(fs: FileSystem, fs1: FileSystem, out: Path, content: Bytes, outDir: Path, stem: Path, k: nat)
    requires Laid(fs, fs1, outDir, stem, k)
    requires out !in ChunkNames(SplitChunks(outDir, stem, k)) && out != TempPath(outDir, stem)
    ensures Restored(fs, fs1[out := content] - ChunkNames(SplitChunks(outDir, stem, k)), out, content, outDir, stem, k)
  {
    var sc := SplitChunks(outDir, stem, k);
    forall i | 0 <= i < k ensures Join(outDir, ChunkName(stem, i)) in ChunkNames(sc) {
      assert sc[i] in sc;
    }
    forall p | IsUntouched(outDir, stem, k, p) ensures p !in ChunkNames(sc) {
      assert forall c :: c in sc ==> c.name != p;
    }
  }

  /**
   * Splitting a file and then merging the output directory succeeds and
   * restores the file under its base name, whichever order discovery listed
   * the fragments in; the fragments are gone and nothing else changed.
   */
  lemma SplitThenMerge(fs: FileSystem, src: SourceFile, outDir: Path, chunks: int, now: int64, sha: Hasher,
                       found: seq<ParsedChunk>)
    requires Splittable(fs, src, outDir, chunks)
    requires Discovered(SplitSpec(fs, src, outDir, chunks, now, sha).1, outDir, found)
    ensures SplitSpec(fs, src, outDir, chunks, now, sha).0 == Ok
    ensures AllPresent(SplitSpec(fs, src, outDir, chunks, now, sha).1, found)
    ensures MergeSpec(SplitSpec(fs, src, outDir, chunks, now, sha).1, outDir, found, sha).0 == Ok
    ensures Restored(fs, MergeSpec(SplitSpec(fs, src, outDir, chunks, now, sha).1, outDir, found, sha).1,
                     Join(outDir, Base(src.name)), src.content, outDir, Stem(Base(src.name)),
                     FragmentCount(|src.content|, BufferSize(|src.content|, chunks)))
  {
    var data := src.content;
    var b := BufferSize(|data|, chunks);
    var k := FragmentCount(|data|, b);
    var fs1 := SplitSpec(fs, src, outDir, chunks, now, sha).1;
    var base := Base(src.name);
    var stem := Stem(base);
    var sc := SplitChunks(outDir, stem, k);
    var m := HeaderFor(src, chunks, now, sha);
    SplitLayout(fs, src, outDir, chunks, now, sha, fs1, stem, b, k);
    SplitContents(fs, src, outDir, chunks, now, sha, fs1, stem, b, k);
    MatchesAfterSplit(fs, fs1, outDir, stem, k);
    FoundAfterSplit(fs1, outDir, stem, k, found);
    PayloadsRestore(fs1, sc, data, b);
    HeaderAfterSplit(fs1, outDir, stem, k, m, Take(data, b));
    NameRestored(base);
    OutputNotFragment(outDir, base, k);
    MergeOutcome(fs1, outDir, sc, sha, m);
    MergeRestores(fs, fs1, Join(outDir, base), data, outDir, stem, k);
  }
}
