/**
 * The part of Go's `path/filepath` the codec relies on (Unix separators),
 * and the file system the codec works against.
 *
 * The file system is keyed by paths as `filepath.Clean` leaves them. A path
 * a caller passes in is cleaned before it is looked up (`Clean`, `DirArg`,
 * `FileKey`), and `Join` on a cleaned directory is exactly what
 * `filepath.Join` builds (`CleanAppend`, `CleanOfJoin`).
 */
module Paths {
  import opened Bytes

  type Path = Bytes

  /** A file system: every regular file's full path mapped to its contents. */
  type FileSystem = map<Path, Bytes>

  /** `p` is a file of `fs` with exactly `content`. */
  predicate Holds(fs: FileSystem, p: Path, content: Bytes) {
    p in fs && fs[p] == content
  }

  /** `p` is in the same state in `fs'` as in `fs`: missing from both, or present with the same contents. */
  predicate SameAt(fs: FileSystem, fs': FileSystem, p: Path) {
    (p in fs' <==> p in fs) && (p in fs ==> fs'[p] == fs[p])
  }

  /** Writing one file leaves another one as it was. */
  lemma HoldsAfterWrite(fs: FileSystem, p: Path, c: Bytes, q: Path, content: Bytes)
    requires p != q && Holds(fs, q, content)
    ensures Holds(fs[p := c], q, content)
  {
  }

  /** Writing a file twice leaves what the second write put there. */
  lemma Overwrite(fs: FileSystem, p: Path, first: Bytes, second: Bytes)
    ensures fs[p := first][p := second] == fs[p := second]
  {
  }

  const Slash: uint8 := 47   // '/'
  const Dot: uint8 := 46     // '.'
  const CurrentDir: Path := [Dot]

  predicate NoSlash(n: Path) {
    forall k :: 0 <= k < |n| ==> n[k] != Slash
  }

  function LastSlash(p: Path): (r: Option<nat>)
    ensures r.Some? ==> r.value < |p| && p[r.value] == Slash && NoSlash(p[r.value + 1..])
    ensures r.None? ==> NoSlash(p)
  {
    if p == [] then None
    else if p[|p| - 1] == Slash then Some(|p| - 1)
    else
      var r := LastSlash(p[..|p| - 1]);
      assert r.Some? ==> p[r.value + 1..] == p[..|p| - 1][r.value + 1..] + [p[|p| - 1]];
      r
  }

  function TrimTrailingSlashes(p: Path): (r: Path)
    ensures |r| <= |p| && r == p[..|r|]
    ensures r == [] || r[|r| - 1] != Slash
  {
    if p != [] && p[|p| - 1] == Slash then TrimTrailingSlashes(p[..|p| - 1]) else p
  }

  /** filepath.Base: the last element, trailing separators removed. */
  function Base(p: Path): Path {
    if p == [] then CurrentDir
    else
      var q := TrimTrailingSlashes(p);
      if q == [] then [Slash]
      else
        match LastSlash(q)
        case None => q
        case Some(k) => q[k + 1..]
  }

  /** filepath.Dir: everything before the last separator. */
  function Dir(p: Path): Path {
    match LastSlash(p)
    case None => CurrentDir
    case Some(k) =>
      var d := TrimTrailingSlashes(p[..k + 1]);
      if d == [] then [Slash] else d
  }

  /** filepath.Ext: the suffix from the last dot in the last element, or "". */
  function Ext(p: Path): (r: Path)
    ensures HasSuffix(p, r)
  {
    ExtBefore(p, |p|)
  }

  function ExtBefore(p: Path, i: nat): (r: Path)
    requires i <= |p|
    ensures r == [] || (|r| <= |p| && r == p[|p| - |r|..] && r[0] == Dot)
  {
    if i == 0 || p[i - 1] == Slash then []
    else if p[i - 1] == Dot then p[i - 1..]
    else ExtBefore(p, i - 1)
  }

  /** filepath.Join of a directory and a name. */
  function Join(dir: Path, name: Path): Path {
    if name == [] then dir
    else if dir == [] || dir == CurrentDir then name
    else if dir[|dir| - 1] == Slash then dir + name
    else dir + [Slash] + name
  }

  /** The shape of every cleaned path (see `Clean`): not empty, no trailing separator except the root. */
  predicate CleanDir(d: Path) {
    d != [] && (d == [Slash] || d[|d| - 1] != Slash)
  }

  /** A plain file name: one non-empty path element. */
  predicate PlainName(n: Path) {
    n != [] && NoSlash(n)
  }

  lemma LastSlashNone(p: Path)
    requires NoSlash(p)
    ensures LastSlash(p) == None
  {
  }

  lemma {:induction false} LastSlashAfter(d: Path, n: Path)
    requires NoSlash(n)
    ensures LastSlash(d + [Slash] + n) == Some(|d|)
  {
    var p := d + [Slash] + n;
    if n == [] {
    } else {
      assert p[..|p| - 1] == d + [Slash] + n[..|n| - 1];
      LastSlashAfter(d, n[..|n| - 1]);
    }
  }

  lemma BaseOfPlain(n: Path)
    requires PlainName(n)
    ensures Base(n) == n && LastSlash(n) == None
  {
    LastSlashNone(n);
    assert TrimTrailingSlashes(n) == n;
  }

  lemma {:induction false} TrimTrailingNoSlash(p: Path)
    requires p != [] && p[|p| - 1] != Slash
    ensures TrimTrailingSlashes(p) == p
  {
  }

  lemma SplitAfterSlash(d: Path, n: Path)
    requires PlainName(n) && (d == [] || d[|d| - 1] != Slash)
    ensures Base(d + [Slash] + n) == n
    ensures Dir(d + [Slash] + n) == if d == [] then [Slash] else d
  {
    LastSlashAfter(d, n);
    BaseAfterSlash(d, n);
    DirAfterSlash(d, n);
  }

  lemma BaseAfterSlash(d: Path, n: Path)
    requires PlainName(n) && LastSlash(d + [Slash] + n) == Some(|d|)
    ensures Base(d + [Slash] + n) == n
  {
    var p := d + [Slash] + n;
    TrimTrailingNoSlash(p);
    assert p[|d| + 1..] == n;
  }

  lemma DirAfterSlash(d: Path, n: Path)
    requires (d == [] || d[|d| - 1] != Slash) && LastSlash(d + [Slash] + n) == Some(|d|)
    ensures Dir(d + [Slash] + n) == if d == [] then [Slash] else d
  {
    var q := (d + [Slash] + n)[..|d| + 1];
    assert q == d + [Slash];
    assert q[..|q| - 1] == d;
    if d != [] {
      TrimTrailingNoSlash(d);
    }
    assert TrimTrailingSlashes(q) == TrimTrailingSlashes(d);
  }

  /** Splitting a joined path with Dir and Base gives back its two parts. */
  lemma JoinSplits(d: Path, n: Path)
    requires CleanDir(d) && PlainName(n)
    ensures Dir(Join(d, n)) == d && Base(Join(d, n)) == n
  {
    if d == CurrentDir {
      BaseOfPlain(n);
    } else if d == [Slash] {
      assert Join(d, n) == [] + [Slash] + n;
      SplitAfterSlash([], n);
    } else {
      assert Join(d, n) == d + [Slash] + n;
      SplitAfterSlash(d, n);
    }
  }

  lemma JoinAppend(d: Path, n: Path, x: Path)
    requires n != []
    ensures Join(d, n + x) == Join(d, n) + x
  {
  }

  /** What Join puts in front of a non-empty name. */
  function JoinPrefix(d: Path): Path {
    if d == [] || d == CurrentDir then [] else if d[|d| - 1] == Slash then d else d + [Slash]
  }

  lemma JoinIsPrefix(d: Path, n: Path)
    requires n != []
    ensures Join(d, n) == JoinPrefix(d) + n
  {
  }

  // ---------------------------------------------------------------------------
  // filepath.Clean

  const ParentDir: Path := [Dot, Dot]

  /** The elements of `p` between separators, in order: `a//b/` has `a`, ``, `b` and ``. */
  function Elements(p: Path): (r: seq<Path>)
    ensures |r| >= 1 && forall k :: 0 <= k < |r| ==> NoSlash(r[k])
    decreases |p|
  {
    match LastSlash(p)
    case None => [p]
    case Some(k) => Elements(p[..k]) + [p[k + 1..]]
  }

  /** An element Clean keeps: not empty, not `.`, without a separator. */
  predicate Proper(e: Path) {
    e != [] && e != CurrentDir && NoSlash(e)
  }

  /**
   * The elements Clean can produce: each one proper, a `..` only at the
   * start or after another `..`, and no `..` at all under the root.
   */
  predicate Resolved(es: seq<Path>, rooted: bool) {
    es == [] ||
      var last := es[|es| - 1];
      && Resolved(es[..|es| - 1], rooted)
      && Proper(last)
      && (last == ParentDir ==> !rooted && (|es| == 1 || es[|es| - 2] == ParentDir))
  }

  lemma {:induction false} ResolvedProper(es: seq<Path>, rooted: bool)
    requires Resolved(es, rooted)
    ensures forall k :: 0 <= k < |es| ==> Proper(es[k])
  {
    if es != [] {
      ResolvedProper(es[..|es| - 1], rooted);
      assert forall k :: 0 <= k < |es| - 1 ==> es[k] == es[..|es| - 1][k];
    }
  }

  /**
   * One step of Clean's scan: an empty or `.` element vanishes, `..` removes
   * the element before it (is dropped at the root, kept when nothing can be
   * removed), and any other element is kept.
   */
  function Push(stack: seq<Path>, e: Path, rooted: bool): (r: seq<Path>)
    requires NoSlash(e) && Resolved(stack, rooted)
    ensures Resolved(r, rooted)
  {
    if e == [] || e == CurrentDir then stack
    else if e == ParentDir then
      if stack != [] && stack[|stack| - 1] != ParentDir then stack[..|stack| - 1]
      else if rooted then stack
      else
        assert (stack + [ParentDir])[..|stack|] == stack;
        stack + [ParentDir]
    else
      assert (stack + [e])[..|stack|] == stack;
      stack + [e]
  }

  /** Clean's scan over all the elements of a path. */
  function Resolve(es: seq<Path>, rooted: bool): (r: seq<Path>)
    requires forall k :: 0 <= k < |es| ==> NoSlash(es[k])
    ensures Resolved(r, rooted)
  {
    if es == [] then [] else Push(Resolve(es[..|es| - 1], rooted), es[|es| - 1], rooted)
  }

  /** The elements joined with single separators. */
  function JoinElems(es: seq<Path>): (r: Path)
    ensures es != [] && es[|es| - 1] != [] ==> r != [] && r[|r| - 1] == es[|es| - 1][|es[|es| - 1]| - 1]
    ensures es != [] && es[0] != [] ==> r != [] && r[0] == es[0][0]
  {
    if es == [] then []
    else if |es| == 1 then es[0]
    else JoinElems(es[..|es| - 1]) + [Slash] + es[|es| - 1]
  }

  /**
   * filepath.Clean: the shortest path that names the same file by purely
   * lexical processing. Repeated separators and `.` elements go, `..`
   * removes the element before it, there is no trailing separator, and an
   * empty result is `.`.
   */
  function Clean(p: Path): (r: Path)
    ensures CleanDir(r)
  {
    var rooted := p != [] && p[0] == Slash;
    var es := Resolve(Elements(p), rooted);
    if rooted then [Slash] + JoinElems(es)
    else if es == [] then CurrentDir
    else JoinElems(es)
  }

  lemma {:induction false} ElementsOfJoin(es: seq<Path>)
    requires es != [] && forall k :: 0 <= k < |es| ==> NoSlash(es[k])
    ensures Elements(JoinElems(es)) == es
  {
    if |es| > 1 {
      var init := es[..|es| - 1];
      var last := es[|es| - 1];
      assert JoinElems(es) == JoinElems(init) + [Slash] + last;
      ElementsAppend(JoinElems(init), last);
      ElementsOfJoin(init);
      assert init + [last] == es;
    } else {
      LastSlashNone(es[0]);
    }
  }

  /** Leading with an empty element puts a separator in front. */
  lemma {:induction false} JoinElemsRooted(es: seq<Path>)
    requires es != []
    ensures JoinElems([[]] + es) == [Slash] + JoinElems(es)
  {
    var xs := [[]] + es;
    if |es| > 1 {
      assert xs[..|xs| - 1] == [[]] + es[..|es| - 1];
      JoinElemsRooted(es[..|es| - 1]);
    } else {
      assert xs[..|xs| - 1] == [[]];
    }
  }

  /** A leading empty element changes nothing in Clean's scan. */
  lemma {:induction false} ResolveEmptyHead(es: seq<Path>, rooted: bool)
    requires forall k :: 0 <= k < |es| ==> NoSlash(es[k])
    ensures Resolve([[]] + es, rooted) == Resolve(es, rooted)
  {
    var xs := [[]] + es;
    if es == [] {
      assert xs[..0] == [];
    } else {
      assert xs[..|xs| - 1] == [[]] + es[..|es| - 1];
      ResolveEmptyHead(es[..|es| - 1], rooted);
    }
  }

  /** Clean's scan leaves elements it could have produced as they are. */
  lemma {:induction false} ResolveResolved(es: seq<Path>, rooted: bool)
    requires Resolved(es, rooted) && forall k :: 0 <= k < |es| ==> NoSlash(es[k])
    ensures Resolve(es, rooted) == es
  {
    if es != [] {
      var init := es[..|es| - 1];
      assert Resolved(init, rooted);
      ResolveResolved(init, rooted);
      assert es == init + [es[|es| - 1]];
    }
  }

  lemma CleanRoot()
    ensures Clean([Slash]) == [Slash]
  {
    assert [Slash] == [] + [Slash] + [];
    assert Elements([Slash]) == [[], []];
    assert Resolve([[], []], true) == [];
  }

  lemma CleanCurrentDir()
    ensures Clean(CurrentDir) == CurrentDir
  {
    assert Elements(CurrentDir) == [CurrentDir];
    assert Resolve([CurrentDir], false) == [];
  }

  lemma CleanRooted(es: seq<Path>)
    requires es != [] && Resolved(es, true)
    ensures Clean([Slash] + JoinElems(es)) == [Slash] + JoinElems(es)
  {
    var q := [Slash] + JoinElems(es);
    var xs := [[]] + es;
    ResolvedProper(es, true);
    JoinElemsRooted(es);
    assert forall k :: 0 <= k < |xs| ==> NoSlash(xs[k]) by {
      forall k | 0 <= k < |xs| ensures NoSlash(xs[k]) {
        if k > 0 {
          assert xs[k] == es[k - 1];
        }
      }
    }
    ElementsOfJoin(xs);
    assert Elements(q) == xs;
    ResolveEmptyHead(es, true);
    ResolveResolved(es, true);
    assert Resolve(Elements(q), true) == es;
  }

  lemma CleanRelative(es: seq<Path>)
    requires es != [] && Resolved(es, false)
    ensures Clean(JoinElems(es)) == JoinElems(es)
  {
    var q := JoinElems(es);
    ResolvedProper(es, false);
    ElementsOfJoin(es);
    ResolveResolved(es, false);
    assert q[0] == es[0][0] && es[0][0] != Slash;
    assert Resolve(Elements(q), false) == es;
  }

  /** filepath.Clean is idempotent. */
  lemma CleanIdempotent(p: Path)
    ensures Clean(Clean(p)) == Clean(p)
  {
    var rooted := p != [] && p[0] == Slash;
    var es := Resolve(Elements(p), rooted);
    if rooted && es == [] {
      assert Clean(p) == [Slash];
      CleanRoot();
    } else if rooted {
      CleanRooted(es);
    } else if es == [] {
      CleanCurrentDir();
    } else {
      CleanRelative(es);
    }
  }

  lemma ElementsAppend(d: Path, n: Path)
    requires NoSlash(n)
    ensures Elements(d + [Slash] + n) == Elements(d) + [n]
  {
    var p := d + [Slash] + n;
    LastSlashAfter(d, n);
    assert p[..|d|] == d && p[|d| + 1..] == n;
  }

  lemma ResolveAppend(es: seq<Path>, n: Path, rooted: bool)
    requires forall k :: 0 <= k < |es| ==> NoSlash(es[k])
    requires Proper(n) && n != ParentDir
    ensures Resolve(es + [n], rooted) == Resolve(es, rooted) + [n]
  {
    assert (es + [n])[..|es|] == es;
  }

  /** A clean path other than `.` and `/` is a list of resolved elements, joined. */
  lemma JoinedNotDot(es: seq<Path>, rooted: bool)
    requires es != [] && Resolved(es, rooted)
    ensures JoinElems(es) != CurrentDir
  {
    if |es| == 1 {
      assert JoinElems(es) == es[0];
    }
  }

  lemma JoinElemsSnoc(es: seq<Path>, n: Path)
    ensures JoinElems(es + [n]) == if es == [] then n else JoinElems(es) + [Slash] + n
  {
    assert (es + [n])[..|es|] == es;
  }

  /** What Clean builds from resolved elements. */
  function Rebuild(es: seq<Path>, rooted: bool): Path {
    if rooted then [Slash] + JoinElems(es)
    else if es == [] then CurrentDir
    else JoinElems(es)
  }

  /** A rebuilt directory with elements ends in its last element, never in a separator. */
  lemma JoinRebuiltElems(es: seq<Path>, rooted: bool, n: Path)
    requires es != [] && Resolved(es, rooted) && Proper(n)
    ensures Join(Rebuild(es, rooted), n) == Rebuild(es, rooted) + [Slash] + n
  {
    var c := Rebuild(es, rooted);
    JoinedNotDot(es, rooted);
    var last := es[|es| - 1];
    assert Proper(last);
    assert JoinElems(es)[|JoinElems(es)| - 1] == last[|last| - 1] != Slash;
    assert c[|c| - 1] != Slash;
  }

  lemma JoinRebuiltEmpty(rooted: bool, n: Path)
    requires Proper(n)
    ensures Join(Rebuild([], rooted), n) == Rebuild([n], rooted)
  {
    assert JoinElems([n]) == n;
  }

  lemma JoinRebuiltSome(es: seq<Path>, rooted: bool, n: Path)
    requires es != [] && Resolved(es, rooted) && Proper(n)
    ensures Join(Rebuild(es, rooted), n) == Rebuild(es + [n], rooted)
  {
    JoinElemsSnoc(es, n);
    JoinRebuiltElems(es, rooted, n);
    var j := JoinElems(es);
    assert [Slash] + j + [Slash] + n == [Slash] + (j + [Slash] + n);
  }

  /** Join of a rebuilt directory and an element adds the element to the directory's elements. */
  lemma JoinRebuilt(es: seq<Path>, rooted: bool, n: Path)
    requires Resolved(es, rooted) && Proper(n)
    ensures Join(Rebuild(es, rooted), n) == Rebuild(es + [n], rooted)
  {
    if es == [] {
      JoinRebuiltEmpty(rooted, n);
    } else {
      JoinRebuiltSome(es, rooted, n);
    }
  }

  /** filepath.Join of a non-empty directory and an element is Join on the cleaned directory. */
  lemma CleanAppend(d: Path, n: Path)
    requires d != [] && Proper(n) && n != ParentDir
    ensures Clean(d + [Slash] + n) == Join(Clean(d), n)
  {
    var p := d + [Slash] + n;
    ElementsAppend(d, n);
    var rooted := d[0] == Slash;
    assert p[0] == d[0];
    var es := Resolve(Elements(d), rooted);
    ResolveAppend(Elements(d), n, rooted);
    assert Clean(p) == Rebuild(es + [n], rooted);
    assert Clean(d) == Rebuild(es, rooted);
    JoinRebuilt(es, rooted, n);
  }

  /** An element joined onto `.` is the element itself, already clean. */
  lemma CleanOfJoinDot(n: Path)
    requires Proper(n) && n != ParentDir
    ensures Clean(Join(CurrentDir, n)) == Join(CurrentDir, n)
  {
    LastSlashNone(n);
    assert Elements(n) == [n];
    assert Resolve([n], false) == [n];
  }

  /** An element joined onto the root is clean. */
  lemma CleanOfJoinRoot(n: Path)
    requires Proper(n) && n != ParentDir
    ensures Clean(Join([Slash], n)) == Join([Slash], n)
  {
    var p := [Slash] + n;
    LastSlashAfter([], n);
    assert p == [] + [Slash] + n;
    assert Elements(p) == [[], n];
    var empty: seq<Path> := [];
    assert [[], n][..1] == [[]] && [[]][..0] == empty;
    assert Resolve([[]], true) == [];
    assert Resolve([[], n], true) == [n];
  }

  /** Join of a clean directory and an element is clean. */
  lemma CleanOfJoin(d: Path, n: Path)
    requires Clean(d) == d && Proper(n) && n != ParentDir
    ensures Clean(Join(d, n)) == Join(d, n)
  {
    if d == CurrentDir {
      CleanOfJoinDot(n);
    } else if d == [Slash] {
      CleanOfJoinRoot(n);
    } else {
      assert Join(d, n) == d + [Slash] + n;
      CleanAppend(d, n);
    }
  }

  /** A directory argument as the file system sees it: cleaned, except that an empty name stays empty. */
  function DirArg(d: Path): (r: Path)
    ensures r == [] <==> d == []
    ensures r != [] ==> Clean(r) == r
  {
    if d == [] then [] else CleanIdempotent(d); Clean(d)
  }

  /**
   * The regular file a path names, under the key the file system uses: the
   * cleaned path, or nothing when the last element is empty, `.` or `..`
   * (such a path names a directory or nothing at all).
   */
  function FileKey(p: Path): Option<Path> {
    var es := Elements(p);
    var last := es[|es| - 1];
    if !Proper(last) || last == ParentDir then None else Some(Clean(p))
  }

  /** A file key is a clean path whose base name is the last element of the path it came from. */
  lemma FileKeyClean(p: Path)
    requires FileKey(p).Some?
    ensures var key := FileKey(p).value;
      key == Clean(p) && Clean(key) == key && Base(key) == Elements(p)[|Elements(p)| - 1] && PlainName(Base(key))
  {
    CleanIdempotent(p);
    FileKeyBase(p);
  }

  /** The contents of the regular file `p` names, when there is one (what os.Open and os.ReadFile read). */
  function ReadAt(fs: FileSystem, p: Path): Option<Bytes> {
    match FileKey(p)
    case None => None
    case Some(key) => if key in fs then Some(fs[key]) else None
  }

  /** A path without a separator is its own last element and cleans to itself. */
  lemma FileKeyBasePlain(p: Path)
    requires LastSlash(p).None? && Proper(p) && p != ParentDir
    ensures Base(Clean(p)) == p
  {
    CleanCurrentDir();
    CleanOfJoinDot(p);
    BaseOfPlain(p);
  }

  /** A path `/n` cleans to itself, with base name `n`. */
  lemma FileKeyBaseRooted(n: Path)
    requires Proper(n) && n != ParentDir
    ensures Base(Clean([Slash] + n)) == n
  {
    assert Join([Slash], n) == [Slash] + n;
    CleanOfJoinRoot(n);
    JoinSplits([Slash], n);
  }

  /** A path `d/n` cleans to a path whose base name is `n`. */
  lemma FileKeyBaseJoined(d: Path, n: Path)
    requires Proper(n) && n != ParentDir
    ensures Base(Clean(d + [Slash] + n)) == n
  {
    if d == [] {
      assert d + [Slash] + n == [Slash] + n;
      FileKeyBaseRooted(n);
    } else {
      CleanAppend(d, n);
      JoinSplits(Clean(d), n);
    }
  }

  /** The cleaned path keeps a proper last element as its base name. */
  lemma FileKeyBase(p: Path)
    requires var es := Elements(p); Proper(es[|es| - 1]) && es[|es| - 1] != ParentDir
    ensures Base(Clean(p)) == Elements(p)[|Elements(p)| - 1]
  {
    match LastSlash(p)
    case None =>
      FileKeyBasePlain(p);
    case Some(k) =>
      var n := p[k + 1..];
      assert p == p[..k] + [Slash] + n;
      FileKeyBaseJoined(p[..k], n);
  }
}
