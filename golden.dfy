/**
 * The golden-file helpers of the test utilities. Generated text is compared
 * with a stored golden file; for systemd unit files both sides are first
 * normalised, so that the order of sections and of the properties inside a
 * section does not matter. Text is a byte string, as a Go string is.
 */
module Golden {
  import opened Bytes
  import opened Paths
  import opened Listing

  const Newline: uint8 := 10
  const LBracket: uint8 := 91   // '['
  const RBracket: uint8 := 93   // ']'

  // ---------------------------------------------------------------------------
  // strings.Split(s, "\n") and its inverse strings.Join(lines, "\n")

  /** The pieces of `s` between newlines: never empty, and no piece holds a newline. */
  function SplitLines(s: Bytes): (r: seq<Bytes>)
    ensures |r| >= 1
    ensures forall i :: 0 <= i < |r| ==> Newline !in r[i]
    decreases |s|
  {
    if s == [] then [[]]
    else
      var rest := SplitLines(s[1..]);
      if s[0] == Newline then [[]] + rest
      else [[s[0]] + rest[0]] + rest[1..]
  }

  function JoinLines(ls: seq<Bytes>): Bytes
    requires |ls| >= 1
  {
    if |ls| == 1 then ls[0] else ls[0] + [Newline] + JoinLines(ls[1..])
  }

  /** Joining the pieces with newlines gives back the text. */
  lemma {:induction false} JoinSplit(s: Bytes)
    ensures JoinLines(SplitLines(s)) == s
    decreases |s|
  {
    if s != [] {
      var rest := SplitLines(s[1..]);
      JoinSplit(s[1..]);
      if s[0] == Newline {
        assert ([[]] + rest)[1..] == rest;
      } else if |rest| > 1 {
        assert ([[s[0]] + rest[0]] + rest[1..])[1..] == rest[1..];
      }
      assert s == [s[0]] + s[1..];
    }
  }

  lemma {:induction false} SplitNoNewline(a: Bytes)
    requires Newline !in a
    ensures SplitLines(a) == [a]
    decreases |a|
  {
    if a != [] {
      SplitNoNewline(a[1..]);
      assert a == [a[0]] + a[1..];
    }
  }

  /** A newline-free piece followed by a newline is split off as one line. */
  lemma {:induction false} SplitAfter(a: Bytes, t: Bytes)
    requires Newline !in a
    ensures SplitLines(a + [Newline] + t) == [a] + SplitLines(t)
    decreases |a|
  {
    var s := a + [Newline] + t;
    if a == [] {
      assert s[1..] == t;
    } else {
      assert s[1..] == a[1..] + [Newline] + t;
      SplitAfter(a[1..], t);
      assert a == [a[0]] + a[1..];
    }
  }

  /** Splitting newline-joined, newline-free lines gives back the lines. */
  lemma {:induction false} SplitJoin(ls: seq<Bytes>)
    requires |ls| >= 1 && forall l :: l in ls ==> Newline !in l
    ensures SplitLines(JoinLines(ls)) == ls
    decreases |ls|
  {
    if |ls| == 1 {
      SplitNoNewline(ls[0]);
    } else {
      assert ls[0] in ls;
      assert forall l :: l in ls[1..] ==> l in ls;
      SplitJoin(ls[1..]);
      SplitAfter(ls[0], JoinLines(ls[1..]));
      assert ls == [ls[0]] + ls[1..];
    }
  }

  /** Each line followed by a newline, the way the builder writes the normalised text. */
  function Terminated(ls: seq<Bytes>): Bytes
    decreases |ls|
  {
    if ls == [] then [] else ls[0] + [Newline] + Terminated(ls[1..])
  }

  lemma {:induction false} TerminatedAppend(a: seq<Bytes>, b: seq<Bytes>)
    ensures Terminated(a + b) == Terminated(a) + Terminated(b)
    decreases |a|
  {
    if a == [] {
      assert a + b == b;
    } else {
      assert (a + b)[1..] == a[1..] + b;
      TerminatedAppend(a[1..], b);
    }
  }

  /** Newline-terminated lines split into those lines and a final empty piece. */
  lemma {:induction false} SplitTerminated(ls: seq<Bytes>)
    requires forall l :: l in ls ==> Newline !in l
    ensures SplitLines(Terminated(ls)) == ls + [[]]
    decreases |ls|
  {
    if ls != [] {
      assert ls[0] in ls;
      assert forall l :: l in ls[1..] ==> l in ls;
      SplitTerminated(ls[1..]);
      SplitAfter(ls[0], Terminated(ls[1..]));
      assert ls == [ls[0]] + ls[1..];
    }
  }

  // ---------------------------------------------------------------------------
  // strings.TrimSpace, on ASCII white space

  /** Tab, newline, vertical tab, form feed, carriage return, space. */
  predicate IsSpace(b: uint8) {
    b == 32 || 9 <= b <= 13
  }

  /** The number of white-space bytes that start `s`. */
  function Leading(s: Bytes): (n: nat)
    ensures n <= |s|
    ensures n < |s| ==> !IsSpace(s[n])
    decreases |s|
  {
    if s == [] || !IsSpace(s[0]) then 0 else 1 + Leading(s[1..])
  }

  /** The number of white-space bytes that end `s`. */
  function Trailing(s: Bytes): (n: nat)
    ensures n <= |s|
    ensures n < |s| ==> !IsSpace(s[|s| - n - 1])
    decreases |s|
  {
    if s == [] || !IsSpace(s[|s| - 1]) then 0 else 1 + Trailing(s[..|s| - 1])
  }

  predicate AllSpace(s: Bytes) {
    forall i :: 0 <= i < |s| ==> IsSpace(s[i])
  }

  lemma {:induction false} LeadingSpace(s: Bytes)
    ensures AllSpace(s[..Leading(s)])
    decreases |s|
  {
    if s != [] && IsSpace(s[0]) {
      var t := s[1..];
      LeadingSpace(t);
      forall i | 0 <= i < Leading(s) ensures IsSpace(s[..Leading(s)][i]) {
        if i > 0 {
          assert s[..Leading(s)][i] == t[..Leading(t)][i - 1];
        }
      }
    }
  }

  lemma {:induction false} TrailingSpace(s: Bytes)
    ensures AllSpace(s[|s| - Trailing(s)..])
    decreases |s|
  {
    if s != [] && IsSpace(s[|s| - 1]) {
      var t := s[..|s| - 1];
      TrailingSpace(t);
      var lo := |s| - Trailing(s);
      assert lo == |t| - Trailing(t);
      forall i | 0 <= i < |s| - lo ensures IsSpace(s[lo..][i]) {
        if lo + i < |t| {
          assert s[lo..][i] == t[lo..][i];
        }
      }
    }
  }

  /** Neither end is white space. */
  predicate Trimmed(s: Bytes) {
    s == [] || (!IsSpace(s[0]) && !IsSpace(s[|s| - 1]))
  }

  /** strings.TrimSpace: `s` without its leading and trailing white space. */
  function TrimSpace(s: Bytes): (r: Bytes)
    ensures Trimmed(r)
  {
    var rest := s[Leading(s)..];
    rest[..|rest| - Trailing(rest)]
  }

  /** TrimSpace takes away white space at both ends and nothing else. */
  lemma TrimSpaceParts(s: Bytes)
    ensures exists pre, post :: AllSpace(pre) && AllSpace(post) && s == pre + TrimSpace(s) + post
  {
    var rest := s[Leading(s)..];
    LeadingSpace(s);
    TrailingSpace(rest);
    var pre, post := s[..Leading(s)], rest[|rest| - Trailing(rest)..];
    assert s == pre + TrimSpace(s) + post;
  }

  /** Trimming does not bring in a byte the line did not have. */
  lemma TrimSubset(s: Bytes)
    ensures forall b :: b in TrimSpace(s) ==> b in s
  {
    var rest := s[Leading(s)..];
    assert forall b :: b in TrimSpace(s) ==> b in rest;
  }

  /** Trimming trimmed text changes nothing; in particular TrimSpace is idempotent. */
  lemma TrimFixed(s: Bytes)
    requires Trimmed(s)
    ensures TrimSpace(s) == s
  {
  }

  lemma TrimIdempotent(s: Bytes)
    ensures TrimSpace(TrimSpace(s)) == TrimSpace(s)
  {
    TrimFixed(TrimSpace(s));
  }

  // ---------------------------------------------------------------------------
  // sort.Strings

  predicate SortedStrings(s: seq<Bytes>) {
    forall i, j :: 0 <= i < j < |s| ==> LexLe(s[i], s[j])
  }

  function Insert(x: Bytes, s: seq<Bytes>): (r: seq<Bytes>)
    ensures multiset(r) == multiset(s) + multiset{x}
  {
    if s == [] then [x]
    else if LexLe(x, s[0]) then [x] + s
    else
      assert s == [s[0]] + s[1..];
      [s[0]] + Insert(x, s[1..])
  }

  /** sort.Strings, as the ascending rearrangement of its argument. */
  function SortStrings(s: seq<Bytes>): (r: seq<Bytes>)
    ensures multiset(r) == multiset(s)
  {
    if s == [] then []
    else
      assert s == [s[0]] + s[1..];
      Insert(s[0], SortStrings(s[1..]))
  }

  lemma SortedTail(s: seq<Bytes>)
    requires s != [] && SortedStrings(s)
    ensures SortedStrings(s[1..])
  {
    forall i, j | 0 <= i < j < |s| - 1 ensures LexLe(s[1..][i], s[1..][j]) {
      assert s[1..][i] == s[i + 1] && s[1..][j] == s[j + 1];
    }
  }

  lemma {:induction false} InsertSorted(x: Bytes, s: seq<Bytes>)
    requires SortedStrings(s)
    ensures SortedStrings(Insert(x, s))
    decreases |s|
  {
    if s == [] {
    } else if LexLe(x, s[0]) {
      forall j | 0 <= j < |s| ensures LexLe(x, s[j]) {
        if j > 0 {
          LexLeTrans(x, s[0], s[j]);
        }
      }
      ConsSorted(x, s);
    } else {
      LexLeTotal(x, s[0]);
      var t := s[1..];
      SortedTail(s);
      InsertSorted(x, t);
      var u := Insert(x, t);
      forall j | 0 <= j < |u| ensures LexLe(s[0], u[j]) {
        assert u[j] in multiset(u);
        if u[j] != x {
          assert u[j] in multiset(t);
          var k :| 0 <= k < |t| && t[k] == u[j];
          assert s[k + 1] == t[k];
        }
      }
      ConsSorted(s[0], u);
    }
  }

  /** A name no greater than any of an ascending list's goes in front of it. */
  lemma ConsSorted(h: Bytes, u: seq<Bytes>)
    requires SortedStrings(u) && forall j :: 0 <= j < |u| ==> LexLe(h, u[j])
    ensures SortedStrings([h] + u)
  {
    var r := [h] + u;
    forall i, j | 0 <= i < j < |r| ensures LexLe(r[i], r[j]) {
      assert r[j] == u[j - 1];
      if i > 0 {
        assert r[i] == u[i - 1];
      }
    }
  }

  /** sort.Strings leaves its argument in ascending order. */
  lemma {:induction false} SortStringsSorted(s: seq<Bytes>)
    ensures SortedStrings(SortStrings(s))
    decreases |s|
  {
    if s != [] {
      SortStringsSorted(s[1..]);
      InsertSorted(s[0], SortStrings(s[1..]));
    }
  }

  /** The head of a sorted list comes before every element of it. */
  lemma HeadLeast(s: seq<Bytes>, x: Bytes)
    requires s != [] && SortedStrings(s) && x in s
    ensures LexLe(s[0], x)
  {
    var k :| 0 <= k < |s| && s[k] == x;
    if k == 0 {
      LexLeRefl(x);
    }
  }

  /** Two ascending lists with the same elements, counted with multiplicity, are equal. */
  lemma MultisetTail(a: seq<Bytes>)
    requires a != []
    ensures multiset(a[1..]) == multiset(a) - multiset{a[0]}
  {
    assert a == [a[0]] + a[1..];
  }

  lemma SameHeadTail(a: seq<Bytes>, b: seq<Bytes>)
    requires a != [] && b != [] && a[0] == b[0] && a[1..] == b[1..]
    ensures a == b
  {
    assert a == [a[0]] + a[1..] && b == [b[0]] + b[1..];
  }

  lemma {:induction false} SortedUnique(a: seq<Bytes>, b: seq<Bytes>)
    requires SortedStrings(a) && SortedStrings(b) && multiset(a) == multiset(b)
    ensures a == b
    decreases |a|
  {
    if a == [] || b == [] {
      assert |a| == |multiset(a)| == |multiset(b)| == |b|;
    } else {
      assert a[0] in multiset(b) && b[0] in multiset(a);
      HeadLeast(b, a[0]);
      HeadLeast(a, b[0]);
      LexLeAntisym(a[0], b[0]);
      MultisetTail(a);
      MultisetTail(b);
      SortedTail(a);
      SortedTail(b);
      SortedUnique(a[1..], b[1..]);
      SameHeadTail(a, b);
    }
  }

  /** The sorted list depends on the multiset of strings only, not on their order. */
  lemma SortOrderFree(s: seq<Bytes>, t: seq<Bytes>)
    requires multiset(s) == multiset(t)
    ensures SortStrings(s) == SortStrings(t)
  {
    SortStringsSorted(s);
    SortStringsSorted(t);
    SortedUnique(SortStrings(s), SortStrings(t));
  }

  /** Sorting sorted strings changes nothing. */
  lemma SortIdempotent(s: seq<Bytes>)
    ensures SortStrings(SortStrings(s)) == SortStrings(s)
  {
    SortOrderFree(SortStrings(s), s);
  }

  /** A list holding some string twice counts it at least twice. */
  lemma RepeatCounted(r: seq<Bytes>, i: nat, j: nat)
    requires i < j < |r| && r[i] == r[j]
    ensures multiset(r)[r[i]] >= 2
  {
    assert r == r[..j] + r[j..];
    assert r[i] in r[..j];
    assert r[j] == r[j..][0];
  }

  /** Sorting the names of a set, listed once each in any order, gives the set in ascending order. */
  lemma SortSetNames(names: seq<Bytes>, s: set<Bytes>)
    requires multiset(names) == multiset(s)
    ensures SortStrings(names) == Sorted(s)
  {
    var r := SortStrings(names);
    SortStringsSorted(names);
    forall i, j | 0 <= i < j < |r| ensures LexLe(r[i], r[j]) && r[i] != r[j] {
      if r[i] == r[j] {
        RepeatCounted(r, i, j);
      }
    }
    forall p ensures p in r <==> p in s {
      assert p in r <==> p in multiset(r);
    }
    AscendingUnique(r, s);
  }

  // ---------------------------------------------------------------------------
  // Grouping lines into sections

  /** A trimmed line that starts with `[` and ends with `]`. */
  predicate IsHeader(l: Bytes) {
    |l| > 0 && l[0] == LBracket && l[|l| - 1] == RBracket
  }

  /** A raw line the normaliser takes as a section header. */
  predicate IsHeaderLine(l: Bytes) {
    IsHeader(TrimSpace(l))
  }

  /** A raw line the normaliser takes as a property: not blank and not a header. */
  predicate IsProperty(l: Bytes) {
    TrimSpace(l) != [] && !IsHeaderLine(l)
  }

  /**
   * The sections read so far (header to properties, in input order) and the
   * header of the open section, which is empty before the first header.
   */
  datatype Grouping = Grouping(sections: map<Bytes, seq<Bytes>>, current: Bytes)

  const Start := Grouping(map[], [])

  /** A Go map read: the stored list, or the empty one for a missing key. */
  function Get(m: map<Bytes, seq<Bytes>>, k: Bytes): seq<Bytes> {
    if k in m then m[k] else []
  }

  /**
   * One line: blank lines are skipped; a header opens its section, creating
   * it only if it is new; a property joins the open section, and is dropped
   * when no section is open yet.
   */
  function Step(g: Grouping, line: Bytes): Grouping {
    var l := TrimSpace(line);
    if l == [] then g
    else if IsHeader(l) then Grouping(if l in g.sections then g.sections else g.sections[l := []], l)
    else if g.current != [] then Grouping(g.sections[g.current := Get(g.sections, g.current) + [l]], g.current)
    else g
  }

  /** A property line under an open section is appended to it, trimmed. */
  lemma PropertyStep(g: Grouping, l: Bytes)
    requires IsProperty(l) && g.current != []
    ensures Step(g, l) == Grouping(g.sections[g.current := Get(g.sections, g.current) + [TrimSpace(l)]], g.current)
  {
  }

  /** A header line opens its section, keeping what the section already holds. */
  lemma HeaderStep(g: Grouping, h: Bytes)
    requires IsHeaderLine(h)
    ensures Step(g, h).current == TrimSpace(h)
    ensures Step(g, h).sections == g.sections[TrimSpace(h) := Get(g.sections, TrimSpace(h))]
  {
    var k := TrimSpace(h);
    if k in g.sections {
      assert g.sections[k := g.sections[k]] == g.sections;
    }
  }

  function GroupFrom(g: Grouping, lines: seq<Bytes>): Grouping
    decreases |lines|
  {
    if lines == [] then g else GroupFrom(Step(g, lines[0]), lines[1..])
  }

  function Sections(lines: seq<Bytes>): map<Bytes, seq<Bytes>> {
    GroupFrom(Start, lines).sections
  }

  /** Grouping runs line by line, so it can be cut anywhere. */
  lemma {:induction false} GroupConcat(g: Grouping, a: seq<Bytes>, b: seq<Bytes>)
    ensures GroupFrom(g, a + b) == GroupFrom(GroupFrom(g, a), b)
    decreases |a|
  {
    if a == [] {
      assert a + b == b;
    } else {
      assert (a + b)[1..] == a[1..] + b;
      GroupConcat(Step(g, a[0]), a[1..], b);
    }
  }

  lemma GroupAdvance(g: Grouping, lines: seq<Bytes>, i: nat)
    requires i < |lines|
    ensures GroupFrom(g, lines[i..]) == GroupFrom(Step(g, lines[i]), lines[i + 1..])
  {
    assert lines[i..][1..] == lines[i + 1..];
  }

  // ---------------------------------------------------------------------------
  // Rendering

  /** One section as output lines: its header, its properties ascending, an empty line. */
  function Block(name: Bytes, props: seq<Bytes>): seq<Bytes> {
    [name] + SortStrings(props) + [[]]
  }

  /** The sections named in `names`, one block each, in that order. */
  function RenderLines(names: seq<Bytes>, m: map<Bytes, seq<Bytes>>): seq<Bytes>
    requires forall n :: n in names ==> n in m
  {
    if names == [] then []
    else RenderLines(names[..|names| - 1], m) + Block(names[|names| - 1], m[names[|names| - 1]])
  }

  /** The output for a given set of sections: every section, ascending by header. */
  ghost function Render(m: map<Bytes, seq<Bytes>>): Bytes {
    SortedAscending(m.Keys);
    Terminated(RenderLines(Sorted(m.Keys), m))
  }

  ghost function NormalizeLines(lines: seq<Bytes>): Bytes {
    Render(Sections(lines))
  }

  /** What normalizeSystemdUnitContent returns. */
  ghost function Normalized(content: Bytes): Bytes {
    NormalizeLines(SplitLines(content))
  }

  lemma TerminatedBlock(name: Bytes, props: seq<Bytes>)
    ensures Terminated(Block(name, props)) == name + [Newline] + Terminated(SortStrings(props)) + [Newline]
  {
    var sorted := SortStrings(props);
    var blank: seq<Bytes> := [[]];
    assert Block(name, props) == [name] + (sorted + blank);
    TerminatedAppend([name], sorted + blank);
    TerminatedAppend(sorted, blank);
    TerminatedOne(name);
    TerminatedOne([]);
    Regroup(name + [Newline], Terminated(sorted), [Newline]);
  }

  lemma TerminatedOne(l: Bytes)
    ensures Terminated([l]) == l + [Newline]
  {
    assert [l][1..] == [];
  }

  lemma Regroup(a: Bytes, b: Bytes, c: Bytes)
    ensures a + (b + c) == a + b + c
  {
  }

  // ---------------------------------------------------------------------------
  // normalizeSystemdUnitContent

  /** The grouping loop: every line in turn, trimmed and classified. */
  method GroupLines(lines: seq<Bytes>) returns (sections: map<Bytes, seq<Bytes>>)
    ensures sections == Sections(lines)
  {
    sections := map[];
    var currentSection: Bytes := [];
    for i := 0 to |lines|
      invariant GroupFrom(Start, lines) == GroupFrom(Grouping(sections, currentSection), lines[i..])
    {
      GroupAdvance(Grouping(sections, currentSection), lines, i);
      ghost var before := Grouping(sections, currentSection);
      var line := TrimSpace(lines[i]);
      if line != [] {
        if IsHeader(line) {
          currentSection := line;
          if currentSection !in sections {
            sections := sections[currentSection := []];
          }
        } else if currentSection != [] {
          sections := sections[currentSection := Get(sections, currentSection) + [line]];
        }
      }
      assert Grouping(sections, currentSection) == Step(before, lines[i]);
    }
    assert lines[|lines|..] == [];
  }

  lemma TerminatedSnocBlock(before: seq<Bytes>, name: Bytes, props: seq<Bytes>)
    ensures Terminated(before + Block(name, props))
         == Terminated(before) + name + [Newline] + Terminated(SortStrings(props)) + [Newline]
  {
    TerminatedAppend(before, Block(name, props));
    TerminatedBlock(name, props);
    Regroup(Terminated(before), name + [Newline] + Terminated(SortStrings(props)), [Newline]);
    Regroup(Terminated(before), name + [Newline], Terminated(SortStrings(props)));
    Regroup(Terminated(before), name, [Newline]);
  }

  /** One more section appends its header line, its property lines and an empty line. */
  lemma RenderStep(names: seq<Bytes>, m: map<Bytes, seq<Bytes>>, k: nat)
    requires forall n :: n in names ==> n in m
    requires k < |names|
    ensures Terminated(RenderLines(names[..k + 1], m))
         == Terminated(RenderLines(names[..k], m)) + names[k] + [Newline] + Terminated(SortStrings(m[names[k]])) + [Newline]
  {
    assert names[..k + 1][..k] == names[..k];
    assert RenderLines(names[..k + 1], m) == RenderLines(names[..k], m) + Block(names[k], m[names[k]]);
    TerminatedSnocBlock(RenderLines(names[..k], m), names[k], m[names[k]]);
  }

  /** Writes each line followed by a newline onto the builder's contents. */
  method WriteLines(prefix: Bytes, lines: seq<Bytes>) returns (out: Bytes)
    ensures out == prefix + Terminated(lines)
  {
    out := prefix;
    for j := 0 to |lines|
      invariant out == prefix + Terminated(lines[..j])
    {
      assert lines[..j + 1] == lines[..j] + [lines[j]];
      TerminatedAppend(lines[..j], [lines[j]]);
      assert Terminated([lines[j]]) == lines[j] + [Newline];
      out := out + (lines[j] + [Newline]);
    }
    assert lines[..|lines|] == lines;
  }

  /** The builder loop: each section's header, its sorted properties, then an empty line. */
  method RenderSections(names: seq<Bytes>, sections: map<Bytes, seq<Bytes>>) returns (normalized: Bytes)
    requires forall n :: n in names ==> n in sections
    ensures normalized == Terminated(RenderLines(names, sections))
  {
    normalized := [];
    for k := 0 to |names|
      invariant normalized == Terminated(RenderLines(names[..k], sections))
    {
      var section := names[k];
      RenderStep(names, sections, k);
      var properties := SortStrings(sections[section]);
      normalized := WriteLines(normalized + section + [Newline], properties);
      normalized := normalized + [Newline];
    }
    assert names[..|names|] == names;
  }

  /**
   * normalizeSystemdUnitContent: groups the lines into sections, lists the
   * headers in map order, sorts them, and writes every section out with its
   * properties sorted.
   */
  method NormalizeSystemdUnitContent(content: Bytes) returns (normalized: Bytes)
    ensures normalized == Normalized(content)
  {
    var lines := SplitLines(content);
    var sections := GroupLines(lines);
    var sectionNames: seq<Bytes> := [];
    var rest := sections.Keys;
    while rest != {}
      invariant rest <= sections.Keys
      invariant multiset(sectionNames) + multiset(rest) == multiset(sections.Keys)
      decreases |rest|
    {
      // Go visits map keys in no fixed order
      var section :| section in rest;
      sectionNames := sectionNames + [section];
      rest := rest - {section};
    }
    SortSetNames(sectionNames, sections.Keys);
    sectionNames := SortStrings(sectionNames);
    SortedAscending(sections.Keys);
    normalized := RenderSections(sectionNames, sections);
  }

  // ---------------------------------------------------------------------------
  // Properties of the normaliser

  lemma {:induction false} GroupNoHeaders(lines: seq<Bytes>)
    requires forall l :: l in lines ==> !IsHeaderLine(l)
    ensures GroupFrom(Start, lines) == Start
    decreases |lines|
  {
    if lines != [] {
      assert lines[0] in lines;
      assert forall l :: l in lines[1..] ==> l in lines;
      GroupNoHeaders(lines[1..]);
    }
  }

  /** Text without a single header line normalises to the empty string. */
  lemma NoHeadersEmpty(content: Bytes)
    requires forall l :: l in SplitLines(content) ==> !IsHeaderLine(l)
    ensures Normalized(content) == []
  {
    GroupNoHeaders(SplitLines(content));
    assert Start.sections.Keys == {};
  }

  /** Properties before the first header are dropped. */
  lemma LeadingPropertiesDropped(pre: seq<Bytes>, rest: seq<Bytes>)
    requires forall l :: l in pre ==> !IsHeaderLine(l)
    ensures NormalizeLines(pre + rest) == NormalizeLines(rest)
  {
    GroupConcat(Start, pre, rest);
    GroupNoHeaders(pre);
  }

  /** The open section, if any, is one of the sections: a property never creates one. */
  predicate CurrentOpen(g: Grouping) {
    g.current == [] || g.current in g.sections
  }

  lemma StepKeys(g: Grouping, l: Bytes, k: Bytes)
    requires CurrentOpen(g)
    ensures CurrentOpen(Step(g, l))
    ensures k in Step(g, l).sections <==> k in g.sections || (IsHeaderLine(l) && TrimSpace(l) == k)
  {
  }

  /**
   * The sections are exactly the trimmed header lines: a header with no
   * properties still has a section, and a repeated header has only one.
   */
  lemma {:induction false} SectionKeys(g: Grouping, lines: seq<Bytes>, k: Bytes)
    requires CurrentOpen(g)
    ensures k in GroupFrom(g, lines).sections
        <==> k in g.sections || exists l :: l in lines && IsHeaderLine(l) && TrimSpace(l) == k
    decreases |lines|
  {
    if lines != [] {
      StepKeys(g, lines[0], k);
      SectionKeys(Step(g, lines[0]), lines[1..], k);
      assert forall l :: l in lines <==> l == lines[0] || l in lines[1..];
    }
  }

  // --- order does not matter

  /** The same sections, each with the same properties counted with multiplicity. */
  predicate SameSections(m1: map<Bytes, seq<Bytes>>, m2: map<Bytes, seq<Bytes>>) {
    m1.Keys == m2.Keys && forall k :: k in m1 ==> multiset(m1[k]) == multiset(m2[k])
  }

  predicate Agree(g1: Grouping, g2: Grouping) {
    g1.current == g2.current && SameSections(g1.sections, g2.sections)
  }

  lemma StepAgrees(g1: Grouping, g2: Grouping, l: Bytes)
    requires Agree(g1, g2)
    ensures Agree(Step(g1, l), Step(g2, l))
  {
  }

  lemma {:induction false} GroupAgrees(g1: Grouping, g2: Grouping, lines: seq<Bytes>)
    requires Agree(g1, g2)
    ensures Agree(GroupFrom(g1, lines), GroupFrom(g2, lines))
    decreases |lines|
  {
    if lines != [] {
      StepAgrees(g1, g2, lines[0]);
      GroupAgrees(Step(g1, lines[0]), Step(g2, lines[0]), lines[1..]);
    }
  }

  lemma {:induction false} RenderLinesCongruent(names: seq<Bytes>, m1: map<Bytes, seq<Bytes>>, m2: map<Bytes, seq<Bytes>>)
    requires forall n :: n in names ==> n in m1 && n in m2 && SortStrings(m1[n]) == SortStrings(m2[n])
    ensures RenderLines(names, m1) == RenderLines(names, m2)
    decreases |names|
  {
    if names != [] {
      var init := names[..|names| - 1];
      assert forall n :: n in init ==> n in names;
      assert names[|names| - 1] in names;
      RenderLinesCongruent(init, m1, m2);
    }
  }

  /** The output depends on which sections there are and which properties each holds, not on their order. */
  lemma RenderOrderFree(m1: map<Bytes, seq<Bytes>>, m2: map<Bytes, seq<Bytes>>)
    requires SameSections(m1, m2)
    ensures Render(m1) == Render(m2)
  {
    SortedAscending(m1.Keys);
    var names := Sorted(m1.Keys);
    forall n | n in names ensures SortStrings(m1[n]) == SortStrings(m2[n]) {
      SortOrderFree(m1[n], m2[n]);
    }
    RenderLinesCongruent(names, m1, m2);
  }

  lemma SwapAgrees(g: Grouping, a: Bytes, b: Bytes)
    requires IsProperty(a) && IsProperty(b)
    ensures Agree(Step(Step(g, a), b), Step(Step(g, b), a))
  {
    if g.current != [] {
      var c, m := g.current, g.sections;
      var x, y := TrimSpace(a), TrimSpace(b);
      PropertyStep(g, a);
      PropertyStep(Grouping(m[c := Get(m, c) + [x]], c), b);
      PropertyStep(g, b);
      PropertyStep(Grouping(m[c := Get(m, c) + [y]], c), a);
    }
  }

  /** Grouping the lines before, inside and after some stretch of the input, one after the other. */
  lemma GroupThree(pre: seq<Bytes>, mid: seq<Bytes>, post: seq<Bytes>)
    ensures Sections(pre + mid + post) == GroupFrom(GroupFrom(GroupFrom(Start, pre), mid), post).sections
  {
    assert pre + mid + post == pre + (mid + post);
    GroupConcat(Start, pre, mid + post);
    GroupConcat(GroupFrom(Start, pre), mid, post);
  }

  lemma GroupPair(g: Grouping, a: Bytes, b: Bytes)
    ensures GroupFrom(g, [a, b]) == Step(Step(g, a), b)
  {
    var ab: seq<Bytes> := [a, b];
    assert ab[0] == a && ab[1..] == [b];
    assert GroupFrom(g, ab) == GroupFrom(Step(g, a), [b]);
    var bs: seq<Bytes> := [b];
    assert bs[0] == b && bs[1..] == [];
    assert GroupFrom(Step(g, a), bs) == GroupFrom(Step(Step(g, a), b), []);
  }

  /** Swapping two neighbouring property lines does not change the output. */
  lemma PropertiesCommute(pre: seq<Bytes>, a: Bytes, b: Bytes, post: seq<Bytes>)
    requires IsProperty(a) && IsProperty(b)
    ensures NormalizeLines(pre + [a, b] + post) == NormalizeLines(pre + [b, a] + post)
  {
    var g := GroupFrom(Start, pre);
    GroupThree(pre, [a, b], post);
    GroupThree(pre, [b, a], post);
    GroupPair(g, a, b);
    GroupPair(g, b, a);
    SwapAgrees(g, a, b);
    var g1, g2 := GroupFrom(g, [a, b]), GroupFrom(g, [b, a]);
    GroupAgrees(g1, g2, post);
    RenderOrderFree(GroupFrom(g1, post).sections, GroupFrom(g2, post).sections);
  }

  predicate AllProperties(ps: seq<Bytes>) {
    forall p :: p in ps ==> IsProperty(p)
  }

  function Trims(ps: seq<Bytes>): seq<Bytes>
    decreases |ps|
  {
    if ps == [] then [] else [TrimSpace(ps[0])] + Trims(ps[1..])
  }

  /** Property lines under an open section are appended to it, trimmed, in order. */
  lemma {:induction false} AppendProperties(m: map<Bytes, seq<Bytes>>, c: Bytes, ps: seq<Bytes>)
    requires c != [] && c in m && AllProperties(ps)
    ensures GroupFrom(Grouping(m, c), ps) == Grouping(m[c := m[c] + Trims(ps)], c)
    decreases |ps|
  {
    if ps == [] {
      assert m[c] + [] == m[c];
      assert m[c := m[c]] == m;
    } else {
      var t, rest := TrimSpace(ps[0]), ps[1..];
      var m1 := m[c := m[c] + [t]];
      assert ps[0] in ps;
      PropertyStep(Grouping(m, c), ps[0]);
      assert GroupFrom(Grouping(m, c), ps) == GroupFrom(Grouping(m1, c), rest);
      assert AllProperties(rest) by {
        forall p | p in rest ensures IsProperty(p) {
          assert p in ps;
        }
      }
      AppendProperties(m1, c, rest);
      assert Trims(ps) == [t] + Trims(rest);
      assert m1[c] + Trims(rest) == m[c] + Trims(ps);
      assert m1[c := m1[c] + Trims(rest)] == m[c := m[c] + Trims(ps)];
    }
  }

  /** A header line followed by property lines: the section gains those properties and stays open. */
  lemma BlockGroup(m: map<Bytes, seq<Bytes>>, c: Bytes, h: Bytes, ps: seq<Bytes>)
    requires IsHeaderLine(h) && AllProperties(ps)
    ensures GroupFrom(Grouping(m, c), [h] + ps)
         == Grouping(m[TrimSpace(h) := Get(m, TrimSpace(h)) + Trims(ps)], TrimSpace(h))
  {
    var k := TrimSpace(h);
    var m1 := m[k := Get(m, k)];
    assert ([h] + ps)[1..] == ps;
    HeaderStep(Grouping(m, c), h);
    AppendProperties(m1, k, ps);
  }

  /** Two sections in a row: the second is added on top of the first. */
  lemma TwoBlocks(g: Grouping, h1: Bytes, p1: seq<Bytes>, h2: Bytes, p2: seq<Bytes>)
    requires IsHeaderLine(h1) && IsHeaderLine(h2) && AllProperties(p1) && AllProperties(p2)
    ensures var m1 := g.sections[TrimSpace(h1) := Get(g.sections, TrimSpace(h1)) + Trims(p1)];
      GroupFrom(g, [h1] + p1 + ([h2] + p2)).sections == m1[TrimSpace(h2) := Get(m1, TrimSpace(h2)) + Trims(p2)]
  {
    GroupConcat(g, [h1] + p1, [h2] + p2);
    BlockGroup(g.sections, g.current, h1, p1);
    var m1 := g.sections[TrimSpace(h1) := Get(g.sections, TrimSpace(h1)) + Trims(p1)];
    BlockGroup(m1, TrimSpace(h1), h2, p2);
  }

  /** Adding properties to two sections commutes, up to the order of properties within one section. */
  lemma AppendsCommute(m: map<Bytes, seq<Bytes>>, k1: Bytes, t1: seq<Bytes>, k2: Bytes, t2: seq<Bytes>)
    ensures var m1, m2 := m[k1 := Get(m, k1) + t1], m[k2 := Get(m, k2) + t2];
      SameSections(m1[k2 := Get(m1, k2) + t2], m2[k1 := Get(m2, k1) + t1])
  {
    var m1, m2 := m[k1 := Get(m, k1) + t1], m[k2 := Get(m, k2) + t2];
    var r1, r2 := m1[k2 := Get(m1, k2) + t2], m2[k1 := Get(m2, k1) + t1];
    if k1 == k2 {
      var base := Get(m, k1);
      assert Get(m1, k2) == base + t1;
      assert Get(m2, k1) == base + t2;
      assert multiset(base + t1 + t2) == multiset(base + t2 + t1);
    } else {
      assert Get(m1, k2) == Get(m, k2);
      assert Get(m2, k1) == Get(m, k1);
      assert r1 == r2;
    }
  }

  /** Two sections, each a header line and its properties, give the same sections in either order. */
  lemma BlocksCommute(g: Grouping, h1: Bytes, p1: seq<Bytes>, h2: Bytes, p2: seq<Bytes>)
    requires IsHeaderLine(h1) && IsHeaderLine(h2) && AllProperties(p1) && AllProperties(p2)
    ensures SameSections(GroupFrom(g, [h1] + p1 + ([h2] + p2)).sections,
                         GroupFrom(g, [h2] + p2 + ([h1] + p1)).sections)
  {
    TwoBlocks(g, h1, p1, h2, p2);
    TwoBlocks(g, h2, p2, h1, p1);
    AppendsCommute(g.sections, TrimSpace(h1), Trims(p1), TrimSpace(h2), Trims(p2));
  }

  /**
   * Swapping two neighbouring sections does not change the output, as long
   * as what follows them starts a new section (or is the end), so that no
   * stray property changes owner.
   */
  lemma SectionsCommute(pre: seq<Bytes>, h1: Bytes, p1: seq<Bytes>, h2: Bytes, p2: seq<Bytes>, post: seq<Bytes>)
    requires IsHeaderLine(h1) && IsHeaderLine(h2) && AllProperties(p1) && AllProperties(p2)
    requires post == [] || IsHeaderLine(post[0])
    ensures NormalizeLines(pre + ([h1] + p1) + ([h2] + p2) + post)
         == NormalizeLines(pre + ([h2] + p2) + ([h1] + p1) + post)
  {
    var x, y := [h1] + p1, [h2] + p2;
    var g := GroupFrom(Start, pre);
    assert pre + x + y + post == pre + (x + y) + post;
    assert pre + y + x + post == pre + (y + x) + post;
    GroupThree(pre, x + y, post);
    GroupThree(pre, y + x, post);
    var gxy, gyx := GroupFrom(g, x + y), GroupFrom(g, y + x);
    BlocksCommute(g, h1, p1, h2, p2);
    if post == [] {
      RenderOrderFree(gxy.sections, gyx.sections);
    } else {
      HeaderAgrees(gxy, gyx, post[0]);
      GroupAgrees(Step(gxy, post[0]), Step(gyx, post[0]), post[1..]);
      RenderOrderFree(GroupFrom(gxy, post).sections, GroupFrom(gyx, post).sections);
    }
  }

  /** A header line puts two groupings with the same sections back in step. */
  lemma HeaderAgrees(g1: Grouping, g2: Grouping, h: Bytes)
    requires SameSections(g1.sections, g2.sections) && IsHeaderLine(h)
    ensures Agree(Step(g1, h), Step(g2, h))
  {
    HeaderStep(g1, h);
    HeaderStep(g2, h);
  }

  // --- normalising twice

  /** Trimmed and free of newlines. */
  predicate Tidy(l: Bytes) {
    Trimmed(l) && Newline !in l
  }

  /** What grouping can produce: clean header keys holding clean, non-blank, non-header properties. */
  predicate WellFormed(m: map<Bytes, seq<Bytes>>) {
    forall k :: k in m ==> IsHeader(k) && Tidy(k) && forall p :: p in m[k] ==> p != [] && !IsHeader(p) && Tidy(p)
  }

  predicate Reachable(g: Grouping) {
    WellFormed(g.sections) && (g.current == [] || g.current in g.sections)
  }

  lemma StepReachable(g: Grouping, l: Bytes)
    requires Reachable(g) && Newline !in l
    ensures Reachable(Step(g, l))
  {
    TrimSubset(l);
  }

  lemma {:induction false} GroupReachable(g: Grouping, lines: seq<Bytes>)
    requires Reachable(g) && forall l :: l in lines ==> Newline !in l
    ensures Reachable(GroupFrom(g, lines))
    decreases |lines|
  {
    if lines != [] {
      assert lines[0] in lines;
      assert forall l :: l in lines[1..] ==> l in lines;
      StepReachable(g, lines[0]);
      GroupReachable(Step(g, lines[0]), lines[1..]);
    }
  }

  /** The sections `names` contributes when its rendered lines are grouped on top of `acc`. */
  function Expected(acc: map<Bytes, seq<Bytes>>, names: seq<Bytes>, m: map<Bytes, seq<Bytes>>)
    : (r: map<Bytes, seq<Bytes>>)
    requires forall n :: n in names ==> n in m
    ensures forall k :: k in r <==> k in acc || k in names
    ensures forall k :: k in names ==> r[k] == SortStrings(m[k])
    ensures forall k :: k in acc && k !in names ==> r[k] == acc[k]
    decreases |names|
  {
    if names == [] then acc
    else
      var init, last := names[..|names| - 1], names[|names| - 1];
      assert forall k :: k in names <==> k in init || k == last;
      Expected(acc, init, m)[last := SortStrings(m[last])]
  }

  lemma {:induction false} TrimsFixed(ps: seq<Bytes>)
    requires forall p :: p in ps ==> Trimmed(p)
    ensures Trims(ps) == ps
    decreases |ps|
  {
    if ps != [] {
      assert ps[0] in ps;
      assert forall p :: p in ps[1..] ==> p in ps;
      TrimFixed(ps[0]);
      TrimsFixed(ps[1..]);
      assert ps == [ps[0]] + ps[1..];
    }
  }

  /** An empty line changes nothing. */
  lemma BlankLine(g: Grouping)
    ensures GroupFrom(g, [[]]) == g
  {
    var blank: seq<Bytes> := [[]];
    assert blank[1..] == [];
    assert TrimSpace(blank[0]) == [];
  }

  /** The properties of a well-formed section, sorted, are clean property lines. */
  lemma SortedTidy(props: seq<Bytes>)
    requires forall p :: p in props ==> p != [] && !IsHeader(p) && Tidy(p)
    ensures AllProperties(SortStrings(props)) && Trims(SortStrings(props)) == SortStrings(props)
  {
    var sorted := SortStrings(props);
    forall p | p in sorted ensures Trimmed(p) && IsProperty(p) {
      assert p in multiset(props);
      assert p in props;
      TrimFixed(p);
    }
    TrimsFixed(sorted);
  }

  /** Grouping the rendered lines of one new section adds exactly that section, its properties sorted. */
  lemma RenderedBlock(g: Grouping, k: Bytes, props: seq<Bytes>)
    requires IsHeader(k) && Tidy(k) && k !in g.sections
    requires forall p :: p in props ==> p != [] && !IsHeader(p) && Tidy(p)
    ensures GroupFrom(g, Block(k, props)).sections == g.sections[k := SortStrings(props)]
  {
    var sorted := SortStrings(props);
    SortedTidy(props);
    TrimFixed(k);
    BlockGroup(g.sections, g.current, k, sorted);
    var g1 := GroupFrom(g, [k] + sorted);
    assert TrimSpace(k) == k;
    assert Get(g.sections, k) + Trims(sorted) == sorted;
    assert g1.sections == g.sections[k := sorted];
    GroupConcat(g, [k] + sorted, [[]]);
    BlankLine(g1);
  }

  lemma {:induction false} RenderGroup(g: Grouping, names: seq<Bytes>, m: map<Bytes, seq<Bytes>>)
    requires WellFormed(m)
    requires forall n :: n in names ==> n in m && n !in g.sections
    requires forall i, j :: 0 <= i < j < |names| ==> names[i] != names[j]
    ensures GroupFrom(g, RenderLines(names, m)).sections == Expected(g.sections, names, m)
    decreases |names|
  {
    if names != [] {
      var n := |names| - 1;
      var init, last := names[..n], names[n];
      assert forall x :: x in init ==> x in names;
      assert last in names && last !in init;
      RenderGroup(g, init, m);
      GroupConcat(g, RenderLines(init, m), Block(last, m[last]));
      RenderedBlock(GroupFrom(g, RenderLines(init, m)), last, m[last]);
    }
  }

  lemma {:induction false} RenderTidy(names: seq<Bytes>, m: map<Bytes, seq<Bytes>>)
    requires WellFormed(m) && forall n :: n in names ==> n in m
    ensures forall l :: l in RenderLines(names, m) ==> Newline !in l
    decreases |names|
  {
    if names != [] {
      var init, last := names[..|names| - 1], names[|names| - 1];
      assert forall x :: x in init ==> x in names;
      assert last in names;
      RenderTidy(init, m);
      var sorted := SortStrings(m[last]);
      assert RenderLines(names, m) == RenderLines(init, m) + ([last] + sorted + [[]]);
      assert IsHeader(last) && Tidy(last);
      forall l | l in RenderLines(names, m) ensures Newline !in l {
        if l !in RenderLines(init, m) && l != last && l != [] {
          assert l in sorted;
          assert l in multiset(m[last]);
          assert l in m[last];
        }
      }
    }
  }

  lemma RenderedGroups(m: map<Bytes, seq<Bytes>>)
    requires WellFormed(m)
    ensures forall n :: n in Sorted(m.Keys) <==> n in m
    ensures Sections(SplitLines(Render(m))) == Expected(map[], Sorted(m.Keys), m)
  {
    SortedAscending(m.Keys);
    var names := Sorted(m.Keys);
    var rendered := RenderLines(names, m);
    RenderTidy(names, m);
    SplitTerminated(rendered);
    GroupConcat(Start, rendered, [[]]);
    BlankLine(GroupFrom(Start, rendered));
    RenderGroup(Start, names, m);
  }

  /** Reading rendered text back gives the same sections, each with its properties sorted. */
  lemma RenderedSections(m: map<Bytes, seq<Bytes>>)
    requires WellFormed(m)
    ensures SameSections(Sections(SplitLines(Render(m))), m)
  {
    RenderedGroups(m);
    SortedAscending(m.Keys);
    var m2 := Expected(map[], Sorted(m.Keys), m);
    assert m2.Keys == m.Keys;
  }

  /** Normalising normalised text returns it unchanged. */
  lemma NormalizeIdempotent(content: Bytes)
    ensures Normalized(Normalized(content)) == Normalized(content)
  {
    GroupReachable(Start, SplitLines(content));
    var m := Sections(SplitLines(content));
    RenderedSections(m);
    RenderOrderFree(Sections(SplitLines(Render(m))), m);
  }

  // ---------------------------------------------------------------------------
  // CompareWithGoldenFile

  const GoldenExt: Bytes := [46, 103, 111, 108, 100, 101, 110]                    // ".golden"
  const ServiceGolden: Bytes := [46, 115, 101, 114, 118, 105, 99, 101] + GoldenExt  // ".service.golden"
  const TimerGolden: Bytes := [46, 116, 105, 109, 101, 114] + GoldenExt             // ".timer.golden"
  const TargetGolden: Bytes := [46, 116, 97, 114, 103, 101, 116] + GoldenExt        // ".target.golden"

  /** The golden files compared as systemd units. */
  predicate IsUnitGolden(p: Path) {
    HasSuffix(p, ServiceGolden) || HasSuffix(p, TimerGolden) || HasSuffix(p, TargetGolden)
  }

  /**
   * What CompareWithGoldenFile returns and leaves behind: with `update` the
   * golden file is overwritten and the answer is yes, unless the path names
   * no regular file (os.WriteFile fails, so no); a golden file that cannot
   * be read fails; unit files are compared after normalising both sides,
   * every other file byte for byte.
   */
  ghost function CompareSpec(fs: FileSystem, goldenPath: Path, actual: Bytes, update: bool): (bool, FileSystem) {
    if update then
      match FileKey(goldenPath)
      case None => (false, fs)
      case Some(key) => (true, fs[key := actual])
    else
      match ReadAt(fs, goldenPath)
      case None => (false, fs)
      case Some(expected) =>
        if IsUnitGolden(goldenPath) then (Normalized(expected) == Normalized(actual), fs)
        else (expected == actual, fs)
  }

  method CompareWithGoldenFile(fs: FileSystem, goldenPath: Path, actual: Bytes, update: bool)
    returns (matches: bool, fs': FileSystem)
    ensures (matches, fs') == CompareSpec(fs, goldenPath, actual, update)
  {
    fs' := fs;
    if update {
      var key := FileKey(goldenPath);
      if key.None? {
        return false, fs';
      }
      fs' := fs[key.value := actual];
      return true, fs';
    }
    var golden := ReadAt(fs, goldenPath);
    if golden.None? {
      return false, fs';
    }
    var expected := golden.value;
    if IsUnitGolden(goldenPath) {
      var normalizedExpected := NormalizeSystemdUnitContent(expected);
      var normalizedActual := NormalizeSystemdUnitContent(actual);
      return normalizedExpected == normalizedActual, fs';
    }
    return expected == actual, fs';
  }

  /**
   * After an update the golden file holds the content, and comparing that
   * content again succeeds; a path that names no regular file fails the
   * update and changes nothing.
   */
  lemma UpdateThenCompare(fs: FileSystem, goldenPath: Path, actual: Bytes)
    ensures var (ok, fs1) := CompareSpec(fs, goldenPath, actual, true);
      if FileKey(goldenPath).Some? then
        ok && Holds(fs1, Clean(goldenPath), actual) && CompareSpec(fs1, goldenPath, actual, false) == (true, fs1)
      else
        !ok && fs1 == fs
  {
  }

  /** A unit golden file matches content with the same sections and properties, in any order. */
  lemma UnitGoldenIgnoresOrder(fs: FileSystem, goldenPath: Path, actual: Bytes)
    requires IsUnitGolden(goldenPath) && ReadAt(fs, goldenPath).Some?
    requires SameSections(Sections(SplitLines(ReadAt(fs, goldenPath).value)), Sections(SplitLines(actual)))
    ensures CompareSpec(fs, goldenPath, actual, false) == (true, fs)
  {
    RenderOrderFree(Sections(SplitLines(ReadAt(fs, goldenPath).value)), Sections(SplitLines(actual)));
  }

  /** A unit golden file matches its own normalised form. */
  lemma UnitGoldenMatchesNormalized(fs: FileSystem, goldenPath: Path)
    requires IsUnitGolden(goldenPath) && ReadAt(fs, goldenPath).Some?
    ensures CompareSpec(fs, goldenPath, Normalized(ReadAt(fs, goldenPath).value), false) == (true, fs)
  {
    NormalizeIdempotent(ReadAt(fs, goldenPath).value);
  }
}
