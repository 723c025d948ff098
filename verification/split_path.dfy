/** The allocation-free PATH splitter used for the manual `execvp`-style
    search.  Unlike the POSIX reading of PATH, where an empty entry means the
    current directory, this splitter drops empty entries altogether. */
module PathSplit {
  import opened Sys

  // ---------------------------------------------------------------------
  // Reference reading of a search path
  // ---------------------------------------------------------------------

  /** Index of the first ':' in `s`. */
  function FirstColon(s: seq<byte>): (k: nat)
    requires COLON in s
    ensures k < |s| && s[k] == COLON && COLON !in s[..k]
  {
    if s[0] == COLON then 0 else 1 + FirstColon(s[1..])
  }

  /** Every ':'-separated field of `s`, empty fields included, in order:
      "" has the single field "", "a:" has the fields "a" and "". */
  function Fields(s: seq<byte>): seq<seq<byte>>
    decreases |s|
  {
    if COLON !in s then [s]
    else
      var k := FirstColon(s);
      [s[..k]] + Fields(s[k + 1..])
  }

  /** `fs` with its empty entries removed, order kept. */
  function DropEmpty(fs: seq<seq<byte>>): seq<seq<byte>>
  {
    if fs == [] then []
    else (if fs[0] == [] then [] else [fs[0]]) + DropEmpty(fs[1..])
  }

  /** The directories a search path names: its non-empty ':'-separated fields. */
  function PathDirs(s: seq<byte>): seq<seq<byte>>
  {
    DropEmpty(Fields(s))
  }

  /** The inverse direction: directories joined with single colons. */
  function Join(dirs: seq<seq<byte>>): seq<byte>
  {
    if dirs == [] then []
    else if |dirs| == 1 then dirs[0]
    else dirs[0] + [COLON] + Join(dirs[1..])
  }

  /** A directory entry the splitter can yield: non-empty, with no ':' in it. */
  predicate CleanSegment(d: seq<byte>)
  {
    d != [] && COLON !in d
  }

  // ---------------------------------------------------------------------
  // The cursor state machine
  // ---------------------------------------------------------------------

  /** `SplitPath { path, last, current }`: `last` is where the next segment
      starts, `current` is where scanning resumes. */
  datatype SplitPath = SplitPath(path: seq<byte>, last: nat, current: nat) {

    /** The cursors lie inside the buffer, the segment start is not past the
        scan point, and the part of the pending segment already scanned holds
        no ':'.  Every state reachable from `Start` satisfies this. */
    predicate Valid()
    {
      last <= current <= |path| && COLON !in path[last..current]
    }

    /** `Iterator::next`: the next non-empty segment and the advanced cursor. */
    function Next(): (r: (Option<seq<byte>>, SplitPath))
      requires Valid()
      ensures r.1.path == path && r.1.Valid() && r.1.last == r.1.current
      ensures r.0.Some? ==> CleanSegment(r.0.value) && r.1.last > last
      ensures r.0.None? ==> r.1.last == r.1.current == |path|
    {
      Scan(path, last, current)
    }
  }

  /** `split_path`: a fresh splitter positioned at the start of `path`. */
  function Start(path: seq<byte>): (it: SplitPath)
    ensures it.Valid() && it.last == it.current == 0
  {
    SplitPath(path, 0, 0)
  }

  /** The `for i in current..len` loop of `next`, from index `i`, with the
      segment under construction starting at `last`. */
  function Scan(path: seq<byte>, last: nat, i: nat): (r: (Option<seq<byte>>, SplitPath))
    requires last <= i <= |path| && COLON !in path[last..i]
    ensures r.1.path == path && r.1.Valid() && r.1.last == r.1.current
    ensures r.0.Some? ==> CleanSegment(r.0.value) && r.1.last > last
    ensures r.0.None? ==> r.1.last == r.1.current == |path|
    decreases |path| - i
  {
    if i < |path| then
      if path[i] == COLON then
        if path[last..i] != [] then
          (Some(path[last..i]), SplitPath(path, i + 1, i + 1))
        else
          Scan(path, i + 1, i + 1)
      else
        Scan(path, last, i + 1)
    else if last != |path| then
      (Some(path[last..]), SplitPath(path, |path|, |path|))
    else
      (None, SplitPath(path, last, |path|))
  }

  /** What the splitter yields from `it` until it first returns `None`
      (`it.collect()`). */
  function Collect(it: SplitPath): seq<seq<byte>>
    requires it.Valid()
    decreases |it.path| - it.last
  {
    var r := it.Next();
    match r.0
    case None => []
    case Some(d) => [d] + Collect(r.1)
  }

  /** Unfolding `Collect` by one call of `next`. */
  lemma CollectStep(it: SplitPath)
    requires it.Valid()
    ensures it.Next().0.None? ==> Collect(it) == []
    ensures it.Next().0.Some? ==> Collect(it) == [it.Next().0.value] + Collect(it.Next().1)
  {
  }

  /** One call of `next` while walking the directories `dirs`, `n` of which
      have been consumed: it yields the next one, or `None` after the last. */
  lemma CollectAdvance(it: SplitPath, dirs: seq<seq<byte>>, n: nat)
    requires it.Valid() && n <= |dirs| && Collect(it) == dirs[n..]
    ensures it.Next().0.None? ==> n == |dirs|
    ensures it.Next().0.Some? ==>
      n < |dirs| && it.Next().0.value == dirs[n] && Collect(it.Next().1) == dirs[n + 1..]
  {
    CollectStep(it);
    if it.Next().0.Some? {
      assert dirs[n..][0] == dirs[n];
      assert dirs[n..][1..] == dirs[n + 1..];
    }
  }

  // ---------------------------------------------------------------------
  // Properties
  // ---------------------------------------------------------------------

  /** The first ':' is the only ':' with none before it. */
  lemma {:induction false} FirstColonUnique(s: seq<byte>, k: nat)
    requires k < |s| && s[k] == COLON && COLON !in s[..k]
    ensures FirstColon(s) == k
    decreases k
  {
    if k > 0 {
      assert s[0] == s[..k][0];
      assert s[1..][..k - 1] == s[1..k] && s[1..k] == s[..k][1..];
      FirstColonUnique(s[1..], k - 1);
    }
  }

  lemma PathDirsOfEmpty()
    ensures PathDirs([]) == []
  {
    assert Fields([]) == [[]];
    assert DropEmpty([[]]) == [] + DropEmpty([]);
  }

  lemma PathDirsOfClean(d: seq<byte>)
    requires CleanSegment(d)
    ensures PathDirs(d) == [d]
  {
    assert Fields(d) == [d];
    assert DropEmpty([d]) == [d] + DropEmpty([]);
  }

  lemma DropEmptyCons(x: seq<byte>, rest: seq<seq<byte>>)
    ensures DropEmpty([x] + rest) == (if x == [] then [] else [x]) + DropEmpty(rest)
  {
    assert ([x] + rest)[1..] == rest;
  }

  /** The reference reading of a suffix whose first ':' is at `i`. */
  lemma PathDirsAtColon(path: seq<byte>, last: nat, i: nat)
    requires last <= i < |path| && path[i] == COLON && COLON !in path[last..i]
    ensures PathDirs(path[last..]) ==
      (if path[last..i] == [] then [] else [path[last..i]]) + PathDirs(path[i + 1..])
  {
    var s := path[last..];
    assert s[..i - last] == path[last..i];
    FirstColonUnique(s, i - last);
    assert s[i - last + 1..] == path[i + 1..];
    assert Fields(s) == [path[last..i]] + Fields(path[i + 1..]);
    DropEmptyCons(path[last..i], Fields(path[i + 1..]));
  }

  /** The reference reading of a suffix with no ':' left in it. */
  lemma PathDirsWithoutColon(path: seq<byte>, last: nat)
    requires last <= |path| && COLON !in path[last..]
    ensures PathDirs(path[last..]) == (if last == |path| then [] else [path[last..]])
  {
    if last == |path| {
      assert path[last..] == [];
      PathDirsOfEmpty();
    } else {
      PathDirsOfClean(path[last..]);
    }
  }

  /** One step of the `for` loop agrees with the reference reading: what
      `Scan` yields, followed by the directories of what is left after its
      new segment start, are the directories of everything from `last`. */
  lemma {:induction false} ScanYields(path: seq<byte>, last: nat, i: nat)
    requires last <= i <= |path| && COLON !in path[last..i]
    ensures var r := Scan(path, last, i);
      PathDirs(path[last..]) == (if r.0.Some? then [r.0.value] else []) + PathDirs(path[r.1.last..])
    decreases |path| - i
  {
    if i < |path| {
      if path[i] == COLON {
        PathDirsAtColon(path, last, i);
        if path[last..i] == [] {
          ScanYields(path, i + 1, i + 1);
        }
      } else {
        assert path[last..i + 1] == path[last..i] + [path[i]];
        ScanYields(path, last, i + 1);
      }
    } else {
      assert path[last..i] == path[last..];
      PathDirsWithoutColon(path, last);
      assert path[|path|..] == [];
      PathDirsOfEmpty();
    }
  }

  /** The splitter yields exactly the reference directories of the part of
      the path it has not consumed. */
  lemma {:induction false} CollectIsPathDirs(it: SplitPath)
    requires it.Valid()
    ensures Collect(it) == PathDirs(it.path[it.last..])
    decreases |it.path| - it.last
  {
    ScanYields(it.path, it.last, it.current);
    var r := it.Next();
    if r.0.Some? {
      CollectIsPathDirs(r.1);
    } else {
      assert it.path[|it.path|..] == [];
      PathDirsOfEmpty();
    }
  }

  /** `split_path(p)` yields the non-empty ':'-separated fields of `p`, in order. */
  lemma SplitPathYieldsPathDirs(p: seq<byte>)
    ensures Collect(Start(p)) == PathDirs(p)
  {
    CollectIsPathDirs(Start(p));
    assert p[0..] == p;
  }

  /** Every segment the splitter yields is non-empty and free of ':'. */
  lemma {:induction false} CollectClean(it: SplitPath)
    requires it.Valid()
    ensures forall k :: 0 <= k < |Collect(it)| ==> CleanSegment(Collect(it)[k])
    decreases |it.path| - it.last
  {
    var r := it.Next();
    if r.0.Some? {
      CollectClean(r.1);
    }
  }

  /** The iterator is fused: once `next` returns `None`, it keeps doing so
      and the cursor stays put. */
  lemma Fused(it: SplitPath)
    requires it.Valid() && it.Next().0.None?
    ensures it.Next().1.Next() == (None, it.Next().1)
  {
  }

  /** Unfolding `Fields` at the first ':' of `s`. */
  lemma FieldsAtColon(s: seq<byte>, k: nat)
    requires k < |s| && s[k] == COLON && COLON !in s[..k]
    ensures Fields(s) == [s[..k]] + Fields(s[k + 1..])
  {
    assert s[k] in s;
    FirstColonUnique(s, k);
  }

  /** When `a` has a ':' of its own, `a:b` and `a` share their first field. */
  lemma FieldsSplitFirst(a: seq<byte>, b: seq<byte>, k: nat)
    requires k < |a| && a[k] == COLON && COLON !in a[..k]
    ensures Fields(a + [COLON] + b) == [a[..k]] + Fields(a[k + 1..] + [COLON] + b)
    ensures Fields(a) == [a[..k]] + Fields(a[k + 1..])
  {
    var c := a + [COLON] + b;
    assert c[..k] == a[..k];
    assert c[k + 1..] == a[k + 1..] + [COLON] + b;
    FieldsAtColon(c, k);
    FieldsAtColon(a, k);
  }

  /** When `a` has no ':', it is the first field of `a:b`. */
  lemma FieldsSplitWhole(a: seq<byte>, b: seq<byte>)
    requires COLON !in a
    ensures Fields(a + [COLON] + b) == [a] + Fields(b)
    ensures Fields(a) == [a]
  {
    var c := a + [COLON] + b;
    assert c[..|a|] == a;
    assert c[|a| + 1..] == b;
    FieldsAtColon(c, |a|);
  }

  /** Splitting at one ':' splits the field list there. */
  lemma {:induction false} FieldsSplitAt(a: seq<byte>, b: seq<byte>)
    ensures Fields(a + [COLON] + b) == Fields(a) + Fields(b)
    decreases |a|
  {
    if COLON !in a {
      FieldsSplitWhole(a, b);
    } else {
      var k := FirstColon(a);
      FieldsSplitFirst(a, b, k);
      FieldsSplitAt(a[k + 1..], b);
      ConsAppend(a[..k], Fields(a[k + 1..]), Fields(b));
    }
  }

  lemma ConsAppend<T>(x: T, p: seq<T>, q: seq<T>)
    ensures [x] + (p + q) == ([x] + p) + q
  {
  }

  lemma {:induction false} DropEmptyAppend(x: seq<seq<byte>>, y: seq<seq<byte>>)
    ensures DropEmpty(x + y) == DropEmpty(x) + DropEmpty(y)
    decreases |x|
  {
    if x != [] {
      assert (x + y)[1..] == x[1..] + y;
      DropEmptyAppend(x[1..], y);
    } else {
      assert x + y == y;
    }
  }

  /** A leading colon never changes the directories a search path names. */
  lemma LeadingColonIgnored(b: seq<byte>)
    ensures PathDirs([COLON] + b) == PathDirs(b)
  {
    FieldsSplitAt([], b);
    assert [] + [COLON] + b == [COLON] + b;
    assert Fields([]) == [[]];
    DropEmptyAppend([[]], Fields(b));
    PathDirsOfEmpty();
  }

  /** A trailing colon never changes the directories a search path names. */
  lemma TrailingColonIgnored(a: seq<byte>)
    ensures PathDirs(a + [COLON]) == PathDirs(a)
  {
    FieldsSplitAt(a, []);
    assert a + [COLON] + [] == a + [COLON];
    assert Fields([]) == [[]];
    DropEmptyAppend(Fields(a), [[]]);
    PathDirsOfEmpty();
  }

  /** Doubling a colon never changes the directories a search path names. */
  lemma DoubledColonIgnored(a: seq<byte>, b: seq<byte>)
    ensures PathDirs(a + [COLON, COLON] + b) == PathDirs(a + [COLON] + b)
  {
    FieldsSplitAt(a, [COLON] + b);
    assert a + [COLON] + ([COLON] + b) == a + [COLON, COLON] + b;
    FieldsSplitAt(a, b);
    DropEmptyAppend(Fields(a), Fields([COLON] + b));
    DropEmptyAppend(Fields(a), Fields(b));
    LeadingColonIgnored(b);
  }

  /** Joining clean directories with single colons and splitting the result
      gives the directories back. */
  lemma {:induction false} JoinRoundTrip(dirs: seq<seq<byte>>)
    requires forall k :: 0 <= k < |dirs| ==> CleanSegment(dirs[k])
    ensures PathDirs(Join(dirs)) == dirs
    decreases |dirs|
  {
    if dirs == [] {
      PathDirsOfEmpty();
    } else if |dirs| == 1 {
      PathDirsOfClean(dirs[0]);
    } else {
      FieldsSplitAt(dirs[0], Join(dirs[1..]));
      PathDirsOfClean(dirs[0]);
      DropEmptyAppend(Fields(dirs[0]), Fields(Join(dirs[1..])));
      JoinRoundTrip(dirs[1..]);
    }
  }

  // The table of cases the source's unit test pins down.

  /** "a:b" and "a:" */
  lemma SplitPathTableSimple()
    ensures Collect(Start([97, 58, 98])) == [[97], [98]]
    ensures Collect(Start([97, 58])) == [[97]]
  {
    var p0: seq<byte> := [97, 58, 98];
    assert Scan(p0, 0, 1) == (Some(p0[0..1]), SplitPath(p0, 2, 2));
    assert p0[0..1] == [97];
    assert Scan(p0, 2, 3) == (Some(p0[2..]), SplitPath(p0, 3, 3));
    assert p0[2..] == [98];
    assert Collect(SplitPath(p0, 3, 3)) == [];

    var p1: seq<byte> := [97, 58];
    assert Scan(p1, 0, 1) == (Some(p1[0..1]), SplitPath(p1, 2, 2));
    assert p1[0..1] == [97];
    assert Collect(SplitPath(p1, 2, 2)) == [];
  }

  /** Scanning over bytes that are not ':' only moves the scan point. */
  lemma {:induction false} ScanSkips(path: seq<byte>, last: nat, i: nat, j: nat)
    requires last <= i <= j <= |path| && COLON !in path[last..j]
    ensures Scan(path, last, i) == Scan(path, last, j)
    decreases j - i
  {
    if i < j {
      assert path[last..j][i - last] == path[i];
      ScanSkips(path, last, i + 1, j);
    }
  }

  /** "one:twothree" */
  lemma SplitPathTableWords()
    ensures Collect(Start([111, 110, 101, 58, 116, 119, 111, 116, 104, 114, 101, 101]))
         == [[111, 110, 101], [116, 119, 111, 116, 104, 114, 101, 101]]
  {
    var p: seq<byte> := [111, 110, 101, 58, 116, 119, 111, 116, 104, 114, 101, 101];
    ScanSkips(p, 0, 0, 3);
    ScanSkips(p, 4, 4, 12);
    assert Scan(p, 0, 3) == (Some(p[0..3]), SplitPath(p, 4, 4));
    assert p[0..3] == [111, 110, 101];
    assert Scan(p, 4, 12) == (Some(p[4..]), SplitPath(p, 12, 12));
    assert p[4..] == [116, 119, 111, 116, 104, 114, 101, 101];
    assert Collect(SplitPath(p, 12, 12)) == [];
  }

  /** "", ":", "::" and ":::" yield nothing. */
  lemma SplitPathTableEmpty()
    ensures Collect(Start([])) == []
    ensures Collect(Start([58])) == []
    ensures Collect(Start([58, 58])) == []
    ensures Collect(Start([58, 58, 58])) == []
  {
  }

  /** "a::b" */
  lemma SplitPathTableDoubled()
    ensures Collect(Start([97, 58, 58, 98])) == [[97], [98]]
  {
    var p2: seq<byte> := [97, 58, 58, 98];
    assert Scan(p2, 0, 1) == (Some(p2[0..1]), SplitPath(p2, 2, 2));
    assert p2[0..1] == [97];
    assert Scan(p2, 3, 4) == (Some(p2[3..]), SplitPath(p2, 4, 4));
    assert p2[3..] == [98];
    assert Collect(SplitPath(p2, 4, 4)) == [];
  }

  /** ":a::::b:" */
  lemma SplitPathTableMixed()
    ensures Collect(Start([58, 97, 58, 58, 58, 58, 98, 58])) == [[97], [98]]
  {
    var p3: seq<byte> := [58, 97, 58, 58, 58, 58, 98, 58];
    assert Scan(p3, 1, 2) == (Some(p3[1..2]), SplitPath(p3, 3, 3));
    assert p3[1..2] == [97];
    assert Scan(p3, 6, 7) == (Some(p3[6..7]), SplitPath(p3, 8, 8));
    assert p3[6..7] == [98];
    assert Collect(SplitPath(p3, 8, 8)) == [];
  }
}
