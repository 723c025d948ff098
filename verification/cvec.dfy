/** NUL-terminated strings and the NULL-terminated pointer table handed to
    the exec family (`os_to_cstring`, `CVec`). */
module CStrings {
  import opened Sys

  /** What a C reader sees at the start of `s`: the bytes before the first NUL
      (all of `s` when it has none). */
  function CRead(s: seq<byte>): seq<byte>
  {
    if s == [] || s[0] == NUL then [] else [s[0]] + CRead(s[1..])
  }

  /** A C reader stops at or before any NUL in the buffer. */
  lemma {:induction false} CReadStopsAtNul(s: seq<byte>, i: nat)
    requires i < |s| && s[i] == NUL
    ensures |CRead(s)| <= i
    decreases i
  {
    if s[0] != NUL {
      assert s[1..][i - 1] == s[i];
      CReadStopsAtNul(s[1..], i - 1);
    }
  }

  lemma {:induction false} CReadTerminated(s: seq<byte>)
    requires NUL !in s
    ensures CRead(s + [NUL]) == s
  {
    if s != [] {
      assert (s + [NUL])[1..] == s[1..] + [NUL];
      CReadTerminated(s[1..]);
    }
  }

  /** `os_to_cstring`: the bytes of `s` as a C string, or `EINVAL` when `s`
      holds a NUL that C could not represent. */
  function OsToCString(s: seq<byte>): (r: Result<seq<byte>>)
    ensures r.Err? <==> NUL in s
    ensures r.Err? ==> r.error == OsError(EINVAL)
    ensures r.Ok? ==> |r.value| == |s| + 1 && r.value[|s|] == NUL && CRead(r.value) == s
  {
    if NUL in s then Err(OsError(EINVAL))
    else
      CReadTerminated(s);
      Ok(s + [NUL])
  }

  /** `CVec`: the owned C strings and the pointer table.  A pointer is the
      index of the string it points at; `None` is the null pointer. */
  datatype CVec = CVec(strings: seq<seq<byte>>, ptrs: seq<Option<nat>>) {

    /** The layout the exec family relies on: one pointer per string, in
        order, then a null terminator; every string ends in NUL. */
    predicate Valid()
    {
      && |ptrs| == |strings| + 1
      && ptrs[|strings|] == None
      && (forall i :: 0 <= i < |strings| ==> ptrs[i] == Some(i))
      && (forall i :: 0 <= i < |strings| ==> |strings[i]| > 0 && strings[i][|strings[i]| - 1] == NUL)
    }
  }

  /** Some input holds a NUL byte. */
  predicate HasNul(xs: seq<seq<byte>>)
  {
    exists i :: 0 <= i < |xs| && NUL in xs[i]
  }

  /** The `argv`/`envp` array as the kernel reads it: follow the pointer table
      from entry `k` up to the first null pointer, reading each C string. */
  function ReadTable(cv: CVec, k: nat): seq<seq<byte>>
    requires k <= |cv.ptrs|
    decreases |cv.ptrs| - k
  {
    if k == |cv.ptrs| then []
    else match cv.ptrs[k]
      case None => []
      case Some(j) =>
        if j < |cv.strings| then [CRead(cv.strings[j])] + ReadTable(cv, k + 1) else []
  }

  /** `CVec::new`: convert every input with `os_to_cstring`, stopping at the
      first failure, then build the pointer table with its null terminator. */
  method NewCVec(xs: seq<seq<byte>>) returns (r: Result<CVec>)
    ensures r.Err? <==> HasNul(xs)
    ensures r.Err? ==> r.error == OsError(EINVAL)
    ensures r.Ok? ==> r.value.Valid() && |r.value.strings| == |xs|
    ensures r.Ok? ==> forall i :: 0 <= i < |xs| ==> r.value.strings[i] == xs[i] + [NUL]
    ensures r.Ok? ==> ReadTable(r.value, 0) == xs
  {
    var strings: seq<seq<byte>> := [];
    var i := 0;
    while i < |xs|
      invariant i <= |xs| && |strings| == i
      invariant forall j :: 0 <= j < i ==> NUL !in xs[j] && strings[j] == xs[j] + [NUL]
    {
      var c := OsToCString(xs[i]);
      if c.Err? {
        return Err(c.error);
      }
      strings := strings + [c.value];
      i := i + 1;
    }
    var ptrs: seq<Option<nat>> := [];
    var k := 0;
    while k < |strings|
      invariant k <= |strings| && |ptrs| == k
      invariant forall j :: 0 <= j < k ==> ptrs[j] == Some(j)
    {
      ptrs := ptrs + [Some(k)];
      k := k + 1;
    }
    ptrs := ptrs + [None];
    var cv := CVec(strings, ptrs);
    ReadTableOf(cv, xs, 0);
    r := Ok(cv);
  }

  /** Reading the table of a well-formed vector built from `xs` gives `xs` back. */
  lemma {:induction false} ReadTableOf(cv: CVec, xs: seq<seq<byte>>, k: nat)
    requires cv.Valid() && |cv.strings| == |xs| && k <= |xs|
    requires forall j :: 0 <= j < |xs| ==> NUL !in xs[j] && cv.strings[j] == xs[j] + [NUL]
    ensures ReadTable(cv, k) == xs[k..]
    decreases |xs| - k
  {
    if k < |xs| {
      CReadTerminated(xs[k]);
      ReadTableOf(cv, xs, k + 1);
      assert xs[k..] == [xs[k]] + xs[k + 1..];
    }
  }
}
