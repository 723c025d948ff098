/** The exec plan: staged before `fork()` (may allocate), finished in the
    child (must not allocate).  The exec syscall is an oracle from the call
    made to what the OS did with it. */
module Exec {
  import opened Sys
  import opened PathSplit
  import opened CStrings
  import opened ByteVec

  /** `FinishExec`; `exeBuf` is the scratch buffer behind the `RefCell`. */
  datatype FinishExec = FinishExec(
    cmd: seq<byte>,
    argvec: CVec,
    envvec: Option<CVec>,
    searchPath: Option<seq<byte>>,
    exeBuf: Vec)

  /** One call into the exec family: `execv(path, argv)` or
      `execve(path, argv, envp)`; `path` is the NUL-terminated file name. */
  datatype ExecCall =
    | Execv(path: seq<byte>, argv: CVec)
    | Execve(path: seq<byte>, argv: CVec, envp: CVec)

  /** What the OS does with one exec call: replace the process image (the
      call never returns) or fail with an errno. */
  datatype ExecReply = Replaced | Failed(errno: int)

  /** How an exec attempt ends as seen by the plan: the image was replaced
      (control never comes back), or an error was returned.  There is no
      "returned successfully" outcome. */
  datatype ExecOutcome = ImageReplaced | ExecErr(error: Error)

  /** The executable file names `finish` tries, in order, before the NUL
      terminator is appended: `<dir>/<cmd>` for each directory the search
      path names, or `cmd` alone without a search path. */
  function Candidates(cmd: seq<byte>, searchPath: Option<seq<byte>>): seq<seq<byte>>
  {
    match searchPath
    case None => [cmd]
    case Some(sp) =>
      var dirs := Collect(Start(sp));
      seq(|dirs|, k requires 0 <= k < |dirs| => dirs[k] + [SLASH] + cmd)
  }

  /** With a search path, the candidates are `<dir>/<cmd>` for exactly the
      non-empty ':'-separated fields of the path, in path order. */
  lemma CandidatesFollowPathDirs(cmd: seq<byte>, sp: seq<byte>)
    ensures var cands := Candidates(cmd, Some(sp));
      var dirs := PathDirs(sp);
      |cands| == |dirs| && forall k :: 0 <= k < |dirs| ==> cands[k] == dirs[k] + [SLASH] + cmd
  {
    SplitPathYieldsPathDirs(sp);
  }

  /** The scratch buffer has room for every candidate and its NUL. */
  predicate Sized(fe: FinishExec)
  {
    var cands := Candidates(fe.cmd, fe.searchPath);
    fe.exeBuf.Valid() && forall k :: 0 <= k < |cands| ==> |cands[k]| + 1 <= fe.exeBuf.capacity
  }

  /** `segs.map(len).max().unwrap_or(0)`. */
  function MaxLen(segs: seq<seq<byte>>): (m: nat)
    ensures forall k :: 0 <= k < |segs| ==> |segs[k]| <= m
    ensures segs == [] ==> m == 0
    ensures segs != [] ==> exists k :: 0 <= k < |segs| && |segs[k]| == m
  {
    if segs == [] then 0 else Max(|segs[0]|, MaxLen(segs[1..]))
  }

  /** `FinishExec::new`: stores the plan and reserves the scratch buffer for
      the longest candidate, `<longest dir>/<cmd>\0`, or `<cmd>\0`. */
  function NewFinishExec(cmd: seq<byte>, argvec: CVec, envvec: Option<CVec>,
                         searchPath: Option<seq<byte>>): (fe: FinishExec)
    ensures fe.cmd == cmd && fe.argvec == argvec && fe.envvec == envvec && fe.searchPath == searchPath
    ensures fe.exeBuf.contents == []
    ensures Sized(fe)
    ensures |cmd| + 1 <= fe.exeBuf.capacity
    ensures var cands := Candidates(cmd, searchPath);
      cands != [] ==> exists k :: 0 <= k < |cands| && |cands[k]| + 1 == fe.exeBuf.capacity
    ensures searchPath.Some? && Candidates(cmd, searchPath) == [] ==> fe.exeBuf.capacity == |cmd| + 2
  {
    var maxExeLen := |cmd| + 1 +
      (match searchPath
       case None => 0
       case Some(sp) => 1 + MaxLen(Collect(Start(sp))));
    CandidateFillsCapacity(cmd, searchPath);
    FinishExec(cmd, argvec, envvec, searchPath, WithCapacity(maxExeLen))
  }

  /** The longest candidate is exactly as long as the reservation; with a
      search path that names no directory, the reservation is `<cmd>` plus
      a separator and a NUL. */
  lemma CandidateFillsCapacity(cmd: seq<byte>, searchPath: Option<seq<byte>>)
    ensures var cands := Candidates(cmd, searchPath);
      var cap := |cmd| + 1 + (match searchPath case None => 0 case Some(sp) => 1 + MaxLen(Collect(Start(sp))));
      && (cands != [] ==> exists k :: 0 <= k < |cands| && |cands[k]| + 1 == cap)
      && (cands == [] ==> searchPath.Some? && cap == |cmd| + 2)
  {
    var cands := Candidates(cmd, searchPath);
    match searchPath
    case None =>
      assert |cands[0]| + 1 == |cmd| + 1;
    case Some(sp) =>
      var dirs := Collect(Start(sp));
      if dirs != [] {
        var k :| 0 <= k < |dirs| && |dirs[k]| == MaxLen(dirs);
        assert |cands[k]| + 1 == |cmd| + 1 + 1 + MaxLen(dirs);
      }
  }

  /** `set_exe`: truncate the buffer, append the slices, push one NUL. */
  method SetExe(buf: Vec, slices: seq<seq<byte>>) returns (out: Vec)
    requires buf.Valid()
    ensures out.Valid() && out.contents == Concat(slices) + [NUL]
    ensures out.capacity >= buf.capacity
    ensures |Concat(slices)| + 1 <= buf.capacity ==> out.capacity == buf.capacity
  {
    out := Truncate(buf, 0);
    var k := 0;
    while k < |slices|
      invariant k <= |slices| && out.Valid() && out.contents == Concat(slices[..k])
      invariant out.capacity >= buf.capacity
      invariant |Concat(slices)| + 1 <= buf.capacity ==> out.capacity == buf.capacity
    {
      ConcatPrefixLength(slices, k + 1);
      assert slices[..k + 1][..k] == slices[..k];
      out := ExtendFromSlice(out, slices[k]);
      k := k + 1;
    }
    assert slices[..|slices|] == slices;
    out := Push(out, NUL);
  }

  /** The exec call made with `path` in the scratch buffer: `execve` exactly
      when an environment vector was staged, `execv` otherwise. */
  function ExecCallFor(fe: FinishExec, path: seq<byte>): (c: ExecCall)
    ensures c.Execve? <==> fe.envvec.Some?
    ensures c.path == path && c.argv == fe.argvec
    ensures c.Execve? ==> c.envp == fe.envvec.value
  {
    match fe.envvec
    case Some(env) => Execve(path, fe.argvec, env)
    case None => Execv(path, fe.argvec)
  }

  /** `FinishExec::exec`: make the call for the buffer's current contents;
      if control comes back at all, it comes back with the OS error. */
  function ExecOnce(fe: FinishExec, os: ExecCall -> ExecReply): (r: ExecOutcome)
    ensures r.ImageReplaced? <==> os(ExecCallFor(fe, fe.exeBuf.contents)).Replaced?
    ensures r.ExecErr? ==> r.error == OsError(os(ExecCallFor(fe, fe.exeBuf.contents)).errno)
  {
    match os(ExecCallFor(fe, fe.exeBuf.contents))
    case Replaced => ImageReplaced
    case Failed(e) => ExecErr(OsError(e))
  }

  /** The exec call for directory `dir`: `<dir>/<cmd>\0` as the file name. */
  function CandidateCall(fe: FinishExec, dir: seq<byte>): ExecCall
  {
    ExecCallFor(fe, dir + [SLASH] + fe.cmd + [NUL])
  }

  /** One round of the directory loop: `set_exe(&[dir, "/", cmd])`, then
      `exec` with the buffer as it now stands. */
  method TryCandidate(fe: FinishExec, buf: Vec, dir: seq<byte>, os: ExecCall -> ExecReply)
    returns (r: ExecOutcome, call: ExecCall, out: Vec)
    requires buf.Valid()
    ensures out.Valid() && out.capacity >= buf.capacity
    ensures |dir| + 1 + |fe.cmd| + 1 <= buf.capacity ==> out.capacity == buf.capacity
    ensures call == CandidateCall(fe, dir)
    ensures r.ImageReplaced? <==> os(call).Replaced?
    ensures r.ExecErr? ==> r.error == OsError(os(call).errno)
  {
    Concat3(dir, [SLASH], fe.cmd);
    out := SetExe(buf, [dir, [SLASH], fe.cmd]);
    var attempt := fe.(exeBuf := out);
    call := ExecCallFor(attempt, out.contents);
    r := ExecOnce(attempt, os);
  }

  /** `attempts` are the calls for the first directories of `dirs`, in
      order, and every one of them failed. */
  predicate AllFailed(fe: FinishExec, dirs: seq<seq<byte>>, attempts: seq<ExecCall>, os: ExecCall -> ExecReply)
  {
    && |attempts| <= |dirs|
    && forall k :: 0 <= k < |attempts| ==> attempts[k] == CandidateCall(fe, dirs[k]) && os(attempts[k]).Failed?
  }

  lemma FailedAttemptExtends(fe: FinishExec, dirs: seq<seq<byte>>, attempts: seq<ExecCall>,
                             call: ExecCall, os: ExecCall -> ExecReply)
    requires AllFailed(fe, dirs, attempts, os) && |attempts| < |dirs|
    requires call == CandidateCall(fe, dirs[|attempts|]) && os(call).Failed?
    ensures AllFailed(fe, dirs, attempts + [call], os)
  {
  }

  /** The directory loop of `finish`: for each directory `split_path`
      yields, build `<dir>/<cmd>\0` in the scratch buffer and exec it,
      ignoring failures.  `buf` is the scratch buffer as the loop leaves it. */
  method SearchAndExec(fe: FinishExec, sp: seq<byte>, os: ExecCall -> ExecReply, errno0: int)
    returns (out: ExecOutcome, attempts: seq<ExecCall>, buf: Vec)
    requires fe.exeBuf.Valid()
    ensures buf.Valid() && buf.capacity >= fe.exeBuf.capacity
    ensures var dirs := Collect(Start(sp));
      (forall k :: 0 <= k < |dirs| ==> |dirs[k]| + 1 + |fe.cmd| + 1 <= fe.exeBuf.capacity) ==>
        buf.capacity == fe.exeBuf.capacity
    ensures var dirs := Collect(Start(sp));
      && |attempts| <= |dirs|
      && (forall k :: 0 <= k < |attempts| ==> attempts[k] == CandidateCall(fe, dirs[k]))
    ensures forall k :: 0 <= k < |attempts| - 1 ==> os(attempts[k]).Failed?
    ensures out.ImageReplaced? <==> attempts != [] && os(attempts[|attempts| - 1]).Replaced?
    ensures out.ExecErr? ==>
      && |attempts| == |Collect(Start(sp))|
      && out.error == OsError(if attempts == [] then errno0 else os(attempts[|attempts| - 1]).errno)
  {
    ghost var dirs := Collect(Start(sp));
    ghost var fits := forall k :: 0 <= k < |dirs| ==> |dirs[k]| + 1 + |fe.cmd| + 1 <= fe.exeBuf.capacity;
    buf := fe.exeBuf;
    attempts := [];
    var errno := errno0;
    var it := Start(sp);
    while true
      invariant it.Valid() && it.path == sp
      invariant |attempts| <= |dirs| && Collect(it) == dirs[|attempts|..]
      invariant AllFailed(fe, dirs, attempts, os)
      invariant errno == if attempts == [] then errno0 else os(attempts[|attempts| - 1]).errno
      invariant buf.Valid() && buf.capacity >= fe.exeBuf.capacity
      invariant fits ==> buf.capacity == fe.exeBuf.capacity
      decreases |it.path| - it.last
    {
      var step := it.Next();
      CollectAdvance(it, dirs, |attempts|);
      if step.0.None? {
        break;
      }
      var dir := step.0.value;
      var r, call;
      r, call, buf := TryCandidate(fe, buf, dir, os);
      if r.ImageReplaced? {
        out := r;
        attempts := attempts + [call];
        return;
      }
      FailedAttemptExtends(fe, dirs, attempts, call, os);
      attempts := attempts + [call];
      errno := r.error.code;
      it := step.1;
    }
    out := ExecErr(OsError(errno));
  }

  /** `FinishExec::finish`, run in the child.  `attempts` records every exec
      call made, in order; `errno0` is errno on entry (what is reported when
      the search path names no directory at all); `after` is the plan with
      the scratch buffer as `finish` leaves it. */
  method Finish(fe: FinishExec, os: ExecCall -> ExecReply, errno0: int)
    returns (out: ExecOutcome, attempts: seq<ExecCall>, after: FinishExec)
    requires fe.exeBuf.Valid()
    ensures after == fe.(exeBuf := after.exeBuf) && after.exeBuf.Valid()
    ensures Sized(fe) ==> after.exeBuf.capacity == fe.exeBuf.capacity
    ensures var cands := Candidates(fe.cmd, fe.searchPath);
      && |attempts| <= |cands|
      && (forall k :: 0 <= k < |attempts| ==> attempts[k] == ExecCallFor(fe, cands[k] + [NUL]))
    ensures forall k :: 0 <= k < |attempts| - 1 ==> os(attempts[k]).Failed?
    ensures out.ImageReplaced? <==> attempts != [] && os(attempts[|attempts| - 1]).Replaced?
    ensures out.ExecErr? ==>
      && |attempts| == |Candidates(fe.cmd, fe.searchPath)|
      && out.error == OsError(if attempts == [] then errno0 else os(attempts[|attempts| - 1]).errno)
  {
    if fe.searchPath.Some? {
      var buf;
      out, attempts, buf := SearchAndExec(fe, fe.searchPath.value, os, errno0);
      after := fe.(exeBuf := buf);
      ghost var dirs := Collect(Start(fe.searchPath.value));
      ghost var cands := Candidates(fe.cmd, fe.searchPath);
      assert forall k :: 0 <= k < |dirs| ==> cands[k] == dirs[k] + [SLASH] + fe.cmd;
      return;
    }
    Concat1(fe.cmd);
    var buf := SetExe(fe.exeBuf, [fe.cmd]);
    after := fe.(exeBuf := buf);
    attempts := [ExecCallFor(after, buf.contents)];
    out := ExecOnce(after, os);
  }

  /** Staging never checks `cmd` for NUL bytes, unlike the arguments and the
      environment.  With a NUL in `cmd`, the kernel reads every candidate
      name (`<dir>/<cmd>` or `<cmd>`, NUL-terminated in the buffer) only up
      to that NUL, so the file looked up is shorter than the intended name. */
  lemma NulInCmdCutsName(cmd: seq<byte>, searchPath: Option<seq<byte>>, k: nat)
    requires NUL in cmd && k < |Candidates(cmd, searchPath)|
    ensures var c := Candidates(cmd, searchPath)[k];
      |CRead(c + [NUL])| < |c|
  {
    var c := Candidates(cmd, searchPath)[k];
    var i :| 0 <= i < |cmd| && cmd[i] == NUL;
    var at := |c| - |cmd| + i;
    assert c[|c| - |cmd|..] == cmd;
    assert (c + [NUL])[at] == NUL;
    CReadStopsAtNul(c + [NUL], at);
  }


  /** `stage_exec`: validate and convert the arguments and the environment
      (before `fork`), decide whether to search PATH, and build the plan.
      `pathVar` is the value of the `PATH` environment variable, if set. */
  method StageExec(cmd: seq<byte>, args: seq<seq<byte>>, env: Option<seq<seq<byte>>>,
                   pathVar: Option<seq<byte>>) returns (r: Result<FinishExec>)
    ensures r.Err? <==> HasNul(args) || (env.Some? && HasNul(env.value))
    ensures r.Err? ==> r.error == OsError(EINVAL)
    ensures r.Ok? ==> r.value.cmd == cmd && ReadTable(r.value.argvec, 0) == args
    ensures r.Ok? ==> r.value.argvec.Valid() && (r.value.envvec.Some? ==> r.value.envvec.value.Valid())
    ensures r.Ok? ==> (r.value.envvec.Some? <==> env.Some?)
    ensures r.Ok? && env.Some? ==> ReadTable(r.value.envvec.value, 0) == env.value
    ensures r.Ok? ==> (r.value.searchPath.Some? <==> SLASH !in cmd && pathVar.Some? && pathVar.value != [])
    ensures r.Ok? && r.value.searchPath.Some? ==> r.value.searchPath.value == pathVar.value
    ensures r.Ok? ==> Sized(r.value) && r.value.exeBuf.contents == []
  {
    var argvec :- NewCVec(args);
    var envvec: Option<CVec> := None;
    if env.Some? {
      var e :- NewCVec(env.value);
      envvec := Some(e);
    }
    var searchPath: Option<seq<byte>> := None;
    if SLASH !in cmd && pathVar.Some? && |pathVar.value| != 0 {
      searchPath := pathVar;
    }
    r := Ok(NewFinishExec(cmd, argvec, envvec, searchPath));
  }
}
