/** The result mapping of the process-control wrappers: `fork`, `waitpid`
    with exit-status classification, and the wrappers that only report
    success or failure (`setuid`, `setgid`, `kill`, `dup2`). */
module Process {
  import opened Sys

  /** `fork`'s result: an error, `None` in the child, or `Some(child pid)`
      in the parent.  `ret` is what `fork(2)` returned. */
  function ForkResult(ret: i32, errno: int): (r: Result<Option<u32>>)
    ensures r.Err? <==> ret < 0
    ensures r.Err? ==> r.error == OsError(errno)
    ensures r == Ok(None) <==> ret == 0
    ensures r.Ok? && r.value.Some? ==> 0 < r.value.value == ret
  {
    var pid :- CheckErr(ret, errno);
    if pid == 0 then Ok(None) else Ok(Some(AsU32(pid)))
  }

  /** `ExitStatus` of the surrounding library. */
  datatype ExitStatus = Exited(code: u32) | Signaled(signal: byte) | Other(raw: i32)

  /** The libc wait-status macros, whose bit layouts are platform details:
      `WIFEXITED`, `WEXITSTATUS`, `WIFSIGNALED`, `WTERMSIG`. */
  datatype WaitMacros = WaitMacros(
    ifExited: i32 -> bool,
    exitStatus: i32 -> i32,
    ifSignaled: i32 -> bool,
    termSig: i32 -> i32)

  /** `decode_exit_status`: exited is checked first, then signaled, and
      anything else keeps the raw status. */
  function DecodeExitStatus(status: i32, m: WaitMacros): (r: ExitStatus)
    ensures r.Exited? <==> m.ifExited(status)
    ensures r.Signaled? <==> !m.ifExited(status) && m.ifSignaled(status)
    ensures r.Exited? ==> r.code == AsU32(m.exitStatus(status))
    ensures r.Signaled? ==> r.signal == AsU8(m.termSig(status))
    ensures r.Other? ==> r.raw == status
  {
    if m.ifExited(status) then Exited(AsU32(m.exitStatus(status)))
    else if m.ifSignaled(status) then Signaled(AsU8(m.termSig(status)))
    else Other(status)
  }

  /** `waitpid`: `ret` is what `waitpid(2)` returned and `status` the word
      it stored.  When nothing was stored (0 returned under `WNOHANG`),
      callers pass 0, the status variable's initial value; on failure the
      status is not used. */
  function Waitpid(ret: i32, status: i32, errno: int, m: WaitMacros): (r: Result<(u32, ExitStatus)>)
    ensures r.Err? <==> ret < 0
    ensures r.Err? ==> r.error == OsError(errno)
    ensures r.Ok? ==> r.value.0 == ret && r.value.1 == DecodeExitStatus(status, m)
  {
    var pid :- CheckErr(ret, errno);
    Ok((AsU32(pid), DecodeExitStatus(status, m)))
  }

  /** `setuid`, `setgid`, `kill` and `dup2`: success carries nothing, a
      negative return is the OS error. */
  function UnitResult(ret: i32, errno: int): (r: Result<()>)
    ensures r.Ok? <==> 0 <= ret
    ensures r.Err? ==> r.error == OsError(errno)
  {
    var _ :- CheckErr(ret, errno);
    Ok(())
  }
}
