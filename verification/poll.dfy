/** Readiness polling with a timeout longer than `poll(2)` can take: the
    syscall accepts at most `i32::MAX` milliseconds (about 24.8 days), so a
    longer wait is split into clamped calls measured against one deadline.
    Time is an abstract millisecond clock; the syscall is a trace of replies. */
module Poll {
  import opened Sys

  /** The `-1` timeout of `poll(2)`: wait without limit. */
  const INFINITE: i32 := -1

  /** The timeout conversion at the head of the loop: the millisecond value
      handed to `poll(2)` and whether it had to be clamped. */
  function TimeoutMs(timeout: Option<nat>): (r: (i32, bool))
    ensures timeout.None? ==> r == (INFINITE, false)
    ensures timeout.Some? ==> 0 <= r.0 <= timeout.value
    ensures timeout.Some? ==> (r.1 <==> r.0 < timeout.value)
    ensures r.1 ==> r.0 == I32_MAX
  {
    match timeout
    case None => (INFINITE, false)
    case Some(ms) => if ms <= I32_MAX then (ms, false) else (I32_MAX, true)
  }

  /** What the k-th `poll(2)` call returned, the errno it left, and the
      clock reading the loop takes after it (used only after a clamped,
      zero-ready call). */
  datatype PollStep = PollStep(ret: i32, errno: int, now: nat)

  /** The poll either returned to its caller, or is still waiting because
      the trace of syscall replies ran out. */
  datatype PollOutcome = Returned(result: Result<nat>) | Waiting

  /** Time left before the deadline when the k-th call is made. */
  function RemainingAt(t: nat, start: nat, steps: seq<PollStep>, k: nat): int
    requires k <= |steps|
  {
    if k == 0 then t else start + t - steps[k - 1].now
  }

  /** A call that came back clamped and zero-ready before the deadline:
      exactly the case in which the loop goes round again. */
  predicate Retries(timeout: Option<nat>, start: nat, steps: seq<PollStep>, k: nat)
    requires k < |steps|
  {
    && timeout.Some?
    && steps[k].ret == 0
    && RemainingAt(timeout.value, start, steps, k) > I32_MAX
    && steps[k].now < start + timeout.value
  }

  /** `poll`: `start` is the clock when it is called, `steps` the replies the
      syscall gives in turn; `calls` records the timeout passed to each call. */
  method Poll(timeout: Option<nat>, start: nat, steps: seq<PollStep>)
    returns (out: PollOutcome, calls: seq<i32>)
    ensures |calls| <= |steps|
    ensures calls != [] ==> calls[0] == TimeoutMs(timeout).0
    ensures timeout.None? ==> |calls| <= 1
    ensures timeout.Some? ==> forall k :: 0 <= k < |calls| ==>
      var rem := RemainingAt(timeout.value, start, steps, k);
      rem >= 0 && calls[k] == TimeoutMs(Some(rem)).0
    ensures timeout.Some? ==> forall k :: 0 < k < |calls| ==> RemainingAt(timeout.value, start, steps, k) > 0
    ensures forall k :: 0 <= k < |calls| - 1 ==> Retries(timeout, start, steps, k)
    ensures out.Waiting? ==> |calls| == |steps| && (calls != [] ==> Retries(timeout, start, steps, |calls| - 1))
    ensures out.Returned? ==> calls != [] && !Retries(timeout, start, steps, |calls| - 1)
    ensures out.Returned? ==> var last := steps[|calls| - 1];
      && (last.ret < 0 ==> out.result == Err(OsError(last.errno)))
      && (last.ret >= 0 ==> out.result == Ok(last.ret))
    ensures out.Returned? && out.result == Ok(0) && timeout.Some? ==>
      || RemainingAt(timeout.value, start, steps, |calls| - 1) <= I32_MAX
      || steps[|calls| - 1].now >= start + timeout.value
  {
    var deadline: Option<nat> := if timeout.Some? then Some(start + timeout.value) else None;
    var cur := timeout;
    calls := [];
    while |calls| < |steps|
      invariant |calls| <= |steps|
      invariant calls != [] ==> calls[0] == TimeoutMs(timeout).0
      invariant timeout.None? ==> calls == [] && cur == None
      invariant timeout.Some? ==> cur == Some(RemainingAt(timeout.value, start, steps, |calls|))
      invariant timeout.Some? ==> forall k :: 0 <= k < |calls| ==>
        var rem := RemainingAt(timeout.value, start, steps, k);
        rem >= 0 && calls[k] == TimeoutMs(Some(rem)).0
      invariant timeout.Some? ==> forall k :: 0 < k <= |calls| ==> RemainingAt(timeout.value, start, steps, k) > 0
      invariant forall k :: 0 <= k < |calls| ==> Retries(timeout, start, steps, k)
    {
      var k := |calls|;
      var (ms, overflow) := TimeoutMs(cur);
      calls := calls + [ms];
      var cnt := CheckErr(steps[k].ret, steps[k].errno);
      if cnt.Err? {
        return Returned(Err(cnt.error)), calls;
      }
      if cnt.value != 0 || !overflow {
        return Returned(Ok(cnt.value)), calls;
      }
      var now := steps[k].now;
      if now >= deadline.value {
        return Returned(Ok(0)), calls;
      }
      cur := Some(deadline.value - now);
    }
    out := Waiting;
  }
}
