/** `PollFd`, the entry handed to `poll(2)` for one descriptor: the events
    asked for and the events the kernel reported back. */
module PollFds {
  import opened Sys

  /** `PollFd`: descriptor, requested events, returned events. */
  datatype PollFd = PollFd(fd: i32, events: bv16, revents: bv16)

  /** `PollFd::new`: no descriptor becomes `-1`, which `poll(2)` skips. */
  function NewPollFd(fd: Option<i32>, events: bv16): (p: PollFd)
    ensures fd.Some? ==> p.fd == fd.value
    ensures fd.None? ==> p.fd == -1
    ensures p.events == events && p.revents == 0
  {
    PollFd(if fd.Some? then fd.value else -1, events, 0)
  }

  /** Event bit `b` is set in the mask `x`. */
  predicate HasEvent(x: bv16, b: bv16)
    requires b < 16
  {
    (x >> b) & 1 == 1
  }

  /** Some event is set in both masks. */
  ghost predicate SharesEvent(x: bv16, y: bv16)
  {
    exists b: bv16 :: b < 16 && HasEvent(x, b) && HasEvent(y, b)
  }

  /** `PollFd::test`: some event of `mask` was reported. */
  function Test(p: PollFd, mask: bv16): (r: bool)
    ensures r <==> SharesEvent(p.revents, mask)
  {
    TestMeansSharedEvent(p.revents, mask);
    p.revents & mask != 0
  }

  /** Bit `b` of `x & y` is set exactly when it is set in both. */
  lemma AndHasEvent(x: bv16, y: bv16, b: bv16)
    requires b < 16
    ensures HasEvent(x & y, b) <==> HasEvent(x, b) && HasEvent(y, b)
  {
  }

  /** A mask with a set bit at or above `b` has a lowest such bit. */
  lemma {:induction false} SomeEventFrom(x: bv16, b: bv16)
    requires b <= 16 && x >> b != 0
    ensures exists i: bv16 :: b <= i < 16 && HasEvent(x, i)
    decreases 16 - b as int
  {
    if b == 16 {
      assert false;
    } else if HasEvent(x, b) {
    } else {
      assert x >> (b + 1) == (x >> b) >> 1;
      SomeEventFrom(x, b + 1);
    }
  }

  /** `revents & mask != 0` says exactly that some event is in both. */
  lemma TestMeansSharedEvent(x: bv16, y: bv16)
    ensures x & y != 0 <==> SharesEvent(x, y)
  {
    if x & y != 0 {
      assert (x & y) >> 0 == x & y;
      SomeEventFrom(x & y, 0);
      var i: bv16 :| i < 16 && HasEvent(x & y, i);
      AndHasEvent(x, y, i);
    }
    if SharesEvent(x, y) {
      var i: bv16 :| i < 16 && HasEvent(x, i) && HasEvent(y, i);
      AndHasEvent(x, y, i);
      assert ((x & y) >> i) & 1 == 1;
    }
  }

  /** A descriptor fresh from `PollFd::new` reports nothing. */
  lemma FreshReportsNothing(fd: Option<i32>, events: bv16, mask: bv16)
    ensures !Test(NewPollFd(fd, events), mask)
  {
  }

  /** Testing one event bit reads exactly that bit of `revents`. */
  lemma TestSingleEvent(p: PollFd, b: bv16)
    requires b < 16
    ensures Test(p, 1 << b) <==> (p.revents >> b) & 1 == 1
  {
  }
}
