/** The countdown timer object: the closure state of `useCountdown` as the
    fields of a class, one method per operation of the closure. Every method
    is proved to change the fields exactly as the matching function of module
    `CountdownSpec` changes a `State`. All but `Clear` and `Dispose` also keep
    the timer's invariant; releasing the handle of a running timer leaves its
    running flag set.

    The host's timer facility is reduced to the boolean `hasHandle`: `Start`
    acquires the handle, `Clear` releases it, and the host may call `Tick` only
    while it is held. `AdvanceSeconds` plays the host's part, firing the
    periodic timer once per simulated second.
 */
module UseCountdown {
  import Spec = CountdownSpec

  class Countdown {
    var initialTime: int
    var time: int
    var isRunning: bool
    /** Whether a periodic timer is scheduled on this timer's behalf (the
        interval identifier is non-null). */
    var hasHandle: bool

    /** The abstract state of this timer. */
    function Snapshot(): Spec.State
      reads this
    {
      Spec.State(initialTime, time, isRunning, hasHandle)
    }

    ghost predicate Valid()
      reads this
    {
      Spec.Valid(Snapshot())
    }

    /** A timer of `initialSeconds` seconds, idle and holding no handle. */
    constructor (initialSeconds: int)
      requires 0 <= initialSeconds
      ensures Snapshot() == Spec.Init(initialSeconds)
      ensures Valid()
    {
      initialTime := initialSeconds;
      time := initialSeconds;
      isRunning := false;
      hasHandle := false;
    }

    /** A timer of the default six minutes. */
    constructor Default()
      ensures Snapshot() == Spec.Init(Spec.DefaultSeconds)
      ensures Valid() && time == 360
    {
      initialTime := Spec.DefaultSeconds;
      time := Spec.DefaultSeconds;
      isRunning := false;
      hasHandle := false;
    }

    /** Releases the periodic timer if one is held. */
    method Clear()
      modifies this
      ensures Snapshot() == Spec.Clear(old(Snapshot()))
      ensures !hasHandle
      ensures time == old(time) && isRunning == old(isRunning) && initialTime == old(initialTime)
    {
      if hasHandle {
        hasHandle := false;
      }
    }

    /** The callback the periodic timer invokes once per second. */
    method Tick()
      requires hasHandle
      modifies this
      ensures Snapshot() == Spec.Tick(old(Snapshot()))
      ensures old(Valid()) ==> Valid()
    {
      if time <= 0 {
        Pause();
        time := 0;
        return;
      }

      time := Spec.Max(0, time - 1);

      if time == 0 {
        Pause();
      }
    }

    method Start()
      modifies this
      ensures Snapshot() == Spec.Start(old(Snapshot()))
      ensures old(Valid()) ==> Valid()
      ensures isRunning && hasHandle == (old(hasHandle) || !old(isRunning))
    {
      if isRunning {
        return;
      }

      if time <= 0 {
        time := initialTime;
      }

      isRunning := true;
      hasHandle := true;
    }

    method Pause()
      modifies this
      ensures Snapshot() == Spec.Pause(old(Snapshot()))
      ensures old(Valid()) ==> Valid()
      ensures !isRunning && time == old(time) && initialTime == old(initialTime)
    {
      if !isRunning {
        return;
      }

      isRunning := false;
      Clear();
    }

    method Reset()
      modifies this
      ensures Snapshot() == Spec.Reset(old(Snapshot()))
      ensures old(Valid()) ==> Valid() && !hasHandle
      ensures !isRunning && time == initialTime == old(initialTime)
    {
      Pause();
      time := initialTime;
    }

    method AddTime(seconds: int)
      modifies this
      ensures Snapshot() == Spec.AddTime(old(Snapshot()), seconds)
      ensures old(Valid()) ==> Valid()
    {
      if isRunning {
        return;
      }
      time := Spec.Max(0, time + seconds);
    }

    method SubtractTime(seconds: int)
      modifies this
      ensures Snapshot() == Spec.SubtractTime(old(Snapshot()), seconds)
      ensures old(Valid()) ==> Valid()
    {
      if isRunning {
        return;
      }
      time := Spec.Max(0, time - seconds);
    }

    /** The teardown registered with the owning view: releases any handle
        unconditionally and touches nothing else. A timer torn down while
        running keeps its running flag, so `Valid()` is not promised after it. */
    method Dispose()
      modifies this
      ensures Snapshot() == Spec.Clear(old(Snapshot()))
      ensures !hasHandle
    {
      Clear();
    }

    /** The host's timer facility letting `seconds` seconds pass: each second
        the periodic timer fires if its handle is still held. */
    method AdvanceSeconds(seconds: nat)
      modifies this
      ensures Snapshot() == Spec.ElapseN(old(Snapshot()), seconds)
      ensures old(Valid()) ==> Valid()
    {
      for i := 0 to seconds
        invariant Snapshot() == Spec.ElapseN(old(Snapshot()), i)
      {
        if hasHandle {
          Tick();
        }
      }
      if old(Valid()) {
        Spec.ElapseKeepsValid(old(Snapshot()), seconds);
      }
    }
  }

  /** A timer of `seconds > 0` seconds, started and left to run for `seconds`
      seconds, ends at zero and idle. */
  method StartAndRunOut(seconds: int) returns (time: int, isRunning: bool, hasHandle: bool)
    requires seconds > 0
    ensures time == 0 && !isRunning && !hasHandle
  {
    var c := new Countdown(seconds);
    c.Start();
    Spec.ExpiresAfterTime(c.Snapshot());
    c.AdvanceSeconds(seconds);
    time, isRunning, hasHandle := c.time, c.isRunning, c.hasHandle;
  }

  /** Starting twice in a row leaves the timer as starting once does. */
  method StartTwice(initialSeconds: int) returns (once: Spec.State, twice: Spec.State)
    requires 0 <= initialSeconds
    ensures once == twice && once.isRunning && once.hasHandle
  {
    var a := new Countdown(initialSeconds);
    a.Start();
    once := a.Snapshot();
    var b := new Countdown(initialSeconds);
    b.Start();
    b.Start();
    twice := b.Snapshot();
  }

  /** Adjustments on an idle timer clamp at zero, and are ignored while it runs:
      10 + 30 is 40, 30 - 50 clamps to 0, and adding 30 to a running timer
      changes nothing. */
  method Adjustments() returns (added: int, subtracted: int, whileRunning: int)
    ensures added == 40 && subtracted == 0 && whileRunning == 10
  {
    var a := new Countdown(10);
    a.AddTime(30);
    added := a.time;
    var b := new Countdown(30);
    b.SubtractTime(50);
    subtracted := b.time;
    var c := new Countdown(10);
    c.Start();
    c.AddTime(30);
    whileRunning := c.time;
  }

  /** A timer torn down while running is never ticked afterwards: its remaining
      time stays where the teardown left it. */
  method TeardownWhileRunning(initialSeconds: int, ran: nat, later: nat)
    returns (atTeardown: int, afterwards: int, stillRunning: bool)
    requires ran < initialSeconds
    ensures afterwards == atTeardown == initialSeconds - ran
    ensures stillRunning
  {
    var c := new Countdown(initialSeconds);
    c.Start();
    Spec.RunDown(c.Snapshot(), ran);
    c.AdvanceSeconds(ran);
    c.Dispose();
    atTeardown := c.time;
    Spec.NoTickAfterTeardown(Spec.ElapseN(Spec.Start(Spec.Init(initialSeconds)), ran), later);
    c.AdvanceSeconds(later);
    afterwards := c.time;
    stillRunning := c.isRunning;
  }
}
