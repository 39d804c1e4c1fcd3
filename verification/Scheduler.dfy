// The clock-driven scheduler: the clock callback, the counting semaphore and the
// model step as objects changed in place, and the same steps as an interleaved
// machine of three threads.

module Scheduler {
  import opened Options
  import opened Wire

  const SLOT: nat := 10_000_000
  const SECOND: nat := 1_000_000_000

  /** A clock message: seconds and nanoseconds. */
  datatype Stamp = Stamp(sec: uint32, nsec: uint32)

  /** The 64-bit nanosecond count of a stamp; it never overflows. */
  function LongTime(m: Stamp): uint64 { m.sec * SECOND + m.nsec }

  /** What the callback keeps between messages. */
  datatype Clock = Clock(
    terminated: bool, waiting: bool, state: nat, nextSlot: uint64, modelRuns: bool, overruns: nat)

  const FIRST_CLOCK: Clock := Clock(false, false, 1, SLOT, false, 0)

  /** What the callback does to the state it shares with the other threads, in order;
      ReadRun reads the run flag back and terminates the callback if it is off. */
  datatype Action = SetRun(run: bool) | Release(stamp: uint64) | AbortNotify | ReadRun

  /** The callback on one message; error says whether the model reports one. */
  function OnClock(c: Clock, m: Stamp, error: bool): (Clock, seq<Action>) {
    var longTime := LongTime(m);
    if c.terminated then
      (c, [])
    else if c.state == 0 && c.waiting && longTime > c.nextSlot then
      (c.(terminated := true), [SetRun(false), AbortNotify])
    else
      var state := if c.state > 0 then c.state - 1 else c.state;
      if !c.waiting then
        if m.nsec == 0 then
          (c.(waiting := true, state := state, modelRuns := true, nextSlot := (longTime + SLOT) % TWO_64),
           [Release(longTime)])
        else
          (c.(state := state), [SetRun(!error), ReadRun])
      else if m.nsec % SLOT == 0 then
        (c.(state := state, modelRuns := true, overruns := if c.modelRuns then c.overruns + 1 else c.overruns,
            nextSlot := (c.nextSlot + SLOT) % TWO_64),
         [Release(longTime)])
      else
        (c.(state := state), [])
  }

  /** What reading the run flag back leaves of the callback's state. */
  function ReadBack(c: Clock, run: bool): Clock { c.(terminated := c.terminated || !run) }

  // ---------- The semaphore and the model time ----------

  /** One more token on the 32-bit counter, or one more tick. */
  function Plus1(n: uint32): uint32 { (n + 1) % TWO_32 }

  /** The counter after a wait, which needs a token. */
  function Taken(count: uint32): Option<uint32> { if count == 0 then None else Some(count - 1) }

  const STEP_SIZE: real := 0.01

  /** The model time at a tick. */
  function TimeAt(tick: uint32): real { tick as real * STEP_SIZE }

  // ---------- The objects ----------

  /** A counting semaphore on an unsigned 32-bit counter. */
  class Semaphore {
    var count: uint32

    constructor ()
      ensures count == 0
    {
      count := 0;
    }

    method Notify()
      modifies this
      ensures count == Plus1(old(count))
    {
      count := Plus1(count);
    }

    /** Returns only when the counter was positive; blocked tells that it was not. */
    method TryWait() returns (blocked: bool)
      modifies this
      ensures blocked == Taken(old(count)).None?
      ensures count == if blocked then old(count) else Taken(old(count)).value
    {
      blocked := count == 0;
      if !blocked {
        count := count - 1;
      }
    }
  }

  /** The timing part of the generated model. */
  class Model {
    var clockTick0: uint32
    var clockTick1: uint32
    var t: real
    var published: seq<real>

    constructor ()
      ensures clockTick0 == 0 && clockTick1 == 0 && t == 0.0 && published == []
    {
      clockTick0, clockTick1, t, published := 0, 0, 0.0, [];
    }

    /** Publishes what the outputs are at time t, then moves the time on. */
    method Step()
      modifies this
      ensures published == old(published) + [old(t)]
      ensures clockTick0 == Plus1(old(clockTick0)) && clockTick1 == Plus1(old(clockTick1))
      ensures t == TimeAt(clockTick0)
    {
      published := published + [t];
      clockTick0 := Plus1(clockTick0);
      t := clockTick0 as real * STEP_SIZE;
      clockTick1 := Plus1(clockTick1);
    }
  }

  /** The value of the run flag after some actions. */
  function RunAfter(run: bool, actions: seq<Action>): bool
    decreases |actions|
  {
    if actions == [] then run
    else RunAfter(if actions[0].SetRun? then actions[0].run else run, actions[1..])
  }

  /** How many of the actions notify the semaphore. */
  function Notifies(actions: seq<Action>): nat {
    if actions == [] then 0
    else (if actions[0].Release? || actions[0].AbortNotify? then 1 else 0) + Notifies(actions[1..])
  }

  /** What the lists of actions of the callback amount to. */
  lemma ActionEffects(run: bool, b: bool, m: uint64)
    ensures RunAfter(run, []) == run && Notifies([]) == 0
    ensures RunAfter(run, [Release(m)]) == run && Notifies([Release(m)]) == 1
    ensures RunAfter(run, [SetRun(false), AbortNotify]) == false && Notifies([SetRun(false), AbortNotify]) == 1
    ensures RunAfter(run, [SetRun(b), ReadRun]) == b && Notifies([SetRun(b), ReadRun]) == 0
  {
    assert [Release(m)][1..] == [] && [ReadRun][1..] == [] && [AbortNotify][1..] == [];
    assert [SetRun(false), AbortNotify][1..] == [AbortNotify];
    assert [SetRun(b), ReadRun][1..] == [ReadRun];
  }

  class NodeInterface {
    const baseRateSem: Semaphore
    var runModel: bool
    var errorStatus: bool
    var terminated: bool
    var waiting: bool
    var state: nat
    var nextSlot: uint64
    var modelRuns: bool
    var overruns: nat
    var trace: seq<Action>

    ghost function View(): Clock
      reads this
    {
      Clock(terminated, waiting, state, nextSlot, modelRuns, overruns)
    }

    constructor ()
      ensures View() == FIRST_CLOCK && runModel && !errorStatus && trace == []
      ensures fresh(baseRateSem) && baseRateSem.count == 0
    {
      baseRateSem := new Semaphore();
      runModel, errorStatus, trace := true, false, [];
      terminated, waiting, state, nextSlot, modelRuns, overruns := false, false, 1, SLOT, false, 0;
    }

    method Notify(a: Action)
      modifies this`trace, baseRateSem
      ensures trace == old(trace) + [a]
      ensures baseRateSem.count == Plus1(old(baseRateSem.count))
    {
      trace := trace + [a];
      baseRateSem.Notify();
    }

    method SetRunModel(run: bool)
      modifies this`trace, this`runModel
      ensures trace == old(trace) + [SetRun(run)] && runModel == run
    {
      trace := trace + [SetRun(run)];
      runModel := run;
    }

    method ReadRunModel() returns (run: bool)
      modifies this`trace
      ensures trace == old(trace) + [ReadRun] && run == runModel
    {
      trace := trace + [ReadRun];
      run := runModel;
    }

    /** Before the first slot: starts at a whole second, or looks whether the run is over. */
    method Synchronize(m: Stamp, longTime: uint64)
      requires !waiting && !terminated
      modifies this`trace, this`runModel, this`waiting, this`modelRuns, this`nextSlot, this`terminated, baseRateSem
      ensures trace == old(trace) + if m.nsec == 0 then [Release(longTime)] else [SetRun(!errorStatus), ReadRun]
      ensures waiting == (m.nsec == 0)
      ensures if m.nsec == 0 then modelRuns && nextSlot == (longTime + SLOT) % TWO_64 && !terminated
              else modelRuns == old(modelRuns) && nextSlot == old(nextSlot) && terminated == !runModel
      ensures runModel == if m.nsec == 0 then old(runModel) else !errorStatus
      ensures baseRateSem.count == if m.nsec == 0 then Plus1(old(baseRateSem.count)) else old(baseRateSem.count)
    {
      if m.nsec == 0 {
        waiting := true;
        modelRuns := true;
        Notify(Release(longTime));
        nextSlot := (longTime + SLOT) % TWO_64;
      } else {
        SetRunModel(!errorStatus);
        var run := ReadRunModel();
        if !run {
          terminated := true;
        }
      }
    }

    /** The callback keeps what OnClock says and does to the shared state, in order,
        what OnClock says. */
    method RosClockSubscriberCallback(m: Stamp)
      modifies this, baseRateSem
      ensures var (c, actions) := OnClock(old(View()), m, old(errorStatus));
        View() == if ReadRun in actions then ReadBack(c, runModel) else c
      ensures trace == old(trace) + OnClock(old(View()), m, old(errorStatus)).1
      ensures runModel == RunAfter(old(runModel), trace[|old(trace)|..])
      ensures baseRateSem.count == (old(baseRateSem.count) + Notifies(trace[|old(trace)|..])) % TWO_32
      ensures errorStatus == old(errorStatus)
    {
      hide RunAfter, Notifies;
      ghost var before := trace;
      ActionEffects(runModel, !errorStatus, LongTime(m));
      assert trace[|before|..] == [];
      if terminated {
        return;
      }
      var longTime := LongTime(m);
      if state == 0 && waiting {
        if longTime > nextSlot {
          SetRunModel(false);
          Notify(AbortNotify);
          terminated := true;
          assert trace[|before|..] == [SetRun(false), AbortNotify];
          return;
        }
      }
      if !waiting {
        Synchronize(m, longTime);
      } else if m.nsec % SLOT == 0 {
        if modelRuns {
          overruns := overruns + 1;
        }
        modelRuns := true;
        Notify(Release(longTime));
        nextSlot := (nextSlot + SLOT) % TWO_64;
        assert trace[|before|..] == [Release(longTime)];
      }
      if state > 0 {
        state := state - 1;
      }
    }
  }
}
