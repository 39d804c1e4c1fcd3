// Every interleaving of the clock thread, the base-rate thread and the main
// thread, one shared access at a time.

module SchedulerRuns {
  import opened Options
  import opened Wire
  import opened Scheduler

  // ---------- The machine ----------

  datatype BasePc = Starting | AtTest | AtWait | AtCheck | AtStep | AtFlag | Exited
  datatype MainPc = AwaitingStop | AtTerminate | Joining | Finished

  datatype System = System(
    clock: Clock,           // the callback's own state
    pending: seq<Action>,   // what is left of the callback in progress
    spinning: bool,         // the clock thread still takes messages
    base: BasePc,
    main: MainPc,
    run: bool,              // mRunModel
    error: bool,            // the model reports an error
    sem: uint32,            // the base-rate semaphore
    tick: uint32,           // clockTick0
    t: real,                // the model time
    // history
    releases: seq<uint64>,  // the stamps that issued a token
    extras: nat,            // tokens issued by a miss or by terminate
    waits: nat,             // waits completed
    times: seq<real>)       // the model time each step has read

  const START: System :=
    System(FIRST_CLOCK, [], true, Starting, AwaitingStop, true, false, 0, 0, 0.0, [], 0, 0, [])

  datatype Event =
    | ClockMessage(stamp: Stamp) | ClockAct | SpinReturns
    | BaseMove
    | MainMove
    | ModelFails

  function Act(s: System): System
    requires s.pending != []
  {
    var rest := s.(pending := s.pending[1..]);
    match s.pending[0]
    case SetRun(b) => rest.(run := b)
    case Release(m) => rest.(sem := Plus1(s.sem), releases := s.releases + [m])
    case AbortNotify => rest.(sem := Plus1(s.sem), extras := s.extras + 1)
    case ReadRun => rest.(clock := ReadBack(s.clock, s.run))
  }

  /** One atomic step of the base-rate thread. */
  function Base(s: System): Option<System> {
    match s.base
    case Starting => Some(s.(run := !s.error, base := AtTest))
    case AtTest => Some(s.(base := if s.run then AtWait else Exited))
    case AtWait =>
      if Taken(s.sem).None? then None
      else Some(s.(sem := Taken(s.sem).value, waits := s.waits + 1, base := AtCheck))
    case AtCheck => Some(s.(base := if s.run then AtStep else Exited))
    case AtStep =>
      Some(s.(times := s.times + [s.t], tick := Plus1(s.tick), t := TimeAt(Plus1(s.tick)), base := AtFlag))
    case AtFlag => Some(s.(run := !s.error, base := AtTest))
    case Exited => None
  }

  /** One atomic step of the main thread: it wakes once the clock thread is done,
      notifies the base-rate thread once and joins it. */
  function Main(s: System): Option<System> {
    match s.main
    case AwaitingStop => if s.spinning then None else Some(s.(run := false, main := AtTerminate))
    case AtTerminate => Some(s.(sem := Plus1(s.sem), extras := s.extras + 1, main := Joining))
    case Joining => if s.base == Exited then Some(s.(run := false, main := Finished)) else None
    case Finished => None
  }

  function Next(s: System, e: Event): Option<System> {
    match e
    case ClockMessage(m) =>
      if s.spinning && s.pending == [] then
        var (c, actions) := OnClock(s.clock, m, s.error);
        Some(s.(clock := c, pending := actions))
      else None
    case ClockAct => if s.pending != [] then Some(Act(s)) else None
    case SpinReturns => if s.spinning && s.pending == [] then Some(s.(spinning := false)) else None
    case BaseMove => Base(s)
    case MainMove => Main(s)
    case ModelFails => Some(s.(error := true))
  }

  /** The state after a run; None if some step was not enabled. */
  function Run(s: System, es: seq<Event>): Option<System>
    decreases |es|
  {
    if es == [] then Some(s)
    else
      match Next(s, es[0])
      case None => None
      case Some(s') => Run(s', es[1..])
  }

  /** Every clock message is later than the one before; last is the latest so far. */
  predicate Increasing(es: seq<Event>, last: int) {
    es == [] ||
    if es[0].ClockMessage? then LongTime(es[0].stamp) > last && Increasing(es[1..], LongTime(es[0].stamp))
    else Increasing(es[1..], last)
  }

  // ---------- Tokens are conserved and the model time is a count ----------

  function Issued(s: System): nat { |s.releases| + s.extras }

  ghost predicate TokensBalance(s: System) {
    Issued(s) < TWO_32 ==> s.sem + s.waits == Issued(s)
  }

  /** A wait completed leads to at most one step. */
  ghost predicate StepsCounted(s: System) {
    && |s.times| + (if s.base == AtCheck || s.base == AtStep then 1 else 0) <= s.waits
    && s.tick == |s.times| % TWO_32
    && s.t == TimeAt(s.tick)
    && forall k :: 0 <= k < |s.times| ==> s.times[k] == TimeAt(k % TWO_32)
  }

  lemma TokensBalanceStep(s: System, e: Event)
    requires TokensBalance(s) && Next(s, e).Some?
    ensures TokensBalance(Next(s, e).value)
  {
    hide OnClock, Plus1;
    TokenStep(s.sem, s.waits, Issued(s));
  }

  /** One more token waits, unless the 32-bit counter has wrapped. */
  lemma TokenStep(sem: uint32, waits: nat, issued: nat)
    ensures issued < TWO_32 ==> sem + waits == issued ==>
      (issued + 1 < TWO_32 ==> Plus1(sem) + waits == issued + 1)
  {
  }

  /** Only the base-rate thread touches its own place, its waits and the model time. */
  lemma OnlyBaseSteps(s: System, e: Event)
    requires !e.BaseMove? && Next(s, e).Some?
    ensures var s' := Next(s, e).value;
      s'.times == s.times && s'.tick == s.tick && s'.t == s.t && s'.base == s.base && s'.waits == s.waits
  {
    hide OnClock, Base, Plus1;
  }

  lemma StepsCountedBase(s: System)
    requires StepsCounted(s) && Base(s).Some?
    ensures StepsCounted(Base(s).value)
  {
    hide Plus1;
    TickStep(|s.times|);
  }

  lemma StepsCountedStep(s: System, e: Event)
    requires StepsCounted(s) && Next(s, e).Some?
    ensures StepsCounted(Next(s, e).value)
  {
    hide OnClock, Plus1, Act, Base, Main;
    if e.BaseMove? {
      StepsCountedBase(s);
    } else {
      OnlyBaseSteps(s, e);
    }
  }

  lemma TickStep(n: nat)
    ensures Plus1(n % TWO_32) == (n + 1) % TWO_32
  {
  }

  /** In every interleaving: tokens issued are tokens waiting plus waits completed, and
      the n-th model step reads the time n * stepSize (up to the 32-bit tick). */
  lemma {:induction false} TokensAndTimes(s: System, es: seq<Event>)
    requires TokensBalance(s) && StepsCounted(s) && Run(s, es).Some?
    ensures TokensBalance(Run(s, es).value) && StepsCounted(Run(s, es).value)
    decreases |es|
  {
    hide TokensBalance, StepsCounted, Next;
    if es != [] {
      TokensBalanceStep(s, es[0]);
      StepsCountedStep(s, es[0]);
      TokensAndTimes(Next(s, es[0]).value, es[1..]);
    }
  }

  // ---------- Slots ----------

  /** The releases among the actions still to be done. */
  function Coming(actions: seq<Action>): seq<uint64> {
    if actions == [] then []
    else (if actions[0].Release? then [actions[0].stamp] else []) + Coming(actions[1..])
  }

  /** Every release so far, the one in progress included. */
  function AllReleases(s: System): seq<uint64> { s.releases + Coming(s.pending) }

  ghost predicate OnGrid(all: seq<uint64>) {
    && (all != [] ==> all[0] % SECOND == 0)
    && forall k :: 0 < k < |all| ==> all[k] == all[k - 1] + SLOT
  }

  /** The callback expects the slot after the last release; last is the latest stamp. */
  ghost predicate ExpectsNext(c: Clock, all: seq<uint64>, last: int) {
    && OnGrid(all)
    && (c.waiting <==> all != [])
    && (c.waiting ==> c.state == 0 && c.nextSlot == all[|all| - 1] + SLOT && all[|all| - 1] <= last)
  }

  lemma {:induction false} GridMultiples(all: seq<uint64>, k: nat)
    requires OnGrid(all) && k < |all|
    ensures all[k] == all[0] + k * SLOT
    ensures all[k] % SLOT == 0
    decreases k
  {
    if k == 0 {
      SecondsAreSlots(all[0]);
    } else {
      GridMultiples(all, k - 1);
      NextMultiple(all[k - 1]);
    }
  }

  lemma SecondsAreSlots(a: nat)
    requires a % SECOND == 0
    ensures a % SLOT == 0
  {
    assert a == SECOND * (a / SECOND);
  }

  lemma NextMultiple(a: nat)
    requires a % SLOT == 0
    ensures (a + SLOT) % SLOT == 0
  {
    assert a + SLOT == SLOT * (a / SLOT + 1);
  }

  /** What a later message does, exactly: it releases the expected slot if it carries
      that very time, misses it if it carries a later one, and does nothing otherwise. */
  lemma SlotDecision(c: Clock, all: seq<uint64>, last: int, m: Stamp, error: bool)
    requires ExpectsNext(c, all, last) && c.waiting && !c.terminated && LongTime(m) > last
    ensures var (c', actions) := OnClock(c, m, error);
      && (LongTime(m) == c.nextSlot <==> actions == [Release(c.nextSlot)])
      && (LongTime(m) > c.nextSlot <==> actions == [SetRun(false), AbortNotify])
      && (LongTime(m) < c.nextSlot <==> actions == [])
      && (c'.terminated <==> LongTime(m) > c.nextSlot)
      && c'.waiting && c'.state == 0
      && c'.nextSlot == if LongTime(m) == c.nextSlot then c.nextSlot + SLOT else c.nextSlot
  {
    var n := |all| - 1;
    GridMultiples(all, n);
    assert LongTime(m) % SLOT == m.nsec % SLOT by {
      assert LongTime(m) == m.nsec + SLOT * (100 * m.sec);
    }
    assert c.nextSlot % SLOT == 0;
    if LongTime(m) <= c.nextSlot && m.nsec % SLOT == 0 {
      SameMultiple(c.nextSlot, LongTime(m));
    }
  }

  lemma SameMultiple(a: nat, b: nat)
    requires a % SLOT == 0 && b % SLOT == 0 && a - SLOT < b <= a
    ensures a == b
  {
    assert a == SLOT * (a / SLOT) && b == SLOT * (b / SLOT);
  }

  ghost predicate OnTime(s: System, last: int) {
    ExpectsNext(s.clock, AllReleases(s), last) && (s.clock.waiting || s.clock.state <= 1)
  }

  lemma ActKeepsReleases(s: System)
    requires s.pending != []
    ensures AllReleases(Act(s)) == AllReleases(s)
  {
    var a := s.pending[0];
    if a.Release? {
      assert s.releases + ([a.stamp] + Coming(s.pending[1..])) == (s.releases + [a.stamp]) + Coming(s.pending[1..]);
    } else {
      assert [] + Coming(s.pending[1..]) == Coming(s.pending[1..]);
    }
  }

  lemma NoneComing()
    ensures Coming([]) == []
    ensures Coming([SetRun(false), AbortNotify]) == []
    ensures forall b :: Coming([SetRun(b), ReadRun]) == []
    ensures forall m: uint64 :: Coming([Release(m)]) == [m]
  {
    assert [ReadRun][1..] == [] && Coming([ReadRun]) == [];
    assert forall b :: [SetRun(b), ReadRun][1..] == [ReadRun];
    assert forall m: uint64 :: [Release(m)][1..] == [];
    assert [SetRun(false), AbortNotify][1..] == [AbortNotify] && [AbortNotify][1..] == [];
  }

  lemma GridGrows(c: Clock, all: seq<uint64>, last: int)
    requires ExpectsNext(c, all, last) && c.waiting
    ensures OnGrid(all + [c.nextSlot])
  {
  }

  lemma LaterOnTime(c: Clock, all: seq<uint64>, last: int, m: Stamp, error: bool)
    requires ExpectsNext(c, all, last) && c.waiting && !c.terminated && LongTime(m) > last
    ensures var (c', actions) := OnClock(c, m, error);
      ExpectsNext(c', all + Coming(actions), LongTime(m)) && c'.waiting
  {
    hide OnClock, LongTime, OnGrid;
    SlotDecision(c, all, last, m, error);
    NoneComing();
    GridGrows(c, all, last);
    assert all + [] == all;
  }

  lemma StartOnTime(c: Clock, last: int, m: Stamp, error: bool)
    requires ExpectsNext(c, [], last) && c.state <= 1 && !c.terminated
    ensures var (c', actions) := OnClock(c, m, error);
      ExpectsNext(c', Coming(actions), LongTime(m)) && (c'.waiting || c'.state <= 1)
  {
    NoneComing();
    if m.nsec == 0 {
      assert LongTime(m) == SECOND * m.sec;
    }
  }

  /** One message at the callback: nothing, or exactly one more release. */
  lemma CallbackOnTime(c: Clock, all: seq<uint64>, last: int, m: Stamp, error: bool)
    requires ExpectsNext(c, all, last) && (c.waiting || c.state <= 1) && LongTime(m) > last
    ensures var (c', actions) := OnClock(c, m, error);
      ExpectsNext(c', all + Coming(actions), LongTime(m)) && (c'.waiting || c'.state <= 1)
  {
    if c.terminated {
      NoneComing();
      assert all + [] == all;
    } else if c.waiting {
      LaterOnTime(c, all, last, m, error);
    } else {
      StartOnTime(c, last, m, error);
      var actions := OnClock(c, m, error).1;
      assert all + Coming(actions) == Coming(actions);
    }
  }

  lemma OnTimeStep(s: System, last: int, e: Event)
    requires OnTime(s, last) && Next(s, e).Some?
    requires e.ClockMessage? ==> LongTime(e.stamp) > last
    ensures OnTime(Next(s, e).value, if e.ClockMessage? then LongTime(e.stamp) else last)
  {
    hide OnClock, ExpectsNext, Coming;
    NoneComing();
    match e
    case ClockMessage(m) =>
      assert s.releases + [] == s.releases;
      CallbackOnTime(s.clock, AllReleases(s), last, m, s.error);
    case ClockAct =>
      ActKeepsReleases(s);
      StillExpects(s.clock, AllReleases(s), last, s.run);
    case _ =>
  }

  lemma StillExpects(c: Clock, all: seq<uint64>, last: int, run: bool)
    requires ExpectsNext(c, all, last)
    ensures ExpectsNext(ReadBack(c, run), all, last)
  {
    hide OnGrid;
  }

  lemma {:induction false} OnTimeRun(s: System, last: int, es: seq<Event>)
    requires OnTime(s, last) && Increasing(es, last) && Run(s, es).Some?
    ensures exists last' :: OnTime(Run(s, es).value, last')
    decreases |es|
  {
    if es == [] {
      assert OnTime(Run(s, es).value, last);
    } else {
      var e := es[0];
      OnTimeStep(s, last, e);
      OnTimeRun(Next(s, e).value, if e.ClockMessage? then LongTime(e.stamp) else last, es[1..]);
    }
  }

  /** For strictly increasing clock stamps, in every interleaving: the k-th token is
      issued exactly at start + k * 10 ms, and start is a whole second. */
  lemma SlotsOnTime(es: seq<Event>, k: nat)
    requires Increasing(es, -1) && Run(START, es).Some?
    requires k < |Run(START, es).value.releases|
    ensures var r := Run(START, es).value.releases;
            r[0] % SECOND == 0 && r[k] == r[0] + k * SLOT
  {
    OnTimeRun(START, -1, es);
    var s := Run(START, es).value;
    var last :| OnTime(s, last);
    GridMultiples(AllReleases(s), k);
    assert AllReleases(s)[k] == s.releases[k] && AllReleases(s)[0] == s.releases[0];
  }

  /** The time that the k-th step reads is the offset of the stamp that issued the
      k-th token (in nanoseconds), for as long as the 32-bit tick has not wrapped. */
  lemma StepTimeIsStampOffset(es: seq<Event>, k: nat)
    requires Increasing(es, -1) && Run(START, es).Some?
    requires var s := Run(START, es).value; k < |s.times| && k < |s.releases| && k < TWO_32
    ensures var s := Run(START, es).value;
            s.times[k] * 1_000_000_000.0 == (s.releases[k] as int - s.releases[0] as int) as real
  {
    hide Run, Increasing, TimeAt, TokensBalance;
    StartCounts();
    TokensAndTimes(START, es);
    SlotsOnTime(es, k);
    OffsetOfTick(k);
    var s := Run(START, es).value;
    assert s.releases[k] as int - s.releases[0] as int == k * SLOT;
  }

  lemma StartCounts()
    ensures TokensBalance(START) && StepsCounted(START)
  {
  }

  lemma OffsetOfTick(k: uint32)
    ensures k % TWO_32 == k
    ensures TimeAt(k) * 1_000_000_000.0 == (k * SLOT) as real
  {
    assert (k * SLOT) as real == k as real * 10_000_000.0;
  }

  /** Without a miss or a shutdown every step has its own slot. */
  lemma EveryStepHasASlot(es: seq<Event>)
    requires Run(START, es).Some?
    requires var s := Run(START, es).value; s.extras == 0 && Issued(s) < TWO_32
    ensures var s := Run(START, es).value; |s.times| <= |s.releases|
  {
    TokensAndTimes(START, es);
  }

  // ---------- After a miss ----------

  /** Tokens that may still start a step: waiting, taken, on their way, or to come from terminate. */
  function StepsLeft(s: System): nat {
    s.sem + (if s.base == AtCheck || s.base == AtStep then 1 else 0) + Notifies(s.pending)
    + (if s.main == AwaitingStop || s.main == AtTerminate then 1 else 0)
  }

  lemma NoMoreReleases(s: System, e: Event)
    requires s.clock.terminated && Next(s, e).Some?
    ensures Next(s, e).value.clock.terminated && AllReleases(Next(s, e).value) == AllReleases(s)
  {
    hide Coming;
    match e
    case ClockAct => ActKeepsReleases(s);
    case ClockMessage(m) => assert OnClock(s.clock, m, s.error) == (s.clock, []);
    case _ =>
  }

  lemma BaseUsesTokens(s: System)
    requires Base(s).Some?
    ensures var s' := Base(s).value; |s'.times| + StepsLeft(s') <= |s.times| + StepsLeft(s)
  {
    hide Notifies, Plus1;
  }

  lemma ActUsesTokens(s: System)
    requires s.pending != []
    ensures Act(s).times == s.times && StepsLeft(Act(s)) <= StepsLeft(s)
  {
    TokenWraps(s.sem);
  }

  lemma TokenWraps(n: uint32)
    ensures Plus1(n) <= n + 1
  {
  }

  lemma OthersUseTokens(s: System, e: Event)
    requires s.clock.terminated && !e.BaseMove? && Next(s, e).Some?
    ensures var s' := Next(s, e).value; s'.times == s.times && StepsLeft(s') <= StepsLeft(s)
  {
    hide Base, Act, Plus1;
    TokenWraps(s.sem);
    match e
    case ClockMessage(m) => assert OnClock(s.clock, m, s.error) == (s.clock, []);
    case ClockAct => ActUsesTokens(s);
    case _ =>
  }

  lemma StepsLeftShrinks(s: System, e: Event)
    requires s.clock.terminated && Next(s, e).Some?
    ensures var s' := Next(s, e).value; |s'.times| + StepsLeft(s') <= |s.times| + StepsLeft(s)
  {
    hide OnClock, Act, Base, Main, StepsLeft;
    if e.BaseMove? {
      BaseUsesTokens(s);
    } else {
      OthersUseTokens(s, e);
    }
  }

  /** Once a slot is missed, whatever the interleaving and even when the base-rate
      thread overwrites the stop flag: no further slot is released, and the steps that
      still start are bounded by the tokens left. */
  lemma {:induction false} AfterMiss(s: System, es: seq<Event>)
    requires s.clock.terminated && Run(s, es).Some?
    ensures var s' := Run(s, es).value;
      && AllReleases(s') == AllReleases(s)
      && |s'.times| - |s.times| <= StepsLeft(s)
    decreases |es|
  {
    if es != [] {
      NoMoreReleases(s, es[0]);
      StepsLeftShrinks(s, es[0]);
      AfterMiss(Next(s, es[0]).value, es[1..]);
    }
  }

  /** The state right after a missed slot in which the base-rate thread still holds a
      token: the first slot is released and taken, then the second one is missed. */
  function MissRun(): seq<Event> {
    [ClockMessage(Stamp(1, 0)), ClockAct, BaseMove, BaseMove, BaseMove, BaseMove,
     ClockMessage(Stamp(2, 0)), ClockAct]
  }

  lemma AfterMissRun() returns (s: System)
    ensures Run(START, MissRun()) == Some(s)
    ensures s.clock.terminated && !s.run && !s.error && s.base == AtStep
    ensures s.pending == [AbortNotify] && s.times == [] && s.sem == 0
  {
    var a := Next(START, ClockMessage(Stamp(1, 0))).value;
    var b := Act(a);
    var c := Base(Base(Base(Base(b).value).value).value).value;
    assert c.base == AtStep && c.clock.nextSlot == SECOND + SLOT;
    var d := Next(c, ClockMessage(Stamp(2, 0))).value;
    s := Act(d);
  }

  /** The stop flag that a miss clears can be set again by the end of the step in
      progress; the token of the miss itself then starts one more step. */
  lemma StopFlagIsOverwritten()
    ensures var s := Run(START, MissRun());
      && s.Some? && s.value.clock.terminated && !s.value.run && s.value.times == []
      && (var s' := Run(s.value, [BaseMove, BaseMove, ClockAct, BaseMove, BaseMove, BaseMove, BaseMove]);
          s'.Some? && s'.value.run && |s'.value.times| == 2)
  {
    hide OnClock, MissRun;
    var e := AfterMissRun();
    var f := Base(Base(e).value).value;
    assert f.run && f.base == AtTest && |f.times| == 1;
    var g := Act(f);
    var h := Base(Base(Base(Base(g).value).value).value).value;
    assert |h.times| == 2;
  }

  /** The callback has ended the run: it has cleared the flag after a miss, or read it
      cleared, and at most its last notify is left to do. */
  ghost predicate Stopped(s: System) {
    s.clock.terminated && !s.run && (s.pending == [] || s.pending == [AbortNotify])
  }

  /** The base-rate thread is not about to write the flag, or will write that it is off. */
  predicate WillNotRestart(s: System) {
    s.error || s.base !in {Starting, AtStep, AtFlag}
  }

  lemma StaysStoppedStep(s: System, e: Event)
    requires Stopped(s) && WillNotRestart(s) && Next(s, e).Some?
    ensures var s' := Next(s, e).value;
      && Stopped(s') && WillNotRestart(s')
      && (s'.base == AtStep ==> s.base == AtStep && s'.times == s.times)
      && |s'.times| <= |s.times| + (if s.base == AtStep then 1 else 0)
  {
    match e
    case ClockMessage(m) => assert OnClock(s.clock, m, s.error) == (s.clock, []);
    case _ =>
  }

  /** Then the flag stays off in every run, and no step starts but the one already begun. */
  lemma {:induction false} StaysStopped(s: System, es: seq<Event>)
    requires Stopped(s) && WillNotRestart(s) && Run(s, es).Some?
    ensures var s' := Run(s, es).value;
      !s'.run && |s'.times| <= |s.times| + (if s.base == AtStep then 1 else 0)
    decreases |es|
  {
    hide Next, Stopped, WillNotRestart;
    if es != [] {
      StaysStoppedStep(s, es[0]);
      StaysStopped(Next(s, es[0]).value, es[1..]);
    }
    assert !Run(s, es).value.run by {
      if es == [] {
        StoppedIsOff(s);
      }
    }
  }

  lemma StoppedIsOff(s: System)
    requires Stopped(s)
    ensures !s.run
  {
  }

  /** Otherwise the base-rate thread sets it again within two steps of its own. */
  lemma Restarts(s: System) returns (es: seq<Event>)
    requires !s.error && s.base in {Starting, AtStep, AtFlag}
    ensures Run(s, es).Some? && Run(s, es).value.run
  {
    if s.base == AtStep {
      es := [BaseMove, BaseMove];
      assert es[1..] == [BaseMove] && [BaseMove][1..] == [];
      var s' := Base(s).value;
      assert Run(s', [BaseMove]).Some?;
    } else {
      es := [BaseMove];
      assert es[1..] == [];
    }
  }

  /** Exactly when a flag that the callback has cleared stays cleared in every
      interleaving: the model reports an error, or the base-rate thread is not between its
      start or its check of the flag and the write that follows. */
  lemma StopFlagStays(s: System)
    requires Stopped(s)
    ensures (forall es :: Run(s, es).Some? ==> !Run(s, es).value.run) <==> WillNotRestart(s)
  {
    hide Run, Next, Stopped;
    if WillNotRestart(s) {
      forall es | Run(s, es).Some? ensures !Run(s, es).value.run {
        StaysStopped(s, es);
      }
    } else {
      var es := Restarts(s);
    }
  }

  // ---------- Shutdown ----------

  /** Only the base-rate thread and the main thread are left to move. */
  predicate OnlyThreads(es: seq<Event>) { forall e <- es :: e == BaseMove || e == MainMove }

  /** Neither of them can. */
  predicate AtRest(s: System) { Base(s).None? && Main(s).None? }

  /** How many moves are left: five for each token, and those before the next wait. */
  function MovesLeft(s: System): nat {
    var base :=
      match s.base
      case AtCheck => 4
      case AtStep => 3
      case AtFlag => 2
      case Starting => 2
      case AtTest => 1
      case AtWait => 0
      case Exited => 0;
    var main :=
      match s.main
      case AwaitingStop => 8
      case AtTerminate => 7
      case Joining => 1
      case Finished => 0;
    5 * s.sem + base + main
  }

  lemma ThreadMoves(s: System, e: Event)
    requires (e == BaseMove || e == MainMove) && Next(s, e).Some?
    ensures MovesLeft(Next(s, e).value) < MovesLeft(s)
  {
    hide Plus1;
    TokenWraps(s.sem);
  }

  /** Every run of the two threads comes to rest. */
  lemma {:induction false} ThreadsComeToRest(s: System, es: seq<Event>)
    requires OnlyThreads(es) && Run(s, es).Some?
    ensures |es| + MovesLeft(Run(s, es).value) <= MovesLeft(s)
    decreases |es|
  {
    hide MovesLeft, Next;
    if es != [] {
      assert es[0] in es && forall e <- es[1..] :: e in es;
      ThreadMoves(s, es[0]);
      ThreadsComeToRest(Next(s, es[0]).value, es[1..]);
    }
  }

  /** The base-rate thread has exited, or will find the run flag off at its next check. */
  predicate WillExit(s: System) {
    s.base == Exited || s.error || (!s.run && s.base !in {Starting, AtStep, AtFlag})
  }

  /** A thread that will exit, with a token for the one wait that may be in its way. */
  ghost predicate Ending(s: System) {
    && WillExit(s)
    && match s.main
       case AwaitingStop => false
       case AtTerminate => s.sem < TWO_32 - 1
       case Joining => (s.base == AtWait || (s.base == AtTest && s.run)) ==> s.sem >= 1
       case Finished => s.base == Exited
  }

  /** A thread that will go on stepping until its tokens are used up, and then wait. */
  ghost predicate Hanging(s: System) {
    !WillExit(s) && (s.main == AtTerminate || s.main == Joining)
  }

  lemma ThreadsKeep(s: System, e: Event)
    requires (e == BaseMove || e == MainMove) && Next(s, e).Some?
    ensures Ending(s) ==> Ending(Next(s, e).value)
    ensures Hanging(s) ==> Hanging(Next(s, e).value)
  {
  }

  lemma {:induction false} ThreadsKeepAlong(s: System, es: seq<Event>)
    requires OnlyThreads(es) && Run(s, es).Some?
    ensures Ending(s) ==> Ending(Run(s, es).value)
    ensures Hanging(s) ==> Hanging(Run(s, es).value)
    decreases |es|
  {
    hide Ending, Hanging, Next;
    if es != [] {
      assert es[0] in es && forall e <- es[1..] :: e in es;
      ThreadsKeep(s, es[0]);
      ThreadsKeepAlong(Next(s, es[0]).value, es[1..]);
    }
  }

  /** Exactly when terminate ends: every run of the two threads that comes to rest leaves
      the main thread finished if the base-rate thread will exit, and waiting if not. */
  lemma ShutdownEnds(s: System, es: seq<Event>)
    requires s.main == AtTerminate && s.sem < TWO_32 - 1
    requires OnlyThreads(es) && Run(s, es).Some? && AtRest(Run(s, es).value)
    ensures Run(s, es).value.main == Finished <==> WillExit(s)
    ensures Run(s, es).value.main == Finished ==> Run(s, es).value.base == Exited && !Run(s, es).value.run
  {
    hide Run, Next;
    ThreadsKeepAlong(s, es);
    FinishedIsStopped(s, es);
  }

  lemma {:induction false} FinishedIsStopped(s: System, es: seq<Event>)
    requires OnlyThreads(es) && Run(s, es).Some? && (s.main == Finished ==> s.base == Exited && !s.run)
    ensures var s' := Run(s, es).value; s'.main == Finished ==> s'.base == Exited && !s'.run
    decreases |es|
  {
    if es != [] {
      assert es[0] in es && forall e <- es[1..] :: e in es;
      FinishedIsStopped(Next(s, es[0]).value, es[1..]);
    }
  }

  /** The usual shutdown: the clock thread is done while the base-rate thread waits for a
      token that will not come. */
  ghost predicate Idle(s: System) {
    s.main == AwaitingStop && !s.spinning && s.base == AtWait && s.sem == 0
  }

  /** It ends in every run: the main thread stops the run, wakes the thread and joins it. */
  lemma IdleShutdownEnds(s: System, es: seq<Event>)
    requires Idle(s) && OnlyThreads(es) && Run(s, es).Some? && AtRest(Run(s, es).value)
    ensures Run(s, es).value.main == Finished && Run(s, es).value.times == s.times
  {
    assert es != [] && es[0] in es && forall e <- es[1..] :: e in es;
    var s' := Next(s, es[0]).value;
    assert es[0] == MainMove;
    ShutdownEnds(s', es[1..]);
    StoppedTakesNoStep(s', es[1..]);
  }

  lemma {:induction false} StoppedTakesNoStep(s: System, es: seq<Event>)
    requires !s.run && s.base in {AtTest, AtWait, AtCheck, Exited} && OnlyThreads(es) && Run(s, es).Some?
    ensures Run(s, es).value.times == s.times
    decreases |es|
  {
    if es != [] {
      assert es[0] in es && forall e <- es[1..] :: e in es;
      StoppedTakesNoStep(Next(s, es[0]).value, es[1..]);
    }
  }

  // ---------- The first slot ----------

  /** Before the first slot: a message at a whole second releases that very second, any
      other only sets the flag from the error status and reads it back; a callback that has
      terminated does nothing. */
  lemma FirstSlot(c: Clock, m: Stamp, error: bool)
    requires !c.waiting
    ensures var (c', actions) := OnClock(c, m, error);
      && (c.terminated ==> c' == c && actions == [])
      && (!c.terminated && m.nsec == 0 ==>
            actions == [Release(m.sec * 1_000_000_000)] && c'.waiting
            && c'.nextSlot == m.sec * 1_000_000_000 + 10_000_000)
      && (!c.terminated && m.nsec != 0 ==> actions == [SetRun(!error), ReadRun] && !c'.waiting)
      && c'.terminated == c.terminated
  {
  }

  /** A model that reports an error ends the run at the next message before the first slot,
      whatever the base-rate thread does in between. */
  lemma ErrorEndsRun(s: System, m: Stamp, a: seq<Event>)
    requires s.error && !s.clock.waiting && !s.clock.terminated && m.nsec != 0
    requires s.spinning && s.pending == []
    requires forall e <- a :: e == BaseMove
    requires Run(Next(s, ClockMessage(m)).value, [ClockAct] + a + [ClockAct]).Some?
    ensures var s' := Run(Next(s, ClockMessage(m)).value, [ClockAct] + a + [ClockAct]).value;
      s'.clock.terminated && !s'.run && s'.pending == []
  {
    var s1 := Next(s, ClockMessage(m)).value;
    var es := [ClockAct] + a + [ClockAct];
    assert es[1..] == a + [ClockAct];
    StaysOff(Next(s1, ClockAct).value, a);
  }

  lemma {:induction false} StaysOff(s: System, a: seq<Event>)
    requires s.error && !s.run && s.pending == [ReadRun] && forall e <- a :: e == BaseMove
    requires Run(s, a + [ClockAct]).Some?
    ensures var s' := Run(s, a + [ClockAct]).value; s'.clock.terminated && !s'.run && s'.pending == []
    decreases |a|
  {
    if a == [] {
      assert a + [ClockAct] == [ClockAct] && [ClockAct][1..] == [];
    } else {
      assert a[0] in a && forall e <- a[1..] :: e in a;
      assert (a + [ClockAct])[1..] == a[1..] + [ClockAct];
      StaysOff(Next(s, BaseMove).value, a[1..]);
    }
  }

  // ---------- Overruns ----------

  /** The overrun counter counts every slot after the first, whether or not the model kept up. */
  ghost predicate OverrunsCountSlots(s: System) {
    if s.clock.waiting then s.clock.modelRuns && s.clock.overruns + 1 == |AllReleases(s)|
    else s.clock.overruns == 0 && !s.clock.modelRuns && AllReleases(s) == []
  }

  lemma OverrunsMessage(s: System, m: Stamp)
    requires OverrunsCountSlots(s) && s.pending == []
    ensures var (c, actions) := OnClock(s.clock, m, s.error);
      OverrunsCountSlots(s.(clock := c, pending := actions))
  {
    hide Coming, LongTime;
    NoneComing();
    assert s.releases + [] == s.releases;
  }

  lemma OverrunsStep(s: System, e: Event)
    requires OverrunsCountSlots(s) && Next(s, e).Some?
    ensures OverrunsCountSlots(Next(s, e).value)
  {
    hide Coming, OnClock, Plus1;
    match e
    case ClockAct => ActKeepsReleases(s);
    case ClockMessage(m) => OverrunsMessage(s, m);
    case _ =>
  }

  lemma {:induction false} Overruns(s: System, es: seq<Event>)
    requires OverrunsCountSlots(s) && Run(s, es).Some?
    ensures OverrunsCountSlots(Run(s, es).value)
    decreases |es|
  {
    if es != [] {
      OverrunsStep(s, es[0]);
      Overruns(Next(s, es[0]).value, es[1..]);
    }
  }
}
