// The co-simulation lease: an exclusive right held by one client, renewed by it, and
// ended by it or by a timer whose completions may be delivered late.

module Lease {
  import opened Options

  /** How long a client asks for: whole milliseconds, or without end (infinity, not a number). */
  datatype Duration = Finite(milliseconds: int) | Endless

  /** A finished wait on its way to its handler. */
  datatype Completion = Expired | Aborted

  datatype State = State(
    clientID: string, running: bool,
    expiry: int,                  // when the timer goes off, for all the waits it holds
    armed: nat,                   // how many waits it holds
    queue: seq<Completion>)       // completions not yet handled

  const START: State := State("", false, 0, 0, [])

  // ---------- The timer ----------

  function Aborts(n: nat): seq<Completion> {
    seq(n, _ => Aborted)
  }

  /** Cancelling aborts the waits still held; what is already queued is not recalled. */
  function Cancel(s: State): State {
    s.(armed := 0, queue := s.queue + Aborts(s.armed))
  }

  /** Setting a new expiry time cancels as well, unless it fails. */
  function ExpiresFromNow(s: State, deadline: int, works: bool): State {
    if works then Cancel(s).(expiry := deadline) else s
  }

  function AsyncWait(s: State): State { s.(armed := s.armed + 1) }

  // ---------- The calls ----------

  /** Whether the operations of the timer succeed: cancel, and setting the expiry. */
  datatype TimerWorks = TimerWorks(cancel: bool, expires: bool)

  const ALL_WORK := TimerWorks(true, true)

  function Extend(s: State, id: string, d: Duration, now: int, w: TimerWorks): (State, bool) {
    if id != s.clientID then (s, false)
    else
      var s1 := if w.cancel then Cancel(s) else s;
      match d
      case Endless => (s1, w.cancel)
      case Finite(ms) => (AsyncWait(ExpiresFromNow(s1, now + ms, w.expires)), w.expires)
  }

  function Start(s: State, id: string, d: Duration, now: int, w: TimerWorks): (State, bool) {
    if s.running then Extend(s, id, d, now, w)
    else
      var s1 := s.(clientID := id);
      match d
      case Endless => (s1.(running := true), true)
      case Finite(ms) =>
        if w.expires then (AsyncWait(ExpiresFromNow(s1, now + ms, true).(running := true)), true)
        else (s1, false)
  }

  function Stop(s: State, id: string, w: TimerWorks): (State, bool) {
    if !s.running || s.clientID == id then
      ((if w.cancel then Cancel(s) else s).(running := false), true)
    else (s, false)
  }

  /** The handler of a wait: only an abort leaves the lease alone. */
  function Handle(s: State, c: Completion): State {
    if c == Expired then s.(running := false) else s
  }

  // ---------- The object ----------

  class CoSimulationStatus {
    var clientID: string
    var running: bool
    var expiry: int
    var armed: nat
    var queue: seq<Completion>

    ghost function View(): State
      reads this
    {
      State(clientID, running, expiry, armed, queue)
    }

    constructor ()
      ensures View() == START
    {
      clientID, running, expiry, armed, queue := "", false, 0, 0, [];
    }

    method CancelTimer(works: bool) returns (failed: bool)
      modifies this`armed, this`queue
      ensures View() == (if works then Cancel(old(View())) else old(View())) && failed == !works
    {
      failed := !works;
      if works {
        queue := queue + Aborts(armed);
        armed := 0;
      }
    }

    method SetTimer(deadline: int, works: bool) returns (failed: bool)
      modifies this`expiry, this`armed, this`queue
      ensures View() == ExpiresFromNow(old(View()), deadline, works) && failed == !works
    {
      failed := CancelTimer(works);
      if works {
        expiry := deadline;
      }
    }

    method StartTimer()
      modifies this`armed
      ensures View() == AsyncWait(old(View()))
    {
      armed := armed + 1;
    }

    method ExtendLease(id: string, d: Duration, now: int, w: TimerWorks) returns (granted: bool)
      modifies this
      ensures (View(), granted) == Extend(old(View()), id, d, now, w)
    {
      if id == clientID {
        var failed := CancelTimer(w.cancel);
        if d.Finite? {
          failed := SetTimer(now + d.milliseconds, w.expires);
          StartTimer();
        }
        granted := !failed;
      } else {
        granted := false;
      }
    }

    method StartLease(id: string, d: Duration, now: int, w: TimerWorks) returns (granted: bool)
      modifies this
      ensures (View(), granted) == Start(old(View()), id, d, now, w)
    {
      if running {
        granted := ExtendLease(id, d, now, w);
        return;
      }
      clientID := id;
      if d.Finite? {
        var failed := SetTimer(now + d.milliseconds, w.expires);
        if failed {
          return false;
        }
        running := true;
        StartTimer();
      } else {
        running := true;
      }
      granted := true;
    }

    method StopLease(id: string, w: TimerWorks) returns (stopped: bool)
      modifies this
      ensures (View(), stopped) == Stop(old(View()), id, w)
    {
      if !running || clientID == id {
        var ignored := CancelTimer(w.cancel);
        running := false;
        stopped := true;
      } else {
        stopped := false;
      }
    }

    method OnTimer(c: Completion)
      modifies this`running
      ensures View() == Handle(old(View()), c)
    {
      if c != Aborted {
        running := false;
      }
    }
  }

  // ---------- Every order and delay of completions ----------

  datatype Event =
    | CallStart(id: string, duration: Duration, works: TimerWorks)
    | CallStop(id: string, works: TimerWorks)
    | Advance(elapsed: nat)   // time passes
    | Expire                  // the timer notices that it is due
    | Deliver(i: nat)         // the i-th queued completion reaches its handler

  datatype World = World(lease: State, now: int)

  const FIRST_WORLD: World := World(START, 0)

  function Next(w: World, e: Event): World {
    match e
    case CallStart(id, d, t) => w.(lease := Start(w.lease, id, d, w.now, t).0)
    case CallStop(id, t) => w.(lease := Stop(w.lease, id, t).0)
    case Advance(n) => w.(now := w.now + n)
    case Expire =>
      if w.lease.armed > 0 && w.lease.expiry <= w.now then
        w.(lease := w.lease.(armed := w.lease.armed - 1, queue := w.lease.queue + [Expired]))
      else w
    case Deliver(i) =>
      if i < |w.lease.queue| then
        w.(lease := Handle(w.lease, w.lease.queue[i]).(queue := w.lease.queue[..i] + w.lease.queue[i + 1..]))
      else w
  }

  function Run(w: World, es: seq<Event>): World
    decreases |es|
  {
    if es == [] then w else Run(Next(w, es[0]), es[1..])
  }

  /** The lease runs before and after every step. */
  predicate RunsThroughout(w: World, es: seq<Event>)
    decreases |es|
  {
    w.lease.running && (es == [] || RunsThroughout(Next(w, es[0]), es[1..]))
  }

  /** Exclusivity: while the lease keeps running, whatever calls are made, whatever
      completions arrive and whether or not the timer works, its owner is the same, and
      what others ask for is refused and changes nothing. */
  lemma {:induction false} OwnerIsStable(w: World, es: seq<Event>, id: string, d: Duration, t: TimerWorks)
    requires RunsThroughout(w, es) && id != w.lease.clientID
    ensures var w' := Run(w, es);
      && w'.lease.clientID == w.lease.clientID
      && Start(w'.lease, id, d, w'.now, t) == (w'.lease, false)
      && Stop(w'.lease, id, t) == (w'.lease, false)
    decreases |es|
  {
    if es != [] {
      OwnerIsStable(Next(w, es[0]), es[1..], id, d, t);
    }
  }

  /** When a step arms a second wait: only a renewal where the timer fails twice. */
  lemma SecondWait(w: World, e: Event)
    requires w.lease.armed <= 1
    ensures Next(w, e).lease.armed <= 1 <==>
      !(&& e.CallStart? && w.lease.running && e.id == w.lease.clientID && e.duration.Finite?
        && w.lease.armed == 1 && !e.works.cancel && !e.works.expires)
  {
  }

  /** One of the two operations that cancel succeeds in every call. */
  predicate NeverFailsTwice(es: seq<Event>) {
    forall e <- es :: e.CallStart? ==> e.works.cancel || e.works.expires
  }

  /** At most one wait is armed in every reachable state, however completions are delayed. */
  lemma {:induction false} AtMostOneArmed(w: World, es: seq<Event>)
    requires w.lease.armed <= 1 && NeverFailsTwice(es)
    ensures Run(w, es).lease.armed <= 1
    decreases |es|
  {
    if es != [] {
      SecondWait(w, es[0]);
      AtMostOneArmed(Next(w, es[0]), es[1..]);
    }
  }

  /** A late expiry can end a lease that its owner has renewed in the meantime: its
      completion was queued before the renewal, and it leaves the new wait armed. */
  lemma LateExpiryEndsRenewedLease(id: string)
    ensures var es := [CallStart(id, Finite(1), ALL_WORK), Advance(1), Expire,
                       CallStart(id, Finite(9), ALL_WORK), Deliver(0)];
      var w := Run(FIRST_WORLD, es);
      !w.lease.running && w.lease.armed == 1 && w.lease.expiry == 10 && w.now == 1
  {
    var es := [CallStart(id, Finite(1), ALL_WORK), Advance(1), Expire,
               CallStart(id, Finite(9), ALL_WORK), Deliver(0)];
    var a := Next(FIRST_WORLD, es[0]);
    var b := Next(a, es[1]);
    var c := Next(b, es[2]);
    assert c.lease.queue == [Expired] && c.lease.armed == 0;
    var d := Next(c, es[3]);
    assert d.lease.queue == [Expired] && d.lease.armed == 1;
    assert es[1..][1..] == es[2..] && es[2..][1..] == es[3..] && es[3..][1..] == es[4..] && es[4..][1..] == [];
    assert Run(d, es[4..]) == Next(d, es[4]);
    assert Run(c, es[3..]) == Run(d, es[4..]);
    assert Run(b, es[2..]) == Run(c, es[3..]);
  }

  // ---------- Prompt delivery: the abstract lease ----------

  /** Nobody, or one owner until a deadline (None: without end). */
  datatype Abstract = Free | Held(owner: string, until: Option<int>)

  /** The abstract lease as it stands at time now. */
  function At(a: Abstract, now: int): Abstract {
    if a.Held? && a.until.Some? && a.until.value <= now then Free else a
  }

  function Deadline(d: Duration, now: int): Option<int> {
    match d { case Endless => None case Finite(ms) => Some(now + ms) }
  }

  function AbstractStart(a: Abstract, id: string, d: Duration, now: int): (Abstract, bool) {
    match At(a, now)
    case Free => (Held(id, Deadline(d, now)), true)
    case Held(owner, _) => if owner == id then (Held(id, Deadline(d, now)), true) else (a, false)
  }

  function AbstractStop(a: Abstract, id: string, now: int): (Abstract, bool) {
    match At(a, now)
    case Free => (Free, true)
    case Held(owner, _) => if owner == id then (Free, true) else (a, false)
  }

  function Expiries(q: seq<Completion>): nat {
    if q == [] then 0 else (if q[0] == Expired then 1 else 0) + Expiries(q[1..])
  }

  /** Due completions have been delivered. */
  predicate Prompt(w: World) {
    Expiries(w.lease.queue) == 0 && (w.lease.armed > 0 ==> w.lease.expiry > w.now)
  }

  /** The lease stands for the abstract one: its wait is armed, or due and on its way, or
      due and handled. */
  ghost predicate Refines(w: World, a: Abstract) {
    var s := w.lease;
    match a
    case Free => !s.running && s.armed == 0 && Expiries(s.queue) == 0
    case Held(owner, None) =>
      s.running && s.clientID == owner && s.armed == 0 && Expiries(s.queue) == 0
    case Held(owner, Some(d)) =>
      && s.clientID == owner
      && (|| (s.running && s.armed == 1 && s.expiry == d && Expiries(s.queue) == 0)
          || (s.running && s.armed == 0 && Expiries(s.queue) == 1 && d <= w.now)
          || (!s.running && s.armed == 0 && Expiries(s.queue) == 0 && d <= w.now))
  }

  lemma {:induction false} ExpiriesAppend(p: seq<Completion>, q: seq<Completion>)
    ensures Expiries(p + q) == Expiries(p) + Expiries(q)
  {
    if p == [] {
      assert p + q == q;
    } else {
      assert (p + q)[1..] == p[1..] + q;
      ExpiriesAppend(p[1..], q);
    }
  }

  lemma {:induction false} NoExpiries(n: nat)
    ensures Expiries(Aborts(n)) == 0
  {
    if n > 0 {
      assert Aborts(n)[1..] == Aborts(n - 1);
      NoExpiries(n - 1);
    }
  }

  lemma CancelKeepsExpiries(s: State)
    ensures Expiries(Cancel(s).queue) == Expiries(s.queue)
  {
    ExpiriesAppend(s.queue, Aborts(s.armed));
    NoExpiries(s.armed);
  }

  lemma Removed(q: seq<Completion>, i: nat)
    requires i < |q|
    ensures Expiries(q[..i] + q[i + 1..]) == Expiries(q) - if q[i] == Expired then 1 else 0
  {
    assert q == q[..i] + ([q[i]] + q[i + 1..]);
    ExpiriesAppend(q[..i], [q[i]] + q[i + 1..]);
    ExpiriesAppend([q[i]], q[i + 1..]);
    ExpiriesAppend(q[..i], q[i + 1..]);
    assert [q[i]][1..] == [];
  }

  /** When due completions have been delivered, the running flag is exactly "somebody
      holds the lease now", and a lease that does not run has no wait armed. */
  lemma PromptFlag(w: World, a: Abstract)
    requires Refines(w, a) && Prompt(w)
    ensures w.lease.running <==> At(a, w.now).Held?
    ensures w.lease.running ==> w.lease.clientID == At(a, w.now).owner
    ensures !w.lease.running ==> w.lease.armed == 0
  {
  }

  lemma StartRefines(w: World, a: Abstract, id: string, d: Duration)
    requires Refines(w, a) && Prompt(w)
    ensures var (s, granted) := Start(w.lease, id, d, w.now, ALL_WORK);
      var (a', granted') := AbstractStart(a, id, d, w.now);
      granted == granted' && Refines(w.(lease := s), a')
  {
    PromptFlag(w, a);
    CancelKeepsExpiries(w.lease);
    CancelKeepsExpiries(Cancel(w.lease));
    CancelKeepsExpiries(w.lease.(clientID := id));
  }

  lemma StopRefines(w: World, a: Abstract, id: string)
    requires Refines(w, a) && Prompt(w)
    ensures var (s, stopped) := Stop(w.lease, id, ALL_WORK);
      var (a', stopped') := AbstractStop(a, id, w.now);
      stopped == stopped' && Refines(w.(lease := s), a')
  {
    PromptFlag(w, a);
    CancelKeepsExpiries(w.lease);
  }

  lemma TimerRefines(w: World, a: Abstract, e: Event)
    requires Refines(w, a) && (e.Advance? || e.Expire? || e.Deliver?)
    ensures Refines(Next(w, e), a)
  {
    match e
    case Advance(_) =>
    case Expire => ExpiriesAppend(w.lease.queue, [Expired]);
    case Deliver(i) =>
      if i < |w.lease.queue| {
        Removed(w.lease.queue, i);
      }
  }

  /** The abstract lease after a run. */
  function AbstractRun(a: Abstract, w: World, es: seq<Event>): Abstract
    decreases |es|
  {
    if es == [] then a
    else
      var a' :=
        match es[0]
        case CallStart(id, d, _) => AbstractStart(a, id, d, w.now).0
        case CallStop(id, _) => AbstractStop(a, id, w.now).0
        case _ => a;
      AbstractRun(a', Next(w, es[0]), es[1..])
  }

  /** Calls are only made once due completions have been delivered, and the timer works. */
  predicate PromptRun(w: World, es: seq<Event>)
    decreases |es|
  {
    es == [] ||
    (&& ((es[0].CallStart? || es[0].CallStop?) ==> Prompt(w) && es[0].works == ALL_WORK)
     && PromptRun(Next(w, es[0]), es[1..]))
  }

  /** Main theorem: with prompt delivery, over every run, the object with its timer and
      its queue is the abstract lease. */
  lemma {:induction false} LeaseRefinesAbstract(w: World, a: Abstract, es: seq<Event>)
    requires Refines(w, a) && PromptRun(w, es)
    ensures Refines(Run(w, es), AbstractRun(a, w, es))
    decreases |es|
  {
    if es != [] {
      var w' := Next(w, es[0]);
      match es[0]
      case CallStart(id, d, _) =>
        StartRefines(w, a, id, d);
        LeaseRefinesAbstract(w', AbstractStart(a, id, d, w.now).0, es[1..]);
      case CallStop(id, _) =>
        StopRefines(w, a, id);
        LeaseRefinesAbstract(w', AbstractStop(a, id, w.now).0, es[1..]);
      case _ =>
        TimerRefines(w, a, es[0]);
        LeaseRefinesAbstract(w', a, es[1..]);
    }
  }

  /** The running flag at the end of such a run, once due completions have been delivered:
      set exactly while the last grant or renewal covers the present and its owner has not
      stopped it since. */
  lemma RunningMeansHeld(es: seq<Event>)
    requires PromptRun(FIRST_WORLD, es) && Prompt(Run(FIRST_WORLD, es))
    ensures var w := Run(FIRST_WORLD, es);
      var held := At(AbstractRun(Free, FIRST_WORLD, es), w.now);
      && (w.lease.running <==> held.Held?)
      && (w.lease.running ==> w.lease.clientID == held.owner)
      && (!w.lease.running ==> w.lease.armed == 0)
  {
    LeaseRefinesAbstract(FIRST_WORLD, Free, es);
    PromptFlag(Run(FIRST_WORLD, es), AbstractRun(Free, FIRST_WORLD, es));
  }

  // ---------- How long a renewed lease lasts ----------

  /** Timer events only: time passes, completions arrive in any order, and the timer does
      not go off before the deadline (None: never). */
  predicate TimerOnly(w: World, es: seq<Event>, until: Option<int>)
    decreases |es|
  {
    es == [] ||
    (&& (es[0].Advance? || es[0].Deliver? || es[0].Expire?)
     && (es[0].Expire? && until.Some? ==> w.now < until.value)
     && TimerOnly(Next(w, es[0]), es[1..], until))
  }

  /** Nothing that ends the lease is queued, and a wait that is armed is for the deadline. */
  ghost predicate Lasting(w: World, id: string, until: Option<int>) {
    && w.lease.running && w.lease.clientID == id && Expiries(w.lease.queue) == 0
    && (w.lease.armed > 0 ==> until == Some(w.lease.expiry))
  }

  lemma LastingStep(w: World, id: string, until: Option<int>, e: Event)
    requires Lasting(w, id, until) && (e.Advance? || e.Deliver? || e.Expire?)
    requires e.Expire? && until.Some? ==> w.now < until.value
    ensures Lasting(Next(w, e), id, until)
  {
    if e.Deliver? && e.i < |w.lease.queue| {
      Removed(w.lease.queue, e.i);
    }
  }

  lemma {:induction false} Lasts(w: World, id: string, until: Option<int>, es: seq<Event>)
    requires Lasting(w, id, until) && TimerOnly(w, es, until)
    ensures Lasting(Run(w, es), id, until)
    decreases |es|
  {
    hide Lasting, Next;
    if es != [] {
      LastingStep(w, id, until, es[0]);
      Lasts(Next(w, es[0]), id, until, es[1..]);
    }
  }

  lemma {:induction false} SomeExpiry(q: seq<Completion>) returns (i: nat)
    requires Expiries(q) > 0
    ensures i < |q| && q[i] == Expired
  {
    if q[0] == Expired {
      i := 0;
    } else {
      i := SomeExpiry(q[1..]);
      i := i + 1;
    }
  }

  lemma Renewed(w: World, d: Duration)
    requires w.lease.running
    ensures var w' := Next(w, CallStart(w.lease.clientID, d, ALL_WORK));
      && w'.lease.running && w'.lease.clientID == w.lease.clientID && w'.now == w.now
      && Expiries(w'.lease.queue) == Expiries(w.lease.queue)
      && (w'.lease.armed > 0 ==> Deadline(d, w.now) == Some(w'.lease.expiry))
  {
    CancelKeepsExpiries(w.lease);
    CancelKeepsExpiries(Cancel(w.lease));
  }

  /** Exactly when a renewed lease lasts to its new deadline, whatever the order and delay
      of completions and however much time passes: no expiry of an earlier wait is still
      queued at the renewal. */
  lemma RenewalLasts(w: World, d: Duration)
    requires w.lease.running
    ensures var w' := Next(w, CallStart(w.lease.clientID, d, ALL_WORK));
      (forall es :: TimerOnly(w', es, Deadline(d, w.now)) ==> Run(w', es).lease.running)
      <==> Expiries(w.lease.queue) == 0
  {
    hide Run, TimerOnly, Start;
    Renewed(w, d);
    var id, until := w.lease.clientID, Deadline(d, w.now);
    var w' := Next(w, CallStart(id, d, ALL_WORK));
    if Expiries(w.lease.queue) == 0 {
      forall es | TimerOnly(w', es, until) ensures Run(w', es).lease.running {
        Lasts(w', id, until, es);
      }
    } else {
      var i := SomeExpiry(w'.lease.queue);
      OneDelivery(w', i, until);
      assert !Run(w', [Deliver(i)]).lease.running;
    }
  }

  lemma OneDelivery(w: World, i: nat, until: Option<int>)
    requires i < |w.lease.queue| && w.lease.queue[i] == Expired
    ensures TimerOnly(w, [Deliver(i)], until) && !Run(w, [Deliver(i)]).lease.running
  {
    assert [Deliver(i)][1..] == [];
  }

  /** Two waits can be armed: a renewal in which both timer operations fail. */
  lemma TwoWaits(id: string)
    ensures var es := [CallStart(id, Finite(5), ALL_WORK), CallStart(id, Finite(5), TimerWorks(false, false))];
      Run(FIRST_WORLD, es).lease.armed == 2
  {
    var es := [CallStart(id, Finite(5), ALL_WORK), CallStart(id, Finite(5), TimerWorks(false, false))];
    var w := Next(FIRST_WORLD, es[0]);
    assert es[1..] == [es[1]] && es[1..][1..] == [];
    assert Run(w, [es[1]]) == Next(w, es[1]);
  }

  // ---------- When the timer fails ----------

  /** A granted finite request always leaves a wait armed for its end; one that is refused
      because the timer cannot be set leaves an idle lease idle. */
  lemma GrantIsTimed(s: State, id: string, d: Duration, now: int, t: TimerWorks)
    ensures var (s', granted) := Start(s, id, d, now, t);
      && (granted ==> s'.running && s'.clientID == id)
      && (granted && d.Finite? ==> s'.armed >= 1 && s'.expiry == now + d.milliseconds)
      && (!s.running ==> (granted <==> d.Endless? || t.expires))
      && (!s.running && !granted ==> !s'.running && s'.armed == s.armed && s'.queue == s.queue)
      && (s.running && id == s.clientID ==> (granted <==> if d.Finite? then t.expires else t.cancel))
      && (s.running ==> s'.running && s'.clientID == s.clientID)
  {
  }

  /** A stop by the owner, or of a lease that does not run, succeeds even if the wait cannot
      be cancelled; a wait that is cancelled is aborted, and an abort ends nothing. */
  lemma StopAlwaysStops(s: State, id: string, t: TimerWorks)
    requires !s.running || id == s.clientID
    ensures var (s', stopped) := Stop(s, id, t);
      && stopped && !s'.running && s'.clientID == s.clientID
      && (if t.cancel then s'.armed == 0 && |s'.queue| == |s.queue| + s.armed else s'.armed == s.armed)
    ensures forall r: State :: Handle(r, Aborted) == r && !Handle(r, Expired).running
  {
  }
}
