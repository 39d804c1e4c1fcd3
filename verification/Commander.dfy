// The apply-command store: ten expiring stores, filtered in place on every tick.

module CommandStore {
  // ---------- Keys ----------

  /** A link or joint name and an axis index (0 where there is none). */
  datatype Key = Key(name: string, index: nat)

  predicate LessName(a: string, b: string) {
    b != [] && (a == [] || a[0] < b[0] || (a[0] == b[0] && LessName(a[1..], b[1..])))
  }

  /** The order in which an ordered map walks through its keys. */
  predicate Less(a: Key, b: Key) {
    LessName(a.name, b.name) || (a.name == b.name && a.index < b.index)
  }

  lemma {:induction false} LessNameIsTotal(a: string, b: string)
    ensures a == b || LessName(a, b) || LessName(b, a)
    ensures !(LessName(a, b) && LessName(b, a)) && (a == b ==> !LessName(a, b))
  {
    if a != [] && b != [] {
      LessNameIsTotal(a[1..], b[1..]);
      if a[0] == b[0] && a[1..] == b[1..] {
        assert a == [a[0]] + a[1..] == b;
      }
    }
  }

  lemma {:induction false} LessNameIsTransitive(a: string, b: string, c: string)
    requires LessName(a, b) && LessName(b, c)
    ensures LessName(a, c)
  {
    if a != [] && a[0] == b[0] && b[0] == c[0] {
      LessNameIsTransitive(a[1..], b[1..], c[1..]);
    }
  }

  /** Names are ordered by the first character in which they differ, a beginning before
      what it begins. */
  lemma {:induction false} LessByFirstDifference(a: string, b: string, i: nat)
    requires i <= |a| && i <= |b| && a[..i] == b[..i]
    ensures i == |a| < |b| ==> LessName(a, b)
    ensures i < |a| && i < |b| && a[i] < b[i] ==> LessName(a, b)
    decreases i
  {
    if i > 0 {
      assert a[0] == a[..i][0] == b[..i][0] == b[0];
      assert a[1..][..i - 1] == a[..i][1..] == b[..i][1..] == b[1..][..i - 1];
      LessByFirstDifference(a[1..], b[1..], i - 1);
    }
  }

  lemma LessIsOrder(a: Key, b: Key, c: Key)
    ensures a == b || Less(a, b) || Less(b, a)
    ensures !(Less(a, b) && Less(b, a)) && !Less(a, a)
    ensures Less(a, b) && Less(b, c) ==> Less(a, c)
  {
    LessNameIsTotal(a.name, b.name);
    LessNameIsTotal(a.name, a.name);
    if LessName(a.name, b.name) && LessName(b.name, c.name) {
      LessNameIsTransitive(a.name, b.name, c.name);
    }
  }

  // ---------- One store ----------

  /** A stored command; endTime and ticks are simulation times in nanoseconds. */
  datatype Entry = Entry(key: Key, endTime: int, content: seq<real>)

  type Store = seq<Entry>

  predicate Sorted(s: Store) {
    forall i, j :: 0 <= i < j < |s| ==> Less(s[i].key, s[j].key)
  }

  /** Assignment through a key of an ordered map: the entry of that key, if any, is replaced. */
  function Replace(s: Store, e: Entry): Store {
    if s == [] then [e]
    else if s[0].key == e.key then [e] + s[1..]
    else if Less(e.key, s[0].key) then [e] + s
    else [s[0]] + Replace(s[1..], e)
  }

  /** The entries still valid at time t, in order. */
  function Unexpired(s: Store, t: int): Store {
    if s == [] then []
    else if t <= s[0].endTime then [s[0]] + Unexpired(s[1..], t)
    else Unexpired(s[1..], t)
  }

  lemma {:induction false} ReplaceMembers(s: Store, e: Entry)
    requires Sorted(s)
    ensures Sorted(Replace(s, e))
    ensures forall x :: x in Replace(s, e) <==> x == e || (x in s && x.key != e.key)
  {
    if s != [] {
      LessIsOrder(s[0].key, e.key, e.key);
      if s[0].key == e.key {
        assert s == [s[0]] + s[1..];
      } else if Less(e.key, s[0].key) {
        forall j | 0 <= j < |s| ensures Less(e.key, s[j].key) {
          LessIsOrder(e.key, s[0].key, s[j].key);
        }
        forall x | x in s ensures x.key != e.key {
          LessIsOrder(e.key, x.key, x.key);
        }
      } else {
        assert s == [s[0]] + s[1..];
        ReplaceMembers(s[1..], e);
        var r := Replace(s[1..], e);
        forall j | 0 <= j < |r| ensures Less(s[0].key, r[j].key) {
          assert r[j] in r;
        }
      }
    }
  }

  lemma {:induction false} UnexpiredMembers(s: Store, t: int)
    ensures forall x :: x in Unexpired(s, t) <==> x in s && t <= x.endTime
    ensures Sorted(s) ==> Sorted(Unexpired(s, t))
  {
    if s != [] {
      assert s == [s[0]] + s[1..];
      UnexpiredMembers(s[1..], t);
      var r := Unexpired(s[1..], t);
      if Sorted(s) {
        forall j | 0 <= j < |r| ensures Less(s[0].key, r[j].key) {
          assert r[j] in r;
          var k :| 0 <= k < |s[1..]| && s[1..][k] == r[j];
          assert s[k + 1] == r[j];
        }
      }
    }
  }

  lemma {:induction false} UnexpiredAppend(a: Store, b: Store, t: int)
    ensures Unexpired(a + b, t) == Unexpired(a, t) + Unexpired(b, t)
  {
    if a == [] {
      assert a + b == b;
    } else {
      assert (a + b)[1..] == a[1..] + b;
      UnexpiredAppend(a[1..], b, t);
    }
  }

  /** Dropping what has expired at an earlier time first makes no difference later. */
  lemma {:induction false} UnexpiredTwice(s: Store, t0: int, t: int)
    requires t0 <= t
    ensures Unexpired(Unexpired(s, t0), t) == Unexpired(s, t)
  {
    if s != [] {
      UnexpiredTwice(s[1..], t0, t);
      if t0 <= s[0].endTime {
        assert Unexpired(s, t0)[1..] == Unexpired(s[1..], t0);
      }
    }
  }

  /** A sorted store is determined by its entries. */
  lemma {:induction false} SortedIsUnique(a: Store, b: Store)
    requires Sorted(a) && Sorted(b)
    requires forall x :: x in a <==> x in b
    ensures a == b
  {
    if a == [] || b == [] {
      if a != [] {
        HasMember(a);
        assert false;
      }
      if b != [] {
        HasMember(b);
        assert false;
      }
    } else {
      FirstIsLeast(a, b[0]);
      FirstIsLeast(b, a[0]);
      LessIsOrder(a[0].key, b[0].key, a[0].key);
      assert a[0] == b[0];
      forall x ensures x in a[1..] <==> x in b[1..] {
        RestMembers(a, x);
        RestMembers(b, x);
      }
      SortedIsUnique(a[1..], b[1..]);
      assert a == [a[0]] + a[1..] && b == [b[0]] + b[1..];
    }
  }

  lemma HasMember(s: Store)
    requires s != []
    ensures exists x :: x in s
  {
    assert s[0] in s;
  }

  lemma FirstIsLeast(s: Store, x: Entry)
    requires Sorted(s) && x in s
    ensures x == s[0] || Less(s[0].key, x.key)
  {
  }

  lemma RestMembers(s: Store, x: Entry)
    requires Sorted(s) && s != []
    ensures x in s[1..] <==> x in s && x != s[0]
  {
    LessIsOrder(s[0].key, s[0].key, s[0].key);
    if x in s[1..] {
      var k :| 0 <= k < |s[1..]| && s[1..][k] == x;
      assert s[k + 1] == x && Less(s[0].key, x.key);
    }
    if x in s && x != s[0] {
      var k :| 0 <= k < |s| && s[k] == x;
      assert s[1..][k - 1] == x;
    }
  }

  /** Two stores that agree on what is unexpired still do after the same assignment. */
  lemma ReplaceAgrees(a: Store, b: Store, e: Entry, t: int)
    requires Sorted(a) && Sorted(b) && Unexpired(a, t) == Unexpired(b, t)
    ensures Unexpired(Replace(a, e), t) == Unexpired(Replace(b, e), t)
  {
    ReplaceMembers(a, e);
    ReplaceMembers(b, e);
    UnexpiredMembers(Replace(a, e), t);
    UnexpiredMembers(Replace(b, e), t);
    UnexpiredMembers(a, t);
    UnexpiredMembers(b, t);
    var ra, rb := Unexpired(Replace(a, e), t), Unexpired(Replace(b, e), t);
    forall x ensures x in ra <==> x in rb {
      if x != e && t <= x.endTime {
        assert x in a <==> x in Unexpired(a, t);
        assert x in b <==> x in Unexpired(b, t);
      }
    }
    SortedIsUnique(ra, rb);
  }
}

module Commander {
  import opened CommandStore

  // ---------- The log machine ----------

  datatype Kind =
    | AddForce | AddTorque | SetForce | SetTorque | JointForce
    | JointPosition | JointVelocity | WorldPose | LinearVelocity | AngularVelocity

  predicate Accumulates(k: Kind) { k == AddForce || k == AddTorque }

  function Insert(k: Kind, s: Store, e: Entry): Store {
    if Accumulates(k) then s + [e] else Replace(s, e)
  }

  /** What happens to one store: a command, the clear of a time reset, a world update. */
  datatype Event = Command(entry: Entry) | Reset | Tick(time: int)

  /** The store that deletes what has expired, and the effects of every tick. */
  function Eager(k: Kind, s: Store, es: seq<Event>): seq<Store>
    decreases |es|
  {
    if es == [] then []
    else
      match es[0]
      case Command(e) => Eager(k, Insert(k, s, e), es[1..])
      case Reset => Eager(k, [], es[1..])
      case Tick(t) => [Unexpired(s, t)] + Eager(k, Unexpired(s, t), es[1..])
  }

  /** The log that never deletes: every tick looks through all commands since the last reset. */
  function Logged(k: Kind, log: seq<Entry>, es: seq<Event>): seq<Store>
    decreases |es|
  {
    if es == [] then []
    else
      match es[0]
      case Command(e) => Logged(k, log + [e], es[1..])
      case Reset => Logged(k, [], es[1..])
      case Tick(t) => [Unexpired(Full(k, log), t)] + Logged(k, log, es[1..])
  }

  /** All commands of a log put into a store that nothing is ever deleted from. */
  function Full(k: Kind, log: seq<Entry>): Store {
    if log == [] then [] else Insert(k, Full(k, log[..|log| - 1]), log[|log| - 1])
  }

  /** Ticks do not go back in time, except across a reset. */
  predicate Forward(es: seq<Event>, now: int, ticked: bool)
    decreases |es|
  {
    es == [] ||
    match es[0]
    case Command(_) => Forward(es[1..], now, ticked)
    case Reset => Forward(es[1..], now, false)
    case Tick(t) => (ticked ==> now <= t) && Forward(es[1..], t, true)
  }

  ghost predicate LatestAt(log: seq<Entry>, i: nat, e: Entry) {
    i < |log| && log[i] == e && forall j :: i < j < |log| ==> log[j].key != e.key
  }

  /** e is the latest command of its key in the log. */
  ghost predicate IsLatest(log: seq<Entry>, e: Entry) {
    exists i: nat :: LatestAt(log, i, e)
  }

  lemma LatestGrows(log: seq<Entry>, last: Entry, e: Entry)
    ensures IsLatest(log + [last], e) <==> e == last || (IsLatest(log, e) && e.key != last.key)
  {
    var all := log + [last];
    if IsLatest(all, e) && e != last {
      var i: nat :| LatestAt(all, i, e);
      assert all[|log|] == last && forall j :: 0 <= j < |log| ==> log[j] == all[j];
      assert LatestAt(log, i, e);
    }
    if e == last {
      assert LatestAt(all, |log|, e);
    }
    if IsLatest(log, e) && e.key != last.key {
      var i: nat :| LatestAt(log, i, e);
      assert LatestAt(all, i, e);
    }
  }

  /** An ADD log is kept as it is: every command once, in order. */
  lemma {:induction false} FullAdds(k: Kind, log: seq<Entry>)
    requires Accumulates(k)
    ensures Full(k, log) == log
  {
    if log != [] {
      FullAdds(k, log[..|log| - 1]);
    }
  }

  /** A SET log is seen through its latest command per key, in key order. */
  lemma {:induction false} FullSets(k: Kind, log: seq<Entry>)
    requires !Accumulates(k)
    ensures Sorted(Full(k, log))
    ensures forall e :: e in Full(k, log) <==> IsLatest(log, e)
  {
    if log != [] {
      var before, last := log[..|log| - 1], log[|log| - 1];
      FullSets(k, before);
      ReplaceMembers(Full(k, before), last);
      hide IsLatest;
      forall e ensures e in Full(k, log) <==> IsLatest(log, e) {
        assert log == before + [last];
        LatestGrows(before, last, e);
      }
    }
  }

  /** What a tick at time t sees of an ADD log: every unexpired command once, in order. */
  lemma TickOfAdds(k: Kind, log: seq<Entry>, t: int)
    requires Accumulates(k)
    ensures Unexpired(Full(k, log), t) == Unexpired(log, t)
  {
    FullAdds(k, log);
  }

  /** What a tick at time t sees of a SET log: the latest command of each key, if
      unexpired, and no two of one key. */
  lemma TickOfSets(k: Kind, log: seq<Entry>, t: int)
    requires !Accumulates(k)
    ensures var seen := Unexpired(Full(k, log), t);
      && Sorted(seen)
      && forall e :: e in seen <==> IsLatest(log, e) && t <= e.endTime
  {
    FullSets(k, log);
    UnexpiredMembers(Full(k, log), t);
  }

  // ---------- The two agree ----------

  /** The eager store holds, of the full one, what can still matter. */
  ghost predicate Agree(k: Kind, s: Store, log: seq<Entry>, now: int, ticked: bool) {
    && (!Accumulates(k) ==> Sorted(s))
    && forall t :: (ticked ==> now <= t) ==> Unexpired(s, t) == Unexpired(Full(k, log), t)
  }

  lemma AgreeAfterCommand(k: Kind, s: Store, log: seq<Entry>, now: int, ticked: bool, e: Entry)
    requires Agree(k, s, log, now, ticked)
    ensures Agree(k, Insert(k, s, e), log + [e], now, ticked)
  {
    assert (log + [e])[..|log|] == log;
    var full := Full(k, log);
    if !Accumulates(k) {
      FullSets(k, log);
      ReplaceMembers(s, e);
    }
    forall t | ticked ==> now <= t ensures Unexpired(Insert(k, s, e), t) == Unexpired(Insert(k, full, e), t) {
      if Accumulates(k) {
        UnexpiredAppend(s, [e], t);
        UnexpiredAppend(full, [e], t);
      } else {
        ReplaceAgrees(s, full, e, t);
      }
    }
  }

  lemma AgreeAfterTick(k: Kind, s: Store, log: seq<Entry>, now: int, ticked: bool, t0: int)
    requires Agree(k, s, log, now, ticked) && (ticked ==> now <= t0)
    ensures Agree(k, Unexpired(s, t0), log, t0, true)
  {
    UnexpiredMembers(s, t0);
    forall t | t0 <= t ensures Unexpired(Unexpired(s, t0), t) == Unexpired(Full(k, log), t) {
      UnexpiredTwice(s, t0, t);
    }
  }

  lemma {:induction false} EagerIsLogged(k: Kind, s: Store, log: seq<Entry>, es: seq<Event>, now: int, ticked: bool)
    requires Agree(k, s, log, now, ticked) && Forward(es, now, ticked)
    ensures Eager(k, s, es) == Logged(k, log, es)
    decreases |es|
  {
    if es != [] {
      match es[0]
      case Command(e) =>
        AgreeAfterCommand(k, s, log, now, ticked, e);
        EagerIsLogged(k, Insert(k, s, e), log + [e], es[1..], now, ticked);
      case Reset => EagerIsLogged(k, [], [], es[1..], now, false);
      case Tick(t) =>
        AgreeAfterTick(k, s, log, now, ticked, t);
        EagerIsLogged(k, Unexpired(s, t), log, es[1..], t, true);
    }
  }

  /** Main theorem: over any run in which ticks do not go back in time between resets,
      the store that deletes eagerly cannot be told from a log that deletes nothing. */
  lemma EagerDeletionIsInvisible(k: Kind, es: seq<Event>)
    requires Forward(es, 0, false)
    ensures Eager(k, [], es) == Logged(k, [], es)
  {
    EagerIsLogged(k, [], [], es, 0, false);
  }

  // ---------- When the two agree ----------

  /** The ticks and resets of a run. */
  function Skeleton(es: seq<Event>): seq<Event>
    decreases |es|
  {
    if es == [] then []
    else if es[0].Command? then Skeleton(es[1..])
    else [es[0]] + Skeleton(es[1..])
  }

  lemma {:induction false} ForwardSkeleton(es: seq<Event>, now: int, ticked: bool)
    ensures Forward(Skeleton(es), now, ticked) == Forward(es, now, ticked)
    decreases |es|
  {
    if es != [] {
      match es[0]
      case Command(_) => ForwardSkeleton(es[1..], now, ticked);
      case Reset => ForwardSkeleton(es[1..], now, false);
      case Tick(t) => ForwardSkeleton(es[1..], t, true);
    }
  }

  lemma {:induction false} SkeletonOfTicks(ts: seq<Event>)
    requires forall e <- ts :: !e.Command?
    ensures Skeleton(ts) == ts
    decreases |ts|
  {
    if ts != [] {
      assert ts[0] in ts && forall e <- ts[1..] :: e in ts;
      SkeletonOfTicks(ts[1..]);
      assert [ts[0]] + ts[1..] == ts;
    }
  }

  lemma OneCommand(k: Kind, e: Entry)
    ensures Insert(k, [], e) == [e] && Full(k, [e]) == [e] && [] + [e] == [e]
    ensures forall t :: Unexpired([e], t) == if t <= e.endTime then [e] else []
    ensures forall t :: Unexpired([], t) == []
  {
    assert [e][..0] == [] && [e][1..] == [];
  }

  /** A command that is still valid at the second of two ticks that go back, but not at
      the first: deleted by the first, applied by the second tick of the log. */
  lemma GoingBackDiffers(k: Kind, t0: int, t1: int, rest: seq<Event>, e: Entry)
    requires t1 < t0 && e.endTime == t1
    ensures var es := [Command(e), Tick(t0), Tick(t1)] + rest;
      Eager(k, [], es) != Logged(k, [], es)
  {
    hide Insert, Full, Unexpired;
    OneCommand(k, e);
    var es := [Command(e), Tick(t0), Tick(t1)] + rest;
    assert es[1..] == [Tick(t0), Tick(t1)] + rest;
    assert es[1..][1..] == [Tick(t1)] + rest;
    assert Eager(k, [e], es[1..]) == [[]] + Eager(k, [], es[1..][1..]);
    assert Eager(k, [], es[1..][1..])[0] == [];
    assert Logged(k, [e], es[1..]) == [[]] + Logged(k, [e], es[1..][1..]);
    assert Logged(k, [e], es[1..][1..])[0] == [e];
    assert Eager(k, [e], es[1..])[1] == [] && Logged(k, [e], es[1..])[1] == [e];
  }

  /** The smallest run of that kind: a tick that goes back finds a command already deleted. */
  lemma GoingBackLosesCommands(k: Kind, e: Entry)
    ensures var es := [Command(e), Tick(e.endTime + 1), Tick(e.endTime)];
      Eager(k, [], es) == [[], []] && Logged(k, [], es) == [[], [e]]
  {
    hide Insert, Full, Unexpired;
    var t := e.endTime;
    var late, back := [Tick(t + 1), Tick(t)], [Tick(t)];
    assert [Command(e), Tick(t + 1), Tick(t)][1..] == late && late[1..] == back && back[1..] == [];
    OneCommand(k, e);
    assert Eager(k, [], back) == [[]];
    assert Eager(k, [e], late) == [[]] + Eager(k, [], back);
    assert Logged(k, [e], back) == [[e]];
    assert Logged(k, [e], late) == [[]] + Logged(k, [e], back);
  }

  lemma SameFirst(k: Kind, x: Event, es: seq<Event>)
    requires !x.Command? && Eager(k, [], es) != Logged(k, [], es)
    ensures Eager(k, [], [x] + es) != Logged(k, [], [x] + es)
  {
    assert ([x] + es)[1..] == es;
    if x.Tick? {
      var a, b := Eager(k, [], es), Logged(k, [], es);
      assert Eager(k, [], [x] + es) == [[]] + a && Logged(k, [], [x] + es) == [[]] + b;
      assert ([[]] + a)[1..] == a && ([[]] + b)[1..] == b;
    }
  }

  /** For ticks and resets that do go back, commands that make the difference. */
  lemma {:induction false} TellingCommands(k: Kind, ts: seq<Event>, now: int) returns (es: seq<Event>)
    requires (forall e <- ts :: !e.Command?) && !Forward(ts, now, false)
    ensures Skeleton(es) == ts && Eager(k, [], es) != Logged(k, [], es)
    decreases |ts|
  {
    assert ts[0] in ts && forall e <- ts[1..] :: e in ts;
    if ts[0].Tick? && |ts| > 1 && ts[1].Tick? && ts[1].time < ts[0].time {
      var e := Entry(Key("", 0), ts[1].time, []);
      es := [Command(e)] + ts;
      SkeletonOfTicks(ts);
      assert es[1..] == ts;
      assert es == [Command(e), Tick(ts[0].time), Tick(ts[1].time)] + ts[2..];
      GoingBackDiffers(k, ts[0].time, ts[1].time, ts[2..], e);
    } else {
      var t := if ts[0].Tick? then ts[0].time else now;
      assert !Forward(ts[1..], t, false);
      var rest := TellingCommands(k, ts[1..], t);
      es := [ts[0]] + rest;
      assert es[1..] == rest && ts == [ts[0]] + ts[1..];
      SameFirst(k, ts[0], rest);
    }
  }

  /** Exactly which ticks and resets make eager deletion invisible whatever commands come
      between them: those that do not go back in time between resets. */
  lemma InvisibleIffForward(k: Kind, ts: seq<Event>)
    requires forall e <- ts :: !e.Command?
    ensures Forward(ts, 0, false) <==>
      forall es :: Skeleton(es) == ts ==> Eager(k, [], es) == Logged(k, [], es)
  {
    hide Forward, Skeleton, Eager, Logged;
    if Forward(ts, 0, false) {
      forall es | Skeleton(es) == ts ensures Eager(k, [], es) == Logged(k, [], es) {
        ForwardSkeleton(es, 0, false);
        EagerDeletionIsInvisible(k, es);
      }
    } else {
      var es := TellingCommands(k, ts, 0);
    }
  }

  // ---------- The object ----------

  /** One call on a link or joint: what is applied, and from which command. */
  datatype Effect = Effect(kind: Kind, entry: Entry)

  function Tagged(k: Kind, s: Store): seq<Effect> {
    seq(|s|, i requires 0 <= i < |s| => Effect(k, s[i]))
  }

  /** Walks through a store, applying what is valid at time t and erasing the rest. */
  method ApplyAndErase(k: Kind, s: Store, t: int, effects: seq<Effect>) returns (kept: Store, applied: seq<Effect>)
    ensures kept == Unexpired(s, t)
    ensures applied == effects + Tagged(k, Unexpired(s, t))
  {
    kept, applied := s, effects;
    var i := 0;
    while i < |kept|
      invariant 0 <= i <= |kept|
      invariant Unexpired(s, t) == kept[..i] + Unexpired(kept[i..], t)
      invariant applied == effects + Tagged(k, kept[..i])
      decreases |kept| - i
    {
      if t <= kept[i].endTime {
        assert kept[..i + 1] == kept[..i] + [kept[i]];
        assert Tagged(k, kept[..i + 1]) == Tagged(k, kept[..i]) + [Effect(k, kept[i])];
        applied := applied + [Effect(k, kept[i])];
        i := i + 1;
      } else {
        ghost var was := kept;
        kept := kept[..i] + kept[i + 1..];
        assert kept[..i] == was[..i] && kept[i..] == was[i + 1..];
      }
    }
    assert kept[..i] == kept;
  }

  /** The same for the n-th kind of a tick. */
  method ApplyKind(ghost stores: Kind -> Store, ghost n: nat, k: Kind, s: Store, t: int, effects: seq<Effect>)
    returns (kept: Store, applied: seq<Effect>)
    requires n < |KINDS| && KINDS[n] == k && s == stores(k)
    requires effects == TickEffects(stores, t, n)
    ensures kept == Unexpired(stores(k), t)
    ensures applied == TickEffects(stores, t, n + 1)
  {
    kept, applied := ApplyAndErase(k, s, t, effects);
  }

  const KINDS: seq<Kind> :=
    [AddForce, AddTorque, SetForce, SetTorque, JointForce,
     JointPosition, JointVelocity, WorldPose, LinearVelocity, AngularVelocity]

  /** The effects of a tick on the given stores, in the order of the kinds. */
  function TickEffects(stores: Kind -> Store, t: int, n: nat): seq<Effect>
    requires n <= |KINDS|
  {
    if n == 0 then []
    else TickEffects(stores, t, n - 1) + Tagged(KINDS[n - 1], Unexpired(stores(KINDS[n - 1]), t))
  }

  /** Which kinds gather all their commands, and which keep the latest of each key. */
  lemma KindsOfInsertion(k: Kind, s: Store, e: Entry)
    ensures match k
            case AddForce => Insert(k, s, e) == s + [e]
            case AddTorque => Insert(k, s, e) == s + [e]
            case _ => Sorted(s) ==>
              Sorted(Insert(k, s, e)) && forall x :: x in Insert(k, s, e) <==> x == e || (x in s && x.key != e.key)
  {
    if Sorted(s) {
      ReplaceMembers(s, e);
    }
  }

  /** The calls of one update, store after store: forces and torques on links, then joints,
      then poses and velocities. */
  lemma OrderOfEffects(stores: Kind -> Store, t: int)
    ensures TickEffects(stores, t, |KINDS|) ==
      Tagged(AddForce, Unexpired(stores(AddForce), t)) + Tagged(AddTorque, Unexpired(stores(AddTorque), t))
      + Tagged(SetForce, Unexpired(stores(SetForce), t)) + Tagged(SetTorque, Unexpired(stores(SetTorque), t))
      + Tagged(JointForce, Unexpired(stores(JointForce), t))
      + Tagged(JointPosition, Unexpired(stores(JointPosition), t))
      + Tagged(JointVelocity, Unexpired(stores(JointVelocity), t))
      + Tagged(WorldPose, Unexpired(stores(WorldPose), t))
      + Tagged(LinearVelocity, Unexpired(stores(LinearVelocity), t))
      + Tagged(AngularVelocity, Unexpired(stores(AngularVelocity), t))
  {
    hide Tagged, Unexpired;
    FirstFive(stores, t);
    EffectsUpTo(stores, t, 6);
    EffectsUpTo(stores, t, 7);
    EffectsUpTo(stores, t, 8);
    EffectsUpTo(stores, t, 9);
    EffectsUpTo(stores, t, 10);
  }

  lemma EffectsUpTo(stores: Kind -> Store, t: int, n: nat)
    requires 0 < n <= |KINDS|
    ensures TickEffects(stores, t, n) ==
      TickEffects(stores, t, n - 1) + Tagged(KINDS[n - 1], Unexpired(stores(KINDS[n - 1]), t))
  {
  }

  lemma FirstFive(stores: Kind -> Store, t: int)
    ensures TickEffects(stores, t, 5) ==
      Tagged(AddForce, Unexpired(stores(AddForce), t)) + Tagged(AddTorque, Unexpired(stores(AddTorque), t))
      + Tagged(SetForce, Unexpired(stores(SetForce), t)) + Tagged(SetTorque, Unexpired(stores(SetTorque), t))
      + Tagged(JointForce, Unexpired(stores(JointForce), t))
  {
    hide Tagged, Unexpired;
    EffectsUpTo(stores, t, 1);
    assert [] + Tagged(AddForce, Unexpired(stores(AddForce), t)) == Tagged(AddForce, Unexpired(stores(AddForce), t));
    EffectsUpTo(stores, t, 2);
    EffectsUpTo(stores, t, 3);
    EffectsUpTo(stores, t, 4);
    EffectsUpTo(stores, t, 5);
  }

  // ---------- Runs of the whole commander ----------

  /** A command for the store of its kind, the clear of a time reset, a world update. */
  datatype Request = Insertion(kind: Kind, entry: Entry) | Clearing | Update(time: int)

  /** The ten stores that delete what has expired, and the effects of every update. */
  ghost function EagerRun(stores: Kind -> Store, rs: seq<Request>): seq<seq<Effect>>
    decreases |rs|
  {
    if rs == [] then []
    else
      match rs[0]
      case Insertion(k, e) => EagerRun(j => if j == k then Insert(k, stores(k), e) else stores(j), rs[1..])
      case Clearing => EagerRun(_ => [], rs[1..])
      case Update(t) => [TickEffects(stores, t, |KINDS|)] + EagerRun(j => Unexpired(stores(j), t), rs[1..])
  }

  /** Ten logs that never delete: every update looks through all commands of every kind
      since the last clear. */
  ghost function LoggedRun(logs: Kind -> seq<Entry>, rs: seq<Request>): seq<seq<Effect>>
    decreases |rs|
  {
    if rs == [] then []
    else
      match rs[0]
      case Insertion(k, e) => LoggedRun(j => if j == k then logs(k) + [e] else logs(j), rs[1..])
      case Clearing => LoggedRun(_ => [], rs[1..])
      case Update(t) => [TickEffects(j => Full(j, logs(j)), t, |KINDS|)] + LoggedRun(logs, rs[1..])
  }

  /** Updates do not go back in time, except across a clear. */
  predicate ForwardRun(rs: seq<Request>, now: int, ticked: bool)
    decreases |rs|
  {
    rs == [] ||
    match rs[0]
    case Insertion(_, _) => ForwardRun(rs[1..], now, ticked)
    case Clearing => ForwardRun(rs[1..], now, false)
    case Update(t) => (ticked ==> now <= t) && ForwardRun(rs[1..], t, true)
  }

  lemma {:induction false} SameEffects(a: Kind -> Store, b: Kind -> Store, t: int, n: nat)
    requires n <= |KINDS| && forall k :: Unexpired(a(k), t) == Unexpired(b(k), t)
    ensures TickEffects(a, t, n) == TickEffects(b, t, n)
    decreases n
  {
    if n > 0 {
      SameEffects(a, b, t, n - 1);
    }
  }

  lemma {:induction false} RunsAgree(stores: Kind -> Store, logs: Kind -> seq<Entry>, rs: seq<Request>,
                                     now: int, ticked: bool)
    requires (forall k :: Agree(k, stores(k), logs(k), now, ticked)) && ForwardRun(rs, now, ticked)
    ensures EagerRun(stores, rs) == LoggedRun(logs, rs)
    decreases |rs|
  {
    hide Agree, Insert, Unexpired, Full, TickEffects;
    if rs != [] {
      match rs[0]
      case Insertion(k, e) =>
        AgreeAfterCommand(k, stores(k), logs(k), now, ticked, e);
        RunsAgree(j => if j == k then Insert(k, stores(k), e) else stores(j),
                  j => if j == k then logs(k) + [e] else logs(j), rs[1..], now, ticked);
      case Clearing =>
        forall k ensures Agree(k, [], [], now, false) {
          AgreeEmpty(k, now);
        }
        RunsAgree(_ => [], _ => [], rs[1..], now, false);
      case Update(t) =>
        forall k ensures Unexpired(stores(k), t) == Unexpired(Full(k, logs(k)), t) {
          AgreeNow(k, stores(k), logs(k), now, ticked, t);
        }
        SameEffects(stores, j => Full(j, logs(j)), t, |KINDS|);
        forall k ensures Agree(k, Unexpired(stores(k), t), logs(k), t, true) {
          AgreeAfterTick(k, stores(k), logs(k), now, ticked, t);
        }
        RunsAgree(j => Unexpired(stores(j), t), logs, rs[1..], t, true);
    }
  }

  lemma AgreeEmpty(k: Kind, now: int)
    ensures Agree(k, [], [], now, false)
  {
  }

  lemma AgreeNow(k: Kind, s: Store, log: seq<Entry>, now: int, ticked: bool, t: int)
    requires Agree(k, s, log, now, ticked) && (ticked ==> now <= t)
    ensures Unexpired(s, t) == Unexpired(Full(k, log), t)
  {
  }

  /** Main theorem for the whole commander: over any run of inserts of every kind, clears
      and updates that do not go back in time between clears, the effects of every update
      are those of ten logs that delete nothing. */
  lemma CommanderIsLogged(rs: seq<Request>)
    requires ForwardRun(rs, 0, false)
    ensures EagerRun(_ => [], rs) == LoggedRun(_ => [], rs)
  {
    forall k ensures Agree(k, [], [], 0, false) {
      AgreeEmpty(k, 0);
    }
    RunsAgree(_ => [], _ => [], rs, 0, false);
  }

  class GazeboApplyCommander {
    var linkAddForce: seq<Entry>
    var linkAddTorque: seq<Entry>
    var linkSetForce: Store
    var linkSetTorque: Store
    var jointCommands: Store
    var jointSetPosition: Store
    var jointSetVelocity: Store
    var linkSetWorldPose: Store
    var linkSetLinearVelocity: Store
    var linkSetAngularVelocity: Store

    ghost function StoreOf(k: Kind): Store
      reads this
    {
      match k
      case AddForce => linkAddForce
      case AddTorque => linkAddTorque
      case SetForce => linkSetForce
      case SetTorque => linkSetTorque
      case JointForce => jointCommands
      case JointPosition => jointSetPosition
      case JointVelocity => jointSetVelocity
      case WorldPose => linkSetWorldPose
      case LinearVelocity => linkSetLinearVelocity
      case AngularVelocity => linkSetAngularVelocity
    }

    /** Only the store of kind k has taken the command; the others are as they were. */
    twostate predicate Inserted(k: Kind, e: Entry)
      reads this
    {
      forall j :: StoreOf(j) == if j == k then Insert(k, old(StoreOf(k)), e) else old(StoreOf(j))
    }

    /** Store s has taken e as an ordered map takes an assignment through a key: it stays in
        order, e is in it, and the only entry that is gone is that of the same key. */
    static ghost predicate Assigned(was: Store, s: Store, e: Entry) {
      Sorted(was) ==>
        Sorted(s) && forall x :: x in s <==> x == e || (x in was && x.key != e.key)
    }

    constructor ()
      ensures forall k :: StoreOf(k) == []
    {
      linkAddForce, linkAddTorque, linkSetForce, linkSetTorque, jointCommands := [], [], [], [], [];
      jointSetPosition, jointSetVelocity, linkSetWorldPose := [], [], [];
      linkSetLinearVelocity, linkSetAngularVelocity := [], [];
    }

    static lemma AssignedByKey(s: Store, e: Entry)
      ensures Assigned(s, Replace(s, e), e)
    {
      if Sorted(s) {
        ReplaceMembers(s, e);
      }
    }

    method InsertJointCommand(e: Entry)
      modifies this`jointCommands
      ensures Inserted(JointForce, e) && Assigned(old(jointCommands), jointCommands, e)
    {
      AssignedByKey(jointCommands, e);
      jointCommands := Replace(jointCommands, e);
    }

    method InsertJointSetPositionCommand(e: Entry)
      modifies this`jointSetPosition
      ensures Inserted(JointPosition, e) && Assigned(old(jointSetPosition), jointSetPosition, e)
    {
      AssignedByKey(jointSetPosition, e);
      jointSetPosition := Replace(jointSetPosition, e);
    }

    method InsertJointSetVelocityCommand(e: Entry)
      modifies this`jointSetVelocity
      ensures Inserted(JointVelocity, e) && Assigned(old(jointSetVelocity), jointSetVelocity, e)
    {
      AssignedByKey(jointSetVelocity, e);
      jointSetVelocity := Replace(jointSetVelocity, e);
    }

    /** Any other command type is ignored. */
    method InsertSetLinkCommand(cmdType: string, e: Entry)
      modifies this`linkSetForce, this`linkSetTorque
      ensures cmdType == "FORCE" ==> Inserted(SetForce, e) && Assigned(old(linkSetForce), linkSetForce, e)
      ensures cmdType == "TORQUE" ==> Inserted(SetTorque, e) && Assigned(old(linkSetTorque), linkSetTorque, e)
      ensures cmdType != "FORCE" && cmdType != "TORQUE" ==> forall k :: StoreOf(k) == old(StoreOf(k))
    {
      AssignedByKey(linkSetForce, e);
      AssignedByKey(linkSetTorque, e);
      if cmdType == "FORCE" {
        linkSetForce := Replace(linkSetForce, e);
      } else if cmdType == "TORQUE" {
        linkSetTorque := Replace(linkSetTorque, e);
      }
    }

    method InsertAddLinkCommand(cmdType: string, e: Entry)
      modifies this`linkAddForce, this`linkAddTorque
      ensures cmdType == "FORCE" ==> Inserted(AddForce, e) && linkAddForce == old(linkAddForce) + [e]
      ensures cmdType == "TORQUE" ==> Inserted(AddTorque, e) && linkAddTorque == old(linkAddTorque) + [e]
      ensures cmdType != "FORCE" && cmdType != "TORQUE" ==> forall k :: StoreOf(k) == old(StoreOf(k))
    {
      if cmdType == "FORCE" {
        linkAddForce := linkAddForce + [e];
      } else if cmdType == "TORQUE" {
        linkAddTorque := linkAddTorque + [e];
      }
    }

    method InsertSetLinkWorldPoseCommand(e: Entry)
      modifies this`linkSetWorldPose
      ensures Inserted(WorldPose, e) && Assigned(old(linkSetWorldPose), linkSetWorldPose, e)
    {
      AssignedByKey(linkSetWorldPose, e);
      linkSetWorldPose := Replace(linkSetWorldPose, e);
    }

    method InsertSetLinkLinearVelocityCommand(e: Entry)
      modifies this`linkSetLinearVelocity
      ensures Inserted(LinearVelocity, e) && Assigned(old(linkSetLinearVelocity), linkSetLinearVelocity, e)
    {
      AssignedByKey(linkSetLinearVelocity, e);
      linkSetLinearVelocity := Replace(linkSetLinearVelocity, e);
    }

    method InsertSetLinkAngularVelocityCommand(e: Entry)
      modifies this`linkSetAngularVelocity
      ensures Inserted(AngularVelocity, e) && Assigned(old(linkSetAngularVelocity), linkSetAngularVelocity, e)
    {
      AssignedByKey(linkSetAngularVelocity, e);
      linkSetAngularVelocity := Replace(linkSetAngularVelocity, e);
    }

    method ApplyWrenches(ghost stores: Kind -> Store, t: int, effects: seq<Effect>) returns (applied: seq<Effect>)
      requires |KINDS| == 10 && effects == TickEffects(stores, t, 0)
      requires KINDS[0] == AddForce && linkAddForce == stores(AddForce)
      requires KINDS[1] == AddTorque && linkAddTorque == stores(AddTorque)
      requires KINDS[2] == SetForce && linkSetForce == stores(SetForce)
      requires KINDS[3] == SetTorque && linkSetTorque == stores(SetTorque)
      modifies this`linkAddForce, this`linkAddTorque, this`linkSetForce, this`linkSetTorque
      ensures applied == TickEffects(stores, t, 4)
      ensures linkAddForce == Unexpired(stores(AddForce), t)
      ensures linkAddTorque == Unexpired(stores(AddTorque), t)
      ensures linkSetForce == Unexpired(stores(SetForce), t)
      ensures linkSetTorque == Unexpired(stores(SetTorque), t)
    {
      hide *;
      applied := effects;
      linkAddForce, applied := ApplyKind(stores, 0, AddForce, linkAddForce, t, applied);
      linkAddTorque, applied := ApplyKind(stores, 1, AddTorque, linkAddTorque, t, applied);
      linkSetForce, applied := ApplyKind(stores, 2, SetForce, linkSetForce, t, applied);
      linkSetTorque, applied := ApplyKind(stores, 3, SetTorque, linkSetTorque, t, applied);
    }

    method ApplyJoints(ghost stores: Kind -> Store, t: int, effects: seq<Effect>) returns (applied: seq<Effect>)
      requires |KINDS| == 10 && effects == TickEffects(stores, t, 4)
      requires KINDS[4] == JointForce && jointCommands == stores(JointForce)
      requires KINDS[5] == JointPosition && jointSetPosition == stores(JointPosition)
      requires KINDS[6] == JointVelocity && jointSetVelocity == stores(JointVelocity)
      modifies this`jointCommands, this`jointSetPosition, this`jointSetVelocity
      ensures applied == TickEffects(stores, t, 7)
      ensures jointCommands == Unexpired(stores(JointForce), t)
      ensures jointSetPosition == Unexpired(stores(JointPosition), t)
      ensures jointSetVelocity == Unexpired(stores(JointVelocity), t)
    {
      hide *;
      applied := effects;
      jointCommands, applied := ApplyKind(stores, 4, JointForce, jointCommands, t, applied);
      jointSetPosition, applied := ApplyKind(stores, 5, JointPosition, jointSetPosition, t, applied);
      jointSetVelocity, applied := ApplyKind(stores, 6, JointVelocity, jointSetVelocity, t, applied);
    }

    method ApplyLinkMotion(ghost stores: Kind -> Store, t: int, effects: seq<Effect>) returns (applied: seq<Effect>)
      requires |KINDS| == 10 && effects == TickEffects(stores, t, 7)
      requires KINDS[7] == WorldPose && linkSetWorldPose == stores(WorldPose)
      requires KINDS[8] == LinearVelocity && linkSetLinearVelocity == stores(LinearVelocity)
      requires KINDS[9] == AngularVelocity && linkSetAngularVelocity == stores(AngularVelocity)
      modifies this`linkSetWorldPose, this`linkSetLinearVelocity, this`linkSetAngularVelocity
      ensures applied == TickEffects(stores, t, 10)
      ensures linkSetWorldPose == Unexpired(stores(WorldPose), t)
      ensures linkSetLinearVelocity == Unexpired(stores(LinearVelocity), t)
      ensures linkSetAngularVelocity == Unexpired(stores(AngularVelocity), t)
    {
      hide *;
      applied := effects;
      linkSetWorldPose, applied := ApplyKind(stores, 7, WorldPose, linkSetWorldPose, t, applied);
      linkSetLinearVelocity, applied := ApplyKind(stores, 8, LinearVelocity, linkSetLinearVelocity, t, applied);
      linkSetAngularVelocity, applied := ApplyKind(stores, 9, AngularVelocity, linkSetAngularVelocity, t, applied);
    }

    /** One world update: every store is filtered in place, and what is left in it is
        what has been applied, store after store in a fixed order. */
    method ExecuteApplyCommands(currentTime: int) returns (effects: seq<Effect>)
      modifies this
      ensures forall k :: StoreOf(k) == Unexpired(old(StoreOf(k)), currentTime)
      ensures effects == TickEffects(old(StoresNow()), currentTime, |KINDS|)
    {
      hide *;
      ghost var stores := StoresNow();
      NowIs(currentTime);
      effects := ApplyWrenches(stores, currentTime, []);
      effects := ApplyJoints(stores, currentTime, effects);
      effects := ApplyLinkMotion(stores, currentTime, effects);
      AllFiltered(stores, currentTime);
    }

    lemma NowIs(t: int)
      ensures var s := StoresNow();
        && TickEffects(s, t, 0) == [] && |KINDS| == 10
        && (forall k :: s(k) == StoreOf(k))
        && KINDS[0] == AddForce && s(AddForce) == linkAddForce
        && KINDS[1] == AddTorque && s(AddTorque) == linkAddTorque
        && KINDS[2] == SetForce && s(SetForce) == linkSetForce
        && KINDS[3] == SetTorque && s(SetTorque) == linkSetTorque
        && KINDS[4] == JointForce && s(JointForce) == jointCommands
        && KINDS[5] == JointPosition && s(JointPosition) == jointSetPosition
        && KINDS[6] == JointVelocity && s(JointVelocity) == jointSetVelocity
        && KINDS[7] == WorldPose && s(WorldPose) == linkSetWorldPose
        && KINDS[8] == LinearVelocity && s(LinearVelocity) == linkSetLinearVelocity
        && KINDS[9] == AngularVelocity && s(AngularVelocity) == linkSetAngularVelocity
    {
    }

    lemma AllFiltered(s: Kind -> Store, t: int)
      requires linkAddForce == Unexpired(s(AddForce), t)
      requires linkAddTorque == Unexpired(s(AddTorque), t)
      requires linkSetForce == Unexpired(s(SetForce), t)
      requires linkSetTorque == Unexpired(s(SetTorque), t)
      requires jointCommands == Unexpired(s(JointForce), t)
      requires jointSetPosition == Unexpired(s(JointPosition), t)
      requires jointSetVelocity == Unexpired(s(JointVelocity), t)
      requires linkSetWorldPose == Unexpired(s(WorldPose), t)
      requires linkSetLinearVelocity == Unexpired(s(LinearVelocity), t)
      requires linkSetAngularVelocity == Unexpired(s(AngularVelocity), t)
      ensures forall k :: StoreOf(k) == Unexpired(s(k), t)
    {
      hide Unexpired;
    }

    ghost function StoresNow(): (stores: Kind -> Store)
      reads this
      ensures forall k :: stores(k) == StoreOf(k)
    {
      var force, torque, setForce, setTorque := linkAddForce, linkAddTorque, linkSetForce, linkSetTorque;
      var joint := jointCommands;
      var position, velocity, pose := jointSetPosition, jointSetVelocity, linkSetWorldPose;
      var linear, angular := linkSetLinearVelocity, linkSetAngularVelocity;
      (k: Kind) =>
        match k
        case AddForce => force
        case AddTorque => torque
        case SetForce => setForce
        case SetTorque => setTorque
        case JointForce => joint
        case JointPosition => position
        case JointVelocity => velocity
        case WorldPose => pose
        case LinearVelocity => linear
        case AngularVelocity => angular
    }

    method ClearApplyCommands()
      modifies this
      ensures forall k :: StoreOf(k) == []
    {
      linkAddForce, linkAddTorque, linkSetForce, linkSetTorque, jointCommands := [], [], [], [], [];
      jointSetPosition, jointSetVelocity, linkSetWorldPose := [], [], [];
      linkSetLinearVelocity, linkSetAngularVelocity := [], [];
    }
  }
}
