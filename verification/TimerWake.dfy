/** The wheel keeps pol's timer armed for its soonest entry, and forgets what is cleared. */
module TimerWake {
  import opened TimerWheel

  /** Delays the wheel can keep: under an hour. */
  predicate Short(a: Act) {
    (a.SetTimeout? ==> a.ms <= LONGEST) && (a.SetInterval? ==> a.ms <= LONGEST)
  }

  predicate AllShort(acts: seq<Act>) { forall i :: 0 <= i < |acts| ==> Short(acts[i]) }

  predicate ShortEvent(e: Event) {
    match e
    case Do(act) => Short(act)
    case Tick(callbacks) => forall i :: 0 <= i < |callbacks| ==> AllShort(callbacks[i])
  }

  ghost predicate Bounded(s: State) {
    && 0.0 <= s.now
    && forall i :: 0 <= i < |s.wheel| ==>
      s.wheel[i].due <= s.now + LONGEST * MS && s.wheel[i].period <= LONGEST * MS
  }

  /** Between ticks: a wheel with entries is on, pol's timer is its own, and it wakes within
      a millisecond of the soonest entry (or of the last arming, if that was overdue). */
  ghost predicate Armed(s: State) {
    && (s.wheel != [] ==> s.on) && (s.on ==> s.timer)
    && forall i :: 0 <= i < |s.wheel| ==> s.armed <= Max(s.wheel[i].due, s.since) + MS
  }

  lemma {:induction false} WithoutSubset(wheel: seq<Entry>, id: nat)
    ensures forall i :: 0 <= i < |Without(wheel, id)| ==>
      Without(wheel, id)[i] in wheel && Without(wheel, id)[i].id != id
  {
    if wheel != [] {
      WithoutSubset(wheel[1..], id);
    }
  }

  lemma ActBounded(s: State, a: Act)
    requires Bounded(s) && Short(a)
    ensures Bounded(DoAct(s, a))
  {
    if a.Clear? {
      WithoutSubset(s.wheel, a.id);
    }
  }

  /** Setting a timer never wakes later than it needs, clearing and waiting leave the wake. */
  lemma ActArmed(s: State, a: Act)
    requires Armed(s)
    ensures Armed(DoAct(s, a))
  {
    match a
    case SetTimeout(ms) => DelayBounds(Max(0.0, ms));
    case SetInterval(ms) => DelayBounds(Max(1.0, ms));
    case Clear(id) => WithoutSubset(s.wheel, id);
    case Wait(ns) =>
  }

  /** The delay pol is asked for: a whole number of milliseconds, at least one, and otherwise
      less than one below what was asked. */
  lemma DelayIs(ms: real)
    requires ms < (WORD / 2) as real
    ensures if ms < 1.0 then Delay(ms) == 1 else 1 <= Delay(ms) && ms - 1.0 < Delay(ms) as real <= ms
  {
    if 1.0 <= ms {
      Int32Facts(ms.Floor);
    }
  }

  lemma DelayBounds(ms: real)
    requires 0.0 <= ms
    ensures Delay(ms) as real <= ms + 1.0
  {
    if 1.0 <= ms {
      Int32Facts(ms.Floor);
    }
  }

  lemma {:induction false} ActsBounded(s: State, acts: seq<Act>)
    requires Bounded(s) && AllShort(acts)
    ensures Bounded(DoActs(s, acts))
    decreases |acts|
  {
    if acts != [] {
      ActBounded(s, acts[0]);
      ActsBounded(DoAct(s, acts[0]), acts[1..]);
    }
  }

  lemma {:induction false} FireAllBounded(s: State, due: seq<Entry>, callbacks: seq<seq<Act>>)
    requires Bounded(s)
    requires forall i :: 0 <= i < |due| ==> due[i].period <= LONGEST * MS
    requires forall i :: 0 <= i < |callbacks| ==> AllShort(callbacks[i])
    ensures Bounded(FireAll(s, due, callbacks))
    decreases |due|
  {
    if due != [] {
      var e := due[0];
      var acts := if callbacks == [] then [] else callbacks[0];
      WithoutSubset(s.wheel, e.id);
      RescheduledShape(s.wheel, e.id, s.now + e.period);
      assert Bounded(Strike(s, e));
      ActsBounded(Strike(s, e), acts);
      FireAllBounded(Fire(s, e, acts), due[1..], if callbacks == [] then [] else callbacks[1..]);
    }
  }

  lemma {:induction false} SoonestIsLeast(wheel: seq<Entry>)
    requires wheel != []
    ensures exists i :: 0 <= i < |wheel| && wheel[i].due == Soonest(wheel)
    ensures forall i :: 0 <= i < |wheel| ==> Soonest(wheel) <= wheel[i].due
  {
    if |wheel| == 1 {
      assert wheel[0].due == Soonest(wheel);
    } else {
      SoonestIsLeast(wheel[1..]);
      var j :| 0 <= j < |wheel[1..]| && wheel[1..][j].due == Soonest(wheel[1..]);
      assert wheel[j + 1].due == Soonest(wheel[1..]);
      forall i | 0 <= i < |wheel| ensures Soonest(wheel) <= wheel[i].due {
        assert i == 0 || wheel[i] == wheel[1..][i - 1];
      }
    }
  }

  lemma CeilBounds(x: real)
    ensures x <= Ceil(x) as real < x + 1.0
  {
  }

  /** What cutting to 32 bits does to a delay. */
  lemma Int32Facts(n: int)
    requires 0 <= n
    ensures Int32(n) <= n && (n < WORD / 2 ==> Int32(n) == n)
    ensures 0 <= Int32(n) < HOUR <==> n % WORD < HOUR
  {
    assert n == n / WORD * WORD + n % WORD;
    if n % WORD < WORD / 2 {
      assert (n + WORD / 2) / WORD == n / WORD;
    } else {
      assert (n + WORD / 2) / WORD == n / WORD + 1;
    }
  }

  /** The least whole number of milliseconds, at least one, that covers a delay. */
  ghost predicate Covers(ms: int, ns: real) {
    1 <= ms && ns <= ms as real * MS && (1 < ms ==> (ms - 1) as real * MS < ns)
  }

  lemma NextDelayCovers(s: State)
    requires s.wheel != []
    ensures Covers(NextDelay(s), Soonest(s.wheel) - s.now)
  {
    CeilBounds((Soonest(s.wheel) - s.now) / MS);
  }

  /** After a tick pol still holds the wheel's timer if and only if some entry is left and the
      delay to the soonest, in whole milliseconds modulo 2^32, is under an hour: for a delay of
      less than 2^31 ms, if and only if it is at most 3,599,999 ms. */
  lemma RearmKeepsTimerIff(s: State, ms: int)
    requires s.wheel != [] ==> Covers(ms, Soonest(s.wheel) - s.now)
    ensures Rearm(s).timer <==> s.wheel != [] && ms % WORD < HOUR
    ensures s.wheel != [] && ms < WORD / 2 ==>
      (Rearm(s).timer <==> Soonest(s.wheel) - s.now <= LONGEST * MS)
    ensures Rearm(s).on <==> s.on && s.wheel != []
  {
    if s.wheel == [] {
      Int32Facts(REMOVE);
    } else {
      NextDelayCovers(s);
      assert ms == NextDelay(s) by {
        OneCover(ms, NextDelay(s), Soonest(s.wheel) - s.now);
      }
      Int32Facts(ms);
    }
  }

  lemma OneCover(a: int, b: int, ns: real)
    requires Covers(a, ns) && Covers(b, ns)
    ensures a == b
  {
  }

  /** A wheel that believes itself on without pol's timer: it stays so, and nothing ever fires
      again, whatever timers are set. */
  lemma {:induction false} LostForGood(s: State, events: seq<Event>)
    requires s.on && !s.timer
    ensures var t := Run(s, events); t.on && !t.timer && t.log == s.log
  {
    if events != [] {
      LostForGood(s, events[..|events| - 1]);
    }
  }

  /** How the program gets there: a timeout of 1 ms and one of an hour and a millisecond, and pol's tick
      at the very moment it was armed for. */
  lemma HourIsLost()
    ensures var s := Run(Initial(), [Do(SetTimeout(1.0)), Do(SetTimeout(3600001.0)), Do(Wait(MS))]);
      var t := Step(s, Tick([]));
      && s.timer && s.armed == s.now
      && t.wheel == [Entry(2, 3600001.0 * MS, 0.0)] && t.on && !t.timer
  {
    var first, second := Entry(1, MS, 0.0), Entry(2, 3600001.0 * MS, 0.0);
    var one := Step(Initial(), Do(SetTimeout(1.0)));
    assert [] + [first] == [first] && one.wheel == [first] && one.armed == MS;
    var two := Step(one, Do(SetTimeout(3600001.0)));
    assert [first] + [second] == [first, second];
    assert two.wheel == [first, second] && two.armed == MS;
    var s := Step(two, Do(Wait(MS)));
    assert s.now == MS && s.wheel == [first, second];
    var events := [Do(SetTimeout(1.0)), Do(SetTimeout(3600001.0)), Do(Wait(MS))];
    assert events[..2] == [Do(SetTimeout(1.0)), Do(SetTimeout(3600001.0))] && events[..2][..1] == [Do(SetTimeout(1.0))];
    assert Run(Initial(), events[..2][..1]) == one;
    assert Run(Initial(), events) == s;
    FarOneIsLost(s, first, second);
  }

  lemma FarOneIsLost(s: State, first: Entry, second: Entry)
    requires s.timer && s.on && s.now == MS && s.wheel == [first, second]
    requires first == Entry(1, MS, 0.0) && second == Entry(2, 3600001.0 * MS, 0.0)
    ensures var t := Step(s, Tick([])); t.wheel == [second] && t.on && !t.timer
  {
    assert s.wheel[1..] == [second] && [second][1..] == [];
    LeftByOne(s.wheel, s.now);
    LeftByOne([second], s.now);
    assert [first] + [] == [first];
    assert DueAt(s.wheel, s.now) == [first];
    var t := Strike(s, first);
    UntouchedIsSame([second], 1, MS);
    assert t.wheel == [second];
    assert [first][1..] == [];
    assert FireAll(s, [first], []) == t;
    assert Soonest(t.wheel) - t.now == 3600000.0 * MS;
    RearmKeepsTimerIff(t, 3600000);
  }

  /** Unless the soonest entry is an hour off, a tick's end wakes within a millisecond of it, and
      not before. */
  lemma RearmArmed(s: State)
    requires s.on && (s.wheel != [] ==> NextDelay(s) % WORD < HOUR)
    ensures Armed(Rearm(s))
    ensures s.wheel != [] && NextDelay(s) < HOUR ==> Soonest(s.wheel) <= Rearm(s).armed
  {
    if s.wheel != [] {
      var soon := Soonest(s.wheel);
      SoonestIsLeast(s.wheel);
      NextDelayCovers(s);
      RearmKeepsTimerIff(s, NextDelay(s));
      Int32Facts(NextDelay(s));
      assert Rearm(s).armed <= Max(soon, s.now) + MS;
    }
  }

  lemma {:induction false} DueSubset(wheel: seq<Entry>, now: real)
    ensures forall i :: 0 <= i < |DueAt(wheel, now)| ==> DueAt(wheel, now)[i] in wheel
  {
    if wheel != [] {
      DueSubset(wheel[1..], now);
    }
  }

  lemma {:induction false} ActsOn(s: State, acts: seq<Act>)
    requires s.on
    ensures DoActs(s, acts).on
    decreases |acts|
  {
    if acts != [] {
      ActsOn(DoAct(s, acts[0]), acts[1..]);
    }
  }

  lemma {:induction false} FireAllOn(s: State, due: seq<Entry>, callbacks: seq<seq<Act>>)
    requires s.on
    ensures FireAll(s, due, callbacks).on
    decreases |due|
  {
    if due != [] {
      var acts := if callbacks == [] then [] else callbacks[0];
      ActsOn(Strike(s, due[0]), acts);
      FireAllOn(Fire(s, due[0], acts), due[1..], if callbacks == [] then [] else callbacks[1..]);
    }
  }

  /** A tick that ends with the soonest entry an hour or more away (modulo 2^32 ms). */
  predicate Drops(s: State, e: Event) {
    && e.Tick? && s.timer
    && var t := FireAll(s, DueAt(s.wheel, s.now), e.callbacks);
      t.wheel != [] && HOUR <= NextDelay(t) % WORD
  }

  ghost predicate NoneDrops(events: seq<Event>) {
    forall i :: 0 <= i < |events| ==> !Drops(Run(Initial(), events[..i]), events[i])
  }

  /** A wheel that holds pol's timer is on; after a tick of that kind it is on without it. */
  lemma StepOn(s: State, e: Event)
    requires s.timer ==> s.on
    ensures Step(s, e).timer ==> Step(s, e).on
    ensures Drops(s, e) ==> Step(s, e).on && !Step(s, e).timer
    ensures Armed(s) && !Drops(s, e) ==> Armed(Step(s, e))
  {
    match e
    case Do(act) =>
      if Armed(s) {
        ActArmed(s, act);
      }
    case Tick(callbacks) =>
      if s.timer {
        var t := FireAll(s, DueAt(s.wheel, s.now), callbacks);
        FireAllOn(s, DueAt(s.wheel, s.now), callbacks);
        TickEnd(t);
      }
  }

  lemma TickEnd(t: State)
    requires t.on
    ensures Rearm(t).timer ==> Rearm(t).on
    ensures if t.wheel != [] && HOUR <= NextDelay(t) % WORD then Rearm(t).on && !Rearm(t).timer else Armed(Rearm(t))
  {
    if t.wheel != [] {
      NextDelayCovers(t);
    }
    RearmKeepsTimerIff(t, NextDelay(t));
    if t.wheel != [] ==> NextDelay(t) % WORD < HOUR {
      RearmArmed(t);
    }
  }

  lemma {:induction false} RunOn(events: seq<Event>)
    ensures Run(Initial(), events).timer ==> Run(Initial(), events).on
    ensures NoneDrops(events) ==> Armed(Run(Initial(), events))
  {
    if events != [] {
      var prior, e := events[..|events| - 1], events[|events| - 1];
      RunOn(prior);
      if NoneDrops(events) {
        forall i | 0 <= i < |prior| ensures !Drops(Run(Initial(), prior[..i]), prior[i]) {
          assert prior[..i] == events[..i] && prior[i] == events[i];
        }
      }
      StepOn(Run(Initial(), prior), e);
    }
  }

  lemma {:induction false} RunSplits(s: State, a: seq<Event>, b: seq<Event>)
    ensures Run(s, a + b) == Run(Run(s, a), b)
    decreases |b|
  {
    if b == [] {
      assert a + b == a;
    } else {
      var last := |b| - 1;
      assert (a + b)[..|a| + last] == a + b[..last];
      RunSplits(s, a, b[..last]);
    }
  }

  lemma SplitAt(events: seq<Event>, i: nat)
    requires i < |events|
    ensures events == events[..i] + [events[i]] + events[i + 1..]
  {
  }

  lemma DroppedForGood(prior: seq<Event>, e: Event, rest: seq<Event>)
    requires Drops(Run(Initial(), prior), e)
    ensures !Armed(Run(Initial(), prior + [e] + rest))
  {
    RunOn(prior);
    StepOn(Run(Initial(), prior), e);
    assert (prior + [e])[..|prior|] == prior;
    RunSplits(Initial(), prior + [e], rest);
    LostForGood(Run(Initial(), prior + [e]), rest);
  }

  /** In every run, between ticks, the wheel is armed in time if and only if no tick of the run
      has ended with the soonest entry an hour or more away. */
  lemma RunArmed(events: seq<Event>)
    ensures Armed(Run(Initial(), events)) <==> NoneDrops(events)
  {
    if NoneDrops(events) {
      RunOn(events);
    } else {
      var i :| 0 <= i < |events| && Drops(Run(Initial(), events[..i]), events[i]);
      SplitAt(events, i);
      DroppedForGood(events[..i], events[i], events[i + 1..]);
    }
  }

  lemma ShortStep(s: State, e: Event)
    requires Bounded(s) && ShortEvent(e)
    ensures Bounded(Step(s, e)) && !Drops(s, e)
  {
    match e
    case Do(act) => ActBounded(s, act);
    case Tick(callbacks) =>
      if s.timer {
        DueSubset(s.wheel, s.now);
        FireAllBounded(s, DueAt(s.wheel, s.now), callbacks);
        var t := FireAll(s, DueAt(s.wheel, s.now), callbacks);
        if t.wheel != [] {
          SoonestIsLeast(t.wheel);
          NextDelayCovers(t);
        }
      }
  }

  lemma {:induction false} ShortRunBounded(events: seq<Event>)
    requires forall i :: 0 <= i < |events| ==> ShortEvent(events[i])
    ensures Bounded(Run(Initial(), events))
  {
    if events != [] {
      ShortRunBounded(events[..|events| - 1]);
      ShortStep(Run(Initial(), events[..|events| - 1]), events[|events| - 1]);
    }
  }

  /** So in every run of delays under an hour the wheel is armed in time. */
  lemma ShortRunArmed(events: seq<Event>)
    requires forall i :: 0 <= i < |events| ==> ShortEvent(events[i])
    ensures Armed(Run(Initial(), events))
  {
    forall i | 0 <= i < |events| ensures !Drops(Run(Initial(), events[..i]), events[i]) {
      ShortRunBounded(events[..i]);
      ShortStep(Run(Initial(), events[..i]), events[i]);
    }
    RunArmed(events);
  }

  // ----- What is cleared stays silent -----

  /** The id was handed out, and no entry of the wheel carries it. */
  ghost predicate Absent(wheel: seq<Entry>, id: nat) {
    forall i :: 0 <= i < |wheel| ==> wheel[i].id != id
  }

  lemma {:induction false} ActsAbsent(s: State, acts: seq<Act>, id: nat)
    requires Absent(s.wheel, id) && id < s.nextId
    ensures Absent(DoActs(s, acts).wheel, id) && id < DoActs(s, acts).nextId
    ensures DoActs(s, acts).log == s.log
    decreases |acts|
  {
    if acts != [] {
      if acts[0].Clear? {
        WithoutSubset(s.wheel, acts[0].id);
      }
      ActsAbsent(DoAct(s, acts[0]), acts[1..], id);
    }
  }

  lemma {:induction false} FireAllAbsent(s: State, due: seq<Entry>, callbacks: seq<seq<Act>>, id: nat)
    requires Absent(s.wheel, id) && Absent(due, id) && id < s.nextId
    ensures var t := FireAll(s, due, callbacks);
      && Absent(t.wheel, id) && id < t.nextId
      && |s.log| <= |t.log| && t.log[..|s.log|] == s.log
      && forall k :: |s.log| <= k < |t.log| ==> t.log[k].id != id
    decreases |due|
  {
    if due != [] {
      var e := due[0];
      var acts := if callbacks == [] then [] else callbacks[0];
      var rest := if callbacks == [] then [] else callbacks[1..];
      WithoutSubset(s.wheel, e.id);
      RescheduledShape(s.wheel, e.id, s.now + e.period);
      var struck := Strike(s, e);
      assert Absent(struck.wheel, id);
      ActsAbsent(struck, acts, id);
      var t := Fire(s, e, acts);
      FireAllAbsent(t, due[1..], rest, id);
      var u := FireAll(s, due, callbacks);
      assert u == FireAll(t, due[1..], rest);
      assert u.log[..|s.log|] == u.log[..|t.log|][..|s.log|];
      forall k | |s.log| <= k < |u.log| ensures u.log[k].id != id {
        if k < |t.log| {
          assert u.log[k] == u.log[..|t.log|][k] == struck.log[k];
        }
      }
    }
  }

  lemma {:induction false} AbsentNeverFires(s: State, id: nat, events: seq<Event>)
    requires id < s.nextId && Absent(s.wheel, id)
    ensures var t := Run(s, events);
      && Absent(t.wheel, id) && id < t.nextId
      && |s.log| <= |t.log| && t.log[..|s.log|] == s.log
      && forall k :: |s.log| <= k < |t.log| ==> t.log[k].id != id
  {
    if events != [] {
      var prior, e := events[..|events| - 1], events[|events| - 1];
      AbsentNeverFires(s, id, prior);
      var m := Run(s, prior);
      match e
      case Do(act) =>
        assert DoActs(m, [act]) == DoAct(m, act) by {
          assert [act][1..] == [];
        }
        ActsAbsent(m, [act], id);
      case Tick(callbacks) =>
        DueSubset(m.wheel, m.now);
        FireAllAbsent(m, DueAt(m.wheel, m.now), callbacks, id);
        var t := Run(s, events);
        if m.timer {
          assert t.log[..|s.log|] == t.log[..|m.log|][..|s.log|];
          forall k | |s.log| <= k < |t.log| ensures t.log[k].id != id {
            if k < |m.log| {
              assert t.log[k] == t.log[..|m.log|][k];
            }
          }
        }
    }
  }

  /** Cleared between ticks, a timer never fires again, whatever follows. */
  lemma ClearedNeverFires(s: State, id: nat, events: seq<Event>)
    requires id < s.nextId
    ensures var t := Run(Step(s, Do(Clear(id))), events);
      && |s.log| <= |t.log| && t.log[..|s.log|] == s.log
      && forall k :: |s.log| <= k < |t.log| ==> t.log[k].id != id
  {
    WithoutSubset(s.wheel, id);
    AbsentNeverFires(Step(s, Do(Clear(id))), id, events);
  }

  // ----- What a tick leaves -----

  /** What is left of a wheel once its due entries fired: those not due yet, and the intervals,
      in their places, due one period from now. */
  function Left(wheel: seq<Entry>, now: real): seq<Entry> {
    if wheel == [] then []
    else
      var e, rest := wheel[0], Left(wheel[1..], now);
      (if now < e.due then [e] else Spent(e, now)) + rest
  }

  lemma {:induction false} StrikeInPlace(done: seq<Entry>, e: Entry, rest: seq<Entry>, due: real)
    requires Absent(done, e.id) && Absent(rest, e.id)
    ensures Without(done + ([e] + rest), e.id) == done + rest
    ensures Rescheduled(done + ([e] + rest), e.id, due) == done + ([e.(due := due)] + rest)
  {
    var later := [e] + rest;
    if done == [] {
      assert done + later == later && later[1..] == rest;
      UntouchedIsSame(rest, e.id, due);
    } else {
      var d, more := done[0], done[1..];
      assert done == [d] + more && (done + later)[1..] == more + later;
      StrikeInPlace(more, e, rest, due);
      Regroup([d], more, rest);
      Regroup([d], more, [e.(due := due)] + rest);
    }
  }

  lemma {:induction false} UntouchedIsSame(wheel: seq<Entry>, id: nat, due: real)
    requires Absent(wheel, id)
    ensures Without(wheel, id) == wheel && Rescheduled(wheel, id, due) == wheel
  {
    if wheel != [] {
      UntouchedIsSame(wheel[1..], id, due);
    }
  }

  /** What is left of one due entry. */
  function Spent(e: Entry, now: real): seq<Entry> {
    if 0.0 < e.period then [e.(due := now + e.period)] else []
  }

  lemma StrikeQuietly(s: State, done: seq<Entry>, e: Entry, later: seq<Entry>)
    requires s.wheel == done + [e] + later && Ordered(s.wheel, s.nextId)
    ensures Strike(s, e).wheel == done + Spent(e, s.now) + later && Ordered(Strike(s, e).wheel, s.nextId)
  {
    assert s.wheel[|done|] == e;
    forall i | 0 <= i < |later| ensures later[i].id != e.id {
      assert s.wheel[|done| + 1 + i] == later[i];
    }
    forall i | 0 <= i < |done| ensures done[i].id != e.id {
      assert s.wheel[i] == done[i];
    }
    StrikeInPlace(done, e, later, s.now + e.period);
    Regroup(done, [e], later);
    Regroup(done, [e.(due := s.now + e.period)], later);
    StrikeWheel(s, e);
    assert done + [] + later == done + later;
  }

  /** The snapshot and what is left, entry by entry. */
  lemma LeftByOne(rest: seq<Entry>, now: real)
    requires rest != []
    ensures var e, later := rest[0], rest[1..];
      if now < e.due then DueAt(rest, now) == DueAt(later, now) && Left(rest, now) == [e] + Left(later, now)
      else DueAt(rest, now) == [e] + DueAt(later, now) && Left(rest, now) == Spent(e, now) + Left(later, now)
  {
    assert [] + Left(rest[1..], now) == Left(rest[1..], now);
    assert [] + DueAt(rest[1..], now) == DueAt(rest[1..], now);
  }

  lemma FireFirst(s: State, e: Entry, due: seq<Entry>)
    ensures FireAll(s, [e] + due, []) == FireAll(Strike(s, e), due, [])
  {
    assert ([e] + due)[1..] == due;
  }

  lemma Regroup(a: seq<Entry>, b: seq<Entry>, c: seq<Entry>)
    ensures a + (b + c) == a + b + c
  {
  }

  lemma {:induction false} FireQuietly(s: State, done: seq<Entry>, rest: seq<Entry>)
    requires s.wheel == done + rest && Ordered(s.wheel, s.nextId)
    ensures FireAll(s, DueAt(rest, s.now), []).wheel == done + Left(rest, s.now)
    decreases |rest|
  {
    if rest != [] {
      var e, later := rest[0], rest[1..];
      assert rest == [e] + later;
      Regroup(done, [e], later);
      LeftByOne(rest, s.now);
      if s.now < e.due {
        FireQuietly(s, done + [e], later);
        Regroup(done, [e], Left(later, s.now));
      } else {
        StrikeQuietly(s, done, e, later);
        FireQuietly(Strike(s, e), done + Spent(e, s.now), later);
        FireFirst(s, e, DueAt(later, s.now));
        Regroup(done, Spent(e, s.now), Left(later, s.now));
      }
    }
  }

  /** A tick whose callbacks leave the wheel alone drops the one-shots that were due, puts the
      intervals that were due one period off, and leaves everything else, in order. */
  lemma QuietTick(s: State)
    requires Sane(s) && s.timer
    ensures DoTick(s, []).wheel == Left(s.wheel, s.now)
  {
    assert [] + s.wheel == s.wheel;
    FireQuietly(s, [], s.wheel);
  }
}
