/** The life of one timer: set, kept, fired on every tick at or past its due time, renewed if it is
    an interval, gone if it is not. */
module TimerLives {
  import opened TimerWake
  import opened TimerWheel

  // ----- Setting a timer -----

  /** `e` is a new entry of the wheel, behind all the others. */
  ghost predicate Sets(s: State, t: State, e: Entry) {
    t.wheel == s.wheel + [e] && e.id == s.nextId && t.nextId == s.nextId + 1 && t.log == s.log && t.now == s.now
  }

  /** A timeout is due once, after its delay; a negative one counts as none. */
  lemma SetsTimeout(s: State, ms: real) returns (e: Entry)
    ensures Sets(s, DoAct(s, SetTimeout(ms)), e)
    ensures e.due - s.now == (if 0.0 <= ms then ms * MS else 0.0) && e.period == 0.0
  {
    e := Entry(s.nextId, s.now + Max(0.0, ms) * MS, 0.0);
  }

  /** An interval is due after its delay, at least a millisecond, and again after each such delay. */
  lemma SetsInterval(s: State, ms: real) returns (e: Entry)
    ensures Sets(s, DoAct(s, SetInterval(ms)), e)
    ensures e.due - s.now == e.period == (if 1.0 <= ms then ms * MS else MS)
  {
    e := Entry(s.nextId, s.now + Max(1.0, ms) * MS, Max(1.0, ms) * MS);
  }

  // ----- What callbacks do is done -----

  function IsSet(a: Act): nat { if a.SetTimeout? || a.SetInterval? then 1 else 0 }

  function Waited(a: Act): real { if a.Wait? && 0.0 < a.ns then a.ns else 0.0 }

  /** How many timers some acts set, and how long they take. */
  function SetsIn(acts: seq<Act>): nat {
    if acts == [] then 0 else IsSet(acts[0]) + SetsIn(acts[1..])
  }

  function Takes(acts: seq<Act>): real {
    if acts == [] then 0.0 else Waited(acts[0]) + Takes(acts[1..])
  }

  /** What the first n callbacks do. */
  function Called(callbacks: seq<seq<Act>>, n: nat): seq<Act> {
    if n == 0 || callbacks == [] then [] else callbacks[0] + Called(callbacks[1..], n - 1)
  }

  lemma {:induction false} Sums(a: seq<Act>, b: seq<Act>)
    ensures SetsIn(a + b) == SetsIn(a) + SetsIn(b) && Takes(a + b) == Takes(a) + Takes(b)
  {
    if a == [] {
      assert a + b == b;
    } else {
      assert (a + b)[1..] == a[1..] + b;
      Sums(a[1..], b);
    }
  }

  /** `t` came from `s` by these acts, as far as ids and the clock tell. */
  ghost predicate Did(s: State, t: State, acts: seq<Act>) {
    t.nextId == s.nextId + SetsIn(acts) && t.now == s.now + Takes(acts)
  }

  lemma {:induction false} ActsDid(s: State, acts: seq<Act>)
    ensures Did(s, DoActs(s, acts), acts)
    decreases |acts|
  {
    if acts != [] {
      ActsDid(DoAct(s, acts[0]), acts[1..]);
    }
  }

  lemma {:induction false} FireAllDid(s: State, due: seq<Entry>, callbacks: seq<seq<Act>>)
    ensures Did(s, FireAll(s, due, callbacks), Called(callbacks, |due|))
    decreases |due|
  {
    if due != [] {
      var acts := if callbacks == [] then [] else callbacks[0];
      var rest := if callbacks == [] then [] else callbacks[1..];
      ActsDid(Strike(s, due[0]), acts);
      FireAllDid(Fire(s, due[0], acts), due[1..], rest);
      Sums(acts, Called(rest, |due| - 1));
      assert callbacks == [] ==> acts + Called(rest, |due| - 1) == [];
    }
  }

  /** A tick calls back once for each timer due at its start, and what the callbacks do is done. */
  lemma TickDid(s: State, callbacks: seq<seq<Act>>)
    requires s.timer
    ensures Did(s, DoTick(s, callbacks), Called(callbacks, |DueAt(s.wheel, s.now)|))
  {
    FireAllDid(s, DueAt(s.wheel, s.now), callbacks);
  }

  // ----- What nobody clears stays -----

  predicate Clears(e: Event, id: nat) {
    match e
    case Do(act) => act == Clear(id)
    case Tick(callbacks) => AnyClears(callbacks, id)
  }

  predicate AnyClears(callbacks: seq<seq<Act>>, id: nat) {
    exists i :: 0 <= i < |callbacks| && Clear(id) in callbacks[i]
  }

  lemma {:induction false} WithoutKeeps(wheel: seq<Entry>, id: nat, x: Entry)
    requires x in wheel && x.id != id
    ensures x in Without(wheel, id)
  {
    if wheel[0] != x {
      assert x in wheel[1..];
      WithoutKeeps(wheel[1..], id, x);
    }
  }

  lemma {:induction false} ActsKeep(s: State, acts: seq<Act>, x: Entry)
    requires x in s.wheel && Clear(x.id) !in acts
    ensures x in DoActs(s, acts).wheel
    decreases |acts|
  {
    if acts != [] {
      assert acts[0] in acts && forall a :: a in acts[1..] ==> a in acts;
      if acts[0].Clear? {
        WithoutKeeps(s.wheel, acts[0].id, x);
      }
      assert x in DoAct(s, acts[0]).wheel;
      ActsKeep(DoAct(s, acts[0]), acts[1..], x);
    }
  }

  lemma StrikeKeeps(s: State, e: Entry, x: Entry)
    requires x in s.wheel && x.id != e.id
    ensures x in Strike(s, e).wheel
  {
    RescheduledShape(s.wheel, e.id, s.now + e.period);
    var i :| 0 <= i < |s.wheel| && s.wheel[i] == x;
    if 0.0 < e.period {
      assert Rescheduled(s.wheel, e.id, s.now + e.period)[i] == x;
    } else {
      WithoutKeeps(s.wheel, e.id, x);
    }
  }

  lemma StrikeRenews(s: State, x: Entry)
    requires x in s.wheel && 0.0 < x.period
    ensures x.(due := s.now + x.period) in Strike(s, x).wheel
  {
    RescheduledShape(s.wheel, x.id, s.now + x.period);
    var i :| 0 <= i < |s.wheel| && s.wheel[i] == x;
    assert Rescheduled(s.wheel, x.id, s.now + x.period)[i] == x.(due := s.now + x.period);
  }

  lemma TailClears(callbacks: seq<seq<Act>>, id: nat)
    requires !AnyClears(callbacks, id)
    ensures Clear(id) !in (if callbacks == [] then [] else callbacks[0])
    ensures !AnyClears(if callbacks == [] then [] else callbacks[1..], id)
  {
    if callbacks != [] {
      assert forall i :: 0 <= i < |callbacks| - 1 ==> callbacks[1..][i] == callbacks[i + 1];
    }
  }

  lemma {:induction false} FireAllKeeps(s: State, due: seq<Entry>, callbacks: seq<seq<Act>>, x: Entry)
    requires x in s.wheel && !AnyClears(callbacks, x.id)
    requires forall i :: 0 <= i < |due| ==> due[i].id != x.id
    ensures x in FireAll(s, due, callbacks).wheel
    decreases |due|
  {
    if due != [] {
      var acts := if callbacks == [] then [] else callbacks[0];
      TailClears(callbacks, x.id);
      StrikeKeeps(s, due[0], x);
      ActsKeep(Strike(s, due[0]), acts, x);
      assert forall i :: 0 <= i < |due| - 1 ==> due[1..][i] == due[i + 1];
      FireAllKeeps(Fire(s, due[0], acts), due[1..], if callbacks == [] then [] else callbacks[1..], x);
    }
  }

  lemma {:induction false} ActsLog(s: State, acts: seq<Act>)
    ensures DoActs(s, acts).log == s.log
    decreases |acts|
  {
    if acts != [] {
      ActsLog(DoAct(s, acts[0]), acts[1..]);
    }
  }

  /** The firings are logged one behind the other. */
  lemma {:induction false} FireAllLog(s: State, due: seq<Entry>, callbacks: seq<seq<Act>>)
    ensures s.log <= FireAll(s, due, callbacks).log
    decreases |due|
  {
    if due != [] {
      var acts := if callbacks == [] then [] else callbacks[0];
      ActsLog(Strike(s, due[0]), acts);
      FireAllLog(Fire(s, due[0], acts), due[1..], if callbacks == [] then [] else callbacks[1..]);
    }
  }

  lemma FireAllFirst(s: State, due: seq<Entry>, callbacks: seq<seq<Act>>, acts: seq<Act>, rest: seq<seq<Act>>)
    requires due != [] && acts == (if callbacks == [] then [] else callbacks[0])
    requires rest == if callbacks == [] then [] else callbacks[1..]
    ensures FireAll(s, due, callbacks) == FireAll(Fire(s, due[0], acts), due[1..], rest)
  {
  }

  /** The firing of the log renews the interval `x`. */
  ghost predicate Renews(t: State, k: nat, x: Entry) {
    k < |t.log| && x.(due := t.log[k].at + x.period) in t.wheel
  }

  lemma RenewsThenStays(
      s: State, x: Entry, acts: seq<Act>, later: seq<Entry>, rest: seq<seq<Act>>, m: State, t: State)
    requires m == Fire(s, x, acts) && t == FireAll(m, later, rest)
    requires x in s.wheel && 0.0 < x.period && Clear(x.id) !in acts && !AnyClears(rest, x.id)
    requires forall i :: 0 <= i < |later| ==> later[i].id != x.id
    ensures Renews(t, |s.log|, x)
  {
    var y := x.(due := s.now + x.period);
    StrikeRenews(s, x);
    ActsKeep(Strike(s, x), acts, y);
    FireAllKeeps(m, later, rest, y);
    ActsLog(Strike(s, x), acts);
    FireAllLog(m, later, rest);
    var log := s.log + [Fired(x.id, s.now, x.due, x.period <= 0.0)];
    assert m.log == log && log[|s.log|].at == s.now;
  }

  lemma FireKeeps(s: State, e: Entry, acts: seq<Act>, x: Entry, m: State)
    requires x in s.wheel && x.id != e.id && Clear(x.id) !in acts && m == Fire(s, e, acts)
    ensures x in m.wheel && |m.log| == |s.log| + 1
  {
    StrikeKeeps(s, e, x);
    ActsKeep(Strike(s, e), acts, x);
    ActsLog(Strike(s, e), acts);
  }

  /** Only the k-th of them carries the id of `x`. */
  ghost predicate OnlyThere(due: seq<Entry>, k: nat, x: Entry) {
    k < |due| && due[k] == x && forall i :: 0 <= i < |due| && i != k ==> due[i].id != x.id
  }

  lemma NotThereYet(due: seq<Entry>, k: nat, x: Entry)
    requires OnlyThere(due, k, x)
    ensures if k == 0 then forall i :: 0 <= i < |due| - 1 ==> due[1..][i].id != x.id
      else due[0].id != x.id && OnlyThere(due[1..], k - 1, x)
  {
    assert forall i :: 0 <= i < |due| - 1 ==> due[1..][i] == due[i + 1];
  }

  /** An interval of the snapshot, the k-th, fires and is renewed from the moment it did. */
  lemma {:induction false} FireAllRenews(
      s: State, due: seq<Entry>, callbacks: seq<seq<Act>>, k: nat, x: Entry, t: State)
    requires OnlyThere(due, k, x) && t == FireAll(s, due, callbacks)
    requires x in s.wheel && 0.0 < x.period && !AnyClears(callbacks, x.id)
    ensures Renews(t, |s.log| + k, x)
    decreases |due|
  {
    var acts := if callbacks == [] then [] else callbacks[0];
    var rest := if callbacks == [] then [] else callbacks[1..];
    TailClears(callbacks, x.id);
    NotThereYet(due, k, x);
    FireAllFirst(s, due, callbacks, acts, rest);
    var m := Fire(s, due[0], acts);
    if k == 0 {
      RenewsThenStays(s, x, acts, due[1..], rest, m, t);
    } else {
      FireKeeps(s, due[0], acts, x, m);
      FireAllRenews(m, due[1..], rest, k - 1, x, t);
    }
  }

  // ----- One tick -----

  /** The firings of an id from a place of the log on. */
  ghost predicate Silent(log: seq<Fired>, from: nat, id: nat) {
    forall k :: from <= k < |log| ==> log[k].id != id
  }

  /** The k-th firing of the log is this one's, and its only one from `from` on. */
  ghost predicate OnlyAt(log: seq<Fired>, from: nat, k: nat, id: nat) {
    && from <= k < |log| && log[k].id == id
    && forall j :: from <= j < |log| && j != k ==> log[j].id != id
  }

  lemma PendingDue(s: State)
    requires Sane(s)
    ensures Pending(s, DueAt(s.wheel, s.now))
  {
    var due := DueAt(s.wheel, s.now);
    DueShape(s.wheel, s.now, s.nextId);
    forall i | 0 <= i < |due| ensures exists j :: 0 <= j < |s.wheel| && s.wheel[j] == due[i] && due[i].due <= s.now {
      assert due[i] in due;
    }
  }

  /** The snapshot's place in the log. */
  lemma OnlyAtPlace(before: seq<Fired>, after: seq<Fired>, due: seq<Entry>, i: nat, below: nat)
    requires Fires(before, after, due) && Ordered(due, below) && i < |due|
    ensures OnlyAt(after, |before|, |before| + i, due[i].id) && IsFiring(after[|before| + i], due[i])
  {
    forall j | |before| <= j < |after| && j != |before| + i ensures after[j].id != due[i].id {
      assert IsFiring(after[|before| + (j - |before|)], due[j - |before|]);
    }
  }

  lemma IdsDiffer(due: seq<Entry>, i: nat, below: nat)
    requires Ordered(due, below) && i < |due|
    ensures OnlyThere(due, i, due[i])
  {
  }

  lemma InSnapshot(s: State, x: Entry) returns (i: nat)
    requires Ordered(s.wheel, s.nextId) && x in s.wheel && x.due <= s.now
    ensures i < |DueAt(s.wheel, s.now)| && DueAt(s.wheel, s.now)[i] == x
  {
    DueShape(s.wheel, s.now, s.nextId);
    assert x in DueAt(s.wheel, s.now);
    i :| 0 <= i < |DueAt(s.wheel, s.now)| && DueAt(s.wheel, s.now)[i] == x;
  }

  /** What a tick fires, before its end, which leaves the wheel and the log alone. */
  lemma TickIs(s: State, callbacks: seq<seq<Act>>) returns (t: State)
    requires s.timer
    ensures t == FireAll(s, DueAt(s.wheel, s.now), callbacks)
    ensures DoTick(s, callbacks) == Rearm(t) && Rearm(t).wheel == t.wheel && Rearm(t).log == t.log
  {
    t := FireAll(s, DueAt(s.wheel, s.now), callbacks);
  }

  /** One of the snapshot fires, once, and is renewed. */
  lemma SnapshotFires(s: State, due: seq<Entry>, callbacks: seq<seq<Act>>, i: nat, x: Entry, t: State)
    requires t == FireAll(s, due, callbacks) && Fires(s.log, t.log, due) && Ordered(due, s.nextId)
    requires i < |due| && due[i] == x && x in s.wheel
    ensures OnlyAt(t.log, |s.log|, |s.log| + i, x.id) && IsFiring(t.log[|s.log| + i], x)
    ensures 0.0 < x.period && !AnyClears(callbacks, x.id) ==> Renews(t, |s.log| + i, x)
  {
    OnlyAtPlace(s.log, t.log, due, i, s.nextId);
    if 0.0 < x.period && !AnyClears(callbacks, x.id) {
      IdsDiffer(due, i, s.nextId);
      FireAllRenews(s, due, callbacks, i, x, t);
    }
  }

  lemma SnapshotLog(s: State, callbacks: seq<seq<Act>>, due: seq<Entry>, t: State)
    requires Sane(s) && due == DueAt(s.wheel, s.now) && t == FireAll(s, due, callbacks)
    ensures Fires(s.log, t.log, due) && Ordered(due, s.nextId)
  {
    PendingDue(s);
    FireAllSane(s, due, callbacks);
  }

  lemma DueFires(s: State, callbacks: seq<seq<Act>>, due: seq<Entry>, x: Entry, t: State) returns (k: nat)
    requires Sane(s) && x in s.wheel && x.due <= s.now
    requires due == DueAt(s.wheel, s.now) && t == FireAll(s, due, callbacks)
    ensures s.log <= t.log && OnlyAt(t.log, |s.log|, k, x.id) && IsFiring(t.log[k], x)
    ensures 0.0 < x.period && !AnyClears(callbacks, x.id) ==> Renews(t, k, x)
  {
    SnapshotLog(s, callbacks, due, t);
    var i := InSnapshot(s, x);
    k := |s.log| + i;
    SnapshotFires(s, due, callbacks, i, x, t);
  }

  /** Every timer due when a tick starts fires in it, once. */
  lemma TickFires(s: State, callbacks: seq<seq<Act>>, x: Entry) returns (k: nat, t: State)
    requires Sane(s) && s.timer && x in s.wheel && x.due <= s.now
    ensures t.wheel == DoTick(s, callbacks).wheel && t.log == DoTick(s, callbacks).log
    ensures s.log <= t.log && OnlyAt(t.log, |s.log|, k, x.id) && IsFiring(t.log[k], x)
    ensures 0.0 < x.period && !AnyClears(callbacks, x.id) ==> Renews(t, k, x)
  {
    t := TickIs(s, callbacks);
    k := DueFires(s, callbacks, DueAt(s.wheel, s.now), x, t);
  }

  /** A timer that is not due, and that nobody clears, stays as it is and stays silent. */
  lemma TickWaits(s: State, callbacks: seq<seq<Act>>, x: Entry)
    requires Sane(s) && x in s.wheel && s.now < x.due && !AnyClears(callbacks, x.id)
    ensures var t := DoTick(s, callbacks);
      x in t.wheel && |s.log| <= |t.log| && t.log[..|s.log|] == s.log && Silent(t.log, |s.log|, x.id)
  {
    if s.timer {
      var due, t := DueAt(s.wheel, s.now), DoTick(s, callbacks);
      PendingDue(s);
      DueShape(s.wheel, s.now, s.nextId);
      FireAllSane(s, due, callbacks);
      forall i | 0 <= i < |due| ensures due[i].id != x.id {
        assert due[i] in due;
        if due[i].id == x.id {
          SameId(s, due[i], x);
        }
      }
      FireAllKeeps(s, due, callbacks, x);
      forall j | |s.log| <= j < |t.log| ensures t.log[j].id != x.id {
        assert IsFiring(t.log[|s.log| + (j - |s.log|)], due[j - |s.log|]);
      }
    }
  }

  lemma SameId(s: State, x: Entry, y: Entry)
    requires Ordered(s.wheel, s.nextId) && x in s.wheel && y in s.wheel && x.id == y.id
    ensures x == y
  {
  }

  // ----- Over runs -----

  ghost predicate NobodyClears(events: seq<Event>, id: nat) {
    forall i :: 0 <= i < |events| ==> !Clears(events[i], id)
  }

  /** `y` is the interval `x` as the firings from `from` on have left it: due one period after the
      last of them, or as it was. */
  ghost predicate Renewed(x: Entry, y: Entry, log: seq<Fired>, from: nat) {
    || (y == x && Silent(log, from, x.id))
    || (exists k: nat :: LastAt(log, from, k, x.id) && y == x.(due := log[k].at + x.period))
  }

  /** The k-th firing is this one's, and its last. */
  ghost predicate LastAt(log: seq<Fired>, from: nat, k: nat, id: nat) {
    from <= k < |log| && log[k].id == id && Silent(log, k + 1, id)
  }

  lemma RenewedOn(x: Entry, y: Entry, before: seq<Fired>, after: seq<Fired>, from: nat)
    requires from <= |before| <= |after| && after[..|before|] == before
    requires Renewed(x, y, before, from) && Silent(after, |before|, x.id)
    ensures Renewed(x, y, after, from)
  {
    assert forall j :: 0 <= j < |before| ==> after[j] == before[j];
    if k: nat :| LastAt(before, from, k, x.id) && y == x.(due := before[k].at + x.period) {
      assert LastAt(after, from, k, x.id);
    }
  }

  /** One event in the life of an interval. */
  lemma IntervalStep(s: State, e: Event, y: Entry) returns (z: Entry)
    requires Sane(s) && y in s.wheel && 0.0 < y.period && !Clears(e, y.id)
    ensures var t := Step(s, e);
      && z in t.wheel && |s.log| <= |t.log| && t.log[..|s.log|] == s.log
      && if e.Tick? && s.timer && y.due <= s.now
         then exists k: nat :: OnlyAt(t.log, |s.log|, k, y.id) && z == y.(due := t.log[k].at + y.period)
         else z == y && Silent(t.log, |s.log|, y.id)
  {
    z := y;
    match e
    case Do(act) =>
      assert [act][1..] == [] && DoActs(s, [act]) == DoAct(s, act);
      ActsKeep(s, [act], y);
      ActSane(s, act, []);
    case Tick(callbacks) =>
      if s.timer && y.due <= s.now {
        var k, _ := TickFires(s, callbacks, y);
        z := y.(due := DoTick(s, callbacks).log[k].at + y.period);
      } else if s.timer {
        TickWaits(s, callbacks, y);
      }
  }

  lemma {:induction false} RunKeepsSane(s: State, events: seq<Event>)
    requires Sane(s)
    ensures Sane(Run(s, events))
  {
    if events != [] {
      RunKeepsSane(s, events[..|events| - 1]);
      var m := Run(s, events[..|events| - 1]);
      match events[|events| - 1]
      case Do(act) => ActSane(m, act, []);
      case Tick(callbacks) => TickSane(m, callbacks);
    }
  }

  lemma RenewedNow(x: Entry, y: Entry, z: Entry, log: seq<Fired>, from: nat, at: nat)
    requires from <= at && y == x.(due := y.due)
    requires exists k: nat :: OnlyAt(log, at, k, y.id) && z == y.(due := log[k].at + y.period)
    ensures Renewed(x, z, log, from)
  {
    var k: nat :| OnlyAt(log, at, k, y.id) && z == y.(due := log[k].at + y.period);
    assert LastAt(log, from, k, x.id);
  }

  /** In every run in which nobody clears it an interval stays in the wheel, due one period after
      its last firing. */
  lemma {:induction false} IntervalLives(s: State, events: seq<Event>, x: Entry) returns (y: Entry)
    requires Sane(s) && x in s.wheel && 0.0 < x.period && NobodyClears(events, x.id)
    ensures var t := Run(s, events);
      && y in t.wheel && y == x.(due := y.due)
      && |s.log| <= |t.log| && t.log[..|s.log|] == s.log && Renewed(x, y, t.log, |s.log|)
  {
    y := x;
    if events != [] {
      var prior, e := events[..|events| - 1], events[|events| - 1];
      var m := Run(s, prior);
      RunKeepsSane(s, prior);
      var z := IntervalLives(s, prior, x);
      y := IntervalStep(m, e, z);
      var t := Step(m, e);
      assert t.log[..|s.log|] == t.log[..|m.log|][..|s.log|];
      if e.Tick? && m.timer && z.due <= m.now {
        RenewedNow(x, z, y, t.log, |s.log|, |m.log|);
      } else {
        RenewedOn(x, y, m.log, t.log, |s.log|);
      }
    }
  }

  /** And every tick at or past the time it is due fires it again. */
  lemma IntervalRepeats(s: State, events: seq<Event>, callbacks: seq<seq<Act>>, x: Entry)
      returns (y: Entry, k: nat)
    requires Sane(s) && x in s.wheel && 0.0 < x.period && NobodyClears(events, x.id)
    ensures var t := Run(s, events); y in t.wheel && y == x.(due := y.due) && Renewed(x, y, t.log, |s.log|)
    ensures var t, u := Run(s, events), DoTick(Run(s, events), callbacks);
      t.timer && y.due <= t.now ==> OnlyAt(u.log, |t.log|, k, x.id) && u.log[k].due == y.due
  {
    y := IntervalLives(s, events, x);
    RunKeepsSane(s, events);
    k := 0;
    if Run(s, events).timer && y.due <= Run(s, events).now {
      var at, _ := TickFires(Run(s, events), callbacks, y);
      k := at;
    }
  }

  // ----- Timeouts -----

  /** A timeout nobody clears: still in the wheel and silent so far, or fired once, when it was due
      or later, and gone. */
  ghost predicate Pended(x: Entry, t: State, from: nat) {
    || (x in t.wheel && Silent(t.log, from, x.id))
    || (x.id < t.nextId && Absent(t.wheel, x.id)
        && exists k: nat :: OnlyAt(t.log, from, k, x.id) && t.log[k].due == x.due <= t.log[k].at)
  }

  lemma PendedOn(x: Entry, m: State, t: State, from: nat)
    requires Pended(x, m, from) && from <= |m.log| <= |t.log| && t.log[..|m.log|] == m.log
    requires Silent(t.log, |m.log|, x.id)
    requires if x in m.wheel && Silent(m.log, from, x.id) then x in t.wheel
      else Absent(t.wheel, x.id) && m.nextId <= t.nextId
    ensures Pended(x, t, from)
  {
    assert forall j :: 0 <= j < |m.log| ==> t.log[j] == m.log[j];
    if !(x in m.wheel && Silent(m.log, from, x.id)) {
      var k: nat :| OnlyAt(m.log, from, k, x.id) && m.log[k].due == x.due <= m.log[k].at;
      assert OnlyAt(t.log, from, k, x.id);
    }
  }

  lemma PendedFires(x: Entry, m: State, callbacks: seq<seq<Act>>, from: nat)
    requires Sane(m) && m.timer && x in m.wheel && x.due <= m.now && x.period <= 0.0
    requires from <= |m.log| && Silent(m.log, from, x.id)
    ensures Pended(x, DoTick(m, callbacks), from)
  {
    var t := DoTick(m, callbacks);
    var k, _ := TickFires(m, callbacks, x);
    TickSane(m, callbacks);
    forall j | from <= j < |t.log| && j != k ensures t.log[j].id != x.id {
      assert j < |m.log| ==> t.log[j] == t.log[..|m.log|][j];
    }
    assert OnlyAt(t.log, from, k, x.id);
  }

  /** One event that does not clear it. */
  lemma PendedStep(x: Entry, m: State, e: Event, from: nat)
    requires Sane(m) && x.period <= 0.0 && !Clears(e, x.id) && from <= |m.log| && Pended(x, m, from)
    ensures Pended(x, Step(m, e), from)
    ensures |m.log| <= |Step(m, e).log| && Step(m, e).log[..|m.log|] == m.log
  {
    if x in m.wheel && Silent(m.log, from, x.id) {
      match e
      case Do(act) =>
        assert [act][1..] == [] && DoActs(m, [act]) == DoAct(m, act);
        ActsKeep(m, [act], x);
        ActSane(m, act, []);
        PendedOn(x, m, DoAct(m, act), from);
      case Tick(callbacks) =>
        TickSane(m, callbacks);
        if m.timer && x.due <= m.now {
          PendedFires(x, m, callbacks, from);
        } else if m.timer {
          TickWaits(m, callbacks, x);
          PendedOn(x, m, DoTick(m, callbacks), from);
        }
    } else {
      GoneStep(m, e, x.id);
      PendedOn(x, m, Step(m, e), from);
    }
  }

  lemma GoneStep(m: State, e: Event, id: nat)
    requires id < m.nextId && Absent(m.wheel, id)
    ensures var t := Step(m, e);
      && Absent(t.wheel, id) && m.nextId <= t.nextId
      && |m.log| <= |t.log| && t.log[..|m.log|] == m.log && Silent(t.log, |m.log|, id)
  {
    assert [e][..0] == [] && Run(m, [e][..0]) == m && Run(m, [e]) == Step(m, e);
    AbsentNeverFires(m, id, [e]);
    NextIdGrows(m, e);
  }

  lemma NextIdGrows(m: State, e: Event)
    ensures m.nextId <= Step(m, e).nextId
  {
    if e.Tick? && m.timer {
      TickDid(m, e.callbacks);
    }
  }

  /** In every run in which nobody clears it a timeout fires at most once, not before it is due,
      and is in the wheel until then. */
  lemma {:induction false} TimeoutLives(s: State, events: seq<Event>, x: Entry)
    requires Sane(s) && x in s.wheel && x.period <= 0.0 && NobodyClears(events, x.id)
    ensures var t := Run(s, events);
      |s.log| <= |t.log| && t.log[..|s.log|] == s.log && Pended(x, t, |s.log|)
  {
    if events != [] {
      var prior, e := events[..|events| - 1], events[|events| - 1];
      TimeoutLives(s, prior, x);
      RunKeepsSane(s, prior);
      var m := Run(s, prior);
      PendedStep(x, m, e, |s.log|);
      assert Step(m, e).log[..|s.log|] == Step(m, e).log[..|m.log|][..|s.log|];
    }
  }
}
