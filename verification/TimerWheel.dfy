/** Many timers over pol's single one.

    Times are nanoseconds as reals.  The wheel is an insertion-ordered map, written as the
    sequence of its entries.  The clock moves only by `Wait`, which callbacks and the
    program between ticks may use freely. */
module TimerWheel {
  const MS := 1000000.0
  const HOUR := 3600000          // pol drops a timer that asks for this many ms or more
  const REMOVE := 3600001
  const LONGEST := 3599999.0     // the longest delay the wheel can keep, in ms
  const WORD := 0x1_0000_0000

  datatype Entry = Entry(id: nat, due: real, period: real)

  datatype Fired = Fired(id: nat, at: real, due: real, once: bool)

  /** What the program, or a callback, does. */
  datatype Act = SetTimeout(ms: real) | SetInterval(ms: real) | Clear(id: nat) | Wait(ns: real)

  /** `timer`: pol's slot holds the wheel's tick, to wake at `armed`; `since` is when it was
      last armed by a tick. */
  datatype State = State(
    wheel: seq<Entry>, nextId: nat, on: bool, timer: bool, armed: real, since: real,
    now: real, log: seq<Fired>)

  datatype Event = Do(act: Act) | Tick(callbacks: seq<seq<Act>>)

  function Max(a: real, b: real): real { if a < b then b else a }

  function Min(a: real, b: real): real { if a < b then a else b }

  function Ceil(x: real): int { -(-x).Floor }

  function Initial(): State { State([], 1, false, false, 0.0, 0.0, 0.0, []) }

  function Without(wheel: seq<Entry>, id: nat): seq<Entry> {
    if wheel == [] then []
    else if wheel[0].id == id then Without(wheel[1..], id)
    else [wheel[0]] + Without(wheel[1..], id)
  }

  function Rescheduled(wheel: seq<Entry>, id: nat, due: real): seq<Entry> {
    if wheel == [] then []
    else
      [if wheel[0].id == id then wheel[0].(due := due) else wheel[0]] + Rescheduled(wheel[1..], id, due)
  }

  /** n | 0. */
  function Int32(n: int): int { (n + WORD / 2) % WORD - WORD / 2 }

  /** The delay pol is asked for: at least 1 ms, fractions cut off, in 32 bits.  One that comes
      out as zero or less asks for a wake that is due already. */
  function Delay(ms: real): int { if ms < 1.0 then 1 else Int32(ms.Floor) }

  /** twArm: register the tick if the wheel is off, then wake no later than `ms` from now. */
  function Arm(s: State, ms: real): State {
    var wake := s.now + Delay(ms) as real * MS;
    if s.on then s.(armed := Min(s.armed, wake)) else s.(on := true, timer := true, armed := wake)
  }

  function Add(s: State, ms: real, period: real): State {
    Arm(s.(wheel := s.wheel + [Entry(s.nextId, s.now + ms * MS, period)], nextId := s.nextId + 1), ms)
  }

  function DoAct(s: State, a: Act): State {
    match a
    case SetTimeout(ms) => Add(s, Max(0.0, ms), 0.0)
    case SetInterval(ms) => Add(s, Max(1.0, ms), Max(1.0, ms) * MS)
    case Clear(id) => s.(wheel := Without(s.wheel, id))
    case Wait(ns) => if 0.0 < ns then s.(now := s.now + ns) else s
  }

  function DoActs(s: State, acts: seq<Act>): State
    decreases |acts|
  {
    if acts == [] then s else DoActs(DoAct(s, acts[0]), acts[1..])
  }

  function DueAt(wheel: seq<Entry>, now: real): seq<Entry> {
    if wheel == [] then []
    else (if wheel[0].due <= now then [wheel[0]] else []) + DueAt(wheel[1..], now)
  }

  /** An entry of the snapshot fires now: reschedule it or delete it. */
  function Strike(s: State, e: Entry): State {
    s.(wheel := if 0.0 < e.period then Rescheduled(s.wheel, e.id, s.now + e.period) else Without(s.wheel, e.id),
       log := s.log + [Fired(e.id, s.now, e.due, e.period <= 0.0)])
  }

  /** Strike, then call back. */
  function Fire(s: State, e: Entry, acts: seq<Act>): State { DoActs(Strike(s, e), acts) }

  function FireAll(s: State, due: seq<Entry>, callbacks: seq<seq<Act>>): State
    decreases |due|
  {
    if due == [] then s
    else
      FireAll(Fire(s, due[0], if callbacks == [] then [] else callbacks[0]),
              due[1..], if callbacks == [] then [] else callbacks[1..])
  }

  function Soonest(wheel: seq<Entry>): real
    requires wheel != []
  {
    if |wheel| == 1 then wheel[0].due else Min(wheel[0].due, Soonest(wheel[1..]))
  }

  /** What the tick returns: the delay to the soonest entry, or removal when there is none. */
  function NextDelay(s: State): int {
    if s.wheel == [] then REMOVE
    else
      var ms := Ceil((Soonest(s.wheel) - s.now) / MS);
      if ms < 1 then 1 else ms
  }

  /** The tick's end: the wheel goes off when empty; of the answer cut to 32 bits pol drops the
      timer if it is negative, or an hour or more. */
  function Rearm(s: State): State {
    var ms := Int32(NextDelay(s));
    s.(on := s.on && s.wheel != [], timer := 0 <= ms < HOUR, armed := s.now + ms as real * MS, since := s.now)
  }

  /** pol calls only a registered timer. */
  function DoTick(s: State, callbacks: seq<seq<Act>>): State {
    if !s.timer then s else Rearm(FireAll(s, DueAt(s.wheel, s.now), callbacks))
  }

  function Step(s: State, e: Event): State {
    match e
    case Do(act) => DoAct(s, act)
    case Tick(callbacks) => DoTick(s, callbacks)
  }

  function Run(s: State, events: seq<Event>): State {
    if events == [] then s else Step(Run(s, events[..|events| - 1]), events[|events| - 1])
  }

  // ----- Every run: no timer early, none twice -----

  /** Insertion order is id order: ids only grow and an entry never moves. */
  ghost predicate Ordered(wheel: seq<Entry>, below: nat) {
    && (forall i, j :: 0 <= i < j < |wheel| ==> wheel[i].id < wheel[j].id)
    && (forall i :: 0 <= i < |wheel| ==> wheel[i].id < below)
  }

  /** Whatever fired was due, and a one-shot's id is spent. */
  ghost predicate Honest(s: State) {
    && (forall k :: 0 <= k < |s.log| ==> s.log[k].due <= s.log[k].at && s.log[k].id < s.nextId)
    && (forall k, l :: 0 <= k < l < |s.log| && s.log[k].once ==> s.log[l].id != s.log[k].id)
  }

  /** No entry carries the id of a one-shot that fired. */
  ghost predicate Unspent(wheel: seq<Entry>, log: seq<Fired>) {
    forall k, i :: 0 <= k < |log| && 0 <= i < |wheel| && log[k].once ==> wheel[i].id != log[k].id
  }

  ghost predicate Sane(s: State) {
    Ordered(s.wheel, s.nextId) && Honest(s) && Unspent(s.wheel, s.log)
  }

  /** The rest of a tick's snapshot. */
  ghost predicate Pending(s: State, due: seq<Entry>) {
    && Ordered(due, s.nextId) && Unspent(due, s.log)
    && forall i :: 0 <= i < |due| ==> due[i].due <= s.now
  }

  lemma ConsOrdered(x: Entry, rest: seq<Entry>, below: nat)
    requires Ordered(rest, below) && x.id < below
    requires forall e :: e in rest ==> x.id < e.id
    ensures Ordered([x] + rest, below)
  {
    var w := [x] + rest;
    forall i, j | 0 <= i < j < |w| ensures w[i].id < w[j].id {
      if i == 0 {
        assert w[j] in rest;
      } else {
        assert w[i] == rest[i - 1] && w[j] == rest[j - 1];
      }
    }
  }

  lemma TailOrdered(wheel: seq<Entry>, below: nat)
    requires Ordered(wheel, below) && wheel != []
    ensures Ordered(wheel[1..], below) && wheel[0].id < below
    ensures forall e :: e in wheel[1..] ==> wheel[0].id < e.id
    ensures forall e :: e in wheel <==> e == wheel[0] || e in wheel[1..]
  {
    assert wheel == [wheel[0]] + wheel[1..];
  }

  lemma {:induction false} WithoutShape(wheel: seq<Entry>, id: nat, below: nat)
    requires Ordered(wheel, below)
    ensures Ordered(Without(wheel, id), below)
    ensures forall e :: e in Without(wheel, id) <==> e in wheel && e.id != id
  {
    if wheel != [] {
      TailOrdered(wheel, below);
      WithoutShape(wheel[1..], id, below);
      ConsOrdered(wheel[0], Without(wheel[1..], id), below);
    }
  }

  lemma {:induction false} RescheduledShape(wheel: seq<Entry>, id: nat, due: real)
    ensures |Rescheduled(wheel, id, due)| == |wheel|
    ensures forall i :: 0 <= i < |wheel| ==>
      Rescheduled(wheel, id, due)[i] == if wheel[i].id == id then wheel[i].(due := due) else wheel[i]
  {
    if wheel != [] {
      RescheduledShape(wheel[1..], id, due);
    }
  }

  lemma {:induction false} DueShape(wheel: seq<Entry>, now: real, below: nat)
    requires Ordered(wheel, below)
    ensures Ordered(DueAt(wheel, now), below)
    ensures forall e :: e in DueAt(wheel, now) <==> e in wheel && e.due <= now
  {
    if wheel != [] {
      TailOrdered(wheel, below);
      DueShape(wheel[1..], now, below);
      ConsOrdered(wheel[0], DueAt(wheel[1..], now), below);
    }
  }

  /** Every id of w is one of wheel's. */
  ghost predicate IdsOf(w: seq<Entry>, wheel: seq<Entry>) {
    forall i :: 0 <= i < |w| ==> exists j :: 0 <= j < |wheel| && wheel[j].id == w[i].id
  }

  lemma DeleteWheel(wheel: seq<Entry>, id: nat, below: nat)
    requires Ordered(wheel, below)
    ensures var w := Without(wheel, id);
      Ordered(w, below) && IdsOf(w, wheel) && forall i :: 0 <= i < |w| ==> w[i].id != id
  {
    var w := Without(wheel, id);
    WithoutShape(wheel, id, below);
    forall i | 0 <= i < |w| ensures w[i].id != id && exists j :: 0 <= j < |wheel| && wheel[j].id == w[i].id {
      assert w[i] in w;
      var j :| 0 <= j < |wheel| && wheel[j] == w[i];
    }
  }

  lemma UnspentOf(w: seq<Entry>, wheel: seq<Entry>, log: seq<Fired>)
    requires IdsOf(w, wheel) && Unspent(wheel, log)
    ensures Unspent(w, log)
  {
    forall k, i | 0 <= k < |log| && 0 <= i < |w| && log[k].once ensures w[i].id != log[k].id {
      var j :| 0 <= j < |wheel| && wheel[j].id == w[i].id;
    }
  }

  lemma AddSane(s: State, ms: real, period: real, due: seq<Entry>)
    requires Sane(s) && Pending(s, due)
    ensures Sane(Add(s, ms, period)) && Pending(Add(s, ms, period), due)
  {
  }

  lemma ClearSane(s: State, id: nat, due: seq<Entry>)
    requires Sane(s) && Pending(s, due)
    ensures Sane(s.(wheel := Without(s.wheel, id))) && Pending(s.(wheel := Without(s.wheel, id)), due)
  {
    DeleteWheel(s.wheel, id, s.nextId);
    UnspentOf(Without(s.wheel, id), s.wheel, s.log);
  }

  lemma WaitSane(s: State, ns: real, due: seq<Entry>)
    requires Sane(s) && Pending(s, due) && 0.0 < ns
    ensures Sane(s.(now := s.now + ns)) && Pending(s.(now := s.now + ns), due)
  {
  }

  lemma ActSane(s: State, a: Act, due: seq<Entry>)
    requires Sane(s) && Pending(s, due)
    ensures Sane(DoAct(s, a)) && Pending(DoAct(s, a), due)
    ensures DoAct(s, a).log == s.log
  {
    match a
    case SetTimeout(ms) => AddSane(s, Max(0.0, ms), 0.0, due);
    case SetInterval(ms) => AddSane(s, Max(1.0, ms), Max(1.0, ms) * MS, due);
    case Clear(id) => ClearSane(s, id, due);
    case Wait(ns) => if 0.0 < ns { WaitSane(s, ns, due); }
  }

  lemma {:induction false} ActsSane(s: State, acts: seq<Act>, due: seq<Entry>)
    requires Sane(s) && Pending(s, due)
    ensures Sane(DoActs(s, acts)) && Pending(DoActs(s, acts), due)
    ensures DoActs(s, acts).log == s.log
    decreases |acts|
  {
    if acts != [] {
      ActSane(s, acts[0], due);
      ActsSane(DoAct(s, acts[0]), acts[1..], due);
    }
  }

  lemma MoveWheel(wheel: seq<Entry>, id: nat, due: real, below: nat)
    requires Ordered(wheel, below)
    ensures Ordered(Rescheduled(wheel, id, due), below) && IdsOf(Rescheduled(wheel, id, due), wheel)
  {
    var w := Rescheduled(wheel, id, due);
    RescheduledShape(wheel, id, due);
    assert forall i :: 0 <= i < |w| ==> w[i].id == wheel[i].id;
  }

  /** Striking keeps ids in order, and spends the id of a one-shot. */
  lemma StrikeWheel(s: State, e: Entry)
    requires Ordered(s.wheel, s.nextId)
    ensures var w := Strike(s, e).wheel;
      && Ordered(w, s.nextId) && IdsOf(w, s.wheel)
      && (e.period <= 0.0 ==> forall i :: 0 <= i < |w| ==> w[i].id != e.id)
  {
    if e.period <= 0.0 {
      DeleteWheel(s.wheel, e.id, s.nextId);
    } else {
      MoveWheel(s.wheel, e.id, s.now + e.period, s.nextId);
    }
  }

  lemma UnspentMore(w: seq<Entry>, log: seq<Fired>, f: Fired)
    requires Unspent(w, log) && (f.once ==> forall i :: 0 <= i < |w| ==> w[i].id != f.id)
    ensures Unspent(w, log + [f])
  {
  }

  lemma StrikeSane(s: State, due: seq<Entry>)
    requires Sane(s) && Pending(s, due) && due != []
    ensures Sane(Strike(s, due[0])) && Pending(Strike(s, due[0]), due[1..])
  {
    var e, t := due[0], Strike(s, due[0]);
    var f := Fired(e.id, s.now, e.due, e.period <= 0.0);
    StrikeWheel(s, e);
    UnspentOf(t.wheel, s.wheel, s.log);
    UnspentMore(t.wheel, s.log, f);
    TailOrdered(due, s.nextId);
    assert forall i :: 0 <= i < |due[1..]| ==> due[1..][i] == due[i + 1];
    UnspentMore(due[1..], s.log, f);
    HonestMore(s, due, f);
  }

  lemma HonestMore(s: State, due: seq<Entry>, f: Fired)
    requires Sane(s) && Pending(s, due) && due != []
    requires f == Fired(due[0].id, s.now, due[0].due, due[0].period <= 0.0)
    ensures Honest(Strike(s, due[0]))
  {
    assert Strike(s, due[0]).log == s.log + [f];
  }

  lemma FireSane(s: State, due: seq<Entry>, acts: seq<Act>)
    requires Sane(s) && Pending(s, due) && due != []
    ensures Sane(Fire(s, due[0], acts)) && Pending(Fire(s, due[0], acts), due[1..])
    ensures Fire(s, due[0], acts).log == s.log + [Fired(due[0].id, s.now, due[0].due, due[0].period <= 0.0)]
  {
    StrikeSane(s, due);
    ActsSane(Strike(s, due[0]), acts, due[1..]);
  }

  /** `after` is `before` and then the firings of `due`, in order, each once. */
  ghost predicate Fires(before: seq<Fired>, after: seq<Fired>, due: seq<Entry>) {
    && |after| == |before| + |due| && after[..|before|] == before
    && forall i :: 0 <= i < |due| ==> IsFiring(after[|before| + i], due[i])
  }

  predicate IsFiring(f: Fired, e: Entry) { f.id == e.id && f.due == e.due && (f.once <==> e.period <= 0.0) }

  lemma FiresFirst(before: seq<Fired>, f: Fired, after: seq<Fired>, due: seq<Entry>)
    requires due != [] && IsFiring(f, due[0])
    requires Fires(before + [f], after, due[1..])
    ensures Fires(before, after, due)
  {
    var mid := before + [f];
    assert after[..|before|] == after[..|mid|][..|before|];
    forall i | 0 <= i < |due| ensures IsFiring(after[|before| + i], due[i]) {
      if i == 0 {
        assert after[|before|] == after[..|mid|][|before|] == f;
      } else {
        assert due[1..][i - 1] == due[i] && |mid| + (i - 1) == |before| + i;
      }
    }
  }

  /** A tick fires exactly the snapshot, in order, each once. */
  lemma {:induction false} FireAllSane(s: State, due: seq<Entry>, callbacks: seq<seq<Act>>)
    requires Sane(s) && Pending(s, due)
    ensures Sane(FireAll(s, due, callbacks)) && Fires(s.log, FireAll(s, due, callbacks).log, due)
    decreases |due|
  {
    if due != [] {
      var e := due[0];
      var acts := if callbacks == [] then [] else callbacks[0];
      var rest := if callbacks == [] then [] else callbacks[1..];
      FireSane(s, due, acts);
      var t := Fire(s, e, acts);
      FireAllSane(t, due[1..], rest);
      var u := FireAll(s, due, callbacks);
      assert u == FireAll(t, due[1..], rest);
      FiresFirst(s.log, Fired(e.id, s.now, e.due, e.period <= 0.0), u.log, due);
    }
  }

  /** A tick fires exactly the entries due at its start. */
  lemma TickSane(s: State, callbacks: seq<seq<Act>>)
    requires Sane(s)
    ensures Sane(DoTick(s, callbacks))
    ensures s.timer ==> Fires(s.log, DoTick(s, callbacks).log, DueAt(s.wheel, s.now))
  {
    var due := DueAt(s.wheel, s.now);
    DueShape(s.wheel, s.now, s.nextId);
    forall i | 0 <= i < |due| ensures exists j :: 0 <= j < |s.wheel| && s.wheel[j] == due[i] && due[i].due <= s.now {
      assert due[i] in due;
    }
    FireAllSane(s, due, callbacks);
  }

  /** In every run no timer fires early and no one-shot fires twice. */
  lemma {:induction false} RunSane(events: seq<Event>)
    ensures Sane(Run(Initial(), events))
  {
    if events != [] {
      var prior, e := events[..|events| - 1], events[|events| - 1];
      RunSane(prior);
      match e
      case Do(act) => ActSane(Run(Initial(), prior), act, []);
      case Tick(callbacks) => TickSane(Run(Initial(), prior), callbacks);
    }
  }
}
