/** The timer globals of the net bundle, method by method against TimerWheel. */
module TimerObject {
  import opened TimerWheel

  class Timers {
    var wheel: seq<Entry>          // TW, in insertion order
    var nextId: nat
    var on: bool
    var timer: bool                // pol's timer slot holds twTick
    var armed: real                // when pol will call it
    var now: real                  // pol.now()
    ghost var st: State

    ghost predicate Valid()
      reads this
    {
      (wheel, nextId, on, timer, armed, now) == (st.wheel, st.nextId, st.on, st.timer, st.armed, st.now)
    }

    constructor ()
      ensures Valid() && st == Initial()
    {
      wheel, nextId, on, timer, armed, now := [], 1, false, false, 0.0, 0.0;
      st := Initial();
    }

    /** twArm: pol.timer once, then pol.sooner. */
    method TwArm(ms: real)
      modifies `on, `timer, `armed
      ensures on && timer == (old(timer) || !old(on))
      ensures armed == var wake := now + Delay(ms) as real * MS; if old(on) then Min(old(armed), wake) else wake
    {
      var wake := now + (if ms < 1.0 then 1 else Int32(ms.Floor)) as real * MS;
      if !on {
        on := true;
        timer := true;
        armed := wake;
      }
      if wake < armed {
        armed := wake;
      }
    }

    method SetTimeout(ms0: real) returns (id: nat)
      requires Valid()
      modifies this
      ensures Valid() && st == DoAct(old(st), Act.SetTimeout(ms0)) && id == old(nextId)
      ensures wheel == old(wheel) + [Entry(id, now + (if ms0 < 0.0 then 0.0 else ms0) * MS, 0.0)]
    {
      var ms := Max(0.0, ms0);
      id := nextId;
      nextId := nextId + 1;
      wheel := wheel + [Entry(id, now + ms * MS, 0.0)];
      TwArm(ms);
      st := DoAct(st, Act.SetTimeout(ms0));
    }

    method SetInterval(ms0: real) returns (id: nat)
      requires Valid()
      modifies this
      ensures Valid() && st == DoAct(old(st), Act.SetInterval(ms0)) && id == old(nextId)
      ensures var period := if ms0 < 1.0 then MS else ms0 * MS;
        wheel == old(wheel) + [Entry(id, now + period, period)]
    {
      var ms := Max(1.0, ms0);
      id := nextId;
      nextId := nextId + 1;
      wheel := wheel + [Entry(id, now + ms * MS, ms * MS)];
      TwArm(ms);
      st := DoAct(st, Act.SetInterval(ms0));
    }

    /** TW.delete(id). */
    method Delete(id: nat)
      modifies `wheel
      ensures wheel == Without(old(wheel), id)
    {
      var kept := [];
      for i := 0 to |wheel|
        invariant wheel == old(wheel) && Without(wheel, id) == kept + Without(wheel[i..], id)
      {
        assert wheel[i..][1..] == wheel[i + 1..];
        if wheel[i].id != id {
          kept := kept + [wheel[i]];
        }
      }
      wheel := kept;
    }

    /** t.dueNs = ... on the entry, if it is still in the map. */
    method Reschedule(id: nat, due: real)
      modifies `wheel
      ensures wheel == Rescheduled(old(wheel), id, due)
    {
      var moved := [];
      for i := 0 to |wheel|
        invariant wheel == old(wheel)
        invariant Rescheduled(wheel, id, due) == moved + Rescheduled(wheel[i..], id, due)
      {
        assert wheel[i..][1..] == wheel[i + 1..];
        moved := moved + [if wheel[i].id == id then wheel[i].(due := due) else wheel[i]];
      }
      wheel := moved;
    }

    method ClearTimeout(id: nat)
      requires Valid()
      modifies `wheel, `st
      ensures Valid() && st == DoAct(old(st), Clear(id))
    {
      Delete(id);
      st := DoAct(st, Clear(id));
    }

    method Perform(a: Act)
      requires Valid()
      modifies this
      ensures Valid() && st == DoAct(old(st), a)
    {
      match a
      case SetTimeout(ms) =>
        var _ := SetTimeout(ms);
      case SetInterval(ms) =>
        var _ := SetInterval(ms);
      case Clear(id) =>
        ClearTimeout(id);
      case Wait(ns) =>
        if 0.0 < ns {
          now := now + ns;
        }
        st := DoAct(st, Wait(ns));
    }

    method Call(acts: seq<Act>)
      requires Valid()
      modifies this
      ensures Valid() && st == DoActs(old(st), acts)
    {
      var i := 0;
      while i < |acts|
        invariant i <= |acts| && Valid()
        invariant DoActs(old(st), acts) == DoActs(st, acts[i..])
      {
        Perform(acts[i]);
        assert acts[i..][1..] == acts[i + 1..];
        i := i + 1;
      }
    }

    /** The entries due now, in map order. */
    method Snapshot() returns (due: seq<Entry>)
      ensures due == DueAt(wheel, now)
    {
      due := [];
      for i := 0 to |wheel|
        invariant DueAt(wheel, now) == due + DueAt(wheel[i..], now)
      {
        assert wheel[i..][1..] == wheel[i + 1..];
        if wheel[i].due <= now {
          due := due + [wheel[i]];
        }
      }
    }

    method FireOne(e: Entry, acts: seq<Act>)
      requires Valid()
      modifies this
      ensures Valid() && st == Fire(old(st), e, acts)
    {
      if 0.0 < e.period {
        Reschedule(e.id, now + e.period);
      } else {
        Delete(e.id);
      }
      st := Strike(st, e);
      Call(acts);
    }

    method FindSoonest() returns (soon: real)
      requires wheel != []
      ensures soon == Soonest(wheel)
    {
      soon := wheel[0].due;
      for i := 1 to |wheel|
        invariant Soonest(wheel) == if i < |wheel| then Min(soon, Soonest(wheel[i..])) else soon
      {
        assert wheel[i..][1..] == wheel[i + 1..];
        if wheel[i].due < soon {
          soon := wheel[i].due;
        }
      }
    }

    /** The end of twTick, and the router that takes its answer. */
    method RearmTimer()
      requires Valid()
      modifies this
      ensures Valid() && st == Rearm(old(st))
    {
      var ms := REMOVE;
      if wheel == [] {
        on := false;
      } else {
        var soon := FindSoonest();
        ms := Ceil((soon - now) / MS);
        if ms < 1 {
          ms := 1;
        }
      }
      ms := Int32(ms);
      timer := 0 <= ms < HOUR;
      armed := now + ms as real * MS;
      st := Rearm(st);
    }

    /** twTick, called through pol's router. */
    method Tick(callbacks: seq<seq<Act>>)
      requires Valid()
      modifies this
      ensures Valid() && st == DoTick(old(st), callbacks)
    {
      if !timer {
        return;
      }
      var due := Snapshot();
      var i := 0;
      var rest := callbacks;
      while i < |due|
        invariant i <= |due| && Valid()
        invariant FireAll(old(st), due, callbacks) == FireAll(st, due[i..], rest)
      {
        assert due[i..][1..] == due[i + 1..];
        FireOne(due[i], if rest == [] then [] else rest[0]);
        rest := if rest == [] then [] else rest[1..];
        i := i + 1;
      }
      RearmTimer();
    }

    /** Any run of the program and of pol. */
    method RunAll(events: seq<Event>)
      requires Valid()
      modifies this
      ensures Valid() && st == Run(old(st), events)
    {
      for i := 0 to |events|
        invariant Valid() && st == Run(old(st), events[..i])
      {
        assert events[..i + 1][..i] == events[..i];
        match events[i] {
          case Do(act) => Perform(act);
          case Tick(callbacks) => Tick(callbacks);
        }
      }
      assert events[..|events|] == events;
    }
  }
}
