/** The order of what a socket makes visible, over whole runs. */
module SocketRuns {
  import opened Wrappers
  import opened Bytes
  import opened SocketSpec

  /** May `b` come after `a`?  'end' comes once and no 'data' after it; close comes once. */
  predicate MayFollow(a: Visible, b: Visible) {
    (a.Ended? ==> !b.Ended? && !b.Data?) && (a.Gone? ==> !b.Gone?)
  }

  /** After our FIN nothing is sent, nothing accepted, and no second FIN. */
  predicate MayFollowFin(a: Visible, b: Visible) {
    a.Fin? ==> !b.Fin? && !b.Sent? && !b.Accepted?
  }

  ghost predicate Orderly(s: State) {
    && (forall i, j :: 0 <= i < j < |s.log| ==> MayFollow(s.log[i], s.log[j]))
    && (s.readEnded <==> Ended in s.log)
    && (s.closed <==> Gone in s.log)
    && (s.wrShut ==> s.ending)
  }

  /** Our FIN goes out after `end`, with the queue empty, and is the last word. */
  ghost predicate HalfClosed(s: State) {
    && (forall i, j :: 0 <= i < j < |s.log| ==> MayFollowFin(s.log[i], s.log[j]))
    && (forall i :: 0 <= i < |s.log| && s.log[i].Fin? ==> s.wrShut && s.log[i].unsent == 0)
    && (s.wrShut ==> s.Queue() == [])
  }

  /** Order always, and the half-close too in runs where it lasts. */
  ghost predicate Tidy(s: State, half: bool) {
    Orderly(s) && (half ==> HalfClosed(s))
  }

  /** The listener queues something, then ends (or destroys) the socket. */
  predicate EndsAfterWriting(acts: seq<Act>, wrote: bool) {
    acts != [] &&
    match acts[0]
    case Write(bytes) => EndsAfterWriting(acts[1..], wrote || bytes != [])
    case End => wrote
    case Destroy => wrote
  }

  /** This flush empties the queue of a socket open for writing, whose 'drain' listener then
      queues something and ends it. */
  predicate FlushOvertakes(s: State, r: Round) {
    && SendLoop(s, r.sends).Queue() == [] && !s.closed && !s.ending
    && EndsAfterWriting(r.onDrain, false)
  }

  /** This event is such a flush. */
  predicate Overtakes(s: State, e: Event) {
    && e.Poll? && s.interest.Some? && !e.round.bad
    && e.round.write && s.interest.value.write && FlushOvertakes(s, e.round)
  }

  ghost predicate NoneOvertakes(events: seq<Event>) {
    forall i :: 0 <= i < |events| ==> !Overtakes(Run(events[..i]), events[i])
  }

  lemma WriteTidy(s: State, bytes: seq<byte>, half: bool)
    requires Tidy(s, half)
    ensures Tidy(DoWrite(s, bytes), half)
  {
  }

  lemma CloseTidy(s: State, onClose: seq<Act>, half: bool)
    requires Tidy(s, half)
    ensures Tidy(DoClose(s, onClose), half)
  {
  }

  lemma {:induction false} ActsTidy(s: State, acts: seq<Act>, onClose: seq<Act>, half: bool)
    requires Tidy(s, half)
    ensures Tidy(DoActs(s, acts, onClose), half)
    decreases |acts|
  {
    if acts != [] {
      match acts[0] {
        case Write(bytes) => WriteTidy(s, bytes, half);
        case End =>
        case Destroy => CloseTidy(s.(ending := true), onClose, half);
      }
      ActsTidy(DoAct(s, acts[0], onClose), acts[1..], onClose, half);
    }
  }

  lemma {:induction false} SendLoopTidy(s: State, sends: seq<int>, half: bool)
    requires Tidy(s, half)
    ensures Tidy(SendLoop(s, sends), half)
    decreases |sends|
  {
    if s.Queue() != [] && sends != [] && 0 <= sends[0] {
      SendLoopTidy(SendOne(s, Taken(s, sends[0])), sends[1..], half);
    }
  }

  lemma FinishTidy(s: State, half: bool)
    requires Tidy(s, half) && (half && s.ending ==> s.Queue() == [])
    ensures Tidy(Finish(s), half)
  {
  }

  lemma DrainTidy(s: State, half: bool)
    requires Tidy(s, half)
    ensures Tidy(Drain(s), half)
  {
  }

  /** From the ended `s` to `t` nothing was queued and nothing sent. */
  ghost predicate Stopped(s: State, t: State) {
    && t.ending && t.wrShut == s.wrShut
    && t.Queue() == s.Queue() && SentBytes(t.log) == SentBytes(s.log)
  }

  lemma StoppedLog(s: State, v: Visible)
    requires s.ending && !v.Sent?
    ensures Stopped(s, Log(s, v))
  {
    LogSplits(s.log, v);
  }

  lemma {:induction false} StoppedActs(s: State, acts: seq<Act>, onClose: seq<Act>)
    requires s.ending
    ensures Stopped(s, DoActs(s, acts, onClose))
    decreases |acts|
  {
    if acts != [] {
      StoppedLog(s, Gone);
      StoppedActs(DoAct(s, acts[0], onClose), acts[1..], onClose);
    }
  }

  lemma {:induction false} OpenActs(s: State, acts: seq<Act>, onClose: seq<Act>)
    requires !s.ending && !s.closed
    ensures var t := DoActs(s, acts, onClose);
      && t.wrShut == s.wrShut
      && ((t.ending && t.Queue() != []) <==> EndsAfterWriting(acts, s.Queue() != []))
    decreases |acts|
  {
    if acts != [] {
      var t := DoAct(s, acts[0], onClose);
      match acts[0]
      case Write(bytes) =>
        assert t.Queue() == s.Queue() + bytes;
        assert (t.Queue() != []) == (s.Queue() != [] || bytes != []);
        OpenActs(t, acts[1..], onClose);
      case End => StoppedActs(t, acts[1..], onClose);
      case Destroy => StoppedActs(t, acts[1..], onClose);
    }
  }

  lemma {:induction false} ClosedActs(s: State, acts: seq<Act>, onClose: seq<Act>)
    requires s.closed
    ensures var t := DoActs(s, acts, onClose); t.closed && t.Queue() == s.Queue() && t.wrShut == s.wrShut
    decreases |acts|
  {
    if acts != [] {
      ClosedActs(DoAct(s, acts[0], onClose), acts[1..], onClose);
    }
  }

  /** A flush that drained the queue shuts the write side with bytes still queued if and
      only if the socket was open for writing and the drain listener wrote, then ended. */
  lemma FinOvertakesIff(s: State, r: Round)
    requires (s.wrShut ==> s.ending) && s.Queue() == []
    ensures var t := Finish(DoActs(Drain(s), r.onDrain, r.onClose));
      (t.wrShut && t.Queue() != []) <==> !s.ending && !s.closed && EndsAfterWriting(r.onDrain, false)
  {
    var d := Drain(s);
    if s.closed {
      ClosedActs(d, r.onDrain, r.onClose);
    } else if s.ending {
      StoppedActs(d, r.onDrain, r.onClose);
    } else {
      OpenActs(d, r.onDrain, r.onClose);
    }
  }

  lemma FlushTidy(s: State, r: Round, half: bool)
    requires Tidy(s, half) && (half ==> !FlushOvertakes(s, r))
    ensures Tidy(Flush(s, r), half)
  {
    SendLoopTidy(s, r.sends, half);
    SendLoopFlags(s, r.sends);
    var s1 := SendLoop(s, r.sends);
    if s1.Queue() == [] {
      DrainTidy(s1, half);
      ActsTidy(Drain(s1), r.onDrain, r.onClose, half);
      if half {
        FinOvertakesIff(s1, r);
      }
      FinishTidy(DoActs(Drain(s1), r.onDrain, r.onClose), half);
    }
  }

  lemma ReadEndTidy(s: State, r: Round, half: bool)
    requires Tidy(s, half)
    ensures Tidy(ReadEnd(s, r), half)
  {
    if !s.readEnded {
      var t := Log(s.(readEnded := true), Ended);
      assert t.log[|s.log|] == Ended;
      assert Tidy(t, half);
      ActsTidy(t, r.onEnd, r.onClose, half);
    }
  }

  lemma ReceiveTidy(s: State, r: Round, half: bool)
    requires Tidy(s, half) && !s.readEnded
    ensures Tidy(Receive(s, r), half)
  {
    ReadEndTidy(s, r, half);
    if 0 < r.recv {
      ActsTidy(Log(s, Data), r.onData, r.onClose, half);
    }
  }

  lemma FailTidy(s: State, r: Round, half: bool)
    requires Tidy(s, half)
    ensures Tidy(Fail(s, r), half)
  {
    ActsTidy(Log(s, Failed), r.onError, r.onClose, half);
    CloseTidy(DoActs(Log(s, Failed), r.onError, r.onClose), r.onClose, half);
  }

  lemma SettleTidy(s: State, r: Round, half: bool)
    requires Tidy(s, half)
    ensures Tidy(Settle(s, r), half)
  {
    CloseTidy(s, r.onClose, half);
  }

  lemma PollTidy(s: State, r: Round, half: bool)
    requires Inv(s) && Tidy(s, half) && (half ==> !Overtakes(s, Poll(r)))
    ensures Tidy(PollStep(s, r), half)
  {
    if s.interest.Some? {
      if r.bad || s.closed {
        FailTidy(s, r, half);
      } else {
        var read, write := r.read && s.interest.value.read, r.write && s.interest.value.write;
        if write {
          FlushTidy(s, r, half);
          FlushKeeps(s, r);
        }
        AfterFlushTidy(s, if write then Flush(s, r) else s, r, half);
      }
    }
  }

  /** The rest of the handler. */
  lemma AfterFlushTidy(s: State, s1: State, r: Round, half: bool)
    requires Tidy(s1, half) && s1.readEnded == s.readEnded && s.interest.Some?
    requires r.read && s.interest.value.read ==> !s.readEnded
    ensures var read := r.read && s.interest.value.read;
      var s2 := if read then Receive(s1, r) else s1;
      Tidy(Settle(if r.hup && !read then ReadEnd(s2, r) else s2, r), half)
  {
    var read := r.read && s.interest.value.read;
    if read {
      ReceiveTidy(s1, r, half);
    }
    var s2 := if read then Receive(s1, r) else s1;
    ReadEndTidy(s2, r, half);
    SettleTidy(if r.hup && !read then ReadEnd(s2, r) else s2, r, half);
  }

  lemma StepTidy(s: State, e: Event, half: bool)
    requires Inv(s) && Tidy(s, half) && (half ==> !Overtakes(s, e))
    ensures Tidy(Step(s, e), half)
  {
    match e
    case Do(act, onClose) =>
      assert DoActs(s, [act], onClose) == DoActs(DoAct(s, act, onClose), [], onClose) by {
        assert [act][1..] == [];
      }
      ActsTidy(s, [act], onClose, half);
    case Poll(round) => PollTidy(s, round, half);
  }

  lemma {:induction false} RunTidyIf(events: seq<Event>, half: bool)
    requires half ==> NoneOvertakes(events)
    ensures Tidy(Run(events), half)
  {
    if events != [] {
      var prior, e := events[..|events| - 1], events[|events| - 1];
      if half {
        forall i | 0 <= i < |prior| ensures !Overtakes(Run(prior[..i]), prior[i]) {
          assert prior[..i] == events[..i] && prior[i] == events[i];
        }
        assert !Overtakes(Run(events[..|events| - 1]), events[|events| - 1]);
      }
      RunTidyIf(prior, half);
      RunKeeps(prior);
      StepTidy(Run(prior), e, half);
    }
  }

  // ----- What is logged stays logged -----

  lemma {:induction false} ActsLog(s: State, acts: seq<Act>, onClose: seq<Act>)
    ensures s.log <= DoActs(s, acts, onClose).log
    decreases |acts|
  {
    if acts != [] {
      ActsLog(DoAct(s, acts[0], onClose), acts[1..], onClose);
    }
  }

  lemma {:induction false} SendLoopLog(s: State, sends: seq<int>)
    ensures s.log <= SendLoop(s, sends).log
    decreases |sends|
  {
    if s.Queue() != [] && sends != [] && 0 <= sends[0] {
      SendLoopLog(SendOne(s, Taken(s, sends[0])), sends[1..]);
    }
  }

  lemma FlushLog(s: State, r: Round)
    ensures s.log <= Flush(s, r).log
  {
    SendLoopLog(s, r.sends);
    ActsLog(Drain(SendLoop(s, r.sends)), r.onDrain, r.onClose);
  }

  lemma ReadEndLog(s: State, r: Round)
    ensures s.log <= ReadEnd(s, r).log
  {
    ActsLog(Log(s.(readEnded := true), Ended), r.onEnd, r.onClose);
  }

  /** The handler after its flush only adds to the log. */
  lemma AfterFlushLog(s1: State, r: Round, read: bool)
    ensures var s2 := if read then Receive(s1, r) else s1;
      s1.log <= Settle(if r.hup && !read then ReadEnd(s2, r) else s2, r).log
  {
    ActsLog(Log(s1, Data), r.onData, r.onClose);
    ReadEndLog(s1, r);
    ReadEndLog(if read then Receive(s1, r) else s1, r);
  }

  lemma FailLog(s: State, r: Round)
    ensures s.log <= Fail(s, r).log
  {
    ActsLog(Log(s, Failed), r.onError, r.onClose);
  }

  lemma StepLog(s: State, e: Event)
    ensures s.log <= Step(s, e).log
  {
    if e.Poll? && s.interest.Some? {
      var r := e.round;
      if r.bad || s.closed {
        FailLog(s, r);
      } else {
        FlushLog(s, r);
        AfterFlushLog(if r.write && s.interest.value.write then Flush(s, r) else s, r, r.read && s.interest.value.read);
      }
    }
  }

  lemma {:induction false} RunLog(events: seq<Event>, i: nat)
    requires i <= |events|
    ensures Run(events[..i]).log <= Run(events).log
    decreases |events|
  {
    if i == |events| {
      assert events[..i] == events;
    } else {
      var prior := events[..|events| - 1];
      assert prior[..i] == events[..i];
      RunLog(prior, i);
      StepLog(Run(prior), events[|events| - 1]);
    }
  }

  /** Our FIN went out while bytes were queued. */
  ghost predicate FinLate(log: seq<Visible>) {
    exists i :: 0 <= i < |log| && log[i].Fin? && 0 < log[i].unsent
  }

  lemma FlushOvertaken(s: State, r: Round)
    requires (s.wrShut ==> s.ending) && FlushOvertakes(s, r)
    ensures FinLate(Flush(s, r).log)
    ensures var t := Flush(s, r); t.ending && t.wrShut && t.Queue() != []
  {
    SendLoopFlags(s, r.sends);
    var s1 := SendLoop(s, r.sends);
    FinOvertakesIff(s1, r);
    OpenActs(Drain(s1), r.onDrain, r.onClose);
    var a := DoActs(Drain(s1), r.onDrain, r.onClose);
    assert Finish(a).log == a.log + [Fin(|a.Queue()|)];
    assert Finish(a).log[|a.log|].unsent == |a.Queue()|;
  }

  /** The handler after its flush, on an ended socket. */
  lemma AfterFlushStopped(s1: State, r: Round, read: bool)
    requires s1.ending
    ensures var s2 := if read then Receive(s1, r) else s1;
      Stopped(s1, Settle(if r.hup && !read then ReadEnd(s2, r) else s2, r))
  {
    if read && 0 < r.recv {
      StoppedLog(s1, Data);
      StoppedActs(Log(s1, Data), r.onData, r.onClose);
    }
    StoppedReadEnd(s1, r);
    var s2 := if read then Receive(s1, r) else s1;
    var s3 := if r.hup && !read then ReadEnd(s2, r) else s2;
    StoppedLog(s3, Gone);
  }

  lemma StoppedReadEnd(s: State, r: Round)
    requires s.ending
    ensures Stopped(s, ReadEnd(s, r))
  {
    StoppedLog(s.(readEnded := true), Ended);
    StoppedActs(Log(s.(readEnded := true), Ended), r.onEnd, r.onClose);
  }

  lemma StoppedFail(s: State, r: Round)
    requires s.ending
    ensures Stopped(s, Fail(s, r))
  {
    StoppedLog(s, Failed);
    StoppedActs(Log(s, Failed), r.onError, r.onClose);
    StoppedLog(DoActs(Log(s, Failed), r.onError, r.onClose), Gone);
  }

  lemma LateStaysLate(before: seq<Visible>, after: seq<Visible>)
    requires before <= after && FinLate(before)
    ensures FinLate(after)
  {
    var i :| 0 <= i < |before| && before[i].Fin? && 0 < before[i].unsent;
    assert after[i] == before[i];
  }

  lemma StepOvertaken(s: State, e: Event)
    requires (s.wrShut ==> s.ending) && Overtakes(s, e)
    ensures FinLate(Step(s, e).log)
    ensures var t := Step(s, e); t.ending && t.wrShut && t.Queue() != []
  {
    var r := e.round;
    FlushOvertaken(s, r);
    AfterFlushLog(Flush(s, r), r, r.read && s.interest.value.read);
    AfterFlushStopped(Flush(s, r), r, r.read && s.interest.value.read);
    LateStaysLate(Flush(s, r).log, Step(s, e).log);
  }

  /** Once some flush overtakes, the FIN went out late, for good. */
  lemma {:induction false} OvertakenRun(events: seq<Event>)
    requires !NoneOvertakes(events)
    ensures FinLate(Run(events).log)
  {
    var i :| 0 <= i < |events| && Overtakes(Run(events[..i]), events[i]);
    var prior, e := events[..|events| - 1], events[|events| - 1];
    assert i < |prior| ==> prior[..i] == events[..i] && prior[i] == events[i];
    assert i < |prior| ==> !NoneOvertakes(prior);
    if NoneOvertakes(prior) {
      assert events[..i] == prior;
      RunTidyIf(prior, false);
      StepOvertaken(Run(prior), e);
    } else {
      OvertakenRun(prior);
      StepLog(Run(prior), e);
      LateStaysLate(Run(prior).log, Run(events).log);
    }
  }

  /** In every run 'end' comes at most once, no 'data' follows it, and close comes at most
      once.  Our FIN goes out at most once, only after `end` and with everything accepted
      already sent, and nothing is sent after it, if and only if no flush of the run empties the
      queue of an open socket whose 'drain' listener then queues something and ends it. */
  lemma RunTidy(events: seq<Event>)
    ensures Orderly(Run(events))
    ensures HalfClosed(Run(events)) <==> NoneOvertakes(events)
  {
    RunTidyIf(events, false);
    if NoneOvertakes(events) {
      RunTidyIf(events, true);
    } else {
      OvertakenRun(events);
    }
  }

  // ----- What the FIN overtook is lost -----

  /** On a socket shut down for writing no _send takes a byte. */
  predicate SendFails(s: State, e: Event) {
    e.Poll? && s.wrShut ==> e.round.sends == [] || e.round.sends[0] < 0
  }

  /** The kernel's side of it: a send behind our FIN fails (with EPIPE). */
  ghost predicate SendsFail(events: seq<Event>) {
    forall i :: 0 <= i < |events| ==> SendFails(Run(events[..i]), events[i])
  }

  lemma StepStopped(s: State, e: Event)
    requires s.ending && s.wrShut && s.Queue() != [] && SendFails(s, e)
    ensures Stopped(s, Step(s, e))
  {
    match e
    case Do(act, onClose) =>
      StoppedActs(s, [act], onClose);
      assert [act][1..] == [];
    case Poll(r) =>
      if s.interest.Some? {
        if r.bad || s.closed {
          StoppedFail(s, r);
        } else {
          assert Flush(s, r) == s;
          AfterFlushStopped(s, r, r.read && s.interest.value.read);
        }
      }
  }

  lemma StoppedOn(s: State, m: State, e: Event)
    requires m.wrShut && m.Queue() != [] && Stopped(s, m) && SendFails(m, e)
    ensures Stopped(s, Step(m, e))
  {
    StepStopped(m, e);
  }

  lemma PriorFails(events: seq<Event>)
    requires events != [] && SendsFail(events)
    ensures SendsFail(events[..|events| - 1])
    ensures SendFails(Run(events[..|events| - 1]), events[|events| - 1])
  {
    var prior := events[..|events| - 1];
    forall j | 0 <= j < |prior| ensures SendFails(Run(prior[..j]), prior[j]) {
      assert prior[..j] == events[..j] && prior[j] == events[j];
    }
  }

  lemma {:induction false} LateBytesStay(events: seq<Event>, i: nat)
    requires i <= |events| && SendsFail(events)
    requires var s := Run(events[..i]); s.ending && s.wrShut && s.Queue() != []
    ensures Stopped(Run(events[..i]), Run(events))
  {
    var last := |events| - 1;
    if i == last + 1 {
      assert events[..i] == events;
    } else {
      var prior := events[..last];
      assert prior[..i] == events[..i];
      PriorFails(events);
      LateBytesStay(prior, i);
      StoppedOn(Run(events[..i]), Run(prior), events[last]);
    }
  }

  lemma OvertakenNow(prior: seq<Event>, e: Event)
    requires Overtakes(Run(prior), e)
    ensures var s := Run(prior + [e]); s.ending && s.wrShut && s.Queue() != [] && FinLate(s.log)
  {
    assert (prior + [e])[..|prior|] == prior;
    RunTidyIf(prior, false);
    StepOvertaken(Run(prior), e);
  }

  lemma TakeMore(events: seq<Event>, i: nat)
    requires i < |events|
    ensures events[..i] + [events[i]] == events[..i + 1]
  {
  }

  /** The bytes our FIN overtook stay queued for good: nothing is sent any more, and nothing
      accepted.  (At the next OUT the source throws "Broken pipe" out of `_flush`, and pol drops
      the socket.) */
  lemma OvertakenBytesStay(events: seq<Event>, i: nat)
    requires i < |events| && Overtakes(Run(events[..i]), events[i]) && SendsFail(events)
    ensures var s, t := Run(events[..i + 1]), Run(events);
      s.wrShut && s.Queue() != [] && FinLate(s.log) && Stopped(s, t)
  {
    OvertakenNow(events[..i], events[i]);
    TakeMore(events, i);
    LateBytesStay(events, i + 1);
  }

  // ----- A run in which it does -----

  const NO_ROUND := Round(false, false, false, true, -1, [], [], [], [], [], [])

  function Overtaken(): State {
    Step(Step(Initial(), Do(Write([]), [])), Poll(NO_ROUND.(onDrain := [Write([2]), End])))
  }

  /** Such a run: a drain listener that writes the byte 2 and ends.  The FIN goes out with
      the byte queued. */
  lemma FinOvertakes()
    ensures Overtaken().log == [Accepted([]), Drained, Accepted([2]), Fin(1)]
    ensures Overtaken().Queue() == [2] && Overtaken().wrShut && Overtaken().interest == Some(Mask(true, true))
  {
    var s1 := Step(Initial(), Do(Write([]), []));
    assert s1.Queue() == [];
    var acts := [Write([2]), End];
    var d2 := DoAct(Drain(s1), Write([2]), []);
    assert d2.Queue() == [2] && acts[1..] == [End] && [End][1..] == [];
    assert DoActs(Drain(s1), acts, []) == DoActs(d2, [End], []) == DoAct(d2, End, []);
  }
}
