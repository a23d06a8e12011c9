/** The stream socket as a state machine: what its methods and its poll handler do to the
    write queue, the half-close flags and the poll interest, with a log of everything that
    became visible outside. */
module SocketSpec {
  import opened Wrappers
  import opened Bytes
  import opened WriteFifo

  const HIGH_WATER := 262144     // write() hints at backpressure from here on

  /** What a listener, or the program between polls, does to the socket; end(x) is a write
      followed by an end. */
  datatype Act = Write(bytes: seq<byte>) | End | Destroy

  datatype Visible =
    | Accepted(bytes: seq<byte>)   // a write that was taken
    | Sent(bytes: seq<byte>)       // bytes the kernel took from _send
    | Fin(unsent: nat)             // _shutwr, and how many bytes were still queued then
    | Data                         // 'data'
    | Ended                        // 'end'
    | Drained                      // 'drain'
    | Failed                       // 'error'
    | Gone                         // _close and 'close'

  /** Poll interest; pol itself always reports errors and hang-ups. */
  datatype Mask = Mask(read: bool, write: bool)

  datatype State = State(
    fifo: SizedFifo, readEnded: bool, ending: bool, wrShut: bool, closed: bool,
    interest: Option<Mask>, log: seq<Visible>)
  {
    function Queue(): seq<byte> { fifo.wb.queue }
  }

  /** What a poll round brings: readiness, recv's result (positive: data, 0: end of stream,
      negative: would block), _send's results, and what the listeners do. */
  datatype Round = Round(
    bad: bool, hup: bool, read: bool, write: bool, recv: int, sends: seq<int>,
    onData: seq<Act>, onDrain: seq<Act>, onEnd: seq<Act>, onError: seq<Act>, onClose: seq<Act>)

  datatype Event = Do(act: Act, onClose: seq<Act>) | Poll(round: Round)

  function Initial(): State {
    State(EMPTY, false, false, false, false, Some(Mask(true, false)), [])
  }

  function Log(s: State, v: Visible): State { s.(log := s.log + [v]) }

  /** pol.more(fd, OUT), on a tracked fd. */
  function WantOut(s: State): State {
    if s.interest.Some? then s.(interest := Some(s.interest.value.(write := true))) else s
  }

  function DoWrite(s: State, bytes: seq<byte>): State {
    if s.closed || s.ending then s
    else WantOut(Log(s.(fifo := Pushed(s.fifo, bytes)), Accepted(bytes)))
  }

  function DoEnd(s: State): State {
    var s1 := s.(ending := true);
    if s.closed then s1 else WantOut(s1)
  }

  /** On a closed socket a listener can still only set `ending`. */
  function AfterClose(s: State, acts: seq<Act>): State {
    s.(ending := s.ending || End in acts || Destroy in acts)
  }

  function DoClose(s: State, onClose: seq<Act>): State {
    if s.closed then s else AfterClose(Log(s.(closed := true), Gone), onClose)
  }

  function DoAct(s: State, a: Act, onClose: seq<Act>): State {
    match a
    case Write(bytes) => DoWrite(s, bytes)
    case End => DoEnd(s)
    case Destroy => DoClose(s.(ending := true), onClose)
  }

  function DoActs(s: State, acts: seq<Act>, onClose: seq<Act>): State
    decreases |acts|
  {
    if acts == [] then s else DoActs(DoAct(s, acts[0], onClose), acts[1..], onClose)
  }

  /** One _send that took n bytes. */
  function SendOne(s: State, n: nat): State
    requires n <= |s.Queue()|
  {
    Log(s.(fifo := Dropped(s.fifo, n)), Sent(s.Queue()[..n]))
  }

  /** How many bytes a _send that reports `sent` took. */
  function Taken(s: State, sent: nat): nat {
    if sent <= |s.Queue()| then sent else |s.Queue()|
  }

  /** _send until the queue is empty or the kernel would block; it takes at most what it is
      given. */
  function SendLoop(s: State, sends: seq<int>): State
    decreases |sends|
  {
    if s.Queue() == [] || sends == [] || sends[0] < 0 then s
    else SendLoop(SendOne(s, Taken(s, sends[0])), sends[1..])
  }

  /** Our FIN, once the program has ended and it has not gone out yet. */
  function Finish(s: State): State {
    if s.ending && !s.wrShut then Log(s.(wrShut := true), Fin(|s.Queue()|)) else s
  }

  function Drain(s: State): State { Log(s.(fifo := Cleared(s.fifo)), Drained) }

  function Flush(s: State, r: Round): State {
    var s1 := SendLoop(s, r.sends);
    if s1.Queue() != [] then s1 else Finish(DoActs(Drain(s1), r.onDrain, r.onClose))
  }

  function ReadEnd(s: State, r: Round): State {
    if s.readEnded then s
    else DoEnd(DoActs(Log(s.(readEnded := true), Ended), r.onEnd, r.onClose))
  }

  /** The interest the state calls for, before the fallback. */
  function Wanted(s: State): Mask {
    Mask(!s.readEnded, s.Queue() != [] || (s.ending && !s.wrShut))
  }

  /** What the handler returns: nothing once closed, both sides done closes. */
  function Settle(s: State, r: Round): State {
    if s.closed then s.(interest := None)
    else if s.readEnded && s.wrShut then DoClose(s, r.onClose).(interest := None)
    else
      var m := Wanted(s);
      s.(interest := Some(if m.read || m.write then m else Mask(true, false)))
  }

  /** recv into the read buffer: data, end of stream, or nothing. */
  function Receive(s: State, r: Round): State {
    if r.recv < 0 then s
    else if r.recv == 0 then ReadEnd(s, r)
    else DoActs(Log(s, Data), r.onData, r.onClose)
  }

  function Fail(s: State, r: Round): State {
    DoClose(DoActs(Log(s, Failed), r.onError, r.onClose), r.onClose).(interest := None)
  }

  /** The handler, on the readiness pol was asked for; a closed fd polls as bad. */
  function PollStep(s: State, r: Round): State {
    if s.interest.None? then s
    else if r.bad || s.closed then Fail(s, r)
    else
      var read, write := r.read && s.interest.value.read, r.write && s.interest.value.write;
      var s1 := if write then Flush(s, r) else s;
      var s2 := if read then Receive(s1, r) else s1;
      var s3 := if r.hup && !read then ReadEnd(s2, r) else s2;
      Settle(s3, r)
  }

  function Step(s: State, e: Event): State {
    match e
    case Do(act, onClose) => DoAct(s, act, onClose)
    case Poll(round) => PollStep(s, round)
  }

  function Run(events: seq<Event>): State {
    if events == [] then Initial() else Step(Run(events[..|events| - 1]), events[|events| - 1])
  }

  // ----- What holds in every run -----

  function SentBytes(log: seq<Visible>): seq<byte> {
    if log == [] then []
    else SentBytes(log[..|log| - 1]) + match log[|log| - 1] case Sent(b) => b case _ => []
  }

  function AcceptedBytes(log: seq<Visible>): seq<byte> {
    if log == [] then []
    else AcceptedBytes(log[..|log| - 1]) + match log[|log| - 1] case Accepted(b) => b case _ => []
  }

  /** Nothing accepted is lost, repeated or reordered. */
  ghost predicate Conserved(s: State) {
    SentBytes(s.log) + s.Queue() == AcceptedBytes(s.log)
  }

  /** A peer's end of stream has been answered by our own. */
  ghost predicate Answered(s: State) {
    s.readEnded ==> s.ending
  }

  /** No lost wakeup: whatever there is to read, send or finish is being waited for. */
  ghost predicate Awake(s: State) {
    !s.closed ==>
      && s.interest.Some?
      && s.interest.value.read == !s.readEnded
      && (s.Queue() != [] || (s.ending && !s.wrShut) ==> s.interest.value.write)
  }

  ghost predicate Inv(s: State) {
    Conserved(s) && Answered(s) && Awake(s)
  }

  /** `t` came from `s` without touching the half-close flags but for `ending`. */
  ghost predicate Onward(s: State, t: State) {
    && t.readEnded == s.readEnded && t.wrShut == s.wrShut
    && (s.ending ==> t.ending) && (s.closed ==> t.closed)
  }

  lemma LogSplits(log: seq<Visible>, v: Visible)
    ensures SentBytes(log + [v]) == SentBytes(log) + match v case Sent(b) => b case _ => []
    ensures AcceptedBytes(log + [v]) == AcceptedBytes(log) + match v case Accepted(b) => b case _ => []
  {
    assert (log + [v])[..|log|] == log;
  }

  lemma QuietLog(s: State, v: Visible)
    requires Conserved(s) && !v.Sent? && !v.Accepted?
    ensures Conserved(Log(s, v))
  {
    LogSplits(s.log, v);
  }

  lemma Regroup(a: seq<byte>, b: seq<byte>, c: seq<byte>)
    ensures a + (b + c) == a + b + c
  {
  }

  lemma WriteKeeps(s: State, bytes: seq<byte>)
    requires Conserved(s)
    ensures Conserved(DoWrite(s, bytes))
  {
    if !s.closed && !s.ending {
      var t := DoWrite(s, bytes);
      LogSplits(s.log, Accepted(bytes));
      Regroup(SentBytes(s.log), s.Queue(), bytes);
      assert t.log == s.log + [Accepted(bytes)] && t.Queue() == s.Queue() + bytes;
    }
  }

  lemma CloseKeeps(s: State, onClose: seq<Act>)
    requires Conserved(s)
    ensures Conserved(DoClose(s, onClose)) && DoClose(s, onClose).closed
  {
    QuietLog(s.(closed := true), Gone);
  }

  lemma ActKeeps(s: State, a: Act, onClose: seq<Act>)
    requires Conserved(s)
    ensures Conserved(DoAct(s, a, onClose)) && Onward(s, DoAct(s, a, onClose))
    ensures Awake(s) ==> Awake(DoAct(s, a, onClose))
  {
    match a
    case Write(bytes) => WriteKeeps(s, bytes);
    case End =>
    case Destroy => CloseKeeps(s.(ending := true), onClose);
  }

  lemma {:induction false} ActsKeep(s: State, acts: seq<Act>, onClose: seq<Act>)
    requires Conserved(s)
    ensures Conserved(DoActs(s, acts, onClose)) && Onward(s, DoActs(s, acts, onClose))
    decreases |acts|
  {
    if acts != [] {
      ActKeeps(s, acts[0], onClose);
      ActsKeep(DoAct(s, acts[0], onClose), acts[1..], onClose);
    }
  }

  lemma SendOneKeeps(s: State, n: nat)
    requires Conserved(s) && n <= |s.Queue()|
    ensures Conserved(SendOne(s, n))
  {
    var queue := s.Queue();
    LogSplits(s.log, Sent(queue[..n]));
    assert queue == queue[..n] + queue[n..];
    Regroup(SentBytes(s.log), queue[..n], queue[n..]);
  }

  lemma {:induction false} SendLoopFlags(s: State, sends: seq<int>)
    ensures var t := SendLoop(s, sends); t == s.(fifo := t.fifo, log := t.log)
    decreases |sends|
  {
    if s.Queue() != [] && sends != [] && 0 <= sends[0] {
      SendLoopFlags(SendOne(s, Taken(s, sends[0])), sends[1..]);
    }
  }

  lemma {:induction false} SendLoopKeeps(s: State, sends: seq<int>)
    requires Conserved(s)
    ensures var t := SendLoop(s, sends);
      Conserved(t) && t == s.(fifo := t.fifo, log := t.log)
    decreases |sends|
  {
    if s.Queue() != [] && sends != [] && 0 <= sends[0] {
      SendOneKeeps(s, Taken(s, sends[0]));
      SendLoopKeeps(SendOne(s, Taken(s, sends[0])), sends[1..]);
    }
  }

  lemma FinishKeeps(s: State)
    requires Conserved(s)
    ensures Conserved(Finish(s)) && Finish(s) == s.(wrShut := Finish(s).wrShut, log := Finish(s).log)
  {
    QuietLog(s.(wrShut := true), Fin(|s.Queue()|));
  }

  lemma DrainKeeps(s: State)
    requires Conserved(s) && s.Queue() == []
    ensures Conserved(Drain(s)) && Onward(s, Drain(s))
  {
    QuietLog(s.(fifo := Cleared(s.fifo)), Drained);
  }

  lemma FlushKeeps(s: State, r: Round)
    requires Conserved(s)
    ensures Conserved(Flush(s, r))
    ensures Flush(s, r).readEnded == s.readEnded && (s.ending ==> Flush(s, r).ending)
  {
    SendLoopKeeps(s, r.sends);
    var s1 := SendLoop(s, r.sends);
    if s1.Queue() == [] {
      DrainKeeps(s1);
      ActsKeep(Drain(s1), r.onDrain, r.onClose);
      FinishKeeps(DoActs(Drain(s1), r.onDrain, r.onClose));
    }
  }

  lemma ReadEndKeeps(s: State, r: Round)
    requires Conserved(s) && Answered(s)
    ensures Conserved(ReadEnd(s, r)) && Answered(ReadEnd(s, r))
    ensures ReadEnd(s, r).wrShut == s.wrShut
  {
    QuietLog(s.(readEnded := true), Ended);
    ActsKeep(Log(s.(readEnded := true), Ended), r.onEnd, r.onClose);
  }

  /** After the peer's end of stream the interest is never empty, so the handler's fallback
      to IN is never taken. */
  lemma FallbackNeverTaken(s: State)
    requires Answered(s) && !s.closed && !(s.readEnded && s.wrShut)
    ensures Wanted(s).read || Wanted(s).write
  {
  }

  lemma SettleKeeps(s: State, r: Round)
    requires Conserved(s) && Answered(s)
    ensures Inv(Settle(s, r))
  {
    if !s.closed && s.readEnded && s.wrShut {
      CloseKeeps(s, r.onClose);
    }
  }

  lemma FailKeeps(s: State, r: Round)
    requires Conserved(s) && Answered(s)
    ensures Inv(Fail(s, r))
  {
    QuietLog(s, Failed);
    ActsKeep(Log(s, Failed), r.onError, r.onClose);
    CloseKeeps(DoActs(Log(s, Failed), r.onError, r.onClose), r.onClose);
  }

  lemma ReceiveKeeps(s: State, r: Round)
    requires Conserved(s) && Answered(s)
    ensures Conserved(Receive(s, r)) && Answered(Receive(s, r))
  {
    if r.recv == 0 {
      ReadEndKeeps(s, r);
    } else if 0 < r.recv {
      QuietLog(s, Data);
      ActsKeep(Log(s, Data), r.onData, r.onClose);
    }
  }

  /** The handler after its flush. */
  lemma AfterFlushKeeps(s1: State, r: Round, read: bool)
    requires Conserved(s1) && Answered(s1)
    ensures var s2 := if read then Receive(s1, r) else s1;
      Inv(Settle(if r.hup && !read then ReadEnd(s2, r) else s2, r))
  {
    ReceiveKeeps(s1, r);
    var s2 := if read then Receive(s1, r) else s1;
    ReadEndKeeps(s2, r);
    SettleKeeps(if r.hup && !read then ReadEnd(s2, r) else s2, r);
  }

  lemma PollKeeps(s: State, r: Round)
    requires Inv(s)
    ensures Inv(PollStep(s, r))
  {
    if s.interest.Some? {
      if r.bad || s.closed {
        FailKeeps(s, r);
      } else if r.write && s.interest.value.write {
        FlushKeeps(s, r);
        AfterFlushKeeps(Flush(s, r), r, r.read && s.interest.value.read);
      } else {
        AfterFlushKeeps(s, r, r.read && s.interest.value.read);
      }
    }
  }

  lemma StepKeeps(s: State, e: Event)
    requires Inv(s)
    ensures Inv(Step(s, e))
  {
    match e
    case Do(act, onClose) => ActKeeps(s, act, onClose);
    case Poll(round) => PollKeeps(s, round);
  }

  /** In every run whatever: conservation, bounded growth, and no lost wakeup. */
  lemma {:induction false} RunKeeps(events: seq<Event>)
    ensures Inv(Run(events))
  {
    if events != [] {
      RunKeeps(events[..|events| - 1]);
      StepKeeps(Run(events[..|events| - 1]), events[|events| - 1]);
    }
  }
}
