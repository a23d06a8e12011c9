/** What the inputs of a socket make of it: which polls signal what, what gets accepted and sent,
    and when each side ends and the socket closes. */
module SocketInputs {
  import opened Wrappers
  import opened Bytes
  import opened WriteFifo
  import opened SocketSpec

  // ----- The polls that matter -----

  /** pol calls the handler of an open socket, and reports no error. */
  predicate Served(s: State, e: Event) { e.Poll? && s.interest.Some? && !s.closed && !e.round.bad }

  /** It reports one, or the fd is closed already. */
  predicate Broken(s: State, e: Event) { e.Poll? && s.interest.Some? && (s.closed || e.round.bad) }

  predicate InReady(s: State, e: Event) { Served(s, e) && e.round.read && s.interest.value.read }

  predicate OutReady(s: State, e: Event) { Served(s, e) && e.round.write && s.interest.value.write }

  predicate BringsData(s: State, e: Event) { InReady(s, e) && 0 < e.round.recv }

  /** The peer's end of stream: recv gives 0, or a hang-up comes with nothing to read. */
  predicate BringsEnd(s: State, e: Event) {
    (InReady(s, e) && e.round.recv == 0) || (Served(s, e) && e.round.hup && !InReady(s, e))
  }

  /** How many bytes the kernel is ready to take before it would block. */
  function Offered(sends: seq<int>): nat {
    if sends == [] || sends[0] < 0 then 0 else sends[0] + Offered(sends[1..])
  }

  /** How many of the queued bytes go out. */
  function Going(s: State, sends: seq<int>): (n: nat)
    ensures n <= |s.Queue()| && (n < |s.Queue()| ==> n == Offered(sends))
  {
    if Offered(sends) < |s.Queue()| then Offered(sends) else |s.Queue()|
  }

  /** The kernel takes all there is. */
  predicate Empties(s: State, e: Event) { OutReady(s, e) && |s.Queue()| <= Offered(e.round.sends) }

  predicate Stops(acts: seq<Act>) { End in acts || Destroy in acts }

  /** Our FIN goes out: the queue ran empty, and the program has ended by then. */
  predicate EndsWriting(s: State, e: Event) { Empties(s, e) && (s.ending || Stops(e.round.onDrain)) }

  /** What the program does at an event: itself, or through the listeners that are called.  The
      peer's end of stream is answered with an end of our own. */
  function Said(s: State, e: Event): seq<Act> {
    if e.Do? then [e.act]
    else if Broken(s, e) then e.round.onError
    else (if Empties(s, e) then e.round.onDrain else []) + SaidThen(s, e)
  }

  function SaidThen(s: State, e: Event): seq<Act> {
    (if BringsData(s, e) then e.round.onData else [])
    + if BringsEnd(s, e) && !s.readEnded then e.round.onEnd + [End] else []
  }

  /** What the listeners hear at an event, in order. */
  function Heard(s: State, e: Event): seq<Visible> {
    if Broken(s, e) then [Failed]
    else (if Empties(s, e) then [Drained] else []) + HeardThen(s, e)
  }

  function HeardThen(s: State, e: Event): seq<Visible> {
    (if BringsData(s, e) then [Data] else []) + if BringsEnd(s, e) && !s.readEnded then [Ended] else []
  }

  /** What the kernel takes at an event: the front of the queue. */
  function SentAt(s: State, e: Event): seq<byte> {
    if OutReady(s, e) then s.Queue()[..Going(s, e.round.sends)] else []
  }

  /** The socket closes: the program destroys it, pol reports an error, or both sides are done. */
  predicate Closes(s: State, e: Event) {
    || Destroy in Said(s, e)
    || Broken(s, e)
    || (Served(s, e) && (s.readEnded || BringsEnd(s, e)) && (s.wrShut || EndsWriting(s, e)))
  }

  /** The bytes written before an end or a destroy. */
  function Written(acts: seq<Act>): seq<byte> {
    if acts == [] || !acts[0].Write? then [] else acts[0].bytes + Written(acts[1..])
  }

  predicate IsSignal(v: Visible) { v.Data? || v.Ended? || v.Drained? || v.Failed? }

  /** What the listeners heard, in order. */
  function Signals(log: seq<Visible>): seq<Visible> {
    if log == [] then []
    else Signals(log[..|log| - 1]) + if IsSignal(log[|log| - 1]) then [log[|log| - 1]] else []
  }

  // ----- What a step makes of them -----

  /** From s to t the program did `said`, the kernel took `sent` and the listeners heard `heard`. */
  ghost predicate Moves(s: State, t: State, said: seq<Act>, sent: seq<byte>, heard: seq<Visible>) {
    && (t.closed <==> s.closed || Destroy in said)
    && (t.ending <==> s.ending || Stops(said))
    && AcceptedBytes(t.log) == AcceptedBytes(s.log) + (if s.closed || s.ending then [] else Written(said))
    && SentBytes(t.log) == SentBytes(s.log) + sent
    && Signals(t.log) == Signals(s.log) + heard
    && (t.interest.None? <==> s.interest.None?)
  }

  lemma {:induction false} WrittenConcat(a: seq<Act>, b: seq<Act>)
    ensures Written(a + b) == Written(a) + (if Stops(a) then [] else Written(b))
    ensures Stops(a + b) <==> Stops(a) || Stops(b)
  {
    if a == [] {
      assert a + b == b;
    } else {
      assert (a + b)[1..] == a[1..] + b && a == [a[0]] + a[1..];
      WrittenConcat(a[1..], b);
      if a[0].Write? {
        Regroup(a[0].bytes, Written(a[1..]), if Stops(a[1..]) then [] else Written(b));
      }
    }
  }

  lemma RegroupSignals(a: seq<Visible>, b: seq<Visible>, c: seq<Visible>)
    ensures a + (b + c) == a + b + c
  {
  }

  lemma ThenMoves(
      s: State, m: State, t: State, said: seq<Act>, sent: seq<byte>, heard: seq<Visible>,
      said': seq<Act>, sent': seq<byte>, heard': seq<Visible>)
    requires Moves(s, m, said, sent, heard) && Moves(m, t, said', sent', heard')
    ensures Moves(s, t, said + said', sent + sent', heard + heard')
  {
    WrittenConcat(said, said');
    Regroup(SentBytes(s.log), sent, sent');
    RegroupSignals(Signals(s.log), heard, heard');
    if !s.closed && !s.ending {
      Regroup(AcceptedBytes(s.log), Written(said), if Stops(said) then [] else Written(said'));
    }
  }

  lemma SignalsMore(log: seq<Visible>, v: Visible)
    ensures Signals(log + [v]) == Signals(log) + if IsSignal(v) then [v] else []
  {
    assert (log + [v])[..|log|] == log;
  }

  lemma LogMoves(s: State, v: Visible)
    requires !v.Sent? && !v.Accepted?
    ensures Moves(s, Log(s, v), [], [], if IsSignal(v) then [v] else [])
  {
    LogSplits(s.log, v);
    SignalsMore(s.log, v);
  }

  lemma Nil<T>(a: seq<T>)
    ensures [] + a == a && a + [] == a
  {
  }

  lemma WrittenOne(a: Act)
    ensures Written([a]) == if a.Write? then a.bytes else []
  {
    assert [a][1..] == [];
  }

  lemma WriteMoves(s: State, bytes: seq<byte>)
    ensures Moves(s, DoWrite(s, bytes), [Write(bytes)], [], [])
  {
    WrittenOne(Write(bytes));
    if !s.closed && !s.ending {
      var fed := s.(fifo := Pushed(s.fifo, bytes));
      LogSplits(s.log, Accepted(bytes));
      SignalsMore(s.log, Accepted(bytes));
      assert DoWrite(s, bytes).log == s.log + [Accepted(bytes)];
    }
  }

  lemma DestroyMoves(s: State, onClose: seq<Act>)
    ensures Moves(s, DoClose(s.(ending := true), onClose), [Destroy], [], [])
  {
    WrittenOne(Destroy);
    LogSplits(s.log, Gone);
    SignalsMore(s.log, Gone);
  }

  lemma ActMoves(s: State, a: Act, onClose: seq<Act>)
    ensures Moves(s, DoAct(s, a, onClose), [a], [], [])
  {
    match a
    case Write(bytes) => WriteMoves(s, bytes);
    case End => WrittenOne(End);
    case Destroy => DestroyMoves(s, onClose);
  }

  lemma ActFlags(s: State, a: Act, onClose: seq<Act>)
    ensures var t := DoAct(s, a, onClose); t.readEnded == s.readEnded && t.wrShut == s.wrShut
  {
  }

  /** Listeners do what they do, and move nothing else. */
  lemma {:induction false} ActsMove(s: State, acts: seq<Act>, onClose: seq<Act>)
    ensures var t := DoActs(s, acts, onClose);
      Moves(s, t, acts, [], []) && t.readEnded == s.readEnded && t.wrShut == s.wrShut
    decreases |acts|
  {
    if acts != [] {
      var m := DoAct(s, acts[0], onClose);
      ActMoves(s, acts[0], onClose);
      ActFlags(s, acts[0], onClose);
      ActsMove(m, acts[1..], onClose);
      ThenMoves(s, m, DoActs(m, acts[1..], onClose), [acts[0]], [], [], acts[1..], [], []);
      assert acts == [acts[0]] + acts[1..];
    }
  }

  lemma SendOneMoves(s: State, n: nat)
    requires n <= |s.Queue()|
    ensures Moves(s, SendOne(s, n), [], s.Queue()[..n], [])
  {
    LogSplits(s.log, Sent(s.Queue()[..n]));
    SignalsMore(s.log, Sent(s.Queue()[..n]));
  }

  lemma CutTwice(q: seq<byte>, n: nat, m: nat)
    requires n + m <= |q|
    ensures q[..n] + q[n..][..m] == q[..n + m] && q[n..][m..] == q[n + m..]
  {
  }

  lemma GoingOn(s: State, sends: seq<int>)
    requires s.Queue() != [] && sends != [] && 0 <= sends[0]
    ensures var n := Taken(s, sends[0]); Going(s, sends) == n + Going(SendOne(s, n), sends[1..])
  {
  }

  /** A flush sends exactly what the kernel is ready to take, from the front of the queue. */
  lemma {:induction false} SendLoopSends(s: State, sends: seq<int>)
    ensures var n, t := Going(s, sends), SendLoop(s, sends);
      Moves(s, t, [], s.Queue()[..n], []) && t.Queue() == s.Queue()[n..]
    decreases |sends|
  {
    if s.Queue() != [] && sends != [] && 0 <= sends[0] {
      var n := Taken(s, sends[0]);
      SendOneMoves(s, n);
      SendLoopSends(SendOne(s, n), sends[1..]);
      GoingOn(s, sends);
      SendsOn(s, SendOne(s, n), SendLoop(s, sends), n, Going(SendOne(s, n), sends[1..]));
    } else {
      Whole(s.Queue());
    }
  }

  lemma Whole(q: seq<byte>)
    ensures q[..0] == [] && q[0..] == q && q[..|q|] == q
  {
  }

  lemma SendsOn(s: State, m: State, t: State, n: nat, k: nat)
    requires n <= |s.Queue()| && m.Queue() == s.Queue()[n..] && k <= |m.Queue()|
    requires Moves(s, m, [], s.Queue()[..n], []) && Moves(m, t, [], m.Queue()[..k], []) && t.Queue() == m.Queue()[k..]
    ensures Moves(s, t, [], s.Queue()[..n + k], []) && t.Queue() == s.Queue()[n + k..]
  {
    CutTwice(s.Queue(), n, k);
    ThenMoves(s, m, t, [], s.Queue()[..n], [], [], m.Queue()[..k], []);
  }

  /** One flush. */
  lemma FlushMoves(s: State, r: Round)
    ensures var n, t := Going(s, r.sends), Flush(s, r);
      var empty := |s.Queue()| <= Offered(r.sends);
      && Moves(s, t, if empty then r.onDrain else [], s.Queue()[..n], if empty then [Drained] else [])
      && t.readEnded == s.readEnded
      && (t.wrShut <==> s.wrShut || (empty && (s.ending || Stops(r.onDrain))))
  {
    var n, sent := Going(s, r.sends), SendLoop(s, r.sends);
    SendLoopSends(s, r.sends);
    SendLoopFlags(s, r.sends);
    if |s.Queue()| <= Offered(r.sends) {
      DrainMoves(s, sent, s.Queue()[..n], r);
    }
  }

  lemma DrainMoves(s: State, sent: State, out: seq<byte>, r: Round)
    requires Moves(s, sent, [], out, []) && sent.ending == s.ending && sent.wrShut == s.wrShut
    ensures var t := Finish(DoActs(Drain(sent), r.onDrain, r.onClose));
      && Moves(s, t, r.onDrain, out, [Drained]) && t.readEnded == sent.readEnded
      && (t.wrShut <==> s.wrShut || s.ending || Stops(r.onDrain))
  {
    var d := Drain(sent);
    var a := DoActs(d, r.onDrain, r.onClose);
    LogMoves(sent.(fifo := Cleared(sent.fifo)), Drained);
    assert Moves(sent, d, [], [], [Drained]);
    ThenHears(s, sent, d, out, Drained);
    ActsMove(d, r.onDrain, r.onClose);
    ThenSays(s, d, a, out, [Drained], r.onDrain);
    FinishMoves(a);
    ThenNothing(s, a, Finish(a), r.onDrain, out, [Drained]);
  }

  lemma ThenHears(s: State, m: State, t: State, sent: seq<byte>, v: Visible)
    requires Moves(s, m, [], sent, []) && Moves(m, t, [], [], [v])
    ensures Moves(s, t, [], sent, [v])
  {
    ThenMoves(s, m, t, [], sent, [], [], [], [v]);
    Nil(sent);
    Nil([v]);
  }

  lemma ThenSays(s: State, m: State, t: State, sent: seq<byte>, heard: seq<Visible>, said: seq<Act>)
    requires Moves(s, m, [], sent, heard) && Moves(m, t, said, [], [])
    ensures Moves(s, t, said, sent, heard)
  {
    ThenMoves(s, m, t, [], sent, heard, said, [], []);
    Nil(said);
    Nil(sent);
    Nil(heard);
  }

  lemma ThenNothing(s: State, m: State, t: State, said: seq<Act>, sent: seq<byte>, heard: seq<Visible>)
    requires Moves(s, m, said, sent, heard) && Moves(m, t, [], [], [])
    ensures Moves(s, t, said, sent, heard)
  {
    ThenMoves(s, m, t, said, sent, heard, [], [], []);
    Nil(said);
    Nil(sent);
    Nil(heard);
  }

  lemma FinishMoves(s: State)
    ensures Moves(s, Finish(s), [], [], [])
  {
    if s.ending && !s.wrShut {
      LogMoves(s.(wrShut := true), Fin(|s.Queue()|));
    }
  }

  /** The end of the peer's stream, the first time. */
  lemma ReadEndMoves(s: State, r: Round)
    ensures var t := ReadEnd(s, r);
      && t.readEnded && t.wrShut == s.wrShut
      && if s.readEnded then t == s else Moves(s, t, r.onEnd + [End], [], [Ended])
  {
    if !s.readEnded {
      var e := Log(s.(readEnded := true), Ended);
      var a := DoActs(e, r.onEnd, r.onClose);
      LogMoves(s.(readEnded := true), Ended);
      assert Moves(s, e, [], [], [Ended]);
      ActsMove(e, r.onEnd, r.onClose);
      ThenSays(s, e, a, [], [Ended], r.onEnd);
      ActMoves(a, End, []);
      ThenMoves(s, a, DoEnd(a), r.onEnd, [], [Ended], [End], [], []);
      Nil([Ended]);
    }
  }

  lemma DataMoves(s: State, r: Round)
    ensures var t := DoActs(Log(s, Data), r.onData, r.onClose);
      Moves(s, t, r.onData, [], [Data]) && t.readEnded == s.readEnded && t.wrShut == s.wrShut
  {
    var d := Log(s, Data);
    LogMoves(s, Data);
    ActsMove(d, r.onData, r.onClose);
    ThenSays(s, d, DoActs(d, r.onData, r.onClose), [], [Data], r.onData);
  }

  /** The handler between its flush and its answer. */
  function Heed(s: State, r: Round, read: bool): State {
    var s2 := if read then Receive(s, r) else s;
    if r.hup && !read then ReadEnd(s2, r) else s2
  }

  lemma HeedMoves(s: State, r: Round, read: bool)
    ensures var t := Heed(s, r, read);
      var data, end := read && 0 < r.recv, if read then r.recv == 0 else r.hup;
      && Moves(s, t,
          (if data then r.onData else []) + (if end && !s.readEnded then r.onEnd + [End] else []), [],
          (if data then [Data] else []) + (if end && !s.readEnded then [Ended] else []))
      && (t.readEnded <==> s.readEnded || end) && t.wrShut == s.wrShut
  {
    var data, end := read && 0 < r.recv, if read then r.recv == 0 else r.hup;
    if data {
      DataMoves(s, r);
      Nil(r.onData);
      Nil([Data]);
    } else if end {
      ReadEndMoves(s, r);
      Nil(r.onEnd + [End]);
      Nil([Ended]);
    }
  }

  /** What an event does, in terms of what it brings. */
  ghost predicate Follows(s: State, e: Event, t: State) {
    && (t.readEnded <==> s.readEnded || BringsEnd(s, e))
    && (t.wrShut <==> s.wrShut || EndsWriting(s, e))
    && (t.closed <==> s.closed || Closes(s, e))
    && (!t.closed ==> (t.ending <==> s.ending || Stops(Said(s, e))))
    && AcceptedBytes(t.log) == AcceptedBytes(s.log) + (if s.closed || s.ending then [] else Written(Said(s, e)))
    && SentBytes(t.log) == SentBytes(s.log) + SentAt(s, e)
    && Signals(t.log) == Signals(s.log) + Heard(s, e)
    && (t.interest.None? <==> s.interest.None? || (e.Poll? && t.closed))
  }

  /** Closing says, sends and signals nothing; its listeners can still end what is closed. */
  lemma CloseMoves(s: State, onClose: seq<Act>)
    ensures var t := DoClose(s, onClose);
      && t.closed && t.readEnded == s.readEnded && t.wrShut == s.wrShut
      && (t.ending <==> s.ending || (!s.closed && Stops(onClose)))
      && AcceptedBytes(t.log) == AcceptedBytes(s.log) && SentBytes(t.log) == SentBytes(s.log)
      && Signals(t.log) == Signals(s.log)
  {
    LogSplits(s.log, Gone);
    SignalsMore(s.log, Gone);
  }

  lemma DoFollows(s: State, e: Event)
    requires e.Do?
    ensures Follows(s, e, Step(s, e))
  {
    ActMoves(s, e.act, e.onClose);
    ActFlags(s, e.act, e.onClose);
  }

  lemma ErrorMoves(s: State, r: Round)
    ensures var t := DoActs(Log(s, Failed), r.onError, r.onClose);
      Moves(s, t, r.onError, [], [Failed]) && t.readEnded == s.readEnded && t.wrShut == s.wrShut
  {
    var f := Log(s, Failed);
    LogMoves(s, Failed);
    ActsMove(f, r.onError, r.onClose);
    ThenSays(s, f, DoActs(f, r.onError, r.onClose), [], [Failed], r.onError);
  }

  lemma BrokenFollows(s: State, e: Event)
    requires Broken(s, e)
    ensures Follows(s, e, Step(s, e))
  {
    ErrorMoves(s, e.round);
    var t := DoActs(Log(s, Failed), e.round.onError, e.round.onClose);
    CloseMoves(t, e.round.onClose);
    assert Step(s, e) == DoClose(t, e.round.onClose).(interest := None);
  }

  lemma ServedFlushes(s: State, e: Event)
    requires Served(s, e)
    ensures var t := if OutReady(s, e) then Flush(s, e.round) else s;
      && Moves(s, t, if Empties(s, e) then e.round.onDrain else [], SentAt(s, e),
          if Empties(s, e) then [Drained] else [])
      && t.readEnded == s.readEnded && (t.wrShut <==> s.wrShut || EndsWriting(s, e))
  {
    if OutReady(s, e) {
      FlushMoves(s, e.round);
    }
  }

  lemma ServedHeeds(s: State, m: State, e: Event)
    requires Served(s, e) && m.readEnded == s.readEnded
    ensures var t := Heed(m, e.round, InReady(s, e));
      && Moves(m, t, SaidThen(s, e), [], HeardThen(s, e))
      && (t.readEnded <==> s.readEnded || BringsEnd(s, e)) && t.wrShut == m.wrShut
  {
    HeedMoves(m, e.round, InReady(s, e));
  }

  /** Before the handler answers. */
  lemma ServedMoves(s: State, e: Event, m: State, t: State)
    requires Served(s, e) && m == (if OutReady(s, e) then Flush(s, e.round) else s)
    requires t == Heed(m, e.round, InReady(s, e))
    ensures Moves(s, t, Said(s, e), SentAt(s, e), Heard(s, e))
    ensures t.readEnded <==> s.readEnded || BringsEnd(s, e)
    ensures t.wrShut <==> s.wrShut || EndsWriting(s, e)
  {
    ServedFlushes(s, e);
    ServedHeeds(s, m, e);
    ThenMoves(s, m, t, if Empties(s, e) then e.round.onDrain else [], SentAt(s, e),
      if Empties(s, e) then [Drained] else [], SaidThen(s, e), [], HeardThen(s, e));
    Nil(SentAt(s, e));
  }

  /** The handler's answer. */
  lemma SettleFollows(s: State, e: Event, t: State)
    requires Served(s, e) && Moves(s, t, Said(s, e), SentAt(s, e), Heard(s, e))
    requires t.readEnded <==> s.readEnded || BringsEnd(s, e)
    requires t.wrShut <==> s.wrShut || EndsWriting(s, e)
    ensures Follows(s, e, Settle(t, e.round))
  {
    CloseMoves(t, e.round.onClose);
  }

  lemma ServedFollows(s: State, e: Event)
    requires Served(s, e)
    ensures Follows(s, e, Step(s, e))
  {
    var m := if OutReady(s, e) then Flush(s, e.round) else s;
    var t := Heed(m, e.round, InReady(s, e));
    ServedMoves(s, e, m, t);
    SettleFollows(s, e, t);
    ServedIs(s, e, m, t);
  }

  lemma ServedIs(s: State, e: Event, m: State, t: State)
    requires Served(s, e) && m == (if OutReady(s, e) then Flush(s, e.round) else s)
    requires t == Heed(m, e.round, InReady(s, e))
    ensures Step(s, e) == Settle(t, e.round)
  {
  }

  lemma StepFollows(s: State, e: Event)
    ensures Follows(s, e, Step(s, e))
  {
    if e.Do? {
      DoFollows(s, e);
    } else if Broken(s, e) {
      BrokenFollows(s, e);
    } else if Served(s, e) {
      ServedFollows(s, e);
    }
  }

  /** Served and left open, a socket waits to read until the peer's end of stream, and to write
      exactly while there are bytes to send or a FIN of ours to go. */
  lemma ServedWaits(s: State, e: Event)
    requires Inv(s) && Served(s, e)
    ensures var t := Step(s, e);
      !t.closed ==> t.interest == Some(Mask(!t.readEnded, t.Queue() != [] || (t.ending && !t.wrShut)))
  {
    PollKeeps(s, e.round);
    var t := Heed(if OutReady(s, e) then Flush(s, e.round) else s, e.round, InReady(s, e));
    ServedIs(s, e, if OutReady(s, e) then Flush(s, e.round) else s, t);
    if !t.closed && !(t.readEnded && t.wrShut) {
      assert Step(s, e) == t.(interest := Step(s, e).interest);
      FallbackNeverTaken(t);
    }
  }

  /** A queue that ran empty gives its room back. */
  lemma DrainMakesRoom(s: State)
    ensures Drain(s).Queue() == [] && Drain(s).fifo.wb.Room() == s.fifo.wb.cap
  {
  }

  // ----- Over runs -----

  /** Some event of the run was such. */
  ghost predicate Once(events: seq<Event>, p: (State, Event) -> bool) {
    exists i :: 0 <= i < |events| && p(Run(events[..i]), events[i])
  }

  lemma OnceMore(events: seq<Event>, e: Event, p: (State, Event) -> bool)
    ensures Once(events + [e], p) <==> Once(events, p) || p(Run(events), e)
  {
    var more := events + [e];
    assert more[..|events|] == events && more[|events|] == e;
    forall i | 0 <= i < |events| ensures more[..i] == events[..i] && more[i] == events[i] {
    }
    if Once(events, p) {
      var i :| 0 <= i < |events| && p(Run(events[..i]), events[i]);
      assert p(Run(more[..i]), more[i]);
    }
  }

  /** The bytes written while the socket was neither closed nor ended. */
  function AllWritten(events: seq<Event>): seq<byte> {
    if events == [] then []
    else
      var s, e := Run(events[..|events| - 1]), events[|events| - 1];
      AllWritten(events[..|events| - 1]) + if s.closed || s.ending then [] else Written(Said(s, e))
  }

  function AllSent(events: seq<Event>): seq<byte> {
    if events == [] then []
    else AllSent(events[..|events| - 1]) + SentAt(Run(events[..|events| - 1]), events[|events| - 1])
  }

  function AllHeard(events: seq<Event>): seq<Visible> {
    if events == [] then []
    else AllHeard(events[..|events| - 1]) + Heard(Run(events[..|events| - 1]), events[|events| - 1])
  }

  ghost predicate RunIs(events: seq<Event>, s: State) {
    && (s.readEnded <==> Once(events, BringsEnd))
    && (s.wrShut <==> Once(events, EndsWriting))
    && (s.closed <==> Once(events, Closes))
    && AcceptedBytes(s.log) == AllWritten(events)
    && SentBytes(s.log) == AllSent(events)
    && Signals(s.log) == AllHeard(events)
  }

  lemma RunIsMore(events: seq<Event>, e: Event, s: State, t: State)
    requires s == Run(events) && RunIs(events, s) && Follows(s, e, t)
    ensures RunIs(events + [e], t)
  {
    OnceMore(events, e, BringsEnd);
    OnceMore(events, e, EndsWriting);
    OnceMore(events, e, Closes);
    assert (events + [e])[..|events|] == events;
  }

  /** In every run: the peer's side has ended if and only if some poll brought the end of its
      stream; our FIN went out if and only if some poll emptied the queue of a socket that had
      ended by then; the socket closed if and only if it was destroyed, a poll reported an error,
      or a poll found both sides done.  Everything written while it was open and not ended was
      accepted, everything the kernel was ready to take was sent, and the listeners heard exactly
      what the polls brought, in order. */
  lemma {:induction false} RunFollows(events: seq<Event>)
    ensures RunIs(events, Run(events))
  {
    if events != [] {
      var prior, e := events[..|events| - 1], events[|events| - 1];
      assert events == prior + [e];
      RunFollows(prior);
      StepFollows(Run(prior), e);
      RunIsMore(prior, e, Run(prior), Run(events));
    }
  }

  // ----- When the socket closes -----

  predicate NoDestroy(acts: seq<Act>) { Destroy !in acts }

  /** No errors, and nobody destroys the socket. */
  predicate CalmEvent(e: Event) {
    match e
    case Do(act, _) => !act.Destroy?
    case Poll(r) => !r.bad && NoDestroy(r.onData) && NoDestroy(r.onDrain) && NoDestroy(r.onEnd)
  }

  /** Closed exactly when both sides are done, and then out of pol. */
  ghost predicate ClosedWhenDone(s: State) {
    (s.closed <==> s.readEnded && s.wrShut) && (s.closed ==> s.interest.None?)
  }

  lemma CalmStep(s: State, e: Event)
    requires ClosedWhenDone(s) && CalmEvent(e)
    ensures ClosedWhenDone(Step(s, e))
  {
    StepFollows(s, e);
    assert Destroy !in Said(s, e);
  }

  /** In calm runs the socket has closed, and left pol, exactly from the moment some poll has
      brought the end of the peer's stream and some poll has let our own FIN go. */
  lemma {:induction false} CalmRunCloses(events: seq<Event>)
    requires forall i :: 0 <= i < |events| ==> CalmEvent(events[i])
    ensures Run(events).closed <==> Once(events, BringsEnd) && Once(events, EndsWriting)
    ensures ClosedWhenDone(Run(events))
  {
    RunFollows(events);
    if events != [] {
      CalmRunCloses(events[..|events| - 1]);
      CalmStep(Run(events[..|events| - 1]), events[|events| - 1]);
    }
  }
}
