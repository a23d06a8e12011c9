/** The Socket object over its write Buf, method by method against SocketSpec. */
module SocketObject {
  import opened Wrappers
  import opened ByteBuf
  import opened Bytes
  import opened WriteFifo
  import opened SocketSpec

  class Socket {
    const wb: Buf                  // write FIFO
    var readEnded: bool            // peer FIN seen
    var ending: bool               // end() called
    var wrShut: bool               // our FIN sent
    var closed: bool
    var interest: Option<Mask>     // what pol waits for; None: not tracked
    ghost var st: State

    ghost predicate Valid()
      reads this, wb, wb.bytes
    {
      && wb.Valid() && wb.M() == st.fifo.wb
      && (readEnded, ending, wrShut, closed, interest)
        == (st.readEnded, st.ending, st.wrShut, st.closed, st.interest)
    }

    /** A fresh socket, registered with pol for reading. */
    constructor ()
      ensures Valid() && fresh(wb) && fresh(wb.bytes) && st == Initial()
    {
      wb := new Buf(FIRST);
      readEnded, ending, wrShut, closed := false, false, false, false;
      interest := Some(Mask(true, false));
      st := Initial();
    }

    /** pol.more(fd, OUT). */
    method More()
      modifies `interest
      ensures interest == if old(interest).Some? then Some(old(interest).value.(write := true)) else None
    {
      if interest.Some? {
        interest := Some(interest.value.(write := true));
      }
    }

    /** Room in the FIFO for n bytes more. */
    method MakeRoom(ghost f: Fifo, n: nat)
      requires wb.Valid() && wb.M() == f.wb
      modifies wb, wb.bytes
      ensures wb.Valid() && (wb.bytes == old(wb.bytes) || fresh(wb.bytes))
      ensures wb.M() == Roomy(f, n).wb
    {
      if wb.Room() < n {
        wb.Shift();
        if wb.Room() < n {
          wb.Grow(Max(2 * wb.cap, wb.Size() + n));
        }
      }
    }

    /** The FIFO takes the bytes: after MakeRoom the feed cannot be refused. */
    method Append(bytes: seq<byte>)
      requires wb.Valid() && wb.M() == st.fifo.wb
      modifies wb, wb.bytes
      ensures wb.Valid() && (wb.bytes == old(wb.bytes) || fresh(wb.bytes))
      ensures wb.M() == Push(st.fifo, bytes).wb
    {
      ghost var f := st.fifo;
      RoomyFits(f, |bytes|);
      MakeRoom(f, |bytes|);
      var fed := wb.Feed(bytes);
      assert fed.Ok?;
    }

    /** write(): false once closed or ending, or as a backpressure hint. */
    method Write(bytes: seq<byte>) returns (more: bool)
      requires Valid()
      modifies this, wb, wb.bytes
      ensures Valid() && (wb.bytes == old(wb.bytes) || fresh(wb.bytes))
      ensures st == DoWrite(old(st), bytes)
      ensures more <==> !old(closed) && !old(ending) && |st.Queue()| < HIGH_WATER
    {
      if closed || ending {
        return false;
      }
      Append(bytes);
      More();
      st := DoWrite(st, bytes);
      more := wb.Size() < HIGH_WATER;
    }

    /** end() without data. */
    method EndWriting()
      requires Valid()
      modifies this
      ensures Valid() && st == DoEnd(old(st))
    {
      ending := true;
      if !closed {
        More();
      }
      st := DoEnd(st);
    }

    /** _doClose: once; on the closed socket a listener can only set `ending`. */
    method Close(onClose: seq<Act>)
      requires Valid()
      modifies this
      ensures Valid() && st == DoClose(old(st), onClose)
    {
      st := DoClose(st, onClose);
      if closed {
        return;
      }
      closed := true;
      ending := ending || End in onClose || Destroy in onClose;
    }

    method Perform(act: Act, onClose: seq<Act>)
      requires Valid()
      modifies this, wb, wb.bytes
      ensures Valid() && (wb.bytes == old(wb.bytes) || fresh(wb.bytes))
      ensures st == DoAct(old(st), act, onClose)
    {
      match act
      case Write(bytes) =>
        var _ := Write(bytes);
      case End =>
        EndWriting();
      case Destroy =>
        ending := true;
        st := st.(ending := true);
        Close(onClose);
    }

    /** emit: what the listeners of one event do. */
    method Emit(acts: seq<Act>, onClose: seq<Act>)
      requires Valid()
      modifies this, wb, wb.bytes
      ensures Valid() && (wb.bytes == old(wb.bytes) || fresh(wb.bytes))
      ensures st == DoActs(old(st), acts, onClose)
    {
      var i := 0;
      while i < |acts|
        invariant i <= |acts| && Valid() && (wb.bytes == old(wb.bytes) || fresh(wb.bytes))
        invariant DoActs(old(st), acts, onClose) == DoActs(st, acts[i..], onClose)
      {
        Perform(acts[i], onClose);
        assert acts[i..][1..] == acts[i + 1..];
        i := i + 1;
      }
    }

    /** One _send took n bytes. */
    method Consume(n: nat)
      requires Valid() && n <= |st.Queue()|
      modifies wb`data, `st
      ensures Valid() && st == SendOne(old(st), n)
    {
      var skipped := wb.Skip(n);
      st := SendOne(st, n);
    }

    /** Send until empty or blocked. */
    method SendQueued(sends: seq<int>)
      requires Valid()
      modifies wb`data, `st
      ensures Valid() && st == SendLoop(old(st), sends)
    {
      ghost var goal := SendLoop(st, sends);
      assert sends[0..] == sends;
      var i := 0;
      while 0 < wb.Size() && i < |sends|
        invariant i <= |sends| && Valid() && goal == SendLoop(st, sends[i..])
        decreases |sends| - i
      {
        if sends[i] < 0 {
          break;
        }
        SendLoopStep(st, sends, i);
        Consume(if sends[i] <= wb.Size() then sends[i] else wb.Size());
        i := i + 1;
      }
    }

    method ClearQueue()
      requires Valid() && st.Queue() == []
      modifies wb`data, wb`idle, `st
      ensures Valid() && st == Drain(old(st))
    {
      wb.Reset();
      st := Drain(st);
    }

    /** Our FIN, if the program has ended and it has not gone out yet. */
    method FinishWriting()
      requires Valid()
      modifies `wrShut, `st
      ensures Valid() && st == Finish(old(st))
    {
      st := Finish(st);
      if ending && !wrShut {
        wrShut := true;
      }
    }

    /** The queue ran empty: 'drain', then our FIN if the program has ended. */
    method DrainAndFinish(r: Round)
      requires Valid() && st.Queue() == []
      modifies this, wb, wb.bytes
      ensures Valid() && (wb.bytes == old(wb.bytes) || fresh(wb.bytes))
      ensures st == Finish(DoActs(Drain(old(st)), r.onDrain, r.onClose))
    {
      ClearQueue();
      Emit(r.onDrain, r.onClose);
      FinishWriting();
    }

    /** _flush. */
    method FlushQueue(r: Round)
      requires Valid()
      modifies this, wb, wb.bytes
      ensures Valid() && (wb.bytes == old(wb.bytes) || fresh(wb.bytes))
      ensures st == Flush(old(st), r)
    {
      SendQueued(r.sends);
      if wb.Size() == 0 {
        DrainAndFinish(r);
      }
    }

    /** _readEnd: once; 'end', then finish our own side. */
    method EndReading(r: Round)
      requires Valid()
      modifies this, wb, wb.bytes
      ensures Valid() && (wb.bytes == old(wb.bytes) || fresh(wb.bytes))
      ensures st == ReadEnd(old(st), r)
    {
      if readEnded {
        return;
      }
      readEnded := true;
      st := Log(st.(readEnded := true), Ended);
      Emit(r.onEnd, r.onClose);
      EndWriting();
    }

    /** _mask, and pol taking the handler's answer. */
    method SettleInterest(r: Round)
      requires Valid()
      modifies this
      ensures Valid() && st == Settle(old(st), r)
    {
      ghost var before := st;
      if closed {
        interest := None;
        st := st.(interest := None);
      } else if readEnded && wrShut {
        Close(r.onClose);
        interest := None;
        st := st.(interest := None);
      } else {
        var read, write := !readEnded, 0 < wb.Size() || (ending && !wrShut);
        interest := Some(if read || write then Mask(read, write) else Mask(true, false));
        st := st.(interest := interest);
      }
    }

    /** The bad branch of _poll: 'error', close, leave pol. */
    method FailPoll(r: Round)
      requires Valid()
      modifies this, wb, wb.bytes
      ensures Valid() && (wb.bytes == old(wb.bytes) || fresh(wb.bytes))
      ensures st == Fail(old(st), r)
    {
      st := Log(st, Failed);
      Emit(r.onError, r.onClose);
      Close(r.onClose);
      LeavePol();
    }

    /** A handler that answers 0 is dropped. */
    method LeavePol()
      requires Valid()
      modifies `interest, `st
      ensures Valid() && st == old(st).(interest := None)
    {
      interest := None;
      st := st.(interest := None);
    }

    /** recv: data, end of stream, or nothing. */
    method ReceiveOnce(r: Round)
      requires Valid()
      modifies this, wb, wb.bytes
      ensures Valid() && (wb.bytes == old(wb.bytes) || fresh(wb.bytes))
      ensures st == Receive(old(st), r)
    {
      if 0 < r.recv {
        st := Log(st, Data);
        Emit(r.onData, r.onClose);
      } else if r.recv == 0 {
        EndReading(r);
      }
    }

    /** _poll. */
    method Poll(r: Round)
      requires Valid()
      modifies this, wb, wb.bytes
      ensures Valid() && (wb.bytes == old(wb.bytes) || fresh(wb.bytes))
      ensures st == PollStep(old(st), r)
    {
      if interest.None? {
        return;
      }
      if r.bad || closed {
        FailPoll(r);
        return;
      }
      var read, write := r.read && interest.value.read, r.write && interest.value.write;
      if write {
        FlushQueue(r);
      }
      if read {
        ReceiveOnce(r);
      }
      if r.hup && !read {
        EndReading(r);
      }
      SettleInterest(r);
    }

    /** Any run of the program and of pol. */
    method RunAll(events: seq<Event>)
      requires Valid() && st == Initial()
      modifies this, wb, wb.bytes
      ensures Valid() && st == Run(events)
    {
      for i := 0 to |events|
        invariant Valid() && (wb.bytes == old(wb.bytes) || fresh(wb.bytes))
        invariant st == Run(events[..i])
      {
        assert events[..i + 1][..i] == events[..i];
        match events[i] {
          case Do(act, onClose) => Perform(act, onClose);
          case Poll(round) => Poll(round);
        }
      }
      assert events[..|events|] == events;
    }
  }

  lemma SendLoopStep(s: State, sends: seq<int>, i: nat)
    requires i < |sends| && s.Queue() != [] && 0 <= sends[i]
    ensures SendLoop(s, sends[i..]) == SendLoop(SendOne(s, Taken(s, sends[i])), sends[i + 1..])
  {
    assert sends[i..][1..] == sends[i + 1..];
  }
}
