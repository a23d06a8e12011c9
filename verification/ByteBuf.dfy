/** The Buf cursor: PAST | DATA | IDLE over one byte array, edited in place.

    Sources are byte sequences, so a source never aliases the buffer's own bytes. */
module ByteBuf {
  import opened Bytes
  import opened Wrappers

  datatype Error = NoRoom | BadArg

  /** What a buffer holds, without the array. */
  datatype Model = Model(past: seq<byte>, queue: seq<byte>, cap: nat) {
    function Room(): int { cap - |past| - |queue| }
  }

  datatype Op =
    | OpFeed(src: seq<byte>)
    | OpTake(n: nat)
    | OpSkip(n: nat)
    | OpShed(n: nat)
    | OpShift
    | OpReset
    | OpSplice(off: nat, cut: nat, paste: seq<byte>)
    | OpGrow(n: nat)

  /** When an operation throws, and which error. */
  function Refusal(m: Model, op: Op): Option<Error> {
    match op
    case OpFeed(src) => if m.Room() < |src| then Some(NoRoom) else None
    case OpTake(n) => if |m.queue| < n then Some(BadArg) else None
    case OpSkip(n) => if |m.queue| < n then Some(BadArg) else None
    case OpShed(n) => if |m.queue| < n then Some(BadArg) else None
    case OpShift => None
    case OpReset => None
    case OpSplice(off, cut, paste) =>
      if |m.queue| < off + cut then Some(BadArg)
      else if m.Room() < |paste| - cut then Some(NoRoom)
      else None
    case OpGrow(_) => None
  }

  /** What an operation makes of the queue; a refused one changes nothing. */
  function Apply(m: Model, op: Op): Model {
    if Refusal(m, op).Some? then m
    else match op
      case OpFeed(src) => m.(queue := m.queue + src)
      case OpTake(n) => m.(past := m.past + m.queue[..n], queue := m.queue[n..])
      case OpSkip(n) => m.(past := m.past + m.queue[..n], queue := m.queue[n..])
      case OpShed(n) => m.(queue := m.queue[..|m.queue| - n])
      case OpShift => m.(past := [])
      case OpReset => m.(past := [], queue := [])
      case OpSplice(off, cut, paste) => m.(queue := m.queue[..off] + paste + m.queue[off + cut..])
      case OpGrow(n) => if n <= m.cap then m else m.(cap := n)
  }

  function ApplyAll(m: Model, ops: seq<Op>): Model {
    if ops == [] then m else Apply(ApplyAll(m, ops[..|ops| - 1]), ops[|ops| - 1])
  }

  // ----- What the operations mean to each other -----

  /** What goes in comes out at the front, in order, and stays behind in PAST until it is dropped. */
  lemma TakesInOrder(m: Model, src: seq<byte>, n: nat)
    requires m.Room() >= |src| && n <= |m.queue| + |src|
    ensures var t := Apply(Apply(m, OpFeed(src)), OpTake(n));
      && t.past + t.queue == m.past + m.queue + src && |t.past| == |m.past| + n && t.cap == m.cap
      && Apply(Apply(m, OpFeed(src)), OpSkip(n)) == t
      && Apply(t, OpShift) == Model([], t.queue, t.cap) && Apply(t, OpReset) == Model([], [], t.cap)
  {
    var f := Apply(m, OpFeed(src));
    assert f == m.(queue := m.queue + src);
    assert f.queue[..n] + f.queue[n..] == f.queue;
  }

  /** Shedding is feeding undone: it gives up the end of the queue. */
  lemma ShedUndoesFeed(m: Model, src: seq<byte>)
    requires m.Room() >= |src|
    ensures Apply(Apply(m, OpFeed(src)), OpShed(|src|)) == m
  {
    assert (m.queue + src)[..|m.queue|] == m.queue;
  }

  /** A splice puts `paste` in the place of `cut` bytes, and the splice back undoes it. */
  lemma SpliceUndoesSplice(m: Model, a: seq<byte>, cut: seq<byte>, b: seq<byte>, paste: seq<byte>)
    requires 0 <= m.Room() && m.queue == a + cut + b && |paste| - |cut| <= m.Room()
    ensures var t := Apply(m, OpSplice(|a|, |cut|, paste));
      t == m.(queue := a + paste + b) && Apply(t, OpSplice(|a|, |paste|, cut)) == m
  {
    var t := Apply(m, OpSplice(|a|, |cut|, paste));
    assert m.queue[..|a|] == a && m.queue[|a| + |cut|..] == b;
    assert t.queue == a + paste + b;
    assert t.queue[..|a|] == a && t.queue[|a| + |paste|..] == b;
  }

  /** Growing only adds room. */
  lemma GrowsRoom(m: Model, n: nat)
    ensures var t := Apply(m, OpGrow(n));
      t.past == m.past && t.queue == m.queue && t.cap == (if m.cap < n then n else m.cap)
  {
  }

  /** An operation is refused exactly when it asks for bytes or for room there is not, and then it
      changes nothing. */
  lemma RefusedIff(m: Model, op: Op)
    ensures Refusal(m, op).Some? ==> Apply(m, op) == m
    ensures Refusal(m, op) == Some(NoRoom) <==>
      || (op.OpFeed? && m.cap < |m.past| + |m.queue| + |op.src|)
      || (op.OpSplice? && op.off + op.cut <= |m.queue| && m.cap < |m.past| + |m.queue| - op.cut + |op.paste|)
    ensures Refusal(m, op) == Some(BadArg) <==>
      || ((op.OpTake? || op.OpSkip? || op.OpShed?) && |m.queue| < op.n)
      || (op.OpSplice? && |m.queue| < op.off + op.cut)
  {
  }

  /** An overlapping move of [from, end) to `to`. */
  function Moved(b: seq<byte>, to: nat, from: nat, end: nat): seq<byte>
    requires from <= end <= |b| && to + (end - from) <= |b|
  {
    b[..to] + b[from..end] + b[to + (end - from)..]
  }

  function Pasted(b: seq<byte>, src: seq<byte>, at: nat): seq<byte>
    requires at + |src| <= |b|
  {
    b[..at] + src + b[at + |src|..]
  }

  lemma PastedParts(b: seq<byte>, src: seq<byte>, at: nat)
    requires at + |src| <= |b|
    ensures var p := Pasted(b, src, at);
      |p| == |b| && p[..at] == b[..at] && p[at..at + |src|] == src && p[at + |src|..] == b[at + |src|..]
  {
  }

  lemma MovedParts(b: seq<byte>, to: nat, from: nat, end: nat)
    requires from <= end <= |b| && to + (end - from) <= |b|
    ensures var m := Moved(b, to, from, end);
      |m| == |b| && m[..to] == b[..to] && m[to..to + (end - from)] == b[from..end]
  {
  }

  /** Move the tail, then paste: over any overlap the edit lands on [at, from). */
  lemma SpliceBytes(b: seq<byte>, data: nat, idle: nat, at: nat, from: nat, to: nat, paste: seq<byte>, b': seq<byte>)
    requires data <= at <= from <= idle <= |b| && to == at + |paste| && to + (idle - from) <= |b|
    requires b' == Pasted(Moved(b, to, from, idle), paste, at)
    ensures |b'| == |b| && b'[..data] == b[..data]
    ensures b'[data..to + (idle - from)] == b[data..idle][..at - data] + paste + b[data..idle][from - data..]
  {
    var moved, n := Moved(b, to, from, idle), idle - from;
    MovedParts(b, to, from, idle);
    PastedParts(moved, paste, at);
    assert b'[to..to + n] == b'[to..][..n] == moved[to..][..n] == moved[to..to + n];
    assert b'[..at] == moved[..to][..at] == b[..at];
    assert b'[data..to + n] == b'[..at][data..] + b'[at..to] + b'[to..to + n];
    assert b[data..idle][from - data..] == b[from..idle];
    assert b'[..at][data..] == b[data..idle][..at - data];
  }

  /** The same edit, as what it does to the model. */
  lemma SpliceApplies(
      b: seq<byte>, data: nat, idle: nat, end: nat, off: nat, cut: nat, from: nat, to: nat,
      paste: seq<byte>, b': seq<byte>)
    requires data <= idle <= |b| && off + cut <= idle - data && |paste| - cut <= |b| - idle
    requires from == data + off + cut && to == data + off + |paste| && end == idle + |paste| - cut
    requires b' == Pasted(Moved(b, to, from, idle), paste, data + off)
    ensures |b'| == |b| && end <= |b|
    ensures Model(b'[..data], b'[data..end], |b|) ==
      Apply(Model(b[..data], b[data..idle], |b|), OpSplice(off, cut, paste))
  {
    SpliceBytes(b, data, idle, data + off, from, to, paste, b');
  }

  class Buf {
    var bytes: array<byte>
    var data: nat
    var idle: nat
    var cap: nat

    ghost predicate Valid()
      reads this
    {
      data <= idle <= cap == bytes.Length
    }

    ghost function M(): Model
      requires Valid()
      reads this, bytes
    {
      Model(bytes[..data], bytes[data..idle], cap)
    }

    /** io.buf(n): n bytes, all IDLE. */
    constructor (n: nat)
      ensures Valid() && fresh(bytes) && M() == Model([], [], n)
    {
      bytes := new byte[n](_ => 0);
      data, idle, cap := 0, 0, n;
    }

    function Size(): nat
      requires Valid()
      reads this
    {
      idle - data
    }

    function Room(): nat
      requires Valid()
      reads this
    {
      cap - idle
    }

    /** TypedArray.set: copy `src` in at `at`. */
    method SetAt(src: seq<byte>, at: nat)
      requires at + |src| <= bytes.Length
      modifies bytes
      ensures bytes[..] == Pasted(old(bytes[..]), src, at)
    {
      ghost var b, n := bytes[..], |src|;
      forall j | at <= j < at + |src| {
        bytes[j] := src[j - at];
      }
      assert bytes[..at] == b[..at] && bytes[at..at + n] == src && bytes[at + n..] == b[at + n..];
      assert bytes[..] == bytes[..at] + bytes[at..at + n] + bytes[at + n..];
    }

    /** TypedArray.copyWithin: an overlapping move inside the array. */
    method CopyWithin(to: nat, from: nat, end: nat)
      requires from <= end <= bytes.Length && to + (end - from) <= bytes.Length
      modifies bytes
      ensures bytes[..] == Moved(old(bytes[..]), to, from, end)
    {
      ghost var b, n := bytes[..], end - from;
      forall j | to <= j < to + (end - from) {
        bytes[j] := bytes[from + j - to];
      }
      assert bytes[..to] == b[..to] && bytes[to + n..] == b[to + n..];
      assert bytes[to..to + n] == b[from..end];
      assert bytes[..] == bytes[..to] + bytes[to..to + n] + bytes[to + n..];
    }

    /** Consuming n bytes moves them from the head of the queue to PAST. */
    lemma SplitAt(n: nat)
      requires Valid() && n <= Size()
      ensures bytes[..data + n] == bytes[..data] + bytes[data..idle][..n]
      ensures bytes[data + n..idle] == bytes[data..idle][n..]
      ensures bytes[data..data + n] == bytes[data..idle][..n]
    {
      assert bytes[data..data + n] == bytes[data..idle][..n];
      assert bytes[..data + n] == bytes[..data] + bytes[data..data + n];
    }

    method Feed(src: seq<byte>) returns (r: Result<nat, Error>)
      requires Valid()
      modifies `idle, bytes
      ensures Valid() && M() == Apply(old(M()), OpFeed(src))
      ensures r == if |src| <= old(Room()) then Ok(|src|) else Err(NoRoom)
    {
      if Room() < |src| {
        return Err(NoRoom);
      }
      SetAt(src, idle);
      idle := idle + |src|;
      r := Ok(|src|);
    }

    method Take(n: nat) returns (r: Result<seq<byte>, Error>)
      requires Valid()
      modifies `data
      ensures Valid() && M() == Apply(old(M()), OpTake(n))
      ensures r == if n <= old(Size()) then Ok(old(M()).queue[..n]) else Err(BadArg)
    {
      if Size() < n {
        return Err(BadArg);
      }
      var v := bytes[data..data + n];
      SplitAt(n);
      data := data + n;
      r := Ok(v);
    }

    method Skip(n: nat) returns (r: Result<(), Error>)
      requires Valid()
      modifies `data
      ensures Valid() && M() == Apply(old(M()), OpSkip(n))
      ensures r == if n <= old(Size()) then Ok(()) else Err(BadArg)
    {
      if Size() < n {
        return Err(BadArg);
      }
      SplitAt(n);
      data := data + n;
      r := Ok(());
    }

    /** Un-append. */
    method Shed(n: nat) returns (r: Result<(), Error>)
      requires Valid()
      modifies `idle
      ensures Valid() && M() == Apply(old(M()), OpShed(n))
      ensures r == if n <= old(Size()) then Ok(()) else Err(BadArg)
    {
      if Size() < n {
        return Err(BadArg);
      }
      idle := idle - n;
      r := Ok(());
    }

    method Reset()
      requires Valid()
      modifies `data, `idle
      ensures Valid() && M() == Apply(old(M()), OpReset)
    {
      data, idle := 0, 0;
    }

    /** Move DATA down over PAST. */
    method Shift()
      requires Valid()
      modifies `data, `idle, bytes
      ensures Valid() && M() == Apply(old(M()), OpShift)
    {
      if data == 0 {
        return;
      }
      CopyWithin(0, data, idle);
      idle := idle - data;
      data := 0;
    }

    /** Replace DATA's [off, off + cut) with `paste`, moving the tail first. */
    method Splice(off: nat, cut: nat, paste: seq<byte>) returns (r: Result<(), Error>)
      requires Valid()
      modifies `idle, bytes
      ensures Valid() && M() == Apply(old(M()), OpSplice(off, cut, paste))
      ensures r == match Refusal(old(M()), OpSplice(off, cut, paste)) case None => Ok(()) case Some(e) => Err(e)
    {
      if Size() < off + cut {
        return Err(BadArg);
      }
      if Room() < |paste| - cut {
        return Err(NoRoom);
      }
      Edit(off, cut, paste);
      r := Ok(());
    }

    method Edit(off: nat, cut: nat, paste: seq<byte>)
      requires Valid() && off + cut <= idle - data && |paste| - cut <= cap - idle
      modifies `idle, bytes
      ensures Valid() && M() == Apply(old(M()), OpSplice(off, cut, paste))
    {
      var at := data + off;
      var from, to, end := at + cut, at + |paste|, idle + |paste| - cut;
      ghost var b, was := bytes[..], idle;
      MIsOfBytes();
      MoveAndPaste(to, from, idle, paste, at);
      idle := end;
      MIsOfBytes();
      SpliceApplies(b, data, was, end, off, cut, from, to, paste, bytes[..]);
    }

    lemma MIsOfBytes()
      requires Valid()
      ensures M() == Model(bytes[..][..data], bytes[..][data..idle], |bytes[..]|)
    {
    }

    method MoveAndPaste(to: nat, from: nat, end: nat, paste: seq<byte>, at: nat)
      requires from <= end <= bytes.Length && to + (end - from) <= bytes.Length && at + |paste| <= bytes.Length
      modifies bytes
      ensures bytes[..] == Pasted(Moved(old(bytes[..]), to, from, end), paste, at)
    {
      CopyWithin(to, from, end);
      SetAt(paste, at);
    }

    /** A larger array, the live prefix copied over. */
    method Grow(n: nat)
      requires Valid()
      modifies `bytes, `cap
      ensures Valid() && M() == Apply(old(M()), OpGrow(n))
      ensures bytes == old(bytes) || fresh(bytes)
    {
      if n <= cap {
        return;
      }
      var nb := new byte[n](i requires 0 <= i reads this, bytes =>
        if i < idle && i < bytes.Length then bytes[i] else 0);
      assert nb[..idle] == bytes[..idle];
      assert nb[..data] == nb[..idle][..data] && nb[data..idle] == nb[..idle][data..];
      bytes := nb;
      cap := n;
    }

    /** Any sequence of operations does to the array what it does to the model. */
    method Run(ops: seq<Op>)
      requires Valid()
      modifies this, bytes
      ensures Valid() && M() == ApplyAll(old(M()), ops)
    {
      for i := 0 to |ops|
        invariant Valid() && M() == ApplyAll(old(M()), ops[..i])
        invariant bytes == old(bytes) || fresh(bytes)
      {
        assert ops[..i + 1][..i] == ops[..i];
        match ops[i] {
          case OpFeed(src) => var _ := Feed(src);
          case OpTake(n) => var _ := Take(n);
          case OpSkip(n) => var _ := Skip(n);
          case OpShed(n) => var _ := Shed(n);
          case OpShift => Shift();
          case OpReset => Reset();
          case OpSplice(off, cut, paste) => var _ := Splice(off, cut, paste);
          case OpGrow(n) => Grow(n);
        }
      }
      assert ops[..|ops|] == ops;
    }
  }
}
