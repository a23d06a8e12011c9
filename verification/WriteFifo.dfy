/** The socket's write FIFO: a Buf that shifts, then grows geometrically, to make room. */
module WriteFifo {
  import opened ByteBuf
  import opened Bytes

  const FIRST := 65536           // the first capacity

  /** The buffer, and a tally of its growth: how often, bytes copied doing so, and the
      longest queue there ever was. */
  datatype Fifo = Fifo(wb: Model, grows: nat, copied: nat, peak: nat)

  function Max(a: nat, b: nat): nat { if a < b then b else a }

  function Pow2(k: nat): nat { if k == 0 then 1 else 2 * Pow2(k - 1) }

  const EMPTY := Fifo(Model([], [], FIRST), 0, 0, 0)

  /** Room for n more: by shifting, else by growing to at least twice the capacity. */
  function Roomy(f: Fifo, n: nat): Fifo {
    if n <= f.wb.Room() then f
    else
      var m := Apply(f.wb, OpShift);
      if n <= m.Room() then f.(wb := m)
      else
        var cap := Max(2 * m.cap, |m.queue| + n);
        f.(wb := Apply(m, OpGrow(cap)), grows := f.grows + 1, copied := f.copied + |m.past| + |m.queue|)
  }

  function Push(f: Fifo, bytes: seq<byte>): Fifo {
    var g := Roomy(f, |bytes|);
    var m := Apply(g.wb, OpFeed(bytes));
    g.(wb := m, peak := Max(g.peak, |m.queue|))
  }

  function Drop(f: Fifo, n: nat): Fifo { f.(wb := Apply(f.wb, OpSkip(n))) }

  function Clear(f: Fifo): Fifo { f.(wb := Apply(f.wb, OpReset)) }

  /** The k-th growth leaves at least FIRST * 2^k; the capacity never exceeds twice the
      longest backlog (or the first capacity); all growth together has copied less than
      the capacity it led to. */
  ghost predicate Sized(f: Fifo) {
    && 0 <= f.wb.Room() && |f.wb.queue| <= f.peak
    && FIRST * Pow2(f.grows) <= f.wb.cap <= Max(FIRST, 2 * f.peak)
    && f.copied + FIRST <= f.wb.cap
  }

  lemma EmptySized()
    ensures Sized(EMPTY)
  {
  }

  /** Whatever the backlog, the feed after making room is never refused. */
  lemma RoomyFits(f: Fifo, n: nat)
    requires Sized(f)
    ensures var g := Roomy(f, n);
      && n <= g.wb.Room() && g.wb.queue == f.wb.queue && g.peak == f.peak
      && FIRST * Pow2(g.grows) <= g.wb.cap <= Max(FIRST, 2 * Max(f.peak, |f.wb.queue| + n))
      && g.copied + FIRST <= g.wb.cap
  {
    var m := f.wb.(past := []);
    assert Apply(f.wb, OpShift) == m;
    if f.wb.Room() < n && m.Room() < n {
      var cap := Max(2 * m.cap, |m.queue| + n);
      assert Apply(m, OpGrow(cap)) == m.(cap := cap);
      assert Pow2(f.grows + 1) == 2 * Pow2(f.grows);
    }
  }

  /** A push appends exactly the bytes and keeps the sizes. */
  lemma PushKeeps(f: Fifo, bytes: seq<byte>)
    requires Sized(f)
    ensures Sized(Push(f, bytes)) && Push(f, bytes).wb.queue == f.wb.queue + bytes
  {
    RoomyFits(f, |bytes|);
    var g := Roomy(f, |bytes|);
    assert Refusal(g.wb, OpFeed(bytes)).None?;
    assert Apply(g.wb, OpFeed(bytes)) == g.wb.(queue := g.wb.queue + bytes);
  }

  lemma DropKeeps(f: Fifo, n: nat)
    requires Sized(f) && n <= |f.wb.queue|
    ensures Sized(Drop(f, n)) && Drop(f, n).wb.queue == f.wb.queue[n..]
  {
  }

  lemma ClearKeeps(f: Fifo)
    requires Sized(f)
    ensures Sized(Clear(f)) && Clear(f).wb == Model([], [], f.wb.cap)
  {
  }

  /** A FIFO within its bounds; the socket's never leaves them. */
  type SizedFifo = f: Fifo | Sized(f) witness EMPTY

  function Pushed(f: SizedFifo, bytes: seq<byte>): (g: SizedFifo)
    ensures g.wb.queue == f.wb.queue + bytes
  {
    PushKeeps(f, bytes);
    Push(f, bytes)
  }

  function Dropped(f: SizedFifo, n: nat): (g: SizedFifo)
    requires n <= |f.wb.queue|
    ensures g.wb.queue == f.wb.queue[n..]
  {
    DropKeeps(f, n);
    Drop(f, n)
  }

  function Cleared(f: SizedFifo): (g: SizedFifo)
    ensures g.wb == Model([], [], f.wb.cap)
  {
    ClearKeeps(f);
    Clear(f)
  }

  // ----- Any run of the FIFO -----

  datatype Use = UsePush(bytes: seq<byte>) | UseDrop(n: nat) | UseClear

  function Used(uses: seq<Use>): Fifo {
    if uses == [] then EMPTY
    else
      var f := Used(uses[..|uses| - 1]);
      match uses[|uses| - 1]
      case UsePush(bytes) => Push(f, bytes)
      case UseDrop(n) => if n <= |f.wb.queue| then Drop(f, n) else f
      case UseClear => Clear(f)
  }

  lemma {:induction false} AnyUseSized(uses: seq<Use>)
    ensures Sized(Used(uses))
  {
    if uses == [] {
      EmptySized();
    } else {
      var f := Used(uses[..|uses| - 1]);
      AnyUseSized(uses[..|uses| - 1]);
      match uses[|uses| - 1]
      case UsePush(bytes) => PushKeeps(f, bytes);
      case UseDrop(n) => if n <= |f.wb.queue| { DropKeeps(f, n); }
      case UseClear => ClearKeeps(f);
    }
  }
}
