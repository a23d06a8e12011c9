/** io.cpp's mapping leaves over the ledger of MapOwnership: map, close, finalize, and the
    pin counts that decide when to force a collection. */
module MapHeap {
  import opened MapOwnership

  const PIN_MAPS := 4096
  const PIN_FDS := 256
  const MAP_MAX := 0x7FFF_FFFF     // the largest file mapping handed out

  /** What a mapping call gives: a view, the empty array of an empty file, or an exception. */
  datatype Handed = View(id: nat) | NoBytes | Failed

  /** Unfinalized wrappers, all of them or only those that book an fd. */
  function Count(ws: seq<Wrapper>, fdOnly: bool): nat {
    if ws == [] then 0
    else
      var w := ws[|ws| - 1];
      Count(ws[..|ws| - 1], fdOnly) + if !w.finalized && (fdOnly ==> w.kind.Slotted?) then 1 else 0
  }

  lemma {:induction false} CountChange(ws: seq<Wrapper>, i: nat, w: Wrapper, fdOnly: bool)
    requires i < |ws| && w.kind == ws[i].kind
    ensures Count(ws[i := w], fdOnly) == Count(ws, fdOnly) +
      (if !w.finalized && (fdOnly ==> w.kind.Slotted?) then 1 else 0) -
      (if !ws[i].finalized && (fdOnly ==> w.kind.Slotted?) then 1 else 0)
  {
    var last := |ws| - 1;
    if i == last {
      assert ws[i := w][..last] == ws[..last];
    } else {
      assert ws[i := w][..last] == ws[..last][i := w];
      CountChange(ws[..last], i, w, fdOnly);
    }
  }

  /** The unfinalized fd-booking wrappers the program can still reach. */
  function CountReachable(ws: seq<Wrapper>, reachable: set<nat>): nat {
    if ws == [] then 0
    else
      var last := |ws| - 1;
      CountReachable(ws[..last], reachable) +
      if !ws[last].finalized && ws[last].kind.Slotted? && last in reachable then 1 else 0
  }

  /** Once the unreachable are finalized, only the reachable are booked. */
  lemma {:induction false} ReapedCount(before: seq<Wrapper>, after: seq<Wrapper>, reachable: set<nat>)
    requires |after| == |before|
    requires forall i :: 0 <= i < |before| ==> after[i].kind == before[i].kind
    requires forall i :: 0 <= i < |before| ==>
      (after[i].finalized <==> before[i].finalized || i !in reachable)
    ensures Count(after, true) == CountReachable(before, reachable)
  {
    if before != [] {
      ReapedCount(before[..|before| - 1], after[..|after| - 1], reachable);
    }
  }

  /** `after` is `before` with the wrappers of `doomed` finalized. */
  ghost predicate Reaped(before: seq<Wrapper>, after: seq<Wrapper>, doomed: set<nat>) {
    && |after| == |before|
    && forall i :: 0 <= i < |before| ==>
      after[i] == if i in doomed then before[i].(finalized := true) else before[i]
  }

  /** A collection finalizes only what the program cannot reach. */
  ghost predicate Spared(before: seq<Wrapper>, after: seq<Wrapper>, reachable: set<nat>) {
    && |after| == |before|
    && forall i :: 0 <= i < |before| ==>
      after[i] == before[i] || (i !in reachable && after[i] == before[i].(finalized := true))
  }

  /** What the program can reach survives a collection. */
  lemma {:induction false} FeltIsUnreachable(
      before: seq<Wrapper>, after: seq<Wrapper>, reachable: set<nat>, felt: set<nat>)
    requires Reaped(before, after, felt) && felt !! reachable
    ensures CountReachable(after, reachable) == CountReachable(before, reachable)
  {
    if before != [] {
      FeltIsUnreachable(before[..|before| - 1], after[..|after| - 1], reachable, felt);
    }
  }

  /** The fds that unfinalized wrappers book. */
  ghost function FdsOf(ws: seq<Wrapper>): set<nat> {
    set i | 0 <= i < |ws| && !ws[i].finalized && ws[i].kind.Slotted? :: ws[i].kind.fd
  }

  lemma {:induction false} FdsAreCounted(ws: seq<Wrapper>)
    ensures |FdsOf(ws)| <= Count(ws, true)
  {
    if ws != [] {
      var last := |ws| - 1;
      var w := ws[last];
      FdsAreCounted(ws[..last]);
      var one := if !w.finalized && w.kind.Slotted? then {w.kind.fd} else {};
      forall fd ensures fd in FdsOf(ws) <==> fd in FdsOf(ws[..last]) + one {
        if fd in FdsOf(ws[..last]) {
          var i :| 0 <= i < last && !ws[i].finalized && ws[i].kind.Slotted? && ws[i].kind.fd == fd;
        }
      }
      assert FdsOf(ws) == FdsOf(ws[..last]) + one;
    }
  }

  lemma {:induction false} FewerKeys(a: set<nat>, b: set<nat>)
    requires a <= b
    ensures |a| <= |b|
  {
    if a != {} {
      var x :| x in a;
      FewerKeys(a - {x}, b - {x});
    }
  }

  /** As long as no slot's generation has outgrown the tag, every booked fd is held by an
      unfinalized wrapper of its own. */
  lemma BookedArePinned(l: Ledger)
    requires Sound(l) && forall fd :: 0 <= fd < FILE_MAX_OPEN ==> l.gens[fd] < GEN_LIMIT
    ensures |l.slots.Keys| <= Count(l.wraps, true)
  {
    forall fd | fd in l.slots.Keys ensures fd in FdsOf(l.wraps) {
      assert Holds(l, fd) && Lived(l, l.newest[fd]);
    }
    FewerKeys(l.slots.Keys, FdsOf(l.wraps));
    FdsAreCounted(l.wraps);
  }

  function Max(a: nat, b: nat): nat { if a < b then b else a }

  lemma ClosedTwice(l: Ledger, id: nat)
    requires id < |l.wraps| == |l.unmaps| && !l.wraps[id].attached
    ensures Closed(l, id) == l
  {
    assert l.wraps[id := l.wraps[id].(attached := false)] == l.wraps;
  }

  class Mappings {
    const gen: array<nat>            // JABC_MAP_GEN: 64-bit counters, one per slot
    var slots: map<nat, nat>         // booked fd -> base of the mapping it holds
    var wraps: seq<Wrapper>          // every wrapper ever handed out, by id
    var at: map<nat, nat>            // the kernel's side: base -> wrapper mapped there
    var pinMap: nat
    var pinFd: nat
    var mapMark: nat
    var fdMark: nat

    ghost var book: Ledger           // the ledger these tables belong to
    ghost var sweeps: nat            // sweeps that went past the marks
    ghost var since: nat             // wrappers handed out since the last of them
    ghost var reached: nat           // booked wrappers reachable at the last of them
    ghost var left: nat              // wrappers unfinalized right after the last of them

    ghost predicate Tables()
      reads `slots, `wraps, `at, `book, gen
    {
      gen[..] == book.gens && slots == book.slots && wraps == book.wraps && at == book.at
    }

    /** Pins are the unfinalized wrappers; marks keep sweeps rare and booked fds few. */
    ghost predicate Pinned()
      reads `wraps, `pinMap, `pinFd, `mapMark, `fdMark, `sweeps, `since, `reached, `left
    {
      && pinMap == Count(wraps, false) && pinFd == Count(wraps, true)
      && pinMap <= mapMark == left + PIN_MAPS && pinFd <= fdMark
      && fdMark <= Max(PIN_FDS - 1, reached) + PIN_FDS
      && PIN_FDS * sweeps + since <= |wraps|
      && pinMap + PIN_MAPS <= mapMark + since && pinFd + PIN_FDS <= fdMark + since
    }

    ghost predicate Valid()
      reads this, gen
    {
      Sound(book) && Tables() && Pinned()
    }

    constructor ()
      ensures Valid() && fresh(gen) && book == Empty() && sweeps == 0
    {
      gen := new nat[FILE_MAX_OPEN](_ => 0);
      slots, wraps, at, book := map[], [], map[], Empty();
      pinMap, pinFd, mapMark, fdMark := 0, 0, PIN_MAPS, PIN_FDS;
      sweeps, since, reached, left := 0, 0, 0, 0;
      new;
      EmptySound();
    }

    /** What the pins are for: few booked fds (while the generations fit their tags), few more
        mappings than the last collection left, and a bounded number of collections. */
    lemma PinBounds()
      requires Valid()
      ensures (forall fd :: 0 <= fd < FILE_MAX_OPEN ==> gen[fd] < GEN_LIMIT) ==> |slots.Keys| <= pinFd
      ensures pinMap == Count(wraps, false) && pinFd == Count(wraps, true)
      ensures pinFd <= Max(PIN_FDS - 1, reached) + PIN_FDS && pinMap <= left + PIN_MAPS
      ensures PIN_FDS * sweeps <= |wraps|
    {
      assert forall fd :: 0 <= fd < FILE_MAX_OPEN ==> gen[fd] == book.gens[fd];
      if forall fd :: 0 <= fd < FILE_MAX_OPEN ==> gen[fd] < GEN_LIMIT {
        BookedArePinned(book);
      }
    }

    method PinTake(fd: bool)
      modifies this`pinMap, this`pinFd
      ensures pinMap == old(pinMap) + 1 && pinFd == old(pinFd) + if fd then 1 else 0
    {
      pinMap := pinMap + 1;
      if fd {
        pinFd := pinFd + 1;
      }
    }

    method PinDrop(fd: bool)
      modifies this`pinMap, this`pinFd
      ensures pinMap == if old(pinMap) == 0 then 0 else old(pinMap) - 1
      ensures pinFd == if fd && old(pinFd) != 0 then old(pinFd) - 1 else old(pinFd)
    {
      if pinMap != 0 {
        pinMap := pinMap - 1;
      }
      if fd && pinFd != 0 {
        pinFd := pinFd - 1;
      }
    }

    /** A new wrapper goes out: one more pin. */
    method HandOut(w: Wrapper)
      requires Pinned() && pinMap < mapMark && pinFd < fdMark && !w.finalized
      modifies this`wraps, this`pinMap, this`pinFd, this`since
      ensures Pinned() && wraps == old(wraps) + [w]
    {
      ghost var was := wraps;
      wraps := wraps + [w];
      assert wraps[..|wraps| - 1] == was;
      since := since + 1;
      PinTake(w.kind.Slotted?);
    }

    /** Set the flags of one wrapper; the pins of a finalized one are dropped. */
    method SetFlags(id: nat, w: Wrapper)
      requires Pinned() && id < |wraps| && !wraps[id].finalized && w.kind == wraps[id].kind
      modifies this`wraps, this`pinMap, this`pinFd
      ensures Pinned() && pinFd <= old(pinFd) && wraps == old(wraps)[id := w]
    {
      CountChange(wraps, id, w, false);
      CountChange(wraps, id, w, true);
      if w.finalized {
        PinDrop(w.kind.Slotted?);
      }
      wraps := wraps[id := w];
    }

    /** FILEUnMap: munmap, close the fd, free the slot. */
    method UnmapSlot(fd: nat)
      requires fd in slots
      modifies this`slots, this`at
      ensures slots == old(slots) - {fd} && at == old(at) - {old(slots[fd])}
    {
      at := at - {slots[fd]};
      slots := slots - {fd};
    }

    /** FILEUnMapBase's search: the booked slot that holds this base. */
    method FindBase(id: nat) returns (fd: nat)
      requires Valid() && Alive(book, id) && wraps[id].attached
      ensures fd < FILE_MAX_OPEN <==> wraps[id].kind.Slotted?
      ensures fd < FILE_MAX_OPEN ==> Sits(book, fd, id)
    {
      forall f: nat {
        BaseTest(book, id, f);
      }
      assert Tagged(book, id);
      fd := 0;
      while fd < FILE_MAX_OPEN && !(fd in slots && slots[fd] == wraps[id].base)
        invariant fd <= FILE_MAX_OPEN
        invariant forall f :: 0 <= f < fd && f in slots ==> slots[f] != wraps[id].base
      {
        fd := fd + 1;
      }
    }

    /** Detach the view, then release the mapping found at its base. */
    method Detach(id: nat)
      requires Valid() && Alive(book, id) && wraps[id].attached
      modifies this`slots, this`wraps, this`at, this`book, this`pinMap, this`pinFd
      ensures Tables() && Pinned() && book == Closed(old(book), id)
    {
      ghost var after := Closed(book, id);
      var fd := FindBase(id);
      SetFlags(id, wraps[id].(attached := false));
      if fd < FILE_MAX_OPEN {
        UnmapSlot(fd);
      }
      book := after;
    }

    /** `abc.close`: a second close finds the view detached and does nothing. */
    method CloseView(id: nat)
      requires Valid() && Alive(book, id)
      modifies this`slots, this`wraps, this`at, this`book, this`pinMap, this`pinFd
      ensures Valid() && book == Closed(old(book), id)
      ensures OnlyWrapper(old(book), book, id, old(wraps[id]).(attached := false))
    {
      CloseDetaches(book, id);
      if !wraps[id].attached {
        ClosedTwice(book, id);
        return;
      }
      CloseSound(book, id);
      Detach(id);
    }

    /** The wrapper's finalizer: drop the pin, and unmap if the slot still holds this base
        under this generation; an unslotted mapping is unmapped outright. */
    method FinalizeView(id: nat)
      requires Valid() && Alive(book, id)
      modifies this`slots, this`wraps, this`at, this`book, this`pinMap, this`pinFd
      ensures Valid() && book == Finalized(old(book), id) && pinFd <= old(pinFd)
    {
      var w := wraps[id];
      FinalizeSound(book, id);
      SetFlags(id, w.(finalized := true));
      if w.kind.Slotted? {
        var fd := TagSlot(w.kind.tag);
        FinalizerTest(book, id);
        if fd in slots && slots[fd] == w.base && TagGen(w.kind.tag) == gen[fd] {
          UnmapSlot(fd);
        }
      } else {
        at := at - {w.base};
      }
      book := Finalized(book, id);
    }

    /** The collector finalizes every unfinalized wrapper of `doomed`. */
    method Reap(doomed: set<nat>)
      requires Valid()
      modifies this`slots, this`wraps, this`at, this`book, this`pinMap, this`pinFd
      ensures Valid() && pinFd <= old(pinFd) && book.gens == old(book.gens)
      ensures Reaped(old(wraps), wraps, doomed)
    {
      ghost var was := wraps;
      var id := 0;
      while id < |wraps|
        invariant Valid() && id <= |wraps| == |was|
        invariant pinFd <= old(pinFd) && book.gens == old(book.gens)
        invariant forall j :: 0 <= j < |was| ==>
          wraps[j] == if j < id && j in doomed then was[j].(finalized := true) else was[j]
      {
        if id in doomed && !wraps[id].finalized {
          FinalizeView(id);
        }
        id := id + 1;
      }
    }

    /** A collection finalizes some unreachable wrappers (`felt`); with the fd mark's worth
        of booked fds it is forced, and finalizes them all. */
    method Collect(reachable: set<nat>, felt: set<nat>)
      requires Valid() && felt !! reachable
      modifies this`slots, this`wraps, this`at, this`book, this`pinMap, this`pinFd
      ensures Valid() && book.gens == old(book.gens) && Spared(old(wraps), wraps, reachable)
      ensures pinFd < PIN_FDS || pinFd == CountReachable(old(wraps), reachable)
    {
      ghost var was := wraps;
      Reap(felt);
      ghost var eased := wraps;
      FeltIsUnreachable(was, eased, reachable, felt);
      if PIN_FDS <= pinFd {
        var unreachable := set id | 0 <= id < |wraps| && id !in reachable;
        Reap(unreachable);
        ReapedCount(eased, wraps, reachable);
      }
    }

    /** The next marks stand one floor above what is left. */
    method SetMarks(ghost count: nat)
      requires Pinned() && PIN_FDS <= since
      requires pinFd < PIN_FDS || pinFd == count
      modifies this`mapMark, this`fdMark, this`sweeps, this`since, this`reached, this`left
      ensures Pinned() && pinMap < mapMark && pinFd < fdMark
      ensures sweeps == old(sweeps) + 1 && since == 0 && reached == count && left == pinMap
    {
      reached, left := count, pinMap;
      mapMark := pinMap + PIN_MAPS;
      fdMark := pinFd + PIN_FDS;
      sweeps, since := sweeps + 1, 0;
    }

    /** Before a mapping: past a mark, price the pins to the collector and, with too many fds
        booked, force it. */
    method Sweep(reachable: set<nat>, felt: set<nat>)
      requires Valid() && felt !! reachable
      modifies this`slots, this`wraps, this`at, this`book, this`pinMap, this`pinFd,
               this`mapMark, this`fdMark, this`sweeps, this`since, this`reached, this`left
      ensures Valid() && book.gens == old(book.gens) && pinMap < mapMark && pinFd < fdMark
      ensures Spared(old(wraps), wraps, reachable)
      ensures if old(pinMap < mapMark && pinFd < fdMark)
        then book == old(book) && sweeps == old(sweeps)
        else
          && sweeps == old(sweeps) + 1 && since == 0
          && reached == CountReachable(old(wraps), reachable) && left == Count(wraps, false)
    {
      if pinMap < mapMark && pinFd < fdMark {
        return;
      }
      ghost var count := CountReachable(wraps, reachable);
      Collect(reachable, felt);
      SetMarks(count);
    }

    /** JABCMapCtx: bump the slot's generation and pack the finalizer's word. */
    method MapCtx(fd: nat) returns (tag: nat)
      requires fd < gen.Length == FILE_MAX_OPEN
      modifies gen
      ensures gen[..] == old(gen[..])[fd := (old(gen[fd]) + 1) % WORD]
      ensures tag == Pack(gen[fd], fd)
    {
      gen[fd] := (gen[fd] + 1) % WORD;
      tag := Pack(gen[fd], fd);
    }

    /** A tagged mapping in slot `fd`: book it and hand its wrapper out. */
    method Enroll(fd: nat, base: nat) returns (id: nat)
      requires Tables() && Pinned() && CanMap(book, fd) && pinMap < mapMark && pinFd < fdMark
      modifies this`slots, this`at, this`wraps, this`book, this`pinMap, this`pinFd, this`since, gen
      ensures Tables() && Pinned() && id == |old(wraps)|
      ensures book == MappedSlot(old(book), fd, base)
    {
      id := |wraps|;
      var tag := MapCtx(fd);
      slots, at := slots[fd := base], at[base := id];
      book := MappedSlot(book, fd, base);
      HandOut(Wrapper(Slotted(fd, tag), base, true, false));
    }

    /** The wrapper could not be made: the mapping is undone, the generation stays bumped. */
    method Abort(fd: nat)
      requires Valid() && CanMap(book, fd)
      modifies this`book, gen
      ensures Valid() && book == Bumped(old(book), fd)
    {
      BumpSound(book, fd);
      var _ := MapCtx(fd);
      book := Bumped(book, fd);
    }

    /** A mapping that books nothing: hand its wrapper out. */
    method EnrollPlain(kind: Kind, base: nat) returns (id: nat)
      requires Tables() && Pinned() && pinMap < mapMark && pinFd < fdMark
      modifies this`at, this`wraps, this`book, this`pinMap, this`pinFd, this`since
      ensures Tables() && Pinned() && id == |old(wraps)|
      ensures book == MappedPlain(old(book), kind, base)
    {
      id := |wraps|;
      at := at[base := id];
      book := MappedPlain(book, kind, base);
      HandOut(Wrapper(kind, base, true, false));
    }

    /** io._mmap for "rw" and "c": sweep, then map `len` bytes into slot `fd` at `base`, tag and
        hand the wrapper out.  The file layer fails when the slot is booked or the base in use; a
        file too large is unmapped again before it is tagged; `aborted` is a wrapper the engine
        would not make, which leaves the generation bumped and the slot free. */
    method MmapSlotted(fd: nat, base: nat, len: nat, aborted: bool, reachable: set<nat>, felt: set<nat>)
        returns (r: Handed, ghost swept: Ledger)
      requires Valid() && felt !! reachable
      requires fd < FILE_MAX_OPEN ==> gen[fd] + 1 < WORD
      modifies this, gen
      ensures Valid() && Spared(old(wraps), swept.wraps, reachable)
      ensures var mapped := CanMap(swept, fd) && base !in swept.at && len <= MAP_MAX;
        && r == (if mapped && !aborted then View(|old(wraps)|) else Failed)
        && book == if !mapped then swept else if aborted then Bumped(swept, fd) else MappedSlot(swept, fd, base)
    {
      Sweep(reachable, felt);
      swept := book;
      if FILE_MAX_OPEN <= fd || fd in slots || base in at || MAP_MAX < len {
        return Failed, swept;
      }
      if aborted {
        Abort(fd);
        return Failed, swept;
      }
      MapSlotSound(book, fd, base);
      var id := Enroll(fd, base);
      r := View(id);
    }

    /** io._mmap for "r" and io._ram: sweep, map, hand out; nothing is booked.  An empty file gives
        the empty array, one too large an exception; so does anonymous memory of no bytes, before
        the sweep. */
    method MmapPlain(kind: Kind, base: nat, len: nat, aborted: bool, reachable: set<nat>, felt: set<nat>)
        returns (r: Handed, ghost swept: Ledger)
      requires Valid() && felt !! reachable && !kind.Slotted?
      modifies this
      ensures Valid() && Spared(old(wraps), swept.wraps, reachable)
      ensures book == if r.View? then MappedPlain(swept, kind, base) else swept
      ensures r == if len == 0 then (if kind.Once? then NoBytes else Failed)
        else if base in swept.at || aborted || (kind.Once? && MAP_MAX < len) then Failed
        else View(|old(wraps)|)
      ensures kind.Ram? && len == 0 ==> swept == old(book)
    {
      if kind.Ram? && len == 0 {
        return Failed, book;
      }
      Sweep(reachable, felt);
      swept := book;
      if len == 0 {
        return NoBytes, swept;
      }
      if base in at || aborted || (kind.Once? && MAP_MAX < len) {
        return Failed, swept;
      }
      MapPlainSound(book, kind, base);
      var id := EnrollPlain(kind, base);
      r := View(id);
    }
  }
}
