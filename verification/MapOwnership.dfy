/** Memory mappings handed to a garbage-collected heap.

    A slotted mapping sits in a booked file slot; its wrapper's finalizer carries a word
    that packs the slot's generation above the slot number.  Slots and base addresses
    are reused freely; close and finalizers come in any order. */
module MapOwnership {
  const FILE_MAX_OPEN := 1024
  const WORD := 0x1_0000_0000_0000_0000
  const GEN_LIMIT := 0x40_0000_0000_0000    // 2^54: what fits above a slot number

  /** The finalizer's word: generation shifted left, slot number below, in 64 bits. */
  function Pack(gen: nat, fd: nat): nat
    requires fd < FILE_MAX_OPEN
  {
    gen * FILE_MAX_OPEN % WORD + fd
  }

  function TagSlot(tag: nat): nat { tag % FILE_MAX_OPEN }

  function TagGen(tag: nat): nat { tag / FILE_MAX_OPEN }

  /** The word names its slot always, and its generation exactly below the limit: an older
      tag never passes for the slot's current generation, and the current one is
      recognised if and only if it still fits above the slot bits. */
  lemma TagMatchesIff(gen: nat, current: nat, fd: nat)
    requires fd < FILE_MAX_OPEN && gen <= current < WORD
    ensures TagSlot(Pack(gen, fd)) == fd
    ensures TagGen(Pack(gen, fd)) == current <==> gen == current && gen < GEN_LIMIT
  {
    var high, low := gen / GEN_LIMIT, gen % GEN_LIMIT;
    assert gen * FILE_MAX_OPEN == high * WORD + low * FILE_MAX_OPEN;
    assert gen * FILE_MAX_OPEN % WORD == low * FILE_MAX_OPEN;
    assert TagGen(Pack(gen, fd)) == low;
  }

  datatype Kind =
    | Slotted(fd: nat, tag: nat)    // "rw" and "c": a booked fd, a tagged finalizer
    | Once                          // "r": no fd, no slot
    | Ram                           // anonymous

  datatype Wrapper = Wrapper(kind: Kind, base: nat, attached: bool, finalized: bool)

  /** The whole picture.  `gens` and `slots` are the process tables and `at` the kernel's:
      which wrapper's mapping sits at a base.  `genOf` is the generation a wrapper was
      tagged with, `newest` a slot's latest wrapper, `unmaps` how often the mapping of a
      wrapper was unmapped. */
  datatype Ledger = Ledger(
    gens: seq<nat>, slots: map<nat, nat>, wraps: seq<Wrapper>,
    genOf: seq<nat>, newest: map<nat, nat>, at: map<nat, nat>, unmaps: seq<nat>)
  {
    predicate Mapped(id: nat)
      requires id < |wraps|
    {
      wraps[id].base in at && at[wraps[id].base] == id
    }
  }

  ghost predicate Shape(l: Ledger) {
    && |l.gens| == FILE_MAX_OPEN
    && |l.genOf| == |l.wraps| == |l.unmaps|
    && (forall fd :: 0 <= fd < FILE_MAX_OPEN ==> l.gens[fd] < WORD)
    && (forall b :: b in l.at ==> l.at[b] < |l.wraps| && l.wraps[l.at[b]].base == b)
  }

  /** A slotted wrapper's tag; at the slot's current generation it is the newest there. */
  ghost predicate Tagged(l: Ledger, id: nat)
    requires Shape(l) && id < |l.wraps|
  {
    var k := l.wraps[id].kind;
    k.Slotted? ==>
      && k.fd < FILE_MAX_OPEN && k.tag == Pack(l.genOf[id], k.fd) && l.genOf[id] <= l.gens[k.fd]
      && (l.genOf[id] == l.gens[k.fd] ==> k.fd in l.newest && l.newest[k.fd] == id)
  }

  /** A booked slot holds the live mapping of its newest wrapper. */
  ghost predicate Holds(l: Ledger, fd: nat)
    requires Shape(l) && fd in l.slots
  {
    && fd < FILE_MAX_OPEN && fd in l.newest && l.newest[fd] < |l.wraps|
    && var id := l.newest[fd];
    && l.wraps[id].kind.Slotted? && l.wraps[id].kind.fd == fd
    && l.wraps[id].base == l.slots[fd] && l.genOf[id] == l.gens[fd] && l.Mapped(id)
  }

  /** The life of wrapper `id`: mapped until closed (slotted ones) or finalized, except that
      a finalizer whose generation outgrew the tag leaves an unclosed mapping in place;
      unmapped once at most; a live slotted mapping sits in its slot. */
  ghost predicate Lived(l: Ledger, id: nat)
    requires Shape(l) && id < |l.wraps|
  {
    var w := l.wraps[id];
    && l.unmaps[id] == (if l.Mapped(id) then 0 else 1)
    && (!w.finalized ==> (l.Mapped(id) <==> w.attached || !w.kind.Slotted?))
    && (w.finalized ==> (l.Mapped(id) <==> w.attached && w.kind.Slotted? && GEN_LIMIT <= l.genOf[id]))
    && (w.kind.Slotted? && l.Mapped(id) ==> w.kind.fd in l.slots && l.slots[w.kind.fd] == w.base)
  }

  ghost predicate Sound(l: Ledger) {
    && Shape(l)
    && (forall id :: 0 <= id < |l.wraps| ==> Tagged(l, id))
    && (forall id :: 0 <= id < |l.wraps| ==> Lived(l, id))
    && (forall fd :: fd in l.slots ==> Holds(l, fd))
  }

  /** No slot was ever mapped. */
  function FirstGens(slots: nat): (gens: seq<nat>)
    ensures |gens| == slots && forall fd :: 0 <= fd < slots ==> gens[fd] == 0
  {
    seq(slots, _ => 0)
  }

  function Empty(): Ledger { Ledger(FirstGens(FILE_MAX_OPEN), map[], [], [], map[], map[], []) }

  /** munmap what sits at wrapper `id`'s base, and free its slot if it has one. */
  function Dropped(l: Ledger, id: nat): Ledger
    requires id < |l.wraps| == |l.unmaps|
  {
    var w := l.wraps[id];
    l.(slots := if w.kind.Slotted? then l.slots - {w.kind.fd} else l.slots,
       at := l.at - {w.base}, unmaps := l.unmaps[id := 1])
  }

  /** A close releases its own slot, once. */
  function Closed(l: Ledger, id: nat): Ledger
    requires id < |l.wraps| == |l.unmaps|
  {
    var w := l.wraps[id];
    var l1 := l.(wraps := l.wraps[id := w.(attached := false)]);
    if w.attached && w.kind.Slotted? then Dropped(l1, id) else l1
  }

  /** A finalizer releases its own mapping, if it is still there and the tag can tell. */
  function Finalized(l: Ledger, id: nat): Ledger
    requires id < |l.wraps| == |l.unmaps| == |l.genOf|
  {
    var w := l.wraps[id];
    var l1 := l.(wraps := l.wraps[id := w.(finalized := true)]);
    if w.kind.Slotted? && (!w.attached || GEN_LIMIT <= l.genOf[id]) then l1 else Dropped(l1, id)
  }

  /** The slot's generation moves on by one. */
  function Bumped(l: Ledger, fd: nat): Ledger
    requires fd < |l.gens|
  {
    l.(gens := l.gens[fd := (l.gens[fd] + 1) % WORD])
  }

  /** A new slotted wrapper under the bumped generation. */
  function MappedSlot(l: Ledger, fd: nat, base: nat): Ledger
    requires fd < FILE_MAX_OPEN == |l.gens|
  {
    var l1 := Bumped(l, fd);
    var id := |l.wraps|;
    l1.(slots := l.slots[fd := base],
        wraps := l.wraps + [Wrapper(Slotted(fd, Pack(l1.gens[fd], fd)), base, true, false)],
        genOf := l.genOf + [l1.gens[fd]],
        newest := l.newest[fd := id],
        at := l.at[base := id],
        unmaps := l.unmaps + [0])
  }

  /** A new wrapper over a mapping that books nothing. */
  function MappedPlain(l: Ledger, kind: Kind, base: nat): Ledger {
    l.(wraps := l.wraps + [Wrapper(kind, base, true, false)],
       genOf := l.genOf + [0],
       at := l.at[base := |l.wraps|],
       unmaps := l.unmaps + [0])
  }

  /** Dropping a mapped wrapper leaves every other wrapper and slot as it was. */
  lemma DropKeeps(l: Ledger, id: nat, other: nat)
    requires Shape(l) && id < |l.wraps| && other < |l.wraps| && other != id && l.Mapped(id)
    requires Tagged(l, other) && Lived(l, other)
    requires l.wraps[id].kind.Slotted? ==> l.wraps[id].kind.fd in l.slots && Holds(l, l.wraps[id].kind.fd)
    requires l.wraps[id].kind.Slotted? ==> l.newest[l.wraps[id].kind.fd] == id
    ensures Shape(Dropped(l, id)) && Tagged(Dropped(l, id), other) && Lived(Dropped(l, id), other)
  {
    var l' := Dropped(l, id);
    assert l'.Mapped(other) <==> l.Mapped(other);
  }

  lemma HoldsElsewhere(l: Ledger, id: nat, fd: nat)
    requires Shape(l) && id < |l.wraps| && l.Mapped(id)
    requires fd in l.slots && Holds(l, fd) && l.newest[fd] != id
    requires l.wraps[id].kind.Slotted? ==> l.wraps[id].kind.fd != fd
    ensures Shape(Dropped(l, id)) && fd in Dropped(l, id).slots && Holds(Dropped(l, id), fd)
  {
  }

  /** A mapped slotted wrapper is the newest of the slot it sits in. */
  lemma MappedIsNewest(l: Ledger, id: nat)
    requires Sound(l) && id < |l.wraps| && l.Mapped(id) && l.wraps[id].kind.Slotted?
    ensures var fd := l.wraps[id].kind.fd;
      fd in l.slots && l.slots[fd] == l.wraps[id].base && Holds(l, fd) && l.newest[fd] == id
  {
    assert Lived(l, id);
    assert Holds(l, l.wraps[id].kind.fd);
  }

  /** Close unmaps the closer's mapping, and nobody else's. */
  lemma CloseSound(l: Ledger, id: nat)
    requires Sound(l) && id < |l.wraps| && !l.wraps[id].finalized
    ensures Sound(Closed(l, id))
    ensures Closed(l, id).at ==
      l.at - if l.wraps[id].kind.Slotted? && l.wraps[id].attached then {l.wraps[id].base} else {}
  {
    var w := l.wraps[id];
    var l1 := l.(wraps := l.wraps[id := w.(attached := false)]);
    assert Tagged(l, id) && Lived(l, id);
    WrapperFlagKeeps(l, id, w.(attached := false));
    if w.attached && w.kind.Slotted? {
      MappedIsNewest(l, id);
      DropSound(l1, id);
    }
  }

  /** Flags aside, nothing about the other wrappers and the slots changes. */
  lemma WrapperFlagKeeps(l: Ledger, id: nat, w: Wrapper)
    requires Sound(l) && id < |l.wraps| && w.kind == l.wraps[id].kind && w.base == l.wraps[id].base
    ensures var l1 := l.(wraps := l.wraps[id := w]);
      && Shape(l1) && (forall fd :: fd in l1.slots ==> Holds(l1, fd))
      && (forall j :: 0 <= j < |l1.wraps| ==> Tagged(l1, j))
      && (forall j :: 0 <= j < |l1.wraps| && j != id ==> Lived(l1, j))
      && (forall j :: 0 <= j < |l1.wraps| ==> l1.Mapped(j) == l.Mapped(j))
  {
    var l1 := l.(wraps := l.wraps[id := w]);
    forall j | 0 <= j < |l1.wraps| ensures Tagged(l1, j) && (j != id ==> Lived(l1, j)) {
      assert Tagged(l, j) && Lived(l, j);
    }
    forall fd | fd in l1.slots ensures Holds(l1, fd) {
      assert Holds(l, fd);
    }
  }

  /** Dropping the mapping of a closed or finalized wrapper restores soundness. */
  lemma DropSound(l: Ledger, id: nat)
    requires Shape(l) && id < |l.wraps| && l.Mapped(id)
    requires forall fd :: fd in l.slots ==> Holds(l, fd)
    requires forall j :: 0 <= j < |l.wraps| ==> Tagged(l, j)
    requires forall j :: 0 <= j < |l.wraps| && j != id ==> Lived(l, j)
    requires var w := l.wraps[id];
      if w.kind.Slotted? then
        && w.kind.fd in l.slots && w.kind.fd in l.newest && l.newest[w.kind.fd] == id
        && (!w.attached || l.genOf[id] < GEN_LIMIT)
      else w.finalized
    requires l.wraps[id].finalized || !l.wraps[id].attached
    ensures Sound(Dropped(l, id))
  {
    var l' := Dropped(l, id);
    forall j | 0 <= j < |l'.wraps| ensures Tagged(l', j) && Lived(l', j) {
      if j != id {
        DropKeeps(l, id, j);
      } else {
        assert Tagged(l, id);
      }
    }
    forall fd | fd in l'.slots ensures Holds(l', fd) {
      assert Holds(l, fd);
      HoldsElsewhere(l, id, fd);
    }
  }

  /** A finalizer unmaps its own mapping, and nobody else's; it fails to exactly when the
      wrapper was never closed and its generation outgrew the tag. */
  lemma FinalizeSound(l: Ledger, id: nat)
    requires Sound(l) && id < |l.wraps| && !l.wraps[id].finalized
    ensures Sound(Finalized(l, id))
    ensures var w := l.wraps[id];
      Finalized(l, id).at == l.at -
        if w.kind.Slotted? && (!w.attached || GEN_LIMIT <= l.genOf[id]) then {} else {w.base}
  {
    var w := l.wraps[id];
    var l1 := l.(wraps := l.wraps[id := w.(finalized := true)]);
    assert Tagged(l, id) && Lived(l, id);
    WrapperFlagKeeps(l, id, w.(finalized := true));
    if w.kind.Slotted? && (!w.attached || GEN_LIMIT <= l.genOf[id]) {
      assert Lived(l1, id);
    } else {
      if w.kind.Slotted? {
        MappedIsNewest(l, id);
      }
      DropSound(l1, id);
    }
  }

  /** Slot `fd` holds the mapping of wrapper `id`. */
  predicate Sits(l: Ledger, fd: nat, id: nat) {
    && id < |l.wraps| == |l.unmaps| && l.wraps[id].kind.Slotted? && l.wraps[id].kind.fd == fd
    && fd in l.slots && l.slots[fd] == l.wraps[id].base
  }

  /** The finalizer's test of slot, base and generation passes exactly when the wrapper's
      own mapping is in place and its generation fits the tag. */
  lemma FinalizerTest(l: Ledger, id: nat)
    requires Sound(l) && id < |l.wraps| && !l.wraps[id].finalized && l.wraps[id].kind.Slotted?
    ensures var w := l.wraps[id];
      var fd := TagSlot(w.kind.tag);
      && fd == w.kind.fd < FILE_MAX_OPEN
      && ((fd in l.slots && l.slots[fd] == w.base && TagGen(w.kind.tag) == l.gens[fd]) <==>
          (w.attached && l.genOf[id] < GEN_LIMIT))
      && (w.attached ==> Sits(l, fd, id))
  {
    var w := l.wraps[id];
    assert Tagged(l, id) && Lived(l, id);
    TagMatchesIff(l.genOf[id], l.gens[w.kind.fd], w.kind.fd);
    if w.attached {
      MappedIsNewest(l, id);
    } else if w.kind.fd in l.slots {
      assert Holds(l, w.kind.fd);
    }
  }

  /** The slot found at an attached view's base is the view's own. */
  lemma BaseTest(l: Ledger, id: nat, fd: nat)
    requires Sound(l) && id < |l.wraps| && !l.wraps[id].finalized && l.wraps[id].attached
    ensures (fd in l.slots && l.slots[fd] == l.wraps[id].base) <==>
      l.wraps[id].kind.Slotted? && l.wraps[id].kind.fd == fd
    ensures fd in l.slots && l.slots[fd] == l.wraps[id].base ==> Sits(l, fd, id)
  {
    assert Tagged(l, id) && Lived(l, id);
    if l.wraps[id].kind.Slotted? {
      MappedIsNewest(l, id);
    }
    if fd in l.slots {
      assert Holds(l, fd);
    }
  }

  lemma BumpSound(l: Ledger, fd: nat)
    requires Sound(l) && fd < FILE_MAX_OPEN && fd !in l.slots && l.gens[fd] + 1 < WORD
    ensures Sound(Bumped(l, fd))
  {
    var l' := Bumped(l, fd);
    forall j | 0 <= j < |l'.wraps| ensures Tagged(l', j) && Lived(l', j) {
      assert Tagged(l, j) && Lived(l, j);
    }
    forall f | f in l'.slots ensures Holds(l', f) {
      assert Holds(l, f);
    }
  }

  /** A slot and a base that nothing live uses may be handed out again. */
  lemma MapSlotSound(l: Ledger, fd: nat, base: nat)
    requires Sound(l) && fd < FILE_MAX_OPEN && fd !in l.slots && base !in l.at
    requires l.gens[fd] + 1 < WORD
    ensures Sound(MappedSlot(l, fd, base))
  {
    var l' := MappedSlot(l, fd, base);
    forall j | 0 <= j < |l'.wraps| ensures Tagged(l', j) && Lived(l', j) {
      if j < |l.wraps| {
        assert Tagged(l, j) && Lived(l, j);
        assert l'.Mapped(j) <==> l.Mapped(j);
      }
    }
    forall f | f in l'.slots ensures Holds(l', f) {
      if f != fd {
        assert Holds(l, f);
      }
    }
  }

  lemma MapPlainSound(l: Ledger, kind: Kind, base: nat)
    requires Sound(l) && !kind.Slotted? && base !in l.at
    ensures Sound(MappedPlain(l, kind, base))
  {
    var l' := MappedPlain(l, kind, base);
    forall j | 0 <= j < |l'.wraps| ensures Tagged(l', j) && Lived(l', j) {
      if j < |l.wraps| {
        assert Tagged(l, j) && Lived(l, j);
        assert l'.Mapped(j) <==> l.Mapped(j);
      }
    }
    forall f | f in l'.slots ensures Holds(l', f) {
      assert Holds(l, f);
    }
  }

  /** What happens to mappings, in any order.  A kernel never hands out a booked slot or a
      base in use, and a wrapper is finalized once: such events change nothing. */
  datatype Event =
    | MapSlot(fd: nat, base: nat)
    | MapAborted(fd: nat)           // tagged, but the wrapper could not be made
    | MapPlain(kind: Kind, base: nat)
    | Close(id: nat)
    | Finalize(id: nat)

  predicate CanMap(l: Ledger, fd: nat) {
    fd < FILE_MAX_OPEN == |l.gens| && fd !in l.slots && l.gens[fd] + 1 < WORD
  }

  predicate Alive(l: Ledger, id: nat) {
    id < |l.wraps| == |l.unmaps| == |l.genOf| && !l.wraps[id].finalized
  }

  function Step(l: Ledger, e: Event): Ledger {
    match e
    case MapSlot(fd, base) => if CanMap(l, fd) && base !in l.at then MappedSlot(l, fd, base) else l
    case MapAborted(fd) => if CanMap(l, fd) then Bumped(l, fd) else l
    case MapPlain(kind, base) => if !kind.Slotted? && base !in l.at then MappedPlain(l, kind, base) else l
    case Close(id) => if Alive(l, id) then Closed(l, id) else l
    case Finalize(id) => if Alive(l, id) then Finalized(l, id) else l
  }

  /** No step unmaps anyone's mapping but that of the wrapper being closed or finalized. */
  lemma StepTouchesOwnMapping(l: Ledger, e: Event)
    requires Sound(l)
    ensures Sound(Step(l, e))
    ensures forall b :: b in l.at ==>
      (b in Step(l, e).at && Step(l, e).at[b] == l.at[b]) || e == Close(l.at[b]) || e == Finalize(l.at[b])
  {
    match e
    case MapSlot(fd, base) => if CanMap(l, fd) && base !in l.at { MapSlotSound(l, fd, base); }
    case MapAborted(fd) => if CanMap(l, fd) { BumpSound(l, fd); }
    case MapPlain(kind, base) => if !kind.Slotted? && base !in l.at { MapPlainSound(l, kind, base); }
    case Close(id) =>
      if Alive(l, id) {
        assert Lived(l, id);
        CloseSound(l, id);
      }
    case Finalize(id) =>
      if Alive(l, id) {
        assert Lived(l, id);
        FinalizeSound(l, id);
      }
  }

  lemma EmptySound()
    ensures Sound(Empty())
  {
  }

  function Run(events: seq<Event>): Ledger {
    if events == [] then Empty() else Step(Run(events[..|events| - 1]), events[|events| - 1])
  }

  lemma {:induction false} RunSound(events: seq<Event>)
    ensures Sound(Run(events))
  {
    if events != [] {
      RunSound(events[..|events| - 1]);
      StepTouchesOwnMapping(Run(events[..|events| - 1]), events[|events| - 1]);
    }
  }

  /** After any run, a finalized wrapper's mapping has been unmapped exactly once, if and
      only if it booked no slot, or was closed early, or its generation fits the tag. */
  lemma FinalizedMeansUnmappedOnce(events: seq<Event>, id: nat)
    requires id < |Run(events).wraps| == |Run(events).unmaps| == |Run(events).genOf|
    requires Run(events).wraps[id].finalized
    ensures var l := Run(events);
      var w := l.wraps[id];
      && l.unmaps[id] <= 1
      && (l.unmaps[id] == 1 <==> !w.kind.Slotted? || !w.attached || l.genOf[id] < GEN_LIMIT)
  {
    RunSound(events);
    assert Lived(Run(events), id);
  }

  // ----- What became of each wrapper -----

  /** `w` is wrapper `id`, and all the others are as they were. */
  ghost predicate OnlyWrapper(l: Ledger, r: Ledger, id: nat, w: Wrapper) {
    && id < |l.wraps| == |r.wraps| && r.wraps[id] == w
    && forall j :: 0 <= j < |l.wraps| && j != id ==> r.wraps[j] == l.wraps[j]
  }

  /** Of any kind of mapping: a close detaches its view, whether or not there is a slot to free. */
  lemma CloseDetaches(l: Ledger, id: nat)
    requires id < |l.wraps| == |l.unmaps|
    ensures OnlyWrapper(l, Closed(l, id), id, l.wraps[id].(attached := false))
  {
  }

  /** A finalizer marks its own wrapper, and leaves its view as it was. */
  lemma FinalizeMarks(l: Ledger, id: nat)
    requires id < |l.wraps| == |l.unmaps| == |l.genOf|
    ensures OnlyWrapper(l, Finalized(l, id), id, l.wraps[id].(finalized := true))
  {
  }

  /** A mapping hands out one wrapper more: attached, and the one mapped at its base. */
  ghost predicate HandedOut(l: Ledger, r: Ledger, base: nat) {
    && |r.wraps| == |l.wraps| + 1 && r.wraps[..|l.wraps|] == l.wraps
    && var w := r.wraps[|l.wraps|];
      w.base == base && w.attached && !w.finalized && r.Mapped(|l.wraps|)
  }

  /** Whether this event maps something, and where. */
  predicate Maps(l: Ledger, e: Event, base: nat) {
    || (e.MapSlot? && e.base == base && CanMap(l, e.fd) && base !in l.at)
    || (e.MapPlain? && e.base == base && !e.kind.Slotted? && base !in l.at)
  }

  lemma MapsHandOut(l: Ledger, e: Event, base: nat)
    requires Maps(l, e, base)
    ensures HandedOut(l, Step(l, e), base)
    ensures var w := Step(l, e).wraps[|l.wraps|];
      if e.MapSlot? then w.kind.Slotted? && w.kind.fd == e.fd && e.fd in Step(l, e).slots else w.kind == e.kind
  {
  }

  /** The wrapper was closed, or finalized, at some event, while it was not finalized yet. */
  ghost predicate WasClosed(events: seq<Event>, id: nat) {
    exists i :: 0 <= i < |events| && events[i] == Close(id) && Alive(Run(events[..i]), id)
  }

  ghost predicate WasFinalized(events: seq<Event>, id: nat) {
    exists i :: 0 <= i < |events| && events[i] == Finalize(id) && Alive(Run(events[..i]), id)
  }

  lemma WasMore(events: seq<Event>, e: Event, id: nat)
    ensures WasClosed(events + [e], id) <==> WasClosed(events, id) || (e == Close(id) && Alive(Run(events), id))
    ensures WasFinalized(events + [e], id) <==>
      WasFinalized(events, id) || (e == Finalize(id) && Alive(Run(events), id))
  {
    var more := events + [e];
    assert more[..|events|] == events && more[|events|] == e;
    forall i | 0 <= i < |events| ensures more[..i] == events[..i] && more[i] == events[i] {
    }
    if WasClosed(events, id) {
      var i :| 0 <= i < |events| && events[i] == Close(id) && Alive(Run(events[..i]), id);
      assert more[i] == Close(id) && Alive(Run(more[..i]), id);
    }
    if WasFinalized(events, id) {
      var i :| 0 <= i < |events| && events[i] == Finalize(id) && Alive(Run(events[..i]), id);
      assert more[i] == Finalize(id) && Alive(Run(more[..i]), id);
    }
  }

  /** One event, and the flags of a wrapper. */
  lemma StepFlags(l: Ledger, e: Event, id: nat)
    requires Sound(l) && id < |Step(l, e).wraps|
    ensures var w := Step(l, e).wraps[id];
      && (id < |l.wraps| ==>
          && (w.attached <==> l.wraps[id].attached && !(e == Close(id) && Alive(l, id)))
          && (w.finalized <==> l.wraps[id].finalized || (e == Finalize(id) && Alive(l, id))))
      && (|l.wraps| <= id ==> w.attached && !w.finalized && !Alive(l, id))
  {
  }

  lemma {:induction false} NotYet(events: seq<Event>, id: nat)
    requires |Run(events).wraps| <= id
    ensures !WasClosed(events, id) && !WasFinalized(events, id)
  {
    if events != [] {
      var prior, e := events[..|events| - 1], events[|events| - 1];
      assert events == prior + [e];
      RunSound(prior);
      WrapsGrow(Run(prior), e);
      NotYet(prior, id);
      WasMore(prior, e, id);
    }
  }

  lemma WrapsGrow(l: Ledger, e: Event)
    requires Sound(l)
    ensures |l.wraps| <= |Step(l, e).wraps| <= |l.wraps| + 1
  {
  }

  /** In every run, of every kind of mapping: the view is attached if and only if nobody closed it
      in its life, and the wrapper is finalized if and only if its finalizer ran. */
  lemma {:induction false} RunFlags(events: seq<Event>, id: nat)
    requires id < |Run(events).wraps|
    ensures var w := Run(events).wraps[id];
      (w.attached <==> !WasClosed(events, id)) && (w.finalized <==> WasFinalized(events, id))
  {
    var prior, e := events[..|events| - 1], events[|events| - 1];
    var l := Run(prior);
    assert events == prior + [e];
    RunSound(prior);
    StepFlags(l, e, id);
    WasMore(prior, e, id);
    if id < |l.wraps| {
      RunFlags(prior, id);
    } else {
      NotYet(prior, id);
    }
  }
}
