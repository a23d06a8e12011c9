/** The generation that outgrows its tag: how a mapping comes to be never unmapped. */
module MapOutgrown {
  import opened MapOwnership

  /** So many mappings of slot 0 that come to nothing. */
  function Aborts(n: nat): (events: seq<Event>)
    ensures |events| == n && forall i :: 0 <= i < n ==> events[i] == MapAborted(0)
  {
    seq(n, _ => MapAborted(0))
  }

  /** The slot's generation grows by one with each of them all the same. */
  lemma {:induction false} AbortedMaps(n: nat)
    requires n < WORD
    ensures Run(Aborts(n)) == Empty().(gens := Empty().gens[0 := n])
  {
    var events := Aborts(n);
    if n == 0 {
      assert Empty().gens[0 := 0] == Empty().gens;
    } else {
      assert events[..n - 1] == Aborts(n - 1);
      AbortedMaps(n - 1);
      assert Empty().gens[0 := n - 1][0 := n] == Empty().gens[0 := n];
    }
  }

  /** A finalized wrapper, its tag and its count are never touched again. */
  lemma FinalizedStays(l: Ledger, e: Event, id: nat)
    requires Shape(l) && id < |l.wraps| && l.wraps[id].finalized
    ensures var after := Step(l, e);
      && id < |after.wraps| == |after.unmaps| == |after.genOf|
      && after.wraps[id] == l.wraps[id] && after.unmaps[id] == l.unmaps[id] && after.genOf[id] == l.genOf[id]
  {
  }

  function OutgrownRun(base: nat): seq<Event> {
    Aborts(GEN_LIMIT - 1) + [MapSlot(0, base)] + [Finalize(0)]
  }

  lemma RunSnoc(events: seq<Event>, e: Event)
    ensures Run(events + [e]) == Step(Run(events), e)
  {
    assert (events + [e])[..|events|] == events;
  }

  /** Such a run: the slot's 2^54-th mapping is handed out, its wrapper is finalized without a close,
      and the mapping is still there; */
  lemma TagOutgrown(base: nat)
    ensures var l := Run(OutgrownRun(base));
      |l.wraps| == |l.unmaps| == 1 && l.wraps[0].finalized && l.unmaps[0] == 0 && base in l.at && l.at[base] == 0
  {
    var before := Aborts(GEN_LIMIT - 1);
    AbortedMaps(GEN_LIMIT - 1);
    RunSnoc(before, MapSlot(0, base));
    RunSnoc(before + [MapSlot(0, base)], Finalize(0));
    var l := Run(before + [MapSlot(0, base)]);
    assert l.genOf == [GEN_LIMIT] && l.unmaps == [0] && l.at == map[base := 0];
  }

  /** and nothing that happens later unmaps it. */
  lemma {:induction false} OutgrownForGood(base: nat, more: seq<Event>)
    ensures var l := Run(OutgrownRun(base) + more);
      0 < |l.wraps| == |l.unmaps| && l.wraps[0].finalized && l.unmaps[0] == 0
  {
    var whole := OutgrownRun(base) + more;
    if more == [] {
      assert whole == OutgrownRun(base);
      TagOutgrown(base);
    } else {
      var prior := OutgrownRun(base) + more[..|more| - 1];
      OutgrownForGood(base, more[..|more| - 1]);
      assert whole == prior + [more[|more| - 1]];
      RunSnoc(prior, more[|more| - 1]);
      RunSound(prior);
      FinalizedStays(Run(prior), more[|more| - 1], 0);
    }
  }
}
