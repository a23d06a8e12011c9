/** The merged cursor of a handle.  Its entries are not rows but where to read them: the unread
    end of a run, whose mapping never changes, or a stretch of the live memtable page. */
module Cursors {
  import opened Wrappers
  import opened Rows
  import opened KWay
  import opened Queries

  datatype Span = Fixed(rows: seq<Row>) | Page(from: nat, to: nat) {
    predicate Fits(n: nat) { Page? ==> from <= to <= n }

    /** The rows to be read there, the page being what it is now. */
    function Read(page: seq<Row>): seq<Row>
      requires Fits(|page|)
    {
      match this
      case Fixed(rows) => rows
      case Page(from, to) => page[from..to]
    }

    /** The same, some rows on. */
    function Past(n: nat, ghost page: seq<Row>): (s: Span)
      requires Fits(|page|) && n <= |Read(page)|
      ensures s.Fits(|page|) && s.Read(page) == Read(page)[n..]
    {
      match this
      case Fixed(rows) => Fixed(rows[n..])
      case Page(from, to) => Page(from + n, to)
    }
  }

  predicate AllFit(spans: seq<Span>, n: nat) { forall i :: 0 <= i < |spans| ==> spans[i].Fits(n) }

  /** What the spans hold now. */
  function Held(spans: seq<Span>, page: seq<Row>): (ents: seq<seq<Row>>)
    requires AllFit(spans, |page|)
    ensures |ents| == |spans| && forall i :: 0 <= i < |spans| ==> ents[i] == spans[i].Read(page)
  {
    seq(|spans|, i requires 0 <= i < |spans| => spans[i].Read(page))
  }

  lemma HeldMore(spans: seq<Span>, span: Span, page: seq<Row>)
    requires AllFit(spans, |page|) && span.Fits(|page|)
    ensures AllFit(spans + [span], |page|)
    ensures Held(spans + [span], page) == Held(spans, page) + [span.Read(page)]
  {
  }

  lemma TakeMore(spans: seq<Span>, n: nat)
    requires n < |spans|
    ensures spans[..n] + [spans[n]] == spans[..n + 1]
  {
  }

  /** Runs alone hold themselves. */
  function Runs(runs: seq<seq<Row>>): (spans: seq<Span>)
    ensures |spans| == |runs| && AllFit(spans, 0)
    ensures forall i :: 0 <= i < |runs| ==> spans[i] == Fixed(runs[i])
  {
    seq(|runs|, i requires 0 <= i < |runs| => Fixed(runs[i]))
  }

  /** `live` still holds all that `ents` does. */
  ghost predicate Carries(live: seq<seq<Row>>, ents: seq<seq<Row>>) {
    Total(live) == Total(ents) && forall k: nat :: Pick(live, k) == Pick(ents, k)
  }

  lemma CarriesMore(live: seq<seq<Row>>, ents: seq<seq<Row>>, e: seq<Row>)
    requires Carries(live, ents)
    ensures Carries(if e == [] then live else live + [e], ents + [e])
  {
    assert (ents + [e])[..|ents|] == ents && (live + [e])[..|live|] == live;
    forall k: nat ensures Pick(if e == [] then live else live + [e], k) == Pick(ents + [e], k) {
      assert Pick(live, k) == Pick(ents, k);
    }
  }

  /** What `Load` keeps of the spans it has seen. */
  ghost predicate Loaded(live: seq<Span>, seen: seq<Span>, page: seq<Row>)
    requires AllFit(live, |page|) && AllFit(seen, |page|)
  {
    && |live| <= |seen| && Carries(Held(live, page), Held(seen, page))
    && (forall s :: s in live <==> s in seen && s.Read(page) != [])
  }

  lemma LoadMore(live: seq<Span>, seen: seq<Span>, span: Span, page: seq<Row>)
    requires AllFit(live, |page|) && AllFit(seen, |page|) && span.Fits(|page|) && Loaded(live, seen, page)
    ensures var more := if span.Read(page) == [] then live else live + [span];
      AllFit(more, |page|) && AllFit(seen + [span], |page|) && Loaded(more, seen + [span], page)
  {
    HeldMore(live, span, page);
    HeldMore(seen, span, page);
    CarriesMore(Held(live, page), Held(seen, page), span.Read(page));
  }

  /** `Load`: drop the exhausted entries, keeping the order. */
  method Load(spans: seq<Span>, page: seq<Row>) returns (live: seq<Span>)
    requires AllFit(spans, |page|)
    ensures AllFit(live, |page|) && Loaded(live, spans, page)
  {
    live := [];
    ghost var seen: seq<Span> := [];
    for i := 0 to |spans|
      invariant seen == spans[..i] && AllFit(live, |page|) && Loaded(live, seen, page)
    {
      LoadMore(live, seen, spans[i], page);
      TakeMore(spans, i);
      if spans[i].Read(page) != [] {
        live := live + [spans[i]];
      }
      seen := seen + [spans[i]];
    }
    assert seen == spans;
  }

  /** `tails` answer from k on as `ents` do. */
  ghost predicate From(tails: seq<seq<Row>>, ents: seq<seq<Row>>, k: nat) {
    AllStrict(tails) && forall j: nat :: Newest(tails, j) == if k <= j then Newest(ents, j) else None
  }

  lemma NewestMore(ents: seq<seq<Row>>, e: seq<Row>, k: nat)
    ensures Newest(ents + [e], k) == if Last(e, k).Some? then Last(e, k) else Newest(ents, k)
  {
    assert (ents + [e])[..|ents|] == ents;
  }

  lemma FromMore(tails: seq<seq<Row>>, ents: seq<seq<Row>>, s: seq<Row>, pos: nat, k: nat)
    requires From(tails, ents, k) && StrictlyAscending(s) && pos <= |s|
    requires forall i :: 0 <= i < pos ==> s[i].key < k
    requires forall i :: pos <= i < |s| ==> k <= s[i].key
    ensures From(if pos < |s| then tails + [s[pos..]] else tails, ents + [s], k)
  {
    var more := if pos < |s| then tails + [s[pos..]] else tails;
    TailAnswers(s, pos, k, 0);
    forall j: nat ensures Newest(more, j) == if k <= j then Newest(ents + [s], j) else None {
      TailAnswers(s, pos, k, j);
      NewestMore(tails, s[pos..], j);
      NewestMore(ents, s, j);
    }
  }

  lemma KeepMore(kept: seq<Span>, seen: seq<Span>, span: Span, page: seq<Row>, pos: nat, k: nat)
    requires AllFit(kept, |page|) && AllFit(seen, |page|) && span.Fits(|page|)
    requires From(Held(kept, page), Held(seen, page), k)
    requires var s := span.Read(page);
      && StrictlyAscending(s) && pos <= |s|
      && (forall i :: 0 <= i < pos ==> s[i].key < k) && (forall i :: pos <= i < |s| ==> k <= s[i].key)
    ensures var more := if pos < |span.Read(page)| then kept + [span.Past(pos, page)] else kept;
      && AllFit(more, |page|) && AllFit(seen + [span], |page|)
      && From(Held(more, page), Held(seen + [span], page), k)
  {
    var s, tail := span.Read(page), span.Past(pos, page);
    HeldMore(kept, tail, page);
    HeldMore(seen, span, page);
    FromMore(Held(kept, page), Held(seen, page), s, pos, k);
  }

  /** Keep the unexhausted sources, each from its first row at or past `k`. */
  method Position(spans: seq<Span>, page: seq<Row>, k: nat) returns (kept: seq<Span>)
    requires AllFit(spans, |page|) && AllStrict(Held(spans, page)) && AllAscending(Held(spans, page))
    ensures AllFit(kept, |page|) && AllStrict(Held(kept, page))
    ensures forall j: nat :: Pick(Held(kept, page), j) == if k <= j then Newest(Held(spans, page), j) else None
  {
    kept := [];
    ghost var seen: seq<Span> := [];
    for i := 0 to |spans|
      invariant seen == spans[..i] && AllFit(kept, |page|) && From(Held(kept, page), Held(seen, page), k)
    {
      var s := spans[i].Read(page);
      assert Held(spans, page)[i] == s;
      var pos := FindGE(s, k);
      KeepMore(kept, seen, spans[i], page, pos, k);
      TakeMore(spans, i);
      if pos < |s| {
        kept := kept + [spans[i].Past(pos, page)];
      }
      seen := seen + [spans[i]];
    }
    assert seen == spans;
    forall j: nat ensures Pick(Held(kept, page), j) == if k <= j then Newest(Held(spans, page), j) else None {
      PickIsNewest(Held(kept, page), j);
    }
  }

  /** Every span moves on to what is left of it. */
  method MoveOn(spans: seq<Span>, ghost page: seq<Row>, ents: seq<seq<Row>>, rest: seq<seq<Row>>)
      returns (moved: seq<Span>)
    requires AllFit(spans, |page|) && ents == Held(spans, page) && AllTails(rest, ents)
    ensures AllFit(moved, |page|) && Held(moved, page) == rest
  {
    moved := [];
    ghost var done: seq<seq<Row>> := [];
    for i := 0 to |spans|
      invariant |moved| == i && AllFit(moved, |page|)
      invariant Held(moved, page) == done && |done| == i && forall j :: 0 <= j < i ==> done[j] == rest[j]
    {
      assert IsTail(rest[i], ents[i]);
      var span := spans[i].Past(|ents[i]| - |rest[i]|, page);
      HeldMore(moved, span, page);
      moved := moved + [span];
      done := done + [rest[i]];
    }
    assert done == rest;
  }

  lemma LiveHeads(live: seq<Span>, spans: seq<Span>, page: seq<Row>, row: Row)
    requires AllFit(live, |page|) && AllFit(spans, |page|) && Loaded(live, spans, page)
    requires LeastHead(Held(live, page), row)
    ensures LeastHead(Held(spans, page), row)
  {
    var ents: seq<seq<Row>>, held: seq<seq<Row>> := Held(live, page), Held(spans, page);
    var i :| 0 <= i < |ents| && ents[i] != [] && ents[i][0] == row;
    assert live[i] in spans;
    var j :| 0 <= j < |spans| && spans[j] == live[i];
    assert held[j] == ents[i];
    forall m | 0 <= m < |held| && held[m] != [] ensures row.key <= held[m][0].key {
      assert spans[m] in live;
      var n :| 0 <= n < |live| && live[n] == spans[m];
      assert ents[n] == held[m];
    }
  }

  lemma LiveAscend(live: seq<Span>, spans: seq<Span>, page: seq<Row>)
    requires AllFit(live, |page|) && AllFit(spans, |page|) && Loaded(live, spans, page)
    requires AllAscending(Held(spans, page))
    ensures AllAscending(Held(live, page))
  {
    forall i | 0 <= i < |live| ensures Ascending(live[i].Read(page)) {
      assert live[i] in spans;
      var j :| 0 <= j < |spans| && spans[j] == live[i];
      assert Ascending(Held(spans, page)[j]);
    }
  }

  /** A turn of the loaded entries is a turn of all. */
  lemma LoadedTurn(live: seq<seq<Row>>, ents: seq<seq<Row>>, row: Option<Row>, rest: seq<seq<Row>>)
    requires Carries(live, ents) && Turned(live, row, rest)
    requires row.Some? ==> LeastHead(ents, row.value)
    requires AllAscending(ents) ==> AllAscending(live)
    ensures Turned(ents, row, rest)
  {
    if AllAscending(ents) && row.Some? {
      assert Pick(live, row.value.key) == Pick(ents, row.value.key);
      forall k: nat ensures Pick(rest, k) == if k == row.value.key then None else Pick(ents, k) {
        assert Pick(live, k) == Pick(ents, k);
      }
    }
  }

  /** `next`: load what is left, pull one row, and move the spans on in place.  Whatever has become
      of the page: the row is the least of the heads; while the spans still read ascending it is
      the next row of the merge. */
  method Next(spans: seq<Span>, page: seq<Row>) returns (row: Option<Row>, rest: seq<Span>)
    requires AllFit(spans, |page|)
    ensures AllFit(rest, |page|) && Turned(Held(spans, page), row, Held(rest, page))
    ensures AllAscending(Held(spans, page)) ==> AllAscending(Held(rest, page))
  {
    var live := Load(spans, page);
    var ents, left := Held(live, page), [];
    row, left := Pull(ents);
    rest := MoveOn(live, page, ents, left);
    if row.Some? {
      LiveHeads(live, spans, page, row.value);
    }
    if AllAscending(Held(spans, page)) {
      LiveAscend(live, spans, page);
    }
    LoadedTurn(ents, Held(spans, page), row, left);
  }

  /** What was pulled and what is still ahead make up the newest rows from k on. */
  ghost predicate Pulled(puts: seq<Row>, out: seq<Row>, ahead: seq<seq<Row>>, k: nat) {
    && StrictlyAscending(out) && AllAscending(ahead)
    && (forall j: nat, i :: Pick(ahead, j).Some? && 0 <= i < |out| ==> out[i].key < j)
    && (forall j: nat ::
         (if k <= j then Last(puts, j) else None) == (if Pick(ahead, j).Some? then Pick(ahead, j) else Last(out, j)))
  }

  lemma PulledMore(puts: seq<Row>, out: seq<Row>, before: seq<seq<Row>>, row: Row, ahead: seq<seq<Row>>, k: nat)
    requires Pulled(puts, out, before, k) && Emitted(before, row, ahead) && AllAscending(ahead)
    ensures Pulled(puts, out + [row], ahead, k)
  {
    assert Pick(before, row.key).Some?;
    forall j: nat
      ensures (if k <= j then Last(puts, j) else None) ==
        if Pick(ahead, j).Some? then Pick(ahead, j) else Last(out + [row], j)
    {
      DrainKey(out, before, row, ahead, j);
    }
  }

  lemma PulledDry(puts: seq<Row>, out: seq<Row>, ahead: seq<seq<Row>>, k: nat)
    requires Pulled(puts, out, ahead, k) && forall j: nat :: Pick(ahead, j) == None
    ensures forall j: nat :: Last(out, j) == if k <= j then Last(puts, j) else None
  {
  }
}
