/** Lookups and scans over the sources of one query, oldest to youngest. */
module Queries {
  import opened Wrappers
  import opened Rows
  import opened KWay

  /** `out` is what a scan of [lo, hi) owes: the newest rows of the range, strictly
      ascending, each once; a scan the callback ended owes them up to its last row. */
  ghost predicate Scanned(puts: seq<Row>, out: seq<Row>, lo: nat, hi: nat, stopped: bool) {
    && StrictlyAscending(out)
    && (stopped ==> out != [])
    && forall k: nat ::
      Last(out, k) == (if lo <= k < hi && (stopped ==> k <= out[|out| - 1].key) then Last(puts, k) else None)
  }

  /** What has come out and what is still to come make up the range. */
  ghost predicate Drained(puts: seq<Row>, out: seq<Row>, rest: seq<seq<Row>>, lo: nat, hi: nat) {
    forall k: nat :: (if lo <= k < hi then Last(puts, k) else None) ==
      if Pick(rest, k).Some? then Pick(rest, k) else Last(out, k)
  }

  lemma DrainKey(out: seq<Row>, before: seq<seq<Row>>, row: Row, rest: seq<seq<Row>>, k: nat)
    requires Emitted(before, row, rest)
    requires forall i :: 0 <= i < |out| ==> out[i].key < row.key
    ensures (if Pick(before, k).Some? then Pick(before, k) else Last(out, k)) ==
      if Pick(rest, k).Some? then Pick(rest, k) else Last(out + [row], k)
  {
    LastConcat(out, [row], k);
    LastOccurs(out, k);
    assert [row][..0] == [];
    assert Pick(rest, k) == if k == row.key then None else Pick(before, k);
  }

  lemma DrainStep(puts: seq<Row>, out: seq<Row>, before: seq<seq<Row>>, row: Row, rest: seq<seq<Row>>, lo: nat, hi: nat)
    requires Drained(puts, out, before, lo, hi) && Emitted(before, row, rest)
    requires forall i :: 0 <= i < |out| ==> out[i].key < row.key
    ensures Drained(puts, out + [row], rest, lo, hi)
  {
    forall k: nat
      ensures (if lo <= k < hi then Last(puts, k) else None) ==
        if Pick(rest, k).Some? then Pick(rest, k) else Last(out + [row], k)
    {
      DrainKey(out, before, row, rest, k);
    }
  }

  /** The row the callback stopped at cuts the range behind itself. */
  lemma CutScan(puts: seq<Row>, prior: seq<Row>, row: Row, rest: seq<seq<Row>>, lo: nat, hi: nat)
    requires StrictlyAscending(prior + [row]) && Drained(puts, prior + [row], rest, lo, hi)
    requires forall k: nat :: Pick(rest, k).Some? ==> row.key < k
    ensures Scanned(puts, prior + [row], lo, hi, true)
  {
    var out := prior + [row];
    forall k: nat
      ensures Last(out, k) == if lo <= k < hi && k <= row.key then Last(puts, k) else None
    {
      LastOccurs(out, k);
    }
  }

  /** The tail from the first row at or past `k`. */
  lemma TailAnswers(s: seq<Row>, pos: nat, k: nat, j: nat)
    requires StrictlyAscending(s) && pos <= |s|
    requires forall i :: 0 <= i < pos ==> s[i].key < k
    requires forall i :: pos <= i < |s| ==> k <= s[i].key
    ensures StrictlyAscending(s[pos..])
    ensures Last(s[pos..], j) == if k <= j then Last(s, j) else None
  {
    var t := s[pos..];
    LastOccurs(t, j);
    LastOccurs(s, j);
    if i :| 0 <= i < |s| && s[i].key == j {
      LastAt(s, i);
      if pos <= i {
        assert t[i - pos] == s[i];
        LastAt(t, i - pos);
      }
    }
  }

  /** Youngest source first: binary-search the key, accept a match. */
  method Lookup(ents: seq<seq<Row>>, k: nat) returns (found: Option<nat>)
    requires AllStrict(ents) && AllAscending(ents)
    ensures found == Newest(ents, k)
  {
    assert ents[..|ents|] == ents;
    for j := |ents| downto 0
      invariant Newest(ents, k) == Newest(ents[..j], k)
    {
      assert ents[..j + 1][..j] == ents[..j];
      var s := ents[j];
      var pos := FindGE(s, k);
      LastOccurs(s, k);
      if pos < |s| && s[pos].key == k {
        LastAt(s, pos);
        return Some(s[pos].val);
      }
    }
    found := None;
  }

  /** Trim every source to [lo, hi). */
  method SeekRange(ents: seq<seq<Row>>, lo: nat, hi: nat) returns (trimmed: seq<seq<Row>>)
    requires AllStrict(ents) && AllAscending(ents)
    ensures AllStrict(trimmed) && AllAscending(trimmed)
    ensures forall k: nat :: Newest(trimmed, k) == if lo <= k < hi then Newest(ents, k) else None
  {
    trimmed := [];
    for i := 0 to |ents|
      invariant |trimmed| == i && AllStrict(trimmed)
      invariant forall k: nat :: Newest(trimmed, k) == if lo <= k < hi then Newest(ents[..i], k) else None
    {
      var from := FindGE(ents[i], lo);
      var to := FindGE(ents[i], hi);
      if to < from {
        to := from;
      }
      ghost var before := trimmed;
      trimmed := trimmed + [ents[i][from..to]];
      assert trimmed[..i] == before && ents[..i + 1][..i] == ents[..i];
      forall k: nat
        ensures Newest(trimmed, k) == if lo <= k < hi then Newest(ents[..i + 1], k) else None
      {
        TrimAnswers(ents[i], from, to, lo, hi, k);
      }
      TrimAnswers(ents[i], from, to, lo, hi, 0);
    }
    assert ents[..|ents|] == ents;
  }

  /** Drain the merge through the callback. */
  method Drain(ghost puts: seq<Row>, trimmed: seq<seq<Row>>, lo: nat, hi: nat, enough: seq<Row> -> bool)
      returns (out: seq<Row>, stopped: bool)
    requires AllStrict(trimmed) && AllAscending(trimmed)
    requires forall k: nat :: Newest(trimmed, k) == if lo <= k < hi then Last(puts, k) else None
    ensures Scanned(puts, out, lo, hi, stopped)
    ensures forall n :: 0 < n <= |out| ==> (enough(out[..n]) <==> stopped && n == |out|)
  {
    var rest := trimmed;
    out, stopped := [], false;
    forall k: nat ensures Pick(rest, k) == if lo <= k < hi then Last(puts, k) else None {
      PickIsNewest(rest, k);
    }
    while true
      invariant AllAscending(rest) && StrictlyAscending(out)
      invariant forall k: nat, i :: Pick(rest, k).Some? && 0 <= i < |out| ==> out[i].key < k
      invariant Drained(puts, out, rest, lo, hi)
      invariant forall n :: 0 < n <= |out| ==> !enough(out[..n])
      decreases Total(rest)
    {
      ghost var before, prior := rest, out;
      var row;
      row, rest := Pull(rest);
      if row.None? {
        break;
      }
      assert Pick(before, row.value.key).Some?;
      out := out + [row.value];
      DrainStep(puts, prior, before, row.value, rest, lo, hi);
      assert forall n :: 0 < n <= |prior| ==> out[..n] == prior[..n];
      assert out[..|out|] == out;
      if enough(out) {
        stopped := true;
        CutScan(puts, prior, row.value, rest, lo, hi);
        break;
      }
    }
  }

  /** A cursor pulled dry and an unstopped scan over the same puts give the same rows,
      once the scan's bound is past every key. */
  lemma SeekAgreesWithRange(puts: seq<Row>, scanned: seq<Row>, pulled: seq<Row>, k: nat, hi: nat)
    requires Scanned(puts, scanned, k, hi, false)
    requires StrictlyAscending(pulled)
    requires forall j: nat :: Last(pulled, j) == if k <= j then Last(puts, j) else None
    requires forall i :: 0 <= i < |puts| ==> puts[i].key < hi
    ensures pulled == scanned
  {
    forall j: nat ensures Last(pulled, j) == Last(scanned, j) {
      LastOccurs(puts, j);
    }
    AnswersDetermineRows(pulled, scanned);
  }

  /** A stopped scan is a prefix of the unstopped one. */
  lemma StoppedScanIsPrefix(puts: seq<Row>, cut: seq<Row>, full: seq<Row>, lo: nat, hi: nat)
    requires Scanned(puts, cut, lo, hi, true) && Scanned(puts, full, lo, hi, false)
    ensures cut <= full
  {
    var last := cut[|cut| - 1].key;
    LastAt(cut, |cut| - 1);
    LastOccurs(full, last);
    var i :| 0 <= i < |full| && full[i].key == last;
    var head := full[..i + 1];
    assert full[0..i + 1] == head;
    forall k: nat ensures Last(head, k) == if k <= last then Last(full, k) else None {
      TrimAnswers(full, 0, i + 1, 0, last + 1, k);
    }
    AnswersDetermineRows(cut, head);
  }
}
