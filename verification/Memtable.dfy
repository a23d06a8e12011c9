/** Sorting and deduplicating a memtable's DATA, in place. */
module Memtable {
  import opened Rows

  /** The insertion sort's step: two neighbours with different keys trade places. */
  method SwapDown(a: array<Row>, lo: nat, hi: nat, j: nat)
    requires lo < j < hi <= a.Length && a[j].key != a[j - 1].key
    modifies a
    ensures a[j] == old(a[j - 1]) && a[j - 1] == old(a[j])
    ensures forall p :: 0 <= p < a.Length && p != j && p != j - 1 ==> a[p] == old(a[p])
    ensures SameAnswers(a[lo..hi], old(a[lo..hi]))
  {
    a[j - 1], a[j] := a[j], a[j - 1];
    forall k: nat ensures Last(a[lo..hi], k) == Last(old(a[lo..hi]), k) {
      SwapKeepsAnswers(old(a[lo..hi]), a[lo..hi], j - 1 - lo, k);
    }
  }

  /** Sink a[i] into the sorted a[lo..i]. */
  method Insert(a: array<Row>, lo: nat, i: nat, hi: nat)
    requires lo <= i < hi <= a.Length
    requires forall p, q :: lo <= p < q < i ==> a[p].key <= a[q].key
    modifies a
    ensures forall p, q :: lo <= p < q <= i ==> a[p].key <= a[q].key
    ensures forall p :: 0 <= p < a.Length && !(lo <= p <= i) ==> a[p] == old(a[p])
    ensures SameAnswers(a[lo..hi], old(a[lo..hi]))
  {
    var j := i;
    while lo < j && a[j].key < a[j - 1].key
      invariant lo <= j <= i
      invariant forall p, q :: lo <= p < q <= i && p != j && q != j ==> a[p].key <= a[q].key
      invariant forall q :: j < q <= i ==> a[j].key < a[q].key
      invariant forall p :: 0 <= p < a.Length && !(lo <= p <= i) ==> a[p] == old(a[p])
      invariant SameAnswers(a[lo..hi], old(a[lo..hi]))
    {
      SwapDown(a, lo, hi, j);
      j := j - 1;
    }
  }

  /** Stable insertion sort of a[lo..hi], in place. */
  method InSort(a: array<Row>, lo: nat, hi: nat)
    requires lo <= hi <= a.Length
    modifies a
    ensures Ascending(a[lo..hi]) && SameAnswers(a[lo..hi], old(a[lo..hi]))
    ensures forall p :: 0 <= p < a.Length && !(lo <= p < hi) ==> a[p] == old(a[p])
  {
    for i := lo to hi
      invariant forall p, q :: lo <= p < q < i ==> a[p].key <= a[q].key
      invariant SameAnswers(a[lo..hi], old(a[lo..hi]))
      invariant forall p :: 0 <= p < a.Length && !(lo <= p < hi) ==> a[p] == old(a[p])
    {
      Insert(a, lo, i, hi);
    }
  }

  /** A row with the key of the last one kept replaces it. */
  lemma ReplaceLast(kept: seq<Row>, row: Row)
    requires kept != [] && kept[|kept| - 1].key == row.key
    ensures SameAnswers(kept[..|kept| - 1] + [row], kept + [row])
  {
    var head := kept[..|kept| - 1];
    forall k: nat ensures Last(head + [row], k) == Last(kept + [row], k) {
      LastConcat(head, [row], k);
      LastConcat(kept, [row], k);
    }
  }

  lemma AppendSame(kept: seq<Row>, seen: seq<Row>, row: Row)
    requires SameAnswers(kept, seen)
    ensures SameAnswers(kept + [row], seen + [row])
  {
    forall k: nat ensures Last(kept + [row], k) == Last(seen + [row], k) {
      LastConcat(kept, [row], k);
      LastConcat(seen, [row], k);
    }
  }

  /** `kept` is the keep-last dedup of the sorted `seen`. */
  ghost predicate Deduped(kept: seq<Row>, seen: seq<Row>) {
    && StrictlyAscending(kept) && SameAnswers(kept, seen)
    && (kept == [] <==> seen == [])
    && (seen != [] ==> kept[|kept| - 1] == seen[|seen| - 1])
  }

  /** The dedup's step: `row` joins the kept a[lo..end], or replaces its equal. */
  method Keep(a: array<Row>, lo: nat, end: nat, row: Row, ghost seen: seq<Row>) returns (end': nat)
    requires lo <= end < a.Length && Deduped(a[lo..end], seen)
    requires seen != [] ==> seen[|seen| - 1].key <= row.key
    modifies a
    ensures end <= end' <= end + 1 && lo < end' && Deduped(a[lo..end'], seen + [row])
    ensures forall p :: 0 <= p < lo || end < p < a.Length ==> a[p] == old(a[p])
  {
    ghost var kept := a[lo..end];
    AppendSame(kept, seen, row);
    if lo < end && a[end - 1].key == row.key {
      a[end - 1] := row;
      end' := end;
      assert a[lo..end] == kept[..|kept| - 1] + [row];
      ReplaceLast(kept, row);
    } else {
      assert lo < end ==> kept[|kept| - 1] == a[end - 1];
      a[end] := row;
      end' := end + 1;
      assert a[lo..end'] == kept + [row];
    }
  }

  lemma TakeMore(rows: seq<Row>, n: nat)
    requires n < |rows|
    ensures rows[..n] + [rows[n]] == rows[..n + 1]
  {
  }

  /** Of each group of equal keys in the sorted a[lo..hi] keep the last, in place. */
  method Dedup(a: array<Row>, lo: nat, hi: nat) returns (end: nat)
    requires lo <= hi <= a.Length && Ascending(a[lo..hi])
    modifies a
    ensures lo <= end <= hi && Deduped(a[lo..end], old(a[lo..hi]))
    ensures forall p :: 0 <= p < lo ==> a[p] == old(a[p])
  {
    ghost var rows := a[lo..hi];
    ghost var seen: seq<Row> := [];
    end := lo;
    for i := lo to hi
      invariant lo <= end <= i && seen == rows[..i - lo] && Deduped(a[lo..end], seen)
      invariant forall p :: 0 <= p < lo ==> a[p] == old(a[p])
      invariant forall p :: i <= p < hi ==> a[p] == rows[p - lo]
    {
      var row := a[i];
      assert lo < i ==> rows[i - 1 - lo].key <= rows[i - lo].key;
      TakeMore(rows, i - lo);
      end := Keep(a, lo, end, row, seen);
      seen := seen + [row];
    }
    assert rows[..hi - lo] == rows;
  }
}
