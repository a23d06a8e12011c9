/** The k-way merge of sorted sources: every query and every compaction drains it.

    An entry is the unread rest of one source; entries stand oldest to youngest, and
    equal heads go to the youngest.  The heap over the entries is read as
    "the least head, the highest entry first". */
module KWay {
  import opened Wrappers
  import opened Rows

  ghost predicate AllAscending(ents: seq<seq<Row>>) {
    forall i :: 0 <= i < |ents| ==> Ascending(ents[i])
  }

  ghost predicate AllStrict(ents: seq<seq<Row>>) {
    forall i :: 0 <= i < |ents| ==> StrictlyAscending(ents[i])
  }

  /** What the merge emits for key `k`: the first such row of the youngest entry. */
  function Pick(ents: seq<seq<Row>>, k: nat): Option<nat> {
    if ents == [] then None
    else
      var f := First(ents[|ents| - 1], k);
      if f.Some? then f else Pick(ents[..|ents| - 1], k)
  }

  function Total(ents: seq<seq<Row>>): nat {
    if ents == [] then 0 else Total(ents[..|ents| - 1]) + |ents[|ents| - 1]|
  }

  /** Entries whose head carries `k` step past it. */
  function Advanced(ents: seq<seq<Row>>, k: nat): seq<seq<Row>> {
    if ents == [] then []
    else
      var e := ents[|ents| - 1];
      Advanced(ents[..|ents| - 1], k) + [if e != [] && e[0].key == k then e[1..] else e]
  }

  lemma {:induction false} PickIsNewest(ents: seq<seq<Row>>, k: nat)
    requires AllStrict(ents)
    ensures Pick(ents, k) == Newest(ents, k)
  {
    if ents != [] {
      FirstIsLast(ents[|ents| - 1], k);
      PickIsNewest(ents[..|ents| - 1], k);
    }
  }

  lemma {:induction false} FirstOccurs(s: seq<Row>, k: nat)
    ensures First(s, k).Some? <==> exists i :: 0 <= i < |s| && s[i].key == k
  {
    if s != [] {
      FirstOccurs(s[1..], k);
      if i :| 0 <= i < |s| && s[i].key == k {
        assert i == 0 || s[1..][i - 1].key == k;
      }
    }
  }

  /** Below every head there is nothing. */
  lemma {:induction false} PickBelow(ents: seq<seq<Row>>, k: nat)
    requires AllAscending(ents)
    requires forall i :: 0 <= i < |ents| && ents[i] != [] ==> k < ents[i][0].key
    ensures Pick(ents, k) == None
  {
    if ents != [] {
      FirstOccurs(ents[|ents| - 1], k);
      PickBelow(ents[..|ents| - 1], k);
    }
  }

  /** A found key is the key of a row, so at least the least head. */
  lemma {:induction false} PickAtLeast(ents: seq<seq<Row>>, low: nat, k: nat)
    requires AllAscending(ents) && Pick(ents, k).Some?
    requires forall i :: 0 <= i < |ents| && ents[i] != [] ==> low <= ents[i][0].key
    ensures low <= k
  {
    if k < low {
      PickBelow(ents, k);
    }
  }

  /** The youngest of the least heads is what the merge must emit. */
  lemma {:induction false} PickTop(ents: seq<seq<Row>>, top: nat)
    requires AllAscending(ents) && top < |ents| && ents[top] != []
    requires forall i :: 0 <= i < |ents| && ents[i] != [] ==> ents[top][0].key <= ents[i][0].key
    requires forall i :: top < i < |ents| && ents[i] != [] ==> ents[top][0].key < ents[i][0].key
    ensures Pick(ents, ents[top][0].key) == Some(ents[top][0].val)
  {
    var k := ents[top][0].key;
    if top < |ents| - 1 {
      FirstOccurs(ents[|ents| - 1], k);
      PickTop(ents[..|ents| - 1], top);
    }
  }

  lemma {:induction false} AdvancedAt(ents: seq<seq<Row>>, k: nat, i: nat)
    requires i < |ents|
    ensures |Advanced(ents, k)| == |ents|
    ensures Advanced(ents, k)[i] == if ents[i] != [] && ents[i][0].key == k then ents[i][1..] else ents[i]
  {
    var last := |ents| - 1;
    if i < last {
      AdvancedAt(ents[..last], k, i);
    } else if 0 < last {
      AdvancedAt(ents[..last], k, 0);
    }
  }

  lemma {:induction false} AdvancedTotal(ents: seq<seq<Row>>, k: nat)
    ensures |Advanced(ents, k)| == |ents| && Total(Advanced(ents, k)) <= Total(ents)
  {
    if ents != [] {
      var last := |ents| - 1;
      AdvancedTotal(ents[..last], k);
      assert Advanced(ents, k)[..last] == Advanced(ents[..last], k);
    }
  }

  /** Where some head carries `k`, stepping past it takes rows away. */
  lemma {:induction false} AdvancedShrinks(ents: seq<seq<Row>>, k: nat, i: nat)
    requires i < |ents| && ents[i] != [] && ents[i][0].key == k
    ensures Total(Advanced(ents, k)) < Total(ents)
  {
    var last := |ents| - 1;
    AdvancedTotal(ents[..last], k);
    assert Advanced(ents, k)[..last] == Advanced(ents[..last], k);
    if i < last {
      AdvancedShrinks(ents[..last], k, i);
    }
  }

  lemma AdvancedShape(ents: seq<seq<Row>>, k: nat)
    ensures |Advanced(ents, k)| == |ents|
    ensures forall i :: 0 <= i < |ents| ==>
      Advanced(ents, k)[i] == if ents[i] != [] && ents[i][0].key == k then ents[i][1..] else ents[i]
  {
    AdvancedTotal(ents, k);
    forall i | 0 <= i < |ents|
      ensures Advanced(ents, k)[i] == if ents[i] != [] && ents[i][0].key == k then ents[i][1..] else ents[i]
    {
      AdvancedAt(ents, k, i);
    }
  }

  /** Stepping past `k` moves no other key. */
  lemma {:induction false} PickAdvanced(ents: seq<seq<Row>>, k: nat, other: nat)
    requires other != k
    ensures Pick(Advanced(ents, k), other) == Pick(ents, other)
  {
    if ents != [] {
      PickAdvanced(ents[..|ents| - 1], k, other);
      var a := Advanced(ents, k);
      assert a[..|a| - 1] == Advanced(ents[..|ents| - 1], k);
    }
  }

  /** `tail` is what is left of `whole` after some rows were read. */
  predicate IsTail(tail: seq<Row>, whole: seq<Row>) {
    |tail| <= |whole| && tail == whole[|whole| - |tail|..]
  }

  /** Every entry stands where it stood, or further on. */
  predicate AllTails(rest: seq<seq<Row>>, ents: seq<seq<Row>>) {
    |rest| == |ents| && forall i :: 0 <= i < |ents| ==> IsTail(rest[i], ents[i])
  }

  lemma TailOfTail(a: seq<Row>, b: seq<Row>, c: seq<Row>)
    requires IsTail(a, b) && IsTail(b, c)
    ensures IsTail(a, c)
  {
  }

  lemma TailsOfTails(a: seq<seq<Row>>, b: seq<seq<Row>>, c: seq<seq<Row>>)
    requires AllTails(a, b) && AllTails(b, c)
    ensures AllTails(a, c)
  {
    forall i | 0 <= i < |c| ensures IsTail(a[i], c[i]) {
      TailOfTail(a[i], b[i], c[i]);
    }
  }

  lemma TailStaysSorted(tail: seq<Row>, whole: seq<Row>)
    requires IsTail(tail, whole) && Ascending(whole)
    ensures Ascending(tail) && (StrictlyAscending(whole) ==> StrictlyAscending(tail))
    ensures tail != [] ==> whole[0].key <= tail[0].key
  {
    assert forall i :: 0 <= i < |tail| ==> tail[i] == whole[|whole| - |tail| + i];
  }

  lemma TailsStaySorted(rest: seq<seq<Row>>, ents: seq<seq<Row>>)
    requires AllTails(rest, ents) && AllAscending(ents)
    ensures AllAscending(rest) && (AllStrict(ents) ==> AllStrict(rest))
    ensures forall i :: 0 <= i < |rest| && rest[i] != [] ==> ents[i] != [] && ents[i][0].key <= rest[i][0].key
  {
    forall i | 0 <= i < |rest|
      ensures Ascending(rest[i]) && (AllStrict(ents) ==> StrictlyAscending(rest[i]))
      ensures rest[i] != [] ==> ents[i] != [] && ents[i][0].key <= rest[i][0].key
    {
      assert IsTail(rest[i], ents[i]) && Ascending(ents[i]);
      TailStaysSorted(rest[i], ents[i]);
    }
  }

  /** Stepping past a key moves every entry on, */
  lemma AdvancedTails(ents: seq<seq<Row>>, k: nat)
    ensures AllTails(Advanced(ents, k), ents)
  {
    AdvancedShape(ents, k);
  }

  /** and all that does not carry it, but not all. */
  lemma AdvancedRest(ents: seq<seq<Row>>, k: nat, top: nat)
    requires top < |ents| && ents[top] != [] && ents[top][0].key == k
    ensures Total(Advanced(ents, k)) < Total(ents)
    ensures forall other: nat :: other != k ==> Pick(Advanced(ents, k), other) == Pick(ents, other)
  {
    AdvancedShrinks(ents, k, top);
    forall other: nat | other != k ensures Pick(Advanced(ents, k), other) == Pick(ents, other) {
      PickAdvanced(ents, k, other);
    }
  }

  /** Entry `i` steps once. */
  function Stepped(ents: seq<seq<Row>>, i: nat): seq<seq<Row>>
    requires i < |ents| && ents[i] != []
  {
    ents[i := ents[i][1..]]
  }

  lemma {:induction false} PickStepped(ents: seq<seq<Row>>, i: nat, other: nat)
    requires i < |ents| && ents[i] != [] && other != ents[i][0].key
    ensures Pick(Stepped(ents, i), other) == Pick(ents, other)
  {
    var last := |ents| - 1;
    if i == last {
      assert Stepped(ents, i)[..last] == ents[..last];
    } else {
      assert Stepped(ents, i)[..last] == Stepped(ents[..last], i);
      PickStepped(ents[..last], i, other);
    }
  }

  lemma {:induction false} TotalStepped(ents: seq<seq<Row>>, i: nat)
    requires i < |ents| && ents[i] != []
    ensures Total(Stepped(ents, i)) == Total(ents) - 1
  {
    var last := |ents| - 1;
    if i == last {
      assert Stepped(ents, i)[..last] == ents[..last];
    } else {
      assert Stepped(ents, i)[..last] == Stepped(ents[..last], i);
      TotalStepped(ents[..last], i);
    }
  }

  lemma SteppedTails(ents: seq<seq<Row>>, i: nat)
    requires i < |ents| && ents[i] != []
    ensures AllTails(Stepped(ents, i), ents)
  {
  }

  /** Entry `top` holds the least head, and is the youngest to do so. */
  ghost predicate IsTop(ents: seq<seq<Row>>, top: nat) {
    && top < |ents| && ents[top] != []
    && (forall i :: 0 <= i < |ents| && ents[i] != [] ==> ents[top][0].key <= ents[i][0].key)
    && (forall i :: top < i < |ents| && ents[i] != [] ==> ents[top][0].key < ents[i][0].key)
  }

  /** `Tops`: the entry whose head the merge emits next, unless all are exhausted. */
  method Top(ents: seq<seq<Row>>) returns (top: Option<nat>)
    ensures top.None? <==> forall i :: 0 <= i < |ents| ==> ents[i] == []
    ensures top.Some? ==> IsTop(ents, top.value)
  {
    top := None;
    for i := 0 to |ents|
      invariant top.None? <==> forall j :: 0 <= j < i ==> ents[j] == []
      invariant top.Some? ==> top.value < i && IsTop(ents[..i], top.value)
    {
      if ents[i] != [] && (top.None? || ents[i][0].key <= ents[top.value][0].key) {
        top := Some(i);
      }
    }
    assert ents[..|ents|] == ents;
  }

  /** `AdvanceTops`: every entry that shares the top key steps once. */
  method AdvanceTops(ents: seq<seq<Row>>, k: nat) returns (rest: seq<seq<Row>>)
    ensures rest == Advanced(ents, k)
  {
    rest := [];
    for i := 0 to |ents|
      invariant rest == Advanced(ents[..i], k)
    {
      assert ents[..i + 1][..i] == ents[..i];
      rest := rest + [if ents[i] != [] && ents[i][0].key == k then ents[i][1..] else ents[i]];
    }
    assert ents[..|ents|] == ents;
  }

  /** Whether stepping removed exactly key `k` from what is still to come. */
  ghost predicate Emitted(ents: seq<seq<Row>>, row: Row, rest: seq<seq<Row>>) {
    && Pick(ents, row.key) == Some(row.val)
    && (forall k: nat :: Pick(rest, k) == if k == row.key then None else Pick(ents, k))
    && (forall k: nat :: Pick(rest, k).Some? ==> row.key < k)
  }

  /** `Step` while the least head carries `k`: repeats of a key inside one source go too. */
  method SkipKey(ents: seq<seq<Row>>, k: nat) returns (rest: seq<seq<Row>>)
    ensures AllTails(rest, ents) && Total(rest) <= Total(ents)
    ensures forall other: nat :: other != k ==> Pick(rest, other) == Pick(ents, other)
    ensures forall top: nat :: IsTop(rest, top) ==> rest[top][0].key != k
  {
    rest := ents;
    while true
      invariant AllTails(rest, ents) && Total(rest) <= Total(ents)
      invariant forall other: nat :: other != k ==> Pick(rest, other) == Pick(ents, other)
      decreases Total(rest)
    {
      var top := Top(rest);
      if top.None? || rest[top.value][0].key != k {
        break;
      }
      var i := top.value;
      forall other: nat | other != k ensures Pick(Stepped(rest, i), other) == Pick(rest, other) {
        PickStepped(rest, i, other);
      }
      TotalStepped(rest, i);
      SteppedTails(rest, i);
      TailsOfTails(Stepped(rest, i), rest, ents);
      rest := Stepped(rest, i);
    }
  }

  lemma {:induction false} TotalIsZero(ents: seq<seq<Row>>)
    ensures Total(ents) == 0 <==> forall i :: 0 <= i < |ents| ==> ents[i] == []
  {
    if ents != [] {
      TotalIsZero(ents[..|ents| - 1]);
    }
  }

  /** `row` is the head of some entry, and no head is less. */
  ghost predicate LeastHead(ents: seq<seq<Row>>, row: Row) {
    && (exists i :: 0 <= i < |ents| && ents[i] != [] && ents[i][0] == row)
    && (forall i :: 0 <= i < |ents| && ents[i] != [] ==> row.key <= ents[i][0].key)
  }

  /** A turn of the drain from `ents` to `rest`: the row is the least head, and comes out unless
      nothing is left; of ascending entries it is the least key with its newest value. */
  ghost predicate Turned(ents: seq<seq<Row>>, row: Option<Row>, rest: seq<seq<Row>>) {
    && (row.None? <==> Total(ents) == 0)
    && (row.Some? ==> LeastHead(ents, row.value) && Total(rest) < Total(ents))
    && (AllAscending(ents) && row.Some? ==> Emitted(ents, row.value, rest))
    && (AllAscending(ents) && row.None? ==> forall k: nat :: Pick(ents, k) == None)
  }

  /** One turn of the drain moves the entries on in place, whatever they hold: every entry with the
      emitted head steps, and then the least one while it still carries the key. */
  method Pull(ents: seq<seq<Row>>) returns (row: Option<Row>, rest: seq<seq<Row>>)
    ensures Turned(ents, row, rest) && AllTails(rest, ents) && (row.None? ==> rest == ents)
    ensures AllAscending(ents) ==> AllAscending(rest)
  {
    TotalIsZero(ents);
    var top := Top(ents);
    if top.None? {
      forall k: nat ensures Pick(ents, k) == None {
        PickNothing(ents, k);
      }
      return None, ents;
    }
    var emit := ents[top.value][0];
    var stepped := AdvanceTops(ents, emit.key);
    AdvancedTails(ents, emit.key);
    AdvancedRest(ents, emit.key, top.value);
    rest := SkipKey(stepped, emit.key);
    TailsOfTails(rest, stepped, ents);
    row := Some(emit);
    if AllAscending(ents) {
      PullEmits(ents, top.value, stepped, rest);
    }
  }

  lemma {:induction false} PickNothing(ents: seq<seq<Row>>, k: nat)
    requires forall i :: 0 <= i < |ents| ==> ents[i] == []
    ensures Pick(ents, k) == None
  {
    if ents != [] {
      PickNothing(ents[..|ents| - 1], k);
    }
  }

  lemma {:induction false} SomeTop(ents: seq<seq<Row>>) returns (top: nat)
    requires ents != [] && exists i :: 0 <= i < |ents| && ents[i] != []
    ensures IsTop(ents, top)
  {
    var last := |ents| - 1;
    if forall i :: 0 <= i < last ==> ents[i] == [] {
      top := last;
    } else {
      top := SomeTop(ents[..last]);
      if ents[last] != [] && ents[last][0].key <= ents[top][0].key {
        top := last;
      }
    }
  }

  /** On ascending entries a turn removes exactly the least key, with its newest row. */
  lemma PullEmits(ents: seq<seq<Row>>, top: nat, stepped: seq<seq<Row>>, rest: seq<seq<Row>>)
    requires AllAscending(ents) && IsTop(ents, top) && stepped == Advanced(ents, ents[top][0].key)
    requires AllTails(rest, ents)
    requires forall other: nat :: other != ents[top][0].key ==> Pick(rest, other) == Pick(stepped, other)
    requires forall i: nat :: IsTop(rest, i) ==> rest[i][0].key != ents[top][0].key
    ensures AllAscending(rest) && Emitted(ents, ents[top][0], rest)
  {
    var k := ents[top][0].key;
    PickTop(ents, top);
    AdvancedRest(ents, k, top);
    TailsStaySorted(rest, ents);
    forall i | 0 <= i < |rest| && rest[i] != [] ensures k < rest[i][0].key {
      var least := SomeTop(rest);
      assert IsTop(rest, least);
    }
    PickBelow(rest, k);
    forall j: nat | Pick(rest, j).Some? ensures k < j {
      PickAtLeast(rest, k, j);
    }
    forall j: nat ensures Pick(rest, j) == if j == k then None else Pick(ents, j) {
    }
  }

  /** The merge of a stack of runs into one: newest wins, and it fits `room` rows
      exactly when the merged run does. */
  method Merge(srcs: seq<seq<Row>>, room: nat) returns (merged: Option<seq<Row>>)
    requires AllStrict(srcs)
    ensures Total(srcs) <= room ==> merged.Some?
    ensures merged.Some? ==> StrictlyAscending(merged.value) && |merged.value| <= room
    ensures merged.Some? ==> forall k: nat :: Last(merged.value, k) == Newest(srcs, k)
  {
    var out: seq<Row> := [];
    var rest := srcs;
    while true
      invariant AllAscending(rest)
      invariant StrictlyAscending(out) && |out| <= room
      invariant |out| + Total(rest) <= Total(srcs)
      invariant forall k: nat :: Pick(rest, k).Some? ==> forall i :: 0 <= i < |out| ==> out[i].key < k
      invariant forall k: nat :: Pick(srcs, k) == if Pick(rest, k).Some? then Pick(rest, k) else Last(out, k)
      decreases Total(rest)
    {
      ghost var before := rest;
      var row;
      row, rest := Pull(rest);
      if row.None? {
        break;
      }
      if |out| == room {
        return None;
      }
      var r := row.value;
      assert Pick(before, r.key) == Some(r.val);
      LastOccurs(out, r.key);
      ghost var prior := out;
      out := out + [r];
      assert out[..|out| - 1] == prior;
      forall k: nat ensures Pick(srcs, k) == if Pick(rest, k).Some? then Pick(rest, k) else Last(out, k) {
        assert Pick(rest, k) == if k == r.key then None else Pick(before, k);
      }
    }
    forall k: nat ensures Last(out, k) == Newest(srcs, k) {
      PickIsNewest(srcs, k);
    }
    merged := Some(out);
  }

  /** Binary search: the first row at or past `k`. */
  method FindGE(s: seq<Row>, k: nat) returns (pos: nat)
    requires Ascending(s)
    ensures pos <= |s|
    ensures forall i :: 0 <= i < pos ==> s[i].key < k
    ensures forall i :: pos <= i < |s| ==> k <= s[i].key
  {
    pos := 0;
    var hi := |s|;
    while pos < hi
      invariant pos <= hi <= |s|
      invariant forall i :: 0 <= i < pos ==> s[i].key < k
      invariant forall i :: hi <= i < |s| ==> k <= s[i].key
    {
      var mid := (pos + hi) / 2;
      if s[mid].key < k {
        pos := mid + 1;
      } else {
        hi := mid;
      }
    }
  }
}
