/** Index rows, and what a sequence of them means.

    `key` is what a lane's comparator looks at and `val` what rides along: the pair
    for kv64 (compared by key alone), the number twice for u64. */
module Rows {
  import opened Wrappers

  datatype Row = Row(key: nat, val: nat)

  /** The value the LAST row of `s` with key `k` carries: `s` read as a log of puts. */
  function Last(s: seq<Row>, k: nat): Option<nat> {
    if s == [] then None
    else if s[|s| - 1].key == k then Some(s[|s| - 1].val)
    else Last(s[..|s| - 1], k)
  }

  /** The value the FIRST row of `s` with key `k` carries: `s` read from its head. */
  function First(s: seq<Row>, k: nat): Option<nat> {
    if s == [] then None
    else if s[0].key == k then Some(s[0].val)
    else First(s[1..], k)
  }

  /** A log of puts replayed into a plain map. */
  function Replay(s: seq<Row>): map<nat, nat> {
    if s == [] then map[] else Replay(s[..|s| - 1])[s[|s| - 1].key := s[|s| - 1].val]
  }

  ghost predicate Ascending(s: seq<Row>) {
    forall i, j :: 0 <= i < j < |s| ==> s[i].key <= s[j].key
  }

  ghost predicate StrictlyAscending(s: seq<Row>) {
    forall i, j :: 0 <= i < j < |s| ==> s[i].key < s[j].key
  }

  /** Both logs answer every lookup alike. */
  ghost predicate SameAnswers(a: seq<Row>, b: seq<Row>) {
    forall k: nat :: Last(a, k) == Last(b, k)
  }

  /** Sources oldest to youngest: the youngest source that knows the key answers. */
  function Newest(sources: seq<seq<Row>>, k: nat): Option<nat> {
    if sources == [] then None
    else
      var l := Last(sources[|sources| - 1], k);
      if l.Some? then l else Newest(sources[..|sources| - 1], k)
  }

  lemma {:induction false} LastIsReplay(s: seq<Row>, k: nat)
    ensures Last(s, k) == if k in Replay(s) then Some(Replay(s)[k]) else None
  {
    if s != [] {
      LastIsReplay(s[..|s| - 1], k);
    }
  }

  lemma {:induction false} LastConcat(a: seq<Row>, b: seq<Row>, k: nat)
    ensures Last(a + b, k) == if Last(b, k).Some? then Last(b, k) else Last(a, k)
  {
    if b == [] {
      assert a + b == a;
    } else {
      assert (a + b)[..|a + b| - 1] == a + b[..|b| - 1];
      LastConcat(a, b[..|b| - 1], k);
    }
  }

  lemma {:induction false} NewestConcat(a: seq<seq<Row>>, b: seq<seq<Row>>, k: nat)
    ensures Newest(a + b, k) == if Newest(b, k).Some? then Newest(b, k) else Newest(a, k)
  {
    if b == [] {
      assert a + b == a;
    } else {
      assert (a + b)[..|a + b| - 1] == a + b[..|b| - 1];
      NewestConcat(a, b[..|b| - 1], k);
    }
  }

  /** A lookup hits exactly the keys that occur. */
  lemma {:induction false} LastOccurs(s: seq<Row>, k: nat)
    ensures Last(s, k).Some? <==> exists i :: 0 <= i < |s| && s[i].key == k
  {
    if s != [] {
      var p := s[..|s| - 1];
      LastOccurs(p, k);
      if i :| 0 <= i < |s| && s[i].key == k {
        assert i == |s| - 1 || p[i].key == k;
      }
    }
  }

  lemma {:induction false} LastAt(s: seq<Row>, i: nat)
    requires StrictlyAscending(s) && i < |s|
    ensures Last(s, s[i].key) == Some(s[i].val)
  {
    if i < |s| - 1 {
      assert s[..|s| - 1][i] == s[i];
      LastAt(s[..|s| - 1], i);
    }
  }

  lemma {:induction false} FirstIsLast(s: seq<Row>, k: nat)
    requires StrictlyAscending(s)
    ensures First(s, k) == Last(s, k)
  {
    if s != [] {
      LastConcat([s[0]], s[1..], k);
      assert s == [s[0]] + s[1..];
      assert Last([s[0]], k) == if s[0].key == k then Some(s[0].val) else None;
      LastOccurs(s[1..], k);
      FirstIsLast(s[1..], k);
    }
  }

  /** A strictly ascending sequence is determined by the answers it gives, so
      "strictly ascending, with these answers" specifies a result completely. */
  lemma {:induction false} AnswersDetermineRows(a: seq<Row>, b: seq<Row>)
    requires StrictlyAscending(a) && StrictlyAscending(b) && SameAnswers(a, b)
    ensures a == b
  {
    if a == [] || b == [] {
      if a != [] { LastAt(a, 0); }
      if b != [] { LastAt(b, 0); }
    } else {
      var x, y := a[|a| - 1], b[|b| - 1];
      LastOccurs(b, x.key);
      LastOccurs(a, y.key);
      var p, q := a[..|a| - 1], b[..|b| - 1];
      forall k: nat ensures Last(p, k) == Last(q, k) {
        assert Last(a, k) == Last(b, k);
        LastOccurs(p, k);
        LastOccurs(q, k);
      }
      AnswersDetermineRows(p, q);
    }
  }

  /** Swapping two neighbours with different keys moves no answer. */
  lemma SwapKeepsAnswers(s: seq<Row>, t: seq<Row>, i: nat, k: nat)
    requires i + 1 < |s| == |t| && s[i].key != s[i + 1].key
    requires t == s[i := s[i + 1]][i + 1 := s[i]]
    ensures Last(t, k) == Last(s, k)
  {
    var head, tail := s[..i], s[i + 2..];
    assert s == (head + [s[i], s[i + 1]]) + tail;
    assert t == (head + [s[i + 1], s[i]]) + tail;
    LastConcat(head + [s[i], s[i + 1]], tail, k);
    LastConcat(head + [s[i + 1], s[i]], tail, k);
    LastConcat(head, [s[i], s[i + 1]], k);
    LastConcat(head, [s[i + 1], s[i]], k);
    assert [s[i], s[i + 1]][..1] == [s[i]] && [s[i + 1], s[i]][..1] == [s[i + 1]];
  }

  /** The slice [lo, hi) of the keys. */
  lemma TrimAnswers(s: seq<Row>, from: nat, to: nat, lo: nat, hi: nat, k: nat)
    requires StrictlyAscending(s) && from <= to <= |s|
    requires forall i :: 0 <= i < |s| ==> (from <= i < to <==> lo <= s[i].key < hi)
    ensures StrictlyAscending(s[from..to])
    ensures Last(s[from..to], k) == if lo <= k < hi then Last(s, k) else None
  {
    var t := s[from..to];
    LastOccurs(t, k);
    LastOccurs(s, k);
    if i :| 0 <= i < |s| && s[i].key == k {
      LastAt(s, i);
      if from <= i < to {
        assert t[i - from] == s[i];
        LastAt(t, i - from);
      }
    }
  }
}
