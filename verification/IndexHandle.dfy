/** The index handle: a stack of immutable sorted runs under a two-part memtable.

    The ghost field `puts` is the log of every row the handle was ever given; the
    invariant says runs and memtable together answer every lookup as that log does. */
module IndexHandle {
  import opened Wrappers
  import opened Rows
  import opened KWay
  import opened Memtable
  import opened Queries
  import opened Cursors

  const HIT_MAX_RUNS := 64

  datatype Failure = ReadOnly | TooManyRuns

  /** What can happen to a handle, maintenance at arbitrary moments included. */
  datatype Op =
    | OpPut(row: Row)
    | OpCommit(suffix: nat)
    | OpSync(collapse: bool)
    | OpSeal
    | OpMerge(suffix: nat)
    | OpGet(k: nat)
    | OpRange(lo: nat, hi: nat)
    | OpSeek(k: nat)
    | OpNext

  /** Lookups and scans. */
  predicate Asks(op: Op) { op.OpGet? || op.OpRange? }

  predicate AllAsk(ops: seq<Op>) { forall i :: 0 <= i < |ops| ==> Asks(ops[i]) }

  ghost predicate OnlyAsks(asked: nat -> seq<Op>) { forall n: nat :: AllAsk(asked(n)) }

  /** The rows of the puts that were not refused. */
  function AcceptedOf(ops: seq<Op>, refused: seq<bool>): seq<Row>
    requires |ops| == |refused|
  {
    if ops == [] then []
    else
      var last := |ops| - 1;
      AcceptedOf(ops[..last], refused[..last]) + if ops[last].OpPut? && !refused[last] then [ops[last].row] else []
  }

  /** The keys of some rows. */
  function Keys(s: seq<Row>): set<nat> { set i | 0 <= i < |s| :: s[i].key }

  lemma KeysAppend(s: seq<Row>, row: Row)
    ensures Keys(s + [row]) == Keys(s) + {row.key}
  {
    var t := s + [row];
    forall k ensures k in Keys(t) <==> k in Keys(s) + {row.key} {
      if k in Keys(s) {
        var i :| 0 <= i < |s| && s[i].key == k;
        assert t[i].key == k;
      }
      assert t[|s|] == row;
    }
  }

  lemma {:induction false} KeysAtMost(s: seq<Row>)
    ensures |Keys(s)| <= |s| && (StrictlyAscending(s) ==> |Keys(s)| == |s|)
  {
    if s != [] {
      var p, row := s[..|s| - 1], s[|s| - 1];
      assert s == p + [row];
      KeysAppend(p, row);
      KeysAtMost(p);
    }
  }

  /** The keys are those that some lookup finds. */
  lemma KeysAreFound(s: seq<Row>)
    ensures forall k: nat :: k in Keys(s) <==> Last(s, k).Some?
  {
    forall k: nat ensures k in Keys(s) <==> Last(s, k).Some? {
      LastOccurs(s, k);
    }
  }

  /** PAST overridden by DATA has one row for each key of the two. */
  lemma CollapsedSize(merged: seq<Row>, past: seq<Row>, data: seq<Row>)
    requires StrictlyAscending(merged)
    requires forall k: nat :: Last(merged, k) == if Last(data, k).Some? then Last(data, k) else Last(past, k)
    ensures |merged| == |Keys(past + data)|
  {
    KeysAtMost(merged);
    KeysAreFound(merged);
    KeysAreFound(past + data);
    forall k: nat ensures k in Keys(merged) <==> k in Keys(past + data) {
      LastConcat(past, data, k);
    }
    assert Keys(merged) == Keys(past + data);
  }

  /** PAST and DATA are two more sources, DATA the youngest. */
  lemma NewestOverMemtable(runs: seq<seq<Row>>, past: seq<Row>, data: seq<Row>, k: nat)
    ensures Newest(runs + [past, data], k) ==
      if Last(data, k).Some? then Last(data, k)
      else if Last(past, k).Some? then Last(past, k)
      else Newest(runs, k)
  {
    NewestConcat(runs, [past, data], k);
    assert [past, data][..1] == [past] && [past][..0] == [];
    assert Newest([past], k) == Last(past, k);
  }

  /** An empty source may be left out. */
  lemma NewestOfPresent(runs: seq<seq<Row>>, past: seq<Row>, data: seq<Row>, k: nat)
    ensures var older, younger := if past != [] then [past] else [], if data != [] then [data] else [];
      Newest(runs + older + younger, k) == Newest(runs + [past, data], k)
  {
    var older, younger := if past != [] then [past] else [], if data != [] then [data] else [];
    NewestOverMemtable(runs, past, data, k);
    NewestConcat(runs + older, younger, k);
    NewestConcat(runs, older, k);
    assert [data][..0] == [] && [past][..0] == [];
  }

  function Flatten(runs: seq<seq<Row>>): seq<Row> {
    if runs == [] then [] else Flatten(runs[..|runs| - 1]) + runs[|runs| - 1]
  }

  lemma {:induction false} NewestIsFlattenedLog(runs: seq<seq<Row>>, k: nat)
    ensures Newest(runs, k) == Last(Flatten(runs), k)
  {
    if runs != [] {
      NewestIsFlattenedLog(runs[..|runs| - 1], k);
      LastConcat(Flatten(runs[..|runs| - 1]), runs[|runs| - 1], k);
    }
  }

  lemma TotalOfTwo(parts: seq<seq<Row>>)
    requires |parts| == 2
    ensures Total(parts) == |parts[0]| + |parts[1]|
  {
    assert parts[..1] == [parts[0]];
    assert parts[..1][..0] == [];
    assert Total(parts[..1]) == |parts[0]|;
  }

  class Handle {
    const mem: array<Row>            // the memtable page
    var past: nat                    // PAST is mem[..past]
    var len: nat                     // DATA is mem[past..len]
    var runs: seq<seq<Row>>          // committed runs, oldest first
    var rw: bool
    var cursor: seq<Span>            // the one merged cursor: where each source reads on
    ghost var puts: seq<Row>

    ghost predicate Shape()
      reads this
    {
      past <= len <= mem.Length && 0 < mem.Length
    }

    ghost function Past(): seq<Row>
      reads this, mem
      requires Shape()
    {
      mem[..past]
    }

    ghost function Data(): seq<Row>
      reads this, mem
      requires Shape()
    {
      mem[past..len]
    }

    /** How many sources a query has to merge. */
    function Depth(): nat
      reads this
    {
      |runs| + (if 0 < past then 1 else 0) + (if past < len then 1 else 0)
    }

    ghost predicate Valid()
      reads this, mem
    {
      && Shape()
      && AllStrict(runs) && StrictlyAscending(Past()) && AllFit(cursor, mem.Length)
      && forall k: nat :: Newest(runs + [Past(), Data()], k) == Last(puts, k)
    }

    /** What the cursor has still to read, the page being what it is now. */
    ghost function Ahead(): seq<seq<Row>>
      reads this, mem
      requires AllFit(cursor, mem.Length)
    {
      Held(cursor, mem[..])
    }

    /** Open over the runs a directory holds; past the cap it is refused. */
    constructor (found: seq<seq<Row>>, rw: bool, page: nat)
      requires AllStrict(found) && |found| <= HIT_MAX_RUNS && 0 < page
      ensures Valid() && fresh(mem) && runs == found && puts == Flatten(found)
      ensures this.rw == rw && mem.Length == page && len == 0 && cursor == []
    {
      mem := new Row[page](_ => Row(0, 0));
      past, len, runs, cursor := 0, 0, found, [];
      this.rw := rw;
      puts := Flatten(found);
      new;
      forall k: nat ensures Newest(runs + [Past(), Data()], k) == Last(puts, k) {
        NewestOverMemtable(runs, Past(), Data(), k);
        NewestIsFlattenedLog(runs, k);
      }
    }

    /** A directory with more runs than the cap is refused. */
    static method Open(found: seq<seq<Row>>, rw: bool, page: nat) returns (r: Result<Handle, Failure>)
      requires AllStrict(found) && 0 < page
      ensures if HIT_MAX_RUNS < |found| then r == Err(TooManyRuns) else r.Ok?
      ensures r.Ok? ==> r.value.Valid() && fresh(r.value) && r.value.runs == found && r.value.rw == rw
      ensures r.Ok? ==> r.value.len == 0 && r.value.puts == Flatten(found)
    {
      if HIT_MAX_RUNS < |found| {
        return Err(TooManyRuns);
      }
      var h := new Handle(found, rw, page);
      r := Ok(h);
    }

    /** The page is full of different keys and there is no place for another run. */
    ghost predicate Stuck()
      reads this, mem
      requires Shape()
    {
      HIT_MAX_RUNS <= |runs| && |Keys(mem[..len])| == mem.Length
    }

    /** When an operation is refused. */
    ghost predicate Refuses(op: Op)
      reads this, mem
      requires Shape()
    {
      match op
      case OpPut(_) => !rw || Stuck()
      case OpCommit(_) => !rw || (0 < len && HIT_MAX_RUNS <= |runs|)
      case OpSeal => 0 < len && HIT_MAX_RUNS <= |runs|
      case OpMerge(m) => HIT_MAX_RUNS < m <= |runs|
      case _ => false
    }

    /** Is DATA strictly ascending already? */
    method IsClean() returns (clean: bool)
      requires Shape()
      ensures clean <==> StrictlyAscending(Data())
    {
      clean := true;
      var p := past + 1;
      while p < len
        invariant past < p && (p <= len || past == len)
        invariant forall i, j :: past <= i < j < p && j < len ==> mem[i].key < mem[j].key
      {
        if mem[p - 1].key >= mem[p].key {
          assert Data()[p - 1 - past] == mem[p - 1] && Data()[p - past] == mem[p];
          return false;
        }
        p := p + 1;
      }
    }

    /** The lane's sort, dedup and collapse. */
    method Sync(collapse: bool)
      requires Valid()
      modifies this`past, this`len, mem
      ensures Valid() && len <= old(len) && StrictlyAscending(Data())
      ensures !collapse ==> Past() == old(Past()) && SameAnswers(Data(), old(Data()))
      ensures !collapse ==> past == old(past) && (past < len <==> old(past < len))
      ensures !collapse && old(StrictlyAscending(Data())) ==> len == old(len) && mem[..] == old(mem[..])
      ensures collapse ==> Data() == [] && len == |Keys(old(mem[..len]))|
      ensures collapse ==> forall k: nat ::
        Last(Past(), k) == if old(Last(Data(), k)).Some? then old(Last(Data(), k)) else old(Last(Past(), k))
    {
      ghost var past0, data0 := Past(), Data();
      var clean := IsClean();
      if !clean {
        SortData();
      }
      if collapse {
        Collapse(past0, data0);
        CollapsedSize(Past(), past0, data0);
        assert old(mem[..len]) == past0 + data0;
      } else {
        forall k: nat ensures Newest(runs + [Past(), Data()], k) == Last(puts, k) {
          NewestOverMemtable(runs, past0, data0, k);
          NewestOverMemtable(runs, Past(), Data(), k);
        }
      }
    }

    /** InSort, Dedup, then shed what the dedup freed. */
    method SortData()
      requires Shape()
      modifies this`len, mem
      ensures Shape() && len <= old(len) && (past < len <==> old(past < len))
      ensures Past() == old(Past()) && StrictlyAscending(Data()) && SameAnswers(Data(), old(Data()))
    {
      InSort(mem, past, len);
      len := Dedup(mem, past, len);
    }

    /** Fold PAST and the sorted DATA into one PAST. */
    method Collapse(ghost past0: seq<Row>, ghost data0: seq<Row>)
      requires Shape() && AllStrict(runs) && AllFit(cursor, mem.Length)
      requires StrictlyAscending(Past()) && StrictlyAscending(Data())
      requires Past() == past0 && SameAnswers(Data(), data0)
      requires forall k: nat :: Newest(runs + [past0, data0], k) == Last(puts, k)
      modifies this`past, this`len, mem
      ensures Valid() && len <= old(len) && Data() == []
      ensures forall k: nat :: Last(Past(), k) == if Last(data0, k).Some? then Last(data0, k) else Last(past0, k)
    {
      ghost var data := Data();
      if past == 0 {
        past := len;
      } else {
        var parts := [mem[..past], mem[past..len]];
        TotalOfTwo(parts);
        var merged := Merge(parts, len);
        var rows := merged.value;
        forall i | 0 <= i < |rows| {
          mem[i] := rows[i];
        }
        past, len := |rows|, |rows|;
        assert Past() == rows;
        forall k: nat ensures Last(Past(), k) == if Last(data, k).Some? then Last(data, k) else Last(past0, k) {
          NewestOverMemtable([], past0, data, k);
          assert [] + [past0, data] == parts;
        }
      }
      forall k: nat ensures Newest(runs + [Past(), Data()], k) == Last(puts, k) {
        NewestOverMemtable(runs, past0, data0, k);
        NewestOverMemtable(runs, Past(), Data(), k);
        assert Last(data, k) == Last(data0, k);
      }
    }

    /** The query sources: runs oldest to youngest, then PAST and the synced DATA. */
    method Sources() returns (r: Result<seq<Span>, Failure>)
      requires Valid()
      modifies this`past, this`len, mem
      ensures Valid() && past == old(past) && Past() == old(Past()) && Depth() == old(Depth())
      ensures StrictlyAscending(Data())
      ensures old(StrictlyAscending(Data())) ==> len == old(len) && mem[..] == old(mem[..])
      ensures r.Err? <==> HIT_MAX_RUNS < Depth()
      ensures r.Err? ==> r.error == TooManyRuns
      ensures r.Ok? ==> AllFit(r.value, mem.Length)
      ensures r.Ok? ==> AllStrict(Held(r.value, mem[..])) && AllAscending(Held(r.value, mem[..]))
      ensures r.Ok? ==> forall k: nat :: Newest(Held(r.value, mem[..]), k) == Last(puts, k)
    {
      Sync(false);
      var spans := Runs(runs);
      if 0 < past {
        spans := spans + [Page(0, past)];
      }
      if past < len {
        spans := spans + [Page(past, len)];
      }
      if HIT_MAX_RUNS < |spans| {
        return Err(TooManyRuns);
      }
      SpansAnswer(spans);
      r := Ok(spans);
    }

    /** Runs, PAST and DATA, each if there is any, answer as the log. */
    lemma SpansAnswer(spans: seq<Span>)
      requires Valid() && StrictlyAscending(Data())
      requires spans == Runs(runs) + (if 0 < past then [Page(0, past)] else []) +
        if past < len then [Page(past, len)] else []
      ensures AllFit(spans, mem.Length) && AllStrict(Held(spans, mem[..])) && AllAscending(Held(spans, mem[..]))
      ensures forall k: nat :: Newest(Held(spans, mem[..]), k) == Last(puts, k)
    {
      var older := if 0 < past then [Past()] else [];
      var younger := if past < len then [Data()] else [];
      assert mem[..][0..past] == Past() && mem[..][past..len] == Data();
      assert Held(spans, mem[..]) == runs + older + younger;
      forall k: nat ensures Newest(runs + older + younger, k) == Last(puts, k) {
        NewestOverMemtable(runs, Past(), Data(), k);
        NewestOfPresent(runs, Past(), Data(), k);
      }
    }

    /** Point lookup: the last value put under `k`, if any. */
    method Get(k: nat) returns (r: Result<Option<nat>, Failure>)
      requires Valid()
      modifies this`past, this`len, mem
      ensures Valid() && past == old(past) && Past() == old(Past()) && StrictlyAscending(Data())
      ensures old(StrictlyAscending(Data())) ==> len == old(len) && mem[..] == old(mem[..])
      ensures Depth() == old(Depth()) && (r.Err? <==> HIT_MAX_RUNS < old(Depth()))
      ensures r.Ok? ==> r.value == Last(puts, k)
    {
      var srcs := Sources();
      if srcs.Err? {
        return Err(srcs.error);
      }
      var found := Lookup(Held(srcs.value, mem[..]), k);
      r := Ok(found);
    }

    /** Ordered scan of [lo, hi).  The callback's answer is a function of the rows it has
        been given; `stopped` says it ended the scan. */
    method Range(lo: nat, hi: nat, enough: seq<Row> -> bool)
        returns (r: Result<seq<Row>, Failure>, stopped: bool)
      requires Valid()
      modifies this`past, this`len, mem
      ensures Valid() && past == old(past) && Past() == old(Past()) && StrictlyAscending(Data())
      ensures old(StrictlyAscending(Data())) ==> len == old(len) && mem[..] == old(mem[..])
      ensures r.Err? <==> HIT_MAX_RUNS < old(Depth())
      ensures r.Ok? ==> Scanned(puts, r.value, lo, hi, stopped)
      ensures r.Ok? ==> forall n :: 0 < n <= |r.value| ==> (enough(r.value[..n]) <==> stopped && n == |r.value|)
    {
      var srcs := Sources();
      if srcs.Err? {
        return Err(srcs.error), false;
      }
      var trimmed := SeekRange(Held(srcs.value, mem[..]), lo, hi);
      var out;
      out, stopped := Drain(puts, trimmed, lo, hi, enough);
      r := Ok(out);
    }

    /** Position the handle's cursor at the first row at or past `k`. */
    method Seek(k: nat) returns (failed: bool)
      requires Valid()
      modifies this`past, this`len, this`cursor, mem
      ensures Valid() && past == old(past) && Past() == old(Past()) && StrictlyAscending(Data())
      ensures old(StrictlyAscending(Data())) ==> len == old(len) && mem[..] == old(mem[..])
      ensures failed <==> HIT_MAX_RUNS < old(Depth())
      ensures failed ==> cursor == old(cursor)
      ensures !failed ==> AllStrict(Ahead())
      ensures !failed ==> forall j: nat :: Pick(Ahead(), j) == if k <= j then Last(puts, j) else None
    {
      var srcs := Sources();
      if srcs.Err? {
        return true;
      }
      cursor := Position(srcs.value, mem[..], k);
      failed := false;
    }

    /** Pull one merged row off the cursor, which reads the page as it is now. */
    method Next() returns (row: Option<Row>)
      requires Valid()
      modifies this`cursor
      ensures Valid() && Turned(old(Ahead()), row, Ahead())
      ensures AllAscending(old(Ahead())) ==> AllAscending(Ahead())
    {
      row, cursor := Cursors.Next(cursor, mem[..]);
    }

    /** A query whose answer nobody wants. */
    method Query(op: Op)
      requires Valid() && Asks(op)
      modifies this`past, this`len, mem
      ensures Valid() && StrictlyAscending(Data())
      ensures old(StrictlyAscending(Data())) ==> mem[..] == old(mem[..])
    {
      if op.OpGet? {
        var _ := Get(op.k);
      } else {
        var _, _ := Range(op.lo, op.hi, _ => false);
      }
    }

    /** Queries on a sorted page leave it, and what the cursor has ahead, alone. */
    method Ask(ops: seq<Op>)
      requires Valid() && StrictlyAscending(Data()) && AllAsk(ops)
      modifies this`past, this`len, mem
      ensures Valid() && StrictlyAscending(Data())
      ensures mem[..] == old(mem[..]) && Ahead() == old(Ahead())
    {
      for i := 0 to |ops|
        invariant Valid() && StrictlyAscending(Data()) && mem[..] == old(mem[..])
      {
        Query(ops[i]);
      }
    }

    /** Seek, then pull until the cursor runs dry, with any queries before each pull. */
    method PullAll(k: nat, asked: nat -> seq<Op>) returns (r: Option<seq<Row>>)
      requires Valid() && OnlyAsks(asked)
      modifies this`past, this`len, this`cursor, mem
      ensures Valid()
      ensures r.None? <==> HIT_MAX_RUNS < old(Depth())
      ensures r.Some? ==> StrictlyAscending(r.value)
      ensures r.Some? ==> forall j: nat :: Last(r.value, j) == if k <= j then Last(puts, j) else None
    {
      var failed := Seek(k);
      if failed {
        return None;
      }
      var out: seq<Row> := [];
      while true
        invariant Valid() && StrictlyAscending(Data())
        invariant Pulled(puts, out, Ahead(), k)
        decreases Total(Ahead())
      {
        Ask(asked(|out|));
        ghost var before := Ahead();
        var row := Next();
        if row.None? {
          PulledDry(puts, out, before, k);
          break;
        }
        PulledMore(puts, out, before, row.value, Ahead(), k);
        out := out + [row.value];
      }
      r := Some(out);
    }

    /** Seal the memtable into the youngest run. */
    method Seal() returns (ok: bool)
      requires Valid()
      modifies this`past, this`len, this`runs, mem
      ensures Valid() && (!ok ==> runs == old(runs))
      ensures ok ==> len == 0 && |runs| <= |old(runs)| + 1
      ensures ok <==> old(len) == 0 || |old(runs)| < HIT_MAX_RUNS
    {
      KeysAreFound(mem[..len]);
      assert 0 < len ==> mem[..len][0].key in Keys(mem[..len]);
      KeysAtMost(mem[..len]);
      Sync(true);
      if past == 0 {
        return true;
      }
      if HIT_MAX_RUNS <= |runs| {
        return false;
      }
      ghost var runs0, past0 := runs, Past();
      runs := runs + [mem[..past]];
      past, len := 0, 0;
      forall k: nat ensures Newest(runs + [Past(), Data()], k) == Last(puts, k) {
        NewestOverMemtable(runs0, past0, [], k);
        NewestOverMemtable(runs, [], [], k);
        assert runs[..|runs| - 1] == runs0;
        assert Past() == [] && Data() == [];
      }
      ok := true;
    }

    /** The ladder's compaction: merge the `m` youngest runs into one, for any `m`. */
    method MergeYoungest(m: nat) returns (ok: bool)
      requires Valid() && m <= |runs|
      modifies this`runs
      ensures Valid()
      ensures ok <==> m <= HIT_MAX_RUNS
      ensures ok && 0 < m ==> |runs| == |old(runs)| - m + 1 && runs[..|old(runs)| - m] == old(runs)[..|old(runs)| - m]
      ensures !ok || m == 0 ==> runs == old(runs)
    {
      if HIT_MAX_RUNS < m {
        return false;
      }
      if m == 0 {
        return true;
      }
      var keep := runs[..|runs| - m];
      var young := runs[|runs| - m..];
      var merged := Merge(young, Total(young));
      ghost var runs0 := runs;
      runs := keep + [merged.value];
      assert runs0 == keep + young;
      forall k: nat ensures Newest(runs + [Past(), Data()], k) == Last(puts, k) {
        NewestOverMemtable(runs0, Past(), Data(), k);
        NewestOverMemtable(runs, Past(), Data(), k);
        NewestConcat(keep, young, k);
        assert runs[..|runs| - 1] == keep;
      }
      ok := true;
    }

    /** A full page collapses; still full, it is sealed into a run. */
    method MakeRoom() returns (ok: bool)
      requires Valid()
      modifies this`past, this`len, this`runs, mem
      ensures Valid() && |runs| <= |old(runs)| + 1
      ensures ok ==> len < mem.Length
      ensures ok <==> !old(Stuck())
    {
      KeysAtMost(mem[..len]);
      ok := true;
      if len == mem.Length {
        Sync(true);
      }
      if len == mem.Length {
        ok := Seal();
      }
    }

    /** Append one row; a full page makes room first, by collapsing, else by sealing. */
    method Put(row: Row) returns (r: Result<(), Failure>)
      requires Valid()
      modifies this
      modifies mem
      ensures Valid() && rw == old(rw) && cursor == old(cursor)
      ensures r.Ok? ==> puts == old(puts) + [row]
      ensures r.Err? ==> puts == old(puts)
      ensures !rw ==> r == Err(ReadOnly) && len == old(len) && runs == old(runs)
      ensures rw ==> (r.Err? <==> old(Stuck())) && (r.Err? ==> r.error == TooManyRuns)
      ensures |runs| <= |old(runs)| + 1
    {
      if !rw {
        return Err(ReadOnly);
      }
      var ok := MakeRoom();
      if !ok {
        return Err(TooManyRuns);
      }
      ghost var past0, data0 := Past(), Data();
      mem[len] := row;
      len := len + 1;
      assert Past() == past0 && Data() == data0 + [row];
      forall k: nat ensures Newest(runs + [Past(), Data()], k) == Last(puts + [row], k) {
        NewestOverMemtable(runs, past0, data0, k);
        NewestOverMemtable(runs, Past(), Data(), k);
        LastConcat(data0, [row], k);
        LastConcat(puts, [row], k);
      }
      puts := puts + [row];
      r := Ok(());
    }

    /** Seal, then let the ladder merge some suffix of the youngest runs. */
    method Commit(m: nat) returns (r: Result<(), Failure>)
      requires Valid()
      modifies this`past, this`len, this`runs, mem
      ensures Valid()
      ensures !rw ==> r == Err(ReadOnly)
      ensures rw && r.Ok? ==> len == 0
      ensures rw ==> (r.Err? <==> 0 < old(len) && HIT_MAX_RUNS <= |old(runs)|) && (r.Err? ==> r.error == TooManyRuns)
      ensures |runs| <= |old(runs)| + 1
    {
      if !rw {
        return Err(ReadOnly);
      }
      var ok := Seal();
      if !ok {
        return Err(TooManyRuns);
      }
      var suffix := if m <= |runs| then m else |runs|;
      ok := MergeYoungest(if suffix <= HIT_MAX_RUNS then suffix else HIT_MAX_RUNS);
      r := Ok(());
    }

    method Perform(op: Op) returns (refused: bool)
      requires Valid()
      modifies this
      modifies mem
      ensures Valid() && rw == old(rw) && |runs| <= |old(runs)| + 1
      ensures refused <==> old(Refuses(op))
      ensures puts == old(puts) + if op.OpPut? && !refused then [op.row] else []
    {
      refused := false;
      match op
      case OpPut(row) =>
        var r := Put(row);
        refused := r.Err?;
      case OpCommit(suffix) =>
        var r := Commit(suffix);
        refused := r.Err?;
      case OpSync(collapse) =>
        Sync(collapse);
      case OpSeal =>
        var ok := Seal();
        refused := !ok;
      case OpMerge(suffix) =>
        if suffix <= |runs| {
          var ok := MergeYoungest(suffix);
          refused := !ok;
        }
      case OpGet(_) =>
        Query(op);
      case OpRange(_, _) =>
        Query(op);
      case OpSeek(k) =>
        var _ := Seek(k);
      case OpNext =>
        var _ := Next();
    }

    /** Any run whatever, then a lookup: it finds the last accepted put of the key, else what the
        handle knew before; no maintenance step, no query and no refusal shows in the answer.
        A run too short to fill the stack has nothing refused. */
    method RunThenGet(ops: seq<Op>, k: nat) returns (refused: seq<bool>, r: Result<Option<nat>, Failure>)
      requires Valid()
      modifies this
      modifies mem
      ensures Valid() && rw == old(rw) && |refused| == |ops|
      ensures puts == old(puts) + AcceptedOf(ops, refused)
      ensures r.Err? <==> HIT_MAX_RUNS < Depth()
      ensures r.Ok? ==>
        var put := Last(AcceptedOf(ops, refused), k); r.value == if put.Some? then put else Last(old(puts), k)
      ensures rw && |old(runs)| + |ops| <= HIT_MAX_RUNS ==> forall i :: 0 <= i < |refused| ==> !refused[i]
      ensures !rw ==> forall i :: 0 <= i < |ops| && (ops[i].OpPut? || ops[i].OpCommit?) ==> refused[i]
    {
      refused := [];
      for i := 0 to |ops|
        invariant Valid() && rw == old(rw) && |refused| == i && |runs| <= |old(runs)| + i
        invariant puts == old(puts) + AcceptedOf(ops[..i], refused)
        invariant rw && |old(runs)| + |ops| <= HIT_MAX_RUNS ==> forall j :: 0 <= j < i ==> !refused[j]
        invariant !rw ==> forall j :: 0 <= j < i && (ops[j].OpPut? || ops[j].OpCommit?) ==> refused[j]
      {
        assert ops[..i + 1][..i] == ops[..i];
        ghost var before := refused;
        var failed := Perform(ops[i]);
        refused := refused + [failed];
        assert refused[..i] == before;
      }
      assert ops[..|ops|] == ops;
      r := Get(k);
      LastConcat(old(puts), AcceptedOf(ops, refused), k);
    }

    /** Once sealed, the runs alone carry every answer to the next opening. */
    method Reopen(rw: bool, page: nat) returns (h: Handle)
      requires Valid() && len == 0 && |runs| <= HIT_MAX_RUNS && 0 < page
      ensures h.Valid() && fresh(h) && h.runs == runs
      ensures SameAnswers(h.puts, puts)
    {
      h := new Handle(runs, rw, page);
      forall k: nat ensures Last(h.puts, k) == Last(puts, k) {
        NewestOverMemtable(runs, Past(), Data(), k);
        NewestIsFlattenedLog(runs, k);
      }
    }
  }
}
