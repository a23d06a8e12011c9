/** Searching a log: rows of one byte buffer, found forward and backward by offset (ulog.hpp). */
module UlogScan {
  import opened Bytes
  import opened Wrappers

  const NL: byte := 10

  datatype Rec = Rec(ts: nat, verb: nat, uri: seq<byte>)

  /** The row codec is given: what it writes for a record, what it reads at the head of some bytes
      (the record, if they parse, and how far it got), and the canonical form of a URI. */
  datatype Codec = Codec(
    encode: Rec -> seq<byte>,
    drain: seq<byte> -> (Option<Rec>, nat),
    canon: seq<byte> -> Option<seq<byte>>)

  datatype Row = Row(text: seq<byte>, rec: Rec)

  /** Some bytes and then the only newline. */
  predicate IsLine(text: seq<byte>) {
    |text| > 1 && text[|text| - 1] == NL && forall i :: 0 <= i < |text| - 1 ==> text[i] != NL
  }

  ghost predicate IsRow(c: Codec, r: Row) {
    IsLine(r.text) && forall rest :: c.drain(r.text + rest) == (Some(r.rec), |r.text|)
  }

  /** The reader stays inside its bytes, and reads what the writer wrote. */
  ghost predicate Faithful(c: Codec) {
    && (forall s :: c.drain(s).1 <= |s|)
    && forall ts, verb, uri :: c.canon(uri).Some? ==>
         var rec := Rec(ts, verb, c.canon(uri).value); IsRow(c, Row(c.encode(rec), rec))
  }

  ghost predicate AllRows(c: Codec, rows: seq<Row>) {
    forall i :: 0 <= i < |rows| ==> IsRow(c, rows[i])
  }

  function Text(rows: seq<Row>): seq<byte> {
    if rows == [] then [] else rows[0].text + Text(rows[1..])
  }

  /** Where row i starts. */
  function Start(rows: seq<Row>, i: nat): nat
    requires i <= |rows|
  {
    if i == 0 then 0 else Start(rows, i - 1) + |rows[i - 1].text|
  }

  lemma {:induction false} TextConcat(a: seq<Row>, b: seq<Row>)
    ensures Text(a + b) == Text(a) + Text(b)
  {
    if a == [] {
      assert a + b == b;
    } else {
      assert (a + b)[1..] == a[1..] + b;
      TextConcat(a[1..], b);
    }
  }

  /** The rows from i on are the bytes from where row i starts. */
  lemma {:induction false} TextFrom(rows: seq<Row>, i: nat)
    requires i <= |rows|
    ensures Start(rows, i) + |Text(rows[i..])| == |Text(rows)|
    ensures Text(rows)[Start(rows, i)..] == Text(rows[i..])
    decreases i
  {
    if i == 0 {
      assert rows[0..] == rows;
    } else {
      TextFrom(rows, i - 1);
      var from := rows[i - 1..];
      assert from[1..] == rows[i..];
      assert Text(rows)[Start(rows, i - 1)..][|from[0].text|..] == Text(rows[i..]);
    }
  }

  /** Row i lies between its start and the next row's. */
  lemma RowLies(rows: seq<Row>, i: nat)
    requires i < |rows|
    ensures Start(rows, i + 1) == Start(rows, i) + |rows[i].text| <= |Text(rows)| == Start(rows, |rows|)
    ensures Text(rows)[Start(rows, i)..] == rows[i].text + Text(rows[i + 1..])
    ensures Text(rows)[Start(rows, i)..Start(rows, i + 1)] == rows[i].text
  {
    TextFrom(rows, |rows|);
    TextFrom(rows, i);
    assert rows[i..][1..] == rows[i + 1..];
    assert Text(rows)[Start(rows, i)..][..|rows[i].text|] == rows[i].text;
  }

  // ----- What a search asks -----

  /** Verb equal; time from t on, or up to t backward; URI prefix. */
  datatype Query = Verb(v: nat) | Time(t: nat) | Uri(prefix: seq<byte>)

  /** A URI too long for the scratch buffer reads as empty. */
  function Shown(uri: seq<byte>): seq<byte> { if |uri| <= 2048 then uri else [] }

  predicate Hits(q: Query, rev: bool, r: Rec) {
    match q
    case Verb(v) => r.verb == v
    case Time(t) => if rev then r.ts <= t else t <= r.ts
    case Uri(prefix) => prefix <= Shown(r.uri)
  }

  // ----- The scans, on any bytes -----

  predicate LineStart(base: seq<byte>, j: nat)
    requires j <= |base|
  {
    j == 0 || base[j - 1] == NL
  }

  /** `JABCulogPrevRow`: the last line start before `off`. */
  method PrevRow(base: seq<byte>, off: nat) returns (r: Option<nat>)
    requires off <= |base|
    ensures r.None? <==> off == 0
    ensures r.Some? ==> r.value < off && LineStart(base, r.value)
    ensures r.Some? ==> forall j :: r.value < j < off ==> !LineStart(base, j)
    ensures r == LastStart(base, off)
  {
    if off == 0 {
      return None;
    }
    var j := off - 1;
    while j > 0 && base[j - 1] != NL
      invariant 0 <= j < off && forall k :: j < k < off ==> !LineStart(base, k)
    {
      j := j - 1;
    }
    LastStartIs(base, off, j);
    r := Some(j);
  }

  function LastStart(base: seq<byte>, off: nat): (r: Option<nat>)
    requires off <= |base|
    ensures r.Some? <==> 0 < off
    ensures r.Some? ==> r.value < off
  {
    if off == 0 then None else if LineStart(base, off - 1) then Some(off - 1) else LastStart(base, off - 1)
  }

  lemma {:induction false} LastStartIs(base: seq<byte>, off: nat, j: nat)
    requires j < off <= |base| && LineStart(base, j) && forall k :: j < k < off ==> !LineStart(base, k)
    ensures LastStart(base, off) == Some(j)
  {
    if j < off - 1 {
      LastStartIs(base, off - 1, j);
    }
  }

  function Forward(c: Codec, base: seq<byte>, off: nat, dl: nat, q: Query): (r: Option<nat>)
    requires dl <= |base|
    ensures r.Some? ==> off <= r.value < dl
    decreases dl - off
  {
    if dl <= off then None
    else
      var (rec, n) := c.drain(base[off..dl]);
      if rec.Some? && Hits(q, false, rec.value) then Some(off)
      else if n == 0 then None
      else Forward(c, base, off + n, dl, q)
  }

  function Backward(c: Codec, base: seq<byte>, off: nat, dl: nat, q: Query): (r: Option<nat>)
    requires off <= dl <= |base|
    ensures r.Some? ==> r.value < off
  {
    match LastStart(base, off)
    case None => None
    case Some(rs) =>
      var (rec, _) := c.drain(base[rs..dl]);
      if rec.Some? && Hits(q, true, rec.value) then Some(rs) else Backward(c, base, rs, dl, q)
  }

  /** `JABCulogScan`. */
  method Scan(c: Codec, base: seq<byte>, off: nat, dl: nat, rev: bool, q: Query) returns (r: Option<nat>)
    requires off <= dl <= |base| && Faithful(c)
    ensures r == if rev then Backward(c, base, off, dl, q) else Forward(c, base, off, dl, q)
  {
    var cur := off;
    if !rev {
      while cur < dl
        invariant off <= cur <= dl && Forward(c, base, off, dl, q) == Forward(c, base, cur, dl, q)
      {
        var (rec, n) := c.drain(base[cur..dl]);
        var end := cur + n;
        if rec.Some? && Hits(q, false, rec.value) {
          return Some(cur);
        }
        if end <= cur {
          break;
        }
        cur := end;
      }
    } else {
      while cur > 0
        invariant 0 <= cur <= off && Backward(c, base, off, dl, q) == Backward(c, base, cur, dl, q)
      {
        var rs := PrevRow(base, cur);
        if rs.None? || rs.value >= cur {
          break;
        }
        var (rec, _) := c.drain(base[rs.value..dl]);
        if rec.Some? && Hits(q, true, rec.value) {
          return rs;
        }
        cur := rs.value;
      }
    }
    r := None;
  }

  // ----- The scans, on a log -----

  /** The first matching row from i on, or |rows|. */
  function NextHit(rows: seq<Row>, i: nat, q: Query): (k: nat)
    requires i <= |rows|
    ensures i <= k <= |rows| && (k < |rows| ==> Hits(q, false, rows[k].rec))
    ensures forall j :: i <= j < k ==> !Hits(q, false, rows[j].rec)
    decreases |rows| - i
  {
    if i == |rows| || Hits(q, false, rows[i].rec) then i else NextHit(rows, i + 1, q)
  }

  /** The last matching row before i, or -1. */
  function PrevHit(rows: seq<Row>, i: nat, q: Query): (k: int)
    requires i <= |rows|
    ensures -1 <= k < i && (0 <= k ==> Hits(q, true, rows[k].rec))
    ensures forall j :: k < j < i ==> !Hits(q, true, rows[j].rec)
  {
    if i == 0 then -1 else if Hits(q, true, rows[i - 1].rec) then i - 1 else PrevHit(rows, i - 1, q)
  }

  /** The bytes up to dl are these rows. */
  ghost predicate IsLog(c: Codec, base: seq<byte>, dl: nat, rows: seq<Row>) {
    dl <= |base| && base[..dl] == Text(rows) && AllRows(c, rows)
  }

  lemma RowSpans(c: Codec, rows: seq<Row>, i: nat)
    requires AllRows(c, rows) && i < |rows|
    ensures Start(rows, i) + 1 < Start(rows, i + 1) <= |Text(rows)| == Start(rows, |rows|)
  {
    RowLies(rows, i);
    assert IsRow(c, rows[i]);
  }

  lemma RowDrains(c: Codec, base: seq<byte>, dl: nat, rows: seq<Row>, i: nat)
    requires IsLog(c, base, dl, rows) && i < |rows|
    ensures Start(rows, i) < Start(rows, i + 1) <= dl
    ensures c.drain(base[Start(rows, i)..dl]) == (Some(rows[i].rec), Start(rows, i + 1) - Start(rows, i))
  {
    RowLies(rows, i);
    assert IsRow(c, rows[i]);
    assert base[Start(rows, i)..dl] == Text(rows)[Start(rows, i)..];
  }

  /** Forward from a row's start: the first match from that row on. */
  lemma {:induction false} ForwardFinds(c: Codec, base: seq<byte>, dl: nat, rows: seq<Row>, i: nat, q: Query)
    requires IsLog(c, base, dl, rows) && i <= |rows|
    ensures Start(rows, i) <= dl
    ensures var k := NextHit(rows, i, q);
      Forward(c, base, Start(rows, i), dl, q) == if k == |rows| then None else Some(Start(rows, k))
    decreases |rows| - i
  {
    if i == |rows| {
      TextFrom(rows, i);
    } else {
      RowDrains(c, base, dl, rows, i);
      ForwardFinds(c, base, dl, rows, i + 1, q);
    }
  }

  /** The bytes of row i, in place: its newline ends it, and it holds no other. */
  lemma RowBytes(c: Codec, base: seq<byte>, dl: nat, rows: seq<Row>, i: nat)
    requires IsLog(c, base, dl, rows) && i < |rows|
    ensures var (at, end) := (Start(rows, i), Start(rows, i + 1));
      && at + 1 < end <= dl && base[end - 1] == NL
      && forall p :: at <= p < end - 1 ==> base[p] != NL
  {
    RowSpans(c, rows, i);
    RowLies(rows, i);
    InPlace(base, Text(rows), Start(rows, i), rows[i].text);
    assert IsRow(c, rows[i]);
  }

  lemma InPlace(base: seq<byte>, whole: seq<byte>, at: nat, text: seq<byte>)
    requires whole <= base && at + |text| <= |whole| && whole[at..at + |text|] == text
    ensures forall p :: at <= p < at + |text| ==> base[p] == text[p - at]
  {
    forall p | at <= p < at + |text| ensures base[p] == text[p - at] {
      assert whole[at..at + |text|][p - at] == whole[p];
    }
  }

  /** The row an offset falls in, or ends. */
  lemma PrevRowFinds(c: Codec, base: seq<byte>, dl: nat, rows: seq<Row>, i: nat, off: nat)
    requires IsLog(c, base, dl, rows) && i < |rows| && Start(rows, i) < off <= Start(rows, i + 1)
    ensures off <= dl && LastStart(base, off) == Some(Start(rows, i))
  {
    RowBytes(c, base, dl, rows, i);
    if i > 0 {
      RowBytes(c, base, dl, rows, i - 1);
    }
    LastStartIs(base, off, Start(rows, i));
  }

  /** Backward from an offset in row i - 1, or at its end: the last match up to that row. */
  lemma {:induction false} BackwardFinds(
      c: Codec, base: seq<byte>, dl: nat, rows: seq<Row>, i: nat, off: nat, q: Query)
    requires IsLog(c, base, dl, rows) && i <= |rows|
    requires if i == 0 then off == 0 else Start(rows, i - 1) < off <= Start(rows, i)
    ensures off <= dl
    ensures var k := PrevHit(rows, i, q);
      Backward(c, base, off, dl, q) == if k < 0 then None else Some(Start(rows, k))
    decreases i
  {
    if i > 0 {
      PrevRowFinds(c, base, dl, rows, i - 1, off);
      RowDrains(c, base, dl, rows, i - 1);
      if i > 1 {
        RowDrains(c, base, dl, rows, i - 2);
      }
      BackwardFinds(c, base, dl, rows, i - 1, Start(rows, i - 1), q);
    }
  }

  // ----- What each search finds -----

  /** Row k is the first from i on of which `p` says yes; or none is. */
  ghost predicate FirstFrom(rows: seq<Row>, i: nat, k: nat, p: Rec -> bool) {
    i <= k <= |rows| && (k < |rows| ==> p(rows[k].rec)) && forall j :: i <= j < k ==> !p(rows[j].rec)
  }

  /** Row k is the last before i; or none is. */
  ghost predicate LastBefore(rows: seq<Row>, i: nat, k: int, p: Rec -> bool) {
    -1 <= k < i <= |rows| && (0 <= k ==> p(rows[k].rec)) && forall j :: k < j < i ==> !p(rows[j].rec)
  }

  /** The search for a verb finds the next, or the last, row of just that verb. */
  lemma VerbFinds(c: Codec, base: seq<byte>, dl: nat, rows: seq<Row>, i: nat, v: nat) returns (k: nat, m: int)
    requires IsLog(c, base, dl, rows) && i <= |rows|
    ensures Start(rows, i) <= dl
    ensures FirstFrom(rows, i, k, (r: Rec) => r.verb == v)
    ensures Forward(c, base, Start(rows, i), dl, Verb(v)) == if k == |rows| then None else Some(Start(rows, k))
    ensures LastBefore(rows, i, m, (r: Rec) => r.verb == v)
    ensures Backward(c, base, Start(rows, i), dl, Verb(v)) == if m < 0 then None else Some(Start(rows, m))
  {
    k, m := NextHit(rows, i, Verb(v)), PrevHit(rows, i, Verb(v));
    SearchFinds(c, base, dl, rows, i, Verb(v));
  }

  /** What a URI search reads as starting with the prefix: a URI too long reads as empty. */
  predicate StartsWith(prefix: seq<byte>, r: Rec) {
    if |r.uri| <= 2048 then prefix <= r.uri else prefix == []
  }

  lemma UriHits(prefix: seq<byte>, rev: bool, r: Rec)
    ensures Hits(Uri(prefix), rev, r) <==> StartsWith(prefix, r)
  {
  }

  /** The search for a URI prefix finds the next, or the last, row whose URI starts with it; a URI of
      more than 2048 bytes reads as the empty one. */
  lemma UriFinds(c: Codec, base: seq<byte>, dl: nat, rows: seq<Row>, i: nat, prefix: seq<byte>)
      returns (k: nat, m: int)
    requires IsLog(c, base, dl, rows) && i <= |rows|
    ensures FirstFrom(rows, i, k, r => StartsWith(prefix, r)) && LastBefore(rows, i, m, r => StartsWith(prefix, r))
    ensures Start(rows, i) <= dl
    ensures Forward(c, base, Start(rows, i), dl, Uri(prefix)) == if k == |rows| then None else Some(Start(rows, k))
    ensures Backward(c, base, Start(rows, i), dl, Uri(prefix)) == if m < 0 then None else Some(Start(rows, m))
  {
    k, m := NextHit(rows, i, Uri(prefix)), PrevHit(rows, i, Uri(prefix));
    SearchFinds(c, base, dl, rows, i, Uri(prefix));
    forall j: nat, rev | j < |rows| ensures Hits(Uri(prefix), rev, rows[j].rec) <==> StartsWith(prefix, rows[j].rec) {
      UriHits(prefix, rev, rows[j].rec);
    }
  }

  lemma SearchFinds(c: Codec, base: seq<byte>, dl: nat, rows: seq<Row>, i: nat, q: Query)
    requires IsLog(c, base, dl, rows) && i <= |rows|
    ensures Start(rows, i) <= dl
    ensures var k := NextHit(rows, i, q);
      Forward(c, base, Start(rows, i), dl, q) == if k == |rows| then None else Some(Start(rows, k))
    ensures var m := PrevHit(rows, i, q);
      Backward(c, base, Start(rows, i), dl, q) == if m < 0 then None else Some(Start(rows, m))
  {
    ForwardFinds(c, base, dl, rows, i, q);
    if i > 0 {
      RowSpans(c, rows, i - 1);
    }
    BackwardFinds(c, base, dl, rows, i, Start(rows, i), q);
  }

  /** Bytes that are no row are passed over, as far as the reader got with them; where it got nowhere
      the forward search gives up, and the backward one goes on from the line before. */
  lemma BadRowPassed(c: Codec, base: seq<byte>, off: nat, dl: nat, q: Query)
    requires Faithful(c) && off < dl <= |base| && c.drain(base[off..dl]).0.None?
    ensures var n := c.drain(base[off..dl]).1;
      Forward(c, base, off, dl, q) == if n == 0 then None else Forward(c, base, off + n, dl, q)
    ensures forall end: nat :: end <= dl && LastStart(base, end) == Some(off) ==>
      Backward(c, base, end, dl, q) == Backward(c, base, off, dl, q)
  {
  }

  // ----- Walking through all the matches -----

  /** Seek, then seek again from the end of the row found. */
  function Forwards(c: Codec, base: seq<byte>, off: nat, dl: nat, q: Query): seq<nat>
    requires dl <= |base|
    decreases dl - off
  {
    match Forward(c, base, off, dl, q)
    case None => []
    case Some(o) =>
      var (_, n) := c.drain(base[o..dl]);
      if n == 0 then [o] else [o] + Forwards(c, base, o + n, dl, q)
  }

  /** Seek back, then again from where the row found starts, or from one byte before. */
  function Backwards(c: Codec, base: seq<byte>, off: nat, dl: nat, q: Query, less: nat -> bool): seq<nat>
    requires off <= dl <= |base|
  {
    match Backward(c, base, off, dl, q)
    case None => []
    case Some(o) => if o == 0 then [0] else [o] + Backwards(c, base, if less(o) then o - 1 else o, dl, q, less)
  }

  /** Where the matching rows start, of those from i to j. */
  function Found(rows: seq<Row>, i: nat, j: nat, q: Query): seq<nat>
    requires i <= j <= |rows|
    decreases j - i
  {
    if i == j then []
    else if Hits(q, false, rows[i].rec) then [Start(rows, i)] + Found(rows, i + 1, j, q)
    else Found(rows, i + 1, j, q)
  }

  function Reversed(s: seq<nat>): seq<nat> {
    if s == [] then [] else Reversed(s[1..]) + [s[0]]
  }

  /** A row that matches is listed, one that does not is passed over; the seeks go on behind it. */
  lemma ForwardsRow(c: Codec, base: seq<byte>, off: nat, dl: nat, q: Query, rec: Rec, next: nat, rest: seq<nat>)
    requires off < dl <= |base| && off < next && c.drain(base[off..dl]) == (Some(rec), next - off)
    requires rest == Forwards(c, base, next, dl, q)
    ensures Forwards(c, base, off, dl, q) == if Hits(q, false, rec) then [off] + rest else rest
  {
    if !Hits(q, false, rec) {
      assert Forward(c, base, off, dl, q) == Forward(c, base, next, dl, q);
    }
  }

  lemma NoneBehind(c: Codec, base: seq<byte>, off: nat, dl: nat, q: Query)
    requires dl <= off && dl <= |base|
    ensures Forwards(c, base, off, dl, q) == []
  {
  }

  /** Seeking forward over and over finds every match. */
  lemma {:induction false} ForwardsFind(
      c: Codec, base: seq<byte>, dl: nat, rows: seq<Row>, i: nat, off: nat, q: Query) returns (found: seq<nat>)
    requires IsLog(c, base, dl, rows) && i <= |rows| && off == Start(rows, i)
    ensures found == Forwards(c, base, off, dl, q) && found == Found(rows, i, |rows|, q)
    decreases |rows| - i
  {
    if i == |rows| {
      TextFrom(rows, i);
      NoneBehind(c, base, off, dl, q);
      found := [];
    } else {
      var next := Start(rows, i + 1);
      RowDrains(c, base, dl, rows, i);
      var rest := ForwardsFind(c, base, dl, rows, i + 1, next, q);
      ForwardsRow(c, base, off, dl, q, rows[i].rec, next, rest);
      found := if Hits(q, false, rows[i].rec) then [off] + rest else rest;
    }
  }

  lemma {:induction false} FoundLast(rows: seq<Row>, i: nat, j: nat, q: Query)
    requires i < j <= |rows|
    ensures var before := Found(rows, i, j - 1, q);
      Found(rows, i, j, q) == if Hits(q, false, rows[j - 1].rec) then before + [Start(rows, j - 1)] else before
    decreases j - i
  {
    if i < j - 1 {
      FoundLast(rows, i + 1, j, q);
    }
  }

  lemma {:induction false} ReversedLast(s: seq<nat>, x: nat)
    ensures Reversed(s + [x]) == [x] + Reversed(s)
  {
    if s == [] {
      assert [] + [x] == [x] && [x][1..] == [];
    } else {
      assert (s + [x])[1..] == s[1..] + [x];
      ReversedLast(s[1..], x);
    }
  }

  /** A search that asks the same both ways. */
  predicate SameBothWays(q: Query) { !q.Time? }

  lemma {:induction false} FoundUpTo(rows: seq<Row>, i: nat, q: Query)
    requires i <= |rows| && SameBothWays(q)
    ensures var k := PrevHit(rows, i, q);
      Reversed(Found(rows, 0, i, q)) == if k < 0 then [] else [Start(rows, k)] + Reversed(Found(rows, 0, k, q))
  {
    if i > 0 {
      FoundLast(rows, 0, i, q);
      var before := Found(rows, 0, i - 1, q);
      if Hits(q, true, rows[i - 1].rec) {
        ReversedLast(before, Start(rows, i - 1));
      } else {
        FoundUpTo(rows, i - 1, q);
      }
    }
  }

  /** One seek back, and on. */
  lemma BackwardsStep(c: Codec, base: seq<byte>, off: nat, dl: nat, q: Query, less: nat -> bool, next: nat)
    requires off <= dl <= |base| && Backward(c, base, off, dl, q).Some?
    requires var o := Backward(c, base, off, dl, q).value; 0 < o && next == if less(o) then o - 1 else o
    ensures next <= dl
    ensures Backwards(c, base, off, dl, q, less)
         == [Backward(c, base, off, dl, q).value] + Backwards(c, base, next, dl, q, less)
  {
  }

  lemma {:induction false} BackwardsFind(
      c: Codec, base: seq<byte>, dl: nat, rows: seq<Row>, i: nat, off: nat, q: Query, less: nat -> bool)
    requires IsLog(c, base, dl, rows) && i <= |rows| && SameBothWays(q)
    requires if i == 0 then off == 0 else Start(rows, i - 1) < off <= Start(rows, i)
    ensures off <= dl && Backwards(c, base, off, dl, q, less) == Reversed(Found(rows, 0, i, q))
    decreases i
  {
    var k := PrevHit(rows, i, q);
    BackwardFinds(c, base, dl, rows, i, off, q);
    FoundUpTo(rows, i, q);
    if k > 0 {
      var o := Start(rows, k);
      RowSpans(c, rows, k - 1);
      var next := if less(o) then o - 1 else o;
      BackwardsFind(c, base, dl, rows, k, next, q, less);
      BackwardsStep(c, base, off, dl, q, less, next);
    }
  }

  /** Reverse seeks from the end, however each steps on, list exactly the reverse of the forward
      seeks from the start. */
  lemma BackwardsReverseForwards(c: Codec, base: seq<byte>, dl: nat, rows: seq<Row>, q: Query, less: nat -> bool)
    requires IsLog(c, base, dl, rows) && SameBothWays(q)
    ensures Backwards(c, base, dl, dl, q, less) == Reversed(Forwards(c, base, 0, dl, q))
  {
    var found := ForwardsFind(c, base, dl, rows, 0, 0, q);
    if rows != [] {
      RowSpans(c, rows, |rows| - 1);
    }
    BackwardsFind(c, base, dl, rows, |rows|, dl, q, less);
  }

  // ----- Times -----

  ghost predicate Ascending(rows: seq<Row>) {
    forall i, j :: 0 <= i < j < |rows| ==> rows[i].rec.ts < rows[j].rec.ts
  }

  /** The first k rows, and no others, are earlier than t. */
  ghost predicate Bounds(rows: seq<Row>, k: nat, t: nat) {
    forall i :: 0 <= i < |rows| ==> (rows[i].rec.ts < t <==> i < k)
  }

  /** Among ascending stamps the forward time search is a lower bound: everything before what it
      finds is earlier, everything from there on is not. */
  lemma SeekTimeIsLowerBound(c: Codec, base: seq<byte>, dl: nat, rows: seq<Row>, t: nat) returns (k: nat)
    requires IsLog(c, base, dl, rows) && Ascending(rows)
    ensures k <= |rows| && Forward(c, base, 0, dl, Time(t)) == if k == |rows| then None else Some(Start(rows, k))
    ensures Bounds(rows, k, t)
  {
    k := NextHit(rows, 0, Time(t));
    ForwardFinds(c, base, dl, rows, 0, Time(t));
    forall i | 0 <= i < |rows| ensures rows[i].rec.ts < t <==> i < k {
      assert i < k ==> !Hits(Time(t), false, rows[i].rec);
      assert k < i ==> rows[k].rec.ts < rows[i].rec.ts;
    }
  }

  /** The backward one, from the end, finds the row just before the lower bound, or the row of
      that very time. */
  lemma SeekTimeRevMeets(c: Codec, base: seq<byte>, dl: nat, rows: seq<Row>, t: nat, k: nat)
    requires IsLog(c, base, dl, rows) && Ascending(rows)
    requires k <= |rows| && Bounds(rows, k, t)
    ensures Backward(c, base, dl, dl, Time(t)) ==
      if k < |rows| && rows[k].rec.ts == t then Some(Start(rows, k))
      else if k == 0 then None else Some(Start(rows, k - 1))
  {
    var n := |rows|;
    if rows != [] {
      RowSpans(c, rows, n - 1);
    }
    BackwardFinds(c, base, dl, rows, n, dl, Time(t));
    var p := PrevHit(rows, n, Time(t));
    assert 0 <= p ==> rows[p].rec.ts <= t;
    assert forall j :: p < j < n ==> !Hits(Time(t), true, rows[j].rec);
    assert forall j :: k < j < n ==> t <= rows[k].rec.ts < rows[j].rec.ts;
    assert 0 < k ==> Hits(Time(t), true, rows[k - 1].rec);
    assert k < n && rows[k].rec.ts == t ==> Hits(Time(t), true, rows[k].rec);
  }

  lemma LaterAscends(rows: seq<Row>, row: Row)
    requires Ascending(rows) && (rows != [] ==> rows[|rows| - 1].rec.ts < row.rec.ts)
    ensures Ascending(rows + [row])
  {
  }

  // ----- Feeding -----

  /** A log buffer and the clock its appends keep. */
  class Log {
    const codec: Codec
    const buf: array<byte>
    var watermark: nat
    var lastTs: Option<nat>
    ghost var rows: seq<Row>

    constructor (codec: Codec, buf: array<byte>)
      requires Faithful(codec)
      ensures Valid() && this.codec == codec && this.buf == buf && rows == []
    {
      this.codec, this.buf := codec, buf;
      watermark, lastTs, rows := 0, None, [];
    }

    ghost predicate Valid()
      reads this, buf
    {
      && Faithful(codec) && IsLog(codec, buf[..], watermark, rows) && Ascending(rows)
      && (rows != [] ==> lastTs.Some? && rows[|rows| - 1].rec.ts <= lastTs.value)
    }

    /** `feed`: the stamp is bumped past the last one, then the row is appended, unless the URI is
        malformed or there is no room.  (The bumped stamp is kept even then.) */
    method Feed(verb: nat, uri: seq<byte>, ts: nat) returns (off: Option<nat>)
      requires Valid()
      modifies this, buf
      ensures Valid() && lastTs.Some?
      ensures var t := if old(lastTs).Some? && ts <= old(lastTs).value then old(lastTs).value + 1 else ts;
        && lastTs.value == t
        && match codec.canon(uri)
           case None => off.None? && rows == old(rows)
           case Some(canonical) =>
             var rec := Rec(t, verb, canonical);
             if old(watermark) + |codec.encode(rec)| <= buf.Length
             then off == Some(old(watermark)) && rows == old(rows) + [Row(codec.encode(rec), rec)]
             else off.None? && rows == old(rows)
    {
      var t := ts;
      if lastTs.Some? && t <= lastTs.value {
        t := lastTs.value + 1;
      }
      lastTs := Some(t);
      var canonical := codec.canon(uri);
      if canonical.None? {
        return None;
      }
      var rec := Rec(t, verb, canonical.value);
      var text := codec.encode(rec);
      if watermark + |text| > buf.Length {
        return None;
      }
      assert IsRow(codec, Row(text, rec));
      off := Some(watermark);
      LaterAscends(rows, Row(text, rec));
      Append(Row(text, rec));
    }

    method Append(row: Row)
      requires Faithful(codec) && IsLog(codec, buf[..], watermark, rows) && IsRow(codec, row)
      requires watermark + |row.text| <= buf.Length
      modifies this`watermark, this`rows, buf
      ensures rows == old(rows) + [row] && IsLog(codec, buf[..], watermark, rows)
    {
      var at := watermark;
      ghost var before := buf[..at];
      forall j | at <= j < at + |row.text| {
        buf[j] := row.text[j - at];
      }
      watermark := at + |row.text|;
      TextConcat(rows, [row]);
      assert [row][1..] == [] && Text([row]) == row.text;
      assert buf[..watermark] == before + row.text;
      rows := rows + [row];
    }

    /** seekTime over a log that was only ever fed: a true lower bound. */
    method SeekTime(t: nat) returns (r: Option<nat>)
      requires Valid()
      ensures r.None? <==> forall i :: 0 <= i < |rows| ==> rows[i].rec.ts < t
      ensures r.Some? ==> exists k :: 0 <= k < |rows| && r.value == Start(rows, k) && Bounds(rows, k, t)
    {
      r := Scan(codec, buf[..], 0, watermark, false, Time(t));
      ghost var k := SeekTimeIsLowerBound(codec, buf[..], watermark, rows, t);
    }
  }
}
