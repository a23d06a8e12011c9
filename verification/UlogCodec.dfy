/** The searches and the stamps of a log take its row codec as given.  This is one such codec, so
    what they state holds of logs that have rows: numbers are counted out in marks, each field but
    the last ends with a stop, and a URI is any bytes without a newline. */
module UlogCodec {
  import opened Bytes
  import opened UlogScan
  import opened Wrappers

  const MARK: byte := 1
  const STOP: byte := 2

  function Marks(n: nat): (s: seq<byte>)
    ensures |s| == n && forall i :: 0 <= i < n ==> s[i] == MARK
  {
    seq(n, _ => MARK)
  }

  function Encode(r: Rec): seq<byte> {
    Marks(r.ts) + [STOP] + (Marks(r.verb) + [STOP] + (r.uri + [NL]))
  }

  datatype Halves = Halves(before: seq<byte>, after: seq<byte>)

  /** What comes before and after the first `b`. */
  function Cut(s: seq<byte>, b: byte): (r: Option<Halves>)
    ensures r.Some? ==> |r.value.before| + 1 + |r.value.after| == |s|
  {
    if s == [] then None
    else if s[0] == b then Some(Halves([], s[1..]))
    else
      var r := Cut(s[1..], b);
      if r.None? then None else Some(Halves([s[0]] + r.value.before, r.value.after))
  }

  function Drain(s: seq<byte>): (r: (Option<Rec>, nat))
    ensures r.1 <= |s|
  {
    var ts := Cut(s, STOP);
    if ts.None? then (None, 0)
    else
      var verb := Cut(ts.value.after, STOP);
      if verb.None? then (None, 0)
      else
        var uri := Cut(verb.value.after, NL);
        if uri.None? then (None, 0)
        else (Some(Rec(|ts.value.before|, |verb.value.before|, uri.value.before)), |s| - |uri.value.after|)
  }

  function Canon(uri: seq<byte>): Option<seq<byte>> { if NL in uri then None else Some(uri) }

  lemma {:induction false} CutAt(a: seq<byte>, b: byte, rest: seq<byte>)
    requires b !in a
    ensures Cut(a + [b] + rest, b) == Some(Halves(a, rest))
  {
    var s := a + [b] + rest;
    if a == [] {
      assert s[1..] == rest;
    } else {
      assert s[1..] == a[1..] + [b] + rest;
      CutAt(a[1..], b, rest);
      assert [s[0]] + a[1..] == a;
    }
  }

  lemma Regroup(a: seq<byte>, b: seq<byte>, c: seq<byte>)
    ensures a + (b + c) == a + b + c
  {
  }

  lemma ReadsBack(r: Rec, rest: seq<byte>)
    requires NL !in r.uri
    ensures Drain(Encode(r) + rest) == (Some(r), |Encode(r)|)
  {
    var a, b, d := Marks(r.ts) + [STOP], Marks(r.verb) + [STOP], r.uri + [NL];
    Regroup(a, b + d, rest);
    Regroup(b, d, rest);
    CutAt(Marks(r.ts), STOP, b + (d + rest));
    CutAt(Marks(r.verb), STOP, d + rest);
    CutAt(r.uri, NL, rest);
  }

  /** It reads what it wrote, and takes every URI without a newline. */
  lemma SomeCodecIsFaithful()
    ensures var c := Codec(Encode, Drain, Canon);
      Faithful(c) && forall uri :: NL !in uri ==> c.canon(uri) == Some(uri)
  {
    var c := Codec(Encode, Drain, Canon);
    forall ts, verb, uri | c.canon(uri).Some?
      ensures var rec := Rec(ts, verb, c.canon(uri).value); IsRow(c, Row(c.encode(rec), rec))
    {
      var rec := Rec(ts, verb, uri);
      assert IsLine(Encode(rec));
      forall rest ensures c.drain(Encode(rec) + rest) == (Some(rec), |Encode(rec)|) {
        ReadsBack(rec, rest);
      }
    }
  }
}
