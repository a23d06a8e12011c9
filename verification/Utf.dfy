/** UTF-16 strings to UTF-8 bytes and back, as utf8.cpp converts them.  The byte forms are those of
    section 3 of RFC 3629, the surrogate pairs those of sections 2.1 and 2.2 of RFC 2781. */
module Utf {
  import opened Bytes
  import opened Wrappers

  type Unit = u: int | 0 <= u < 0x10000

  predicate IsHigh(u: int) { 0xD800 <= u <= 0xDBFF }

  predicate IsLow(u: int) { 0xDC00 <= u <= 0xDFFF }

  /** A code point that text can hold. */
  predicate IsScalar(cp: int) { 0 <= cp <= 0x10FFFF && !IsHigh(cp) && !IsLow(cp) }

  type Scalar = cp: int | 0 <= cp < 0xD800 || 0xE000 <= cp <= 0x10FFFF

  const REPLACEMENT: Scalar := 0xFFFD

  // ----- One code point -----

  function Byte(b: int): byte
    requires 0 <= b < 256
  {
    b
  }

  /** Six bits of a code point, from bit 6 * k on. */
  function Six(cp: int, k: nat): (b: int)
    requires 0 <= cp && k <= 3
    ensures 0 <= b < 64
  {
    if k == 0 then cp % 64
    else if k == 1 then cp / 64 % 64
    else if k == 2 then cp / 64 / 64 % 64
    else cp / 64 / 64 / 64 % 64
  }

  function Tail(cp: Scalar, k: nat): byte
    requires k <= 3
  {
    Byte(0x80 + Six(cp, k))
  }

  function Utf8(cp: Scalar): (b: seq<byte>)
    ensures 1 <= |b| <= 4 && (|b| == 4 <==> 0x10000 <= cp)
  {
    if cp < 0x80 then [Byte(cp)]
    else if cp < 0x800 then [Byte(0xC0 + Six(cp, 1)), Tail(cp, 0)]
    else if cp < 0x10000 then [Byte(0xE0 + Six(cp, 2)), Tail(cp, 1), Tail(cp, 0)]
    else [Byte(0xF0 + Six(cp, 3)), Tail(cp, 2), Tail(cp, 1), Tail(cp, 0)]
  }

  /** The code point of four sixes, the highest first. */
  function FromSixes(a: int, b: int, c: int, d: int): int { 64 * (64 * (64 * a + b) + c) + d }

  lemma SixesMake(cp: int)
    requires 0 <= cp < 64 * 64 * 64 * 64
    ensures cp == FromSixes(Six(cp, 3), Six(cp, 2), Six(cp, 1), Six(cp, 0))
  {
    var p, q := cp / 64, cp / 64 / 64;
    assert cp == 64 * p + cp % 64;
    assert p == 64 * q + p % 64;
    assert q == 64 * (q / 64) + q % 64;
  }

  lemma CutSix(q: int, r: int)
    requires 0 <= r < 64
    ensures (64 * q + r) / 64 == q && (64 * q + r) % 64 == r
  {
  }

  lemma SixesTake(a: int, b: int, c: int, d: int)
    requires 0 <= a < 64 && 0 <= b < 64 && 0 <= c < 64 && 0 <= d < 64
    ensures var cp := FromSixes(a, b, c, d);
      0 <= cp && Six(cp, 3) == a && Six(cp, 2) == b && Six(cp, 1) == c && Six(cp, 0) == d
  {
    CutSix(64 * (64 * a + b) + c, d);
    CutSix(64 * a + b, c);
    CutSix(a, b);
  }

  predicate IsTail(s: seq<byte>, i: nat) { i < |s| && 0x80 <= s[i] < 0xC0 }

  /** A code point, if it is a scalar that needs this many bytes. */
  function Checked(cp: int, least: int, n: nat): (r: Option<(Scalar, nat)>)
  {
    if least <= cp && IsScalar(cp) then Some((cp, n)) else None
  }

  /** utf8sDrain32: the code point at the head and its length; None, and nothing taken, where the
      head is not the shortest form of a scalar. */
  function Drain(s: seq<byte>): (r: Option<(Scalar, nat)>)
    ensures r.Some? ==> 1 <= r.value.1 <= |s| && r.value.1 == |Utf8(r.value.0)|
  {
    if s == [] then None
    else if s[0] < 0x80 then Some((s[0], 1))
    else if s[0] < 0xC2 then None
    else if s[0] < 0xE0 then
      if IsTail(s, 1) then Checked(FromSixes(0, 0, s[0] - 0xC0, s[1] - 0x80), 0x80, 2) else None
    else if s[0] < 0xF0 then
      if IsTail(s, 1) && IsTail(s, 2)
      then Checked(FromSixes(0, s[0] - 0xE0, s[1] - 0x80, s[2] - 0x80), 0x800, 3) else None
    else if s[0] < 0xF5 && IsTail(s, 1) && IsTail(s, 2) && IsTail(s, 3)
    then Checked(FromSixes(s[0] - 0xF0, s[1] - 0x80, s[2] - 0x80, s[3] - 0x80), 0x10000, 4) else None
  }

  lemma Fed2(cp: Scalar, s: seq<byte>)
    requires 0x80 <= cp < 0x800 && |s| >= 2 && s[0] == 0xC0 + Six(cp, 1) && s[1] == Tail(cp, 0)
    ensures Drain(s) == Some((cp, 2))
  {
    SixesMake(cp);
    assert Six(cp, 3) == 0 && Six(cp, 2) == 0;
  }

  lemma Fed3(cp: Scalar, s: seq<byte>)
    requires 0x800 <= cp < 0x10000 && |s| >= 3
    requires s[0] == 0xE0 + Six(cp, 2) && s[1] == Tail(cp, 1) && s[2] == Tail(cp, 0)
    ensures Drain(s) == Some((cp, 3))
  {
    SixesMake(cp);
    assert Six(cp, 3) == 0 && Six(cp, 2) < 16;
  }

  lemma Fed4(cp: Scalar, s: seq<byte>)
    requires 0x10000 <= cp && |s| >= 4
    requires s[0] == 0xF0 + Six(cp, 3) && s[1] == Tail(cp, 2) && s[2] == Tail(cp, 1) && s[3] == Tail(cp, 0)
    ensures Drain(s) == Some((cp, 4))
  {
    SixesMake(cp);
    assert Six(cp, 3) < 5;
  }

  /** Draining the bytes of a code point gives it back, whatever follows; */
  lemma DrainFed(cp: Scalar, rest: seq<byte>)
    ensures Drain(Utf8(cp) + rest) == Some((cp, |Utf8(cp)|))
  {
    var s := Utf8(cp) + rest;
    if 0x80 <= cp < 0x800 {
      Fed2(cp, s);
    } else if 0x800 <= cp < 0x10000 {
      Fed3(cp, s);
    } else if 0x10000 <= cp {
      Fed4(cp, s);
    }
  }

  /** and nothing else drains. */
  lemma DrainedIsFed(s: seq<byte>)
    requires Drain(s).Some?
    ensures var (cp, n) := Drain(s).value; s[..n] == Utf8(cp)
  {
    var (cp, n) := Drain(s).value;
    if n == 2 {
      SixesTake(0, 0, s[0] - 0xC0, s[1] - 0x80);
    } else if n == 3 {
      SixesTake(0, s[0] - 0xE0, s[1] - 0x80, s[2] - 0x80);
    } else if n == 4 {
      SixesTake(s[0] - 0xF0, s[1] - 0x80, s[2] - 0x80, s[3] - 0x80);
    }
  }

  function Half(u: int): Unit
    requires 0 <= u < 0x10000
  {
    u
  }

  /** The units of a code point. */
  function Utf16(cp: Scalar): (u: seq<Unit>)
    ensures 1 <= |u| <= 2 && |u| <= |Utf8(cp)|
  {
    if cp < 0x10000 then [Half(cp)]
    else [Half(0xD800 + (cp - 0x10000) / 0x400), Half(0xDC00 + (cp - 0x10000) % 0x400)]
  }

  /** The code point of a surrogate pair. */
  function Pair(high: int, low: int): (cp: int)
    ensures IsHigh(high) && IsLow(low) ==> IsScalar(cp) && 0x10000 <= cp
  {
    0x10000 + (high - 0xD800) * 0x400 + (low - 0xDC00)
  }

  // ----- Whole texts -----

  function Utf8All(ps: seq<Scalar>): seq<byte> {
    if ps == [] then [] else Utf8(ps[0]) + Utf8All(ps[1..])
  }

  function Utf16All(ps: seq<Scalar>): seq<Unit> {
    if ps == [] then [] else Utf16(ps[0]) + Utf16All(ps[1..])
  }

  /** The code point the units begin with, and how many of them it takes. */
  function Head(u: seq<Unit>): (r: (Scalar, nat))
    requires u != []
    ensures 1 <= r.1 <= 2 && r.1 <= |u|
  {
    if IsHigh(u[0]) then
      if |u| > 1 && IsLow(u[1]) then (Pair(u[0], u[1]), 2)
      else (REPLACEMENT, 1)
    else if IsLow(u[0]) then (REPLACEMENT, 1)
    else (u[0], 1)
  }

  function Points(u: seq<Unit>): seq<Scalar> {
    if u == [] then [] else [Head(u).0] + Points(u[Head(u).1..])
  }

  /** The bytes of a string, given room enough. */
  function Encoded(u: seq<Unit>): seq<byte> { Utf8All(Points(u)) }

  /** The code point the bytes begin with, or U+FFFD for a malformed byte. */
  function First(s: seq<byte>): (r: (Scalar, nat))
    requires s != []
    ensures 1 <= r.1 <= |s| && |Utf16(r.0)| <= r.1
  {
    match Drain(s)
    case Some(r) => r
    case None => (REPLACEMENT, 1)
  }

  /** The string made of any bytes. */
  function StrOf(s: seq<byte>): (u: seq<Unit>)
    ensures |u| <= |s|
  {
    if s == [] then [] else Utf16(First(s).0) + StrOf(s[First(s).1..])
  }

  /** utf8sValid. */
  predicate Valid(s: seq<byte>) {
    s == [] || (Drain(s).Some? && Valid(s[Drain(s).value.1..]))
  }

  // ----- Unpaired surrogates -----

  /** A high half with no low half after it, or a low half with no high half before it. */
  predicate Unpaired(u: seq<Unit>, i: nat)
    requires i < |u|
  {
    || (IsHigh(u[i]) && !(i + 1 < |u| && IsLow(u[i + 1])))
    || (IsLow(u[i]) && !(0 < i && IsHigh(u[i - 1])))
  }

  function Repaired(u: seq<Unit>): (r: seq<Unit>)
    ensures |r| == |u|
  {
    seq(|u|, i requires 0 <= i < |u| => if Unpaired(u, i) then REPLACEMENT else u[i])
  }

  lemma PairHalves(high: int, low: int)
    requires IsHigh(high) && IsLow(low)
    ensures Utf16(Pair(high, low)) == [high, low]
  {
    var (h, l) := (high - 0xD800, low - 0xDC00);
    assert Pair(high, low) - 0x10000 == h * 0x400 + l;
    assert (h * 0x400 + l) / 0x400 == h && (h * 0x400 + l) % 0x400 == l;
  }

  /** The code point at the front, written back. */
  lemma HeadUnits(u: seq<Unit>)
    requires u != []
    ensures Utf16(Head(u).0) == Repaired(u)[..Head(u).1]
  {
    if Head(u).1 == 2 {
      PairHalves(u[0], u[1]);
    }
  }

  /** Cutting whole code points off the front moves no pairing. */
  lemma RepairedTail(u: seq<Unit>)
    requires u != []
    ensures Repaired(u)[Head(u).1..] == Repaired(u[Head(u).1..])
  {
    var n := Head(u).1;
    var rest := u[n..];
    assert IsHigh(u[n - 1]) ==> n < |u| ==> !IsLow(u[n]);
    forall i | 0 <= i < |rest| ensures Unpaired(rest, i) == Unpaired(u, n + i) {
      assert rest[i] == u[n + i] && (i + 1 < |rest| ==> rest[i + 1] == u[n + i + 1]);
      assert 0 < i ==> rest[i - 1] == u[n + i - 1];
    }
  }

  lemma {:induction false} UnitsOfPoints(u: seq<Unit>)
    ensures Utf16All(Points(u)) == Repaired(u)
  {
    if u != [] {
      HeadUnits(u);
      RepairedTail(u);
      assert Repaired(u) == Repaired(u)[..Head(u).1] + Repaired(u)[Head(u).1..];
      UnitsOfPoints(u[Head(u).1..]);
    }
  }

  lemma {:induction false} StrOfFed(ps: seq<Scalar>)
    ensures Valid(Utf8All(ps)) && StrOf(Utf8All(ps)) == Utf16All(ps)
  {
    if ps != [] {
      var rest := Utf8All(ps[1..]);
      DrainFed(ps[0], rest);
      assert (Utf8(ps[0]) + rest)[|Utf8(ps[0])|..] == rest;
      StrOfFed(ps[1..]);
    }
  }

  /** Decoding what was encoded gives the string back, with each unpaired surrogate replaced. */
  lemma DecodeUndoesEncode(u: seq<Unit>)
    ensures Valid(Encoded(u)) && StrOf(Encoded(u)) == Repaired(u)
  {
    StrOfFed(Points(u));
    UnitsOfPoints(u);
  }

  /** A string encodes losslessly exactly when it has no unpaired surrogate. */
  lemma LosslessIff(u: seq<Unit>)
    ensures StrOf(Encoded(u)) == u <==> forall i :: 0 <= i < |u| ==> !Unpaired(u, i)
  {
    DecodeUndoesEncode(u);
    if StrOf(Encoded(u)) == u {
      forall i | 0 <= i < |u| ensures !Unpaired(u, i) {
        assert Repaired(u)[i] == u[i];
      }
    }
  }

  lemma HeadOfPoint(cp: Scalar, rest: seq<Unit>)
    ensures Head(Utf16(cp) + rest) == (cp, |Utf16(cp)|)
  {
  }

  lemma {:induction false} PointsOfUnits(ps: seq<Scalar>)
    ensures Points(Utf16All(ps)) == ps
  {
    if ps != [] {
      var rest := Utf16All(ps[1..]);
      HeadOfPoint(ps[0], rest);
      assert (Utf16(ps[0]) + rest)[|Utf16(ps[0])|..] == rest;
      PointsOfUnits(ps[1..]);
    }
  }

  /** The code points of valid bytes. */
  lemma {:induction false} ValidPoints(s: seq<byte>) returns (ps: seq<Scalar>)
    requires Valid(s)
    ensures Utf8All(ps) == s
  {
    if s == [] {
      ps := [];
    } else {
      var (cp, n) := Drain(s).value;
      DrainedIsFed(s);
      var rest := ValidPoints(s[n..]);
      ps := [cp] + rest;
      assert ps[1..] == rest && s == s[..n] + s[n..];
    }
  }

  /** Encoding what was decoded gives the bytes back exactly when they are valid UTF-8. */
  lemma EncodeUndoesDecode(s: seq<byte>)
    ensures Encoded(StrOf(s)) == s <==> Valid(s)
  {
    if Valid(s) {
      var ps := ValidPoints(s);
      StrOfFed(ps);
      PointsOfUnits(ps);
    } else {
      DecodeUndoesEncode(StrOf(s));
    }
  }

  // ----- The forms of the standards -----

  predicate IsTailByte(b: byte) { 0x80 <= b <= 0xBF }

  /** The number of some six-bit digits, the highest first. */
  function Weighed(sixes: seq<int>): int {
    if sixes == [] then 0 else 64 * Weighed(sixes[..|sixes| - 1]) + sixes[|sixes| - 1]
  }

  lemma WeighedMore(sixes: seq<int>, six: int)
    ensures Weighed(sixes + [six]) == 64 * Weighed(sixes) + six
  {
    assert (sixes + [six])[..|sixes|] == sixes;
  }

  lemma WeighedIs(a: int, b: int, c: int, d: int)
    ensures Weighed([a, b]) == 64 * a + b
    ensures Weighed([a, b, c]) == 64 * (64 * a + b) + c
    ensures Weighed([a, b, c, d]) == 64 * (64 * (64 * a + b) + c) + d
  {
    WeighedMore([], a);
    WeighedMore([a], b);
    WeighedMore([a, b], c);
    WeighedMore([a, b, c], d);
    assert [] + [a] == [a] && [a] + [b] == [a, b] && [a, b] + [c] == [a, b, c] && [a, b, c] + [d] == [a, b, c, d];
  }

  /** The bits of a code point, spread over a lead byte and tails. */
  ghost predicate Spread(b: seq<byte>, cp: Scalar, n: nat, lead: byte, last: byte)
    requires 1 < n
  {
    && |b| == n && lead <= b[0] <= last && (forall i :: 1 <= i < n ==> IsTailByte(b[i]))
    && cp == Weighed([b[0] as int - lead] + Tails(b[1..]))
  }

  function Tails(b: seq<byte>): (sixes: seq<int>)
    ensures |sixes| == |b|
  {
    seq(|b|, i requires 0 <= i < |b| => b[i] as int - 0x80)
  }

  lemma SpreadIs(b: seq<byte>, cp: Scalar, lead: byte, sixes: seq<int>)
    requires |b| == |sixes| > 1 && b[0] == lead + sixes[0]
    requires forall i :: 1 <= i < |b| ==> b[i] == 0x80 + sixes[i]
    ensures [b[0] as int - lead] + Tails(b[1..]) == sixes
  {
  }

  lemma Spread2(cp: Scalar)
    requires 0x80 <= cp <= 0x7FF
    ensures Spread(Utf8(cp), cp, 2, 0xC0, 0xDF)
  {
    SixesMake(cp);
    assert Six(cp, 3) == 0 && Six(cp, 2) == 0 && Six(cp, 1) < 32;
    SpreadIs(Utf8(cp), cp, 0xC0, [Six(cp, 1), Six(cp, 0)]);
    WeighedIs(Six(cp, 1), Six(cp, 0), 0, 0);
  }

  lemma Spread3(cp: Scalar)
    requires 0x800 <= cp <= 0xFFFF
    ensures Spread(Utf8(cp), cp, 3, 0xE0, 0xEF)
  {
    SixesMake(cp);
    assert Six(cp, 3) == 0 && Six(cp, 2) < 16;
    SpreadIs(Utf8(cp), cp, 0xE0, [Six(cp, 2), Six(cp, 1), Six(cp, 0)]);
    WeighedIs(Six(cp, 2), Six(cp, 1), Six(cp, 0), 0);
  }

  lemma Spread4(cp: Scalar)
    requires 0x10000 <= cp
    ensures Spread(Utf8(cp), cp, 4, 0xF0, 0xF4)
  {
    SixesMake(cp);
    assert Six(cp, 3) < 5;
    SpreadIs(Utf8(cp), cp, 0xF0, [Six(cp, 3), Six(cp, 2), Six(cp, 1), Six(cp, 0)]);
    WeighedIs(Six(cp, 3), Six(cp, 2), Six(cp, 1), Six(cp, 0));
  }

  /** The table of section 3 of RFC 3629: how many bytes a code point takes, what they look like, and
      how its bits are spread over them, the highest first. */
  lemma Utf8Is(cp: Scalar)
    ensures var b := Utf8(cp);
      if cp <= 0x7F then b == [cp]
      else if cp <= 0x7FF then Spread(b, cp, 2, 0xC0, 0xDF)
      else if cp <= 0xFFFF then Spread(b, cp, 3, 0xE0, 0xEF)
      else Spread(b, cp, 4, 0xF0, 0xF4)
  {
    if 0x10000 <= cp {
      Spread4(cp);
    } else if 0x800 <= cp {
      Spread3(cp);
    } else if 0x80 <= cp {
      Spread2(cp);
    }
  }

  /** Sections 2.1 and 2.2 of RFC 2781: one unit, or a high and a low surrogate. */
  lemma Utf16Is(cp: Scalar)
    ensures var u := Utf16(cp);
      if cp <= 0xFFFF then u == [cp]
      else
        && |u| == 2 && 0xD800 <= u[0] <= 0xDBFF && 0xDC00 <= u[1] <= 0xDFFF
        && cp == 0x10000 + 0x400 * (u[0] as int - 0xD800) + (u[1] as int - 0xDC00)
  {
  }

  /** What any bytes decode to: the code point whose form they begin with; or U+FFFD for their first
      byte, if they begin with none. */
  lemma StrOfIs(s: seq<byte>)
    requires s != []
    ensures forall cp: Scalar :: Utf8(cp) <= s ==> StrOf(s) == Utf16(cp) + StrOf(s[|Utf8(cp)|..])
    ensures (forall cp: Scalar :: !(Utf8(cp) <= s)) ==> StrOf(s) == [0xFFFD] + StrOf(s[1..])
  {
    forall cp: Scalar | Utf8(cp) <= s ensures StrOf(s) == Utf16(cp) + StrOf(s[|Utf8(cp)|..]) {
      assert s == Utf8(cp) + s[|Utf8(cp)|..];
      DrainFed(cp, s[|Utf8(cp)|..]);
    }
    if Drain(s).Some? {
      DrainedIsFed(s);
      assert Utf8(Drain(s).value.0) <= s;
    }
  }

  // ----- Room -----

  /** Three bytes a unit are always enough. */
  lemma {:induction false} ThreePerUnit(u: seq<Unit>)
    ensures |Encoded(u)| <= 3 * |u|
  {
    if u != [] {
      ThreePerUnit(u[Head(u).1..]);
    }
  }

  /** How many of the code points are written into so much room: up to the first that does not
      fit. */
  function Fitting(ps: seq<Scalar>, room: nat): (k: nat)
    ensures k <= |ps|
  {
    if ps == [] || room < |Utf8(ps[0])| then 0 else 1 + Fitting(ps[1..], room - |Utf8(ps[0])|)
  }

  /** What is written fits; the next code point would not. */
  lemma {:induction false} FittingFits(ps: seq<Scalar>, room: nat)
    ensures var k := Fitting(ps, room); var wrote := |Utf8All(ps[..k])|;
      wrote <= room && (k < |ps| ==> room < wrote + |Utf8(ps[k])|)
  {
    var k := Fitting(ps, room);
    if k > 0 {
      assert ps[..k][1..] == ps[1..][..k - 1];
      FittingFits(ps[1..], room - |Utf8(ps[0])|);
    }
  }

  lemma {:induction false} FittingAll(ps: seq<Scalar>, room: nat)
    requires |Utf8All(ps)| <= room
    ensures Fitting(ps, room) == |ps|
  {
    if ps != [] {
      FittingAll(ps[1..], room - |Utf8(ps[0])|);
    }
  }

  // ----- As they run -----

  /** A text is what is done and what is left. */
  ghost predicate Splits<T>(all: seq<T>, done: seq<T>, rest: seq<T>) { all == done + rest }

  lemma SplitLater<T>(all: seq<T>, done: seq<T>, piece: seq<T>, rest: seq<T>)
    requires Splits(all, done, piece + rest)
    ensures Splits(all, done + piece, rest)
  {
  }

  /** The bytes of each code point. */
  function Codes(ps: seq<Scalar>): seq<seq<byte>> {
    if ps == [] then [] else [Utf8(ps[0])] + Codes(ps[1..])
  }

  /** As many whole codes as there is room for. */
  function Fill(codes: seq<seq<byte>>, room: nat): seq<byte> {
    if codes == [] || room < |codes[0]| then [] else codes[0] + Fill(codes[1..], room - |codes[0]|)
  }

  lemma FillFirst(b: seq<byte>, rest: seq<seq<byte>>, room: nat)
    ensures Fill([b] + rest, room) == if room < |b| then [] else b + Fill(rest, room - |b|)
  {
    assert ([b] + rest)[1..] == rest;
  }

  lemma {:induction false} FillIsFitting(ps: seq<Scalar>, room: nat)
    ensures Fill(Codes(ps), room) == Utf8All(ps[..Fitting(ps, room)])
    decreases |ps|
  {
    if ps != [] {
      var b, k := Utf8(ps[0]), Fitting(ps, room);
      FillFirst(b, Codes(ps[1..]), room);
      if |b| <= room {
        FillIsFitting(ps[1..], room - |b|);
        assert ps[..k][1..] == ps[1..][..k - 1];
      }
    }
  }

  /** utf8sFeed32: the whole code `b`, or nothing. */
  method Feed(dst: array<byte>, at: nat, b: seq<byte>) returns (ok: bool, next: nat)
    requires at <= dst.Length
    modifies dst
    ensures ok <==> |b| <= dst.Length - at
    ensures at <= next <= dst.Length && dst[next..] == old(dst[next..])
    ensures ok ==> next == at + |b| && dst[..next] == old(dst[..at]) + b
    ensures !ok ==> next == at && dst[..at] == old(dst[..at])
  {
    ok := at + |b| <= dst.Length;
    next := at;
    if ok {
      forall j | at <= j < at + |b| {
        dst[j] := b[j - at];
      }
      next := at + |b|;
      assert dst[at..next] == b;
    }
    assert dst[..at] == old(dst[..at]);
    assert dst[..next] == dst[..at] + dst[at..next];
  }

  /** The next code point of a string, and where the one after it starts. */
  method TakePoint(u: seq<Unit>, from: nat) returns (cp: Scalar, i: nat)
    requires from < |u|
    ensures i <= |u| && (cp, i - from) == Head(u[from..])
  {
    ghost var left := u[from..];
    assert left[0] == u[from] && (|left| > 1 ==> left[1] == u[from + 1]);
    var c: int := u[from];
    i := from + 1;
    if IsHigh(c) {
      if i < |u| && IsLow(u[i]) {
        c := Pair(c, u[i]);
        i := i + 1;
      } else {
        c := 0xFFFD;
      }
    } else if IsLow(c) {
      c := 0xFFFD;
    }
    cp := c;
  }

  lemma PointsStep(u: seq<Unit>, from: nat)
    requires from < |u|
    ensures var (cp, n) := Head(u[from..]); from + n <= |u| && Points(u[from..]) == [cp] + Points(u[from + n..])
  {
    var (_, n) := Head(u[from..]);
    assert u[from..][n..] == u[from + n..];
  }

  lemma CodesStep(cp: Scalar, rest: seq<Scalar>)
    ensures Codes([cp] + rest) == [Utf8(cp)] + Codes(rest)
  {
    assert ([cp] + rest)[1..] == rest;
  }

  /** The next code, and where the string goes on. */
  method TakeCode(u: seq<Unit>, from: nat) returns (b: seq<byte>, i: nat)
    requires from < |u|
    ensures from < i <= |u| && Codes(Points(u[from..])) == [b] + Codes(Points(u[i..]))
  {
    var cp;
    cp, i := TakePoint(u, from);
    b := Utf8(cp);
    PointsStep(u, from);
    CodesStep(cp, Points(u[i..]));
  }

  /** A code goes behind the bytes written so far, unless it no longer fits. */
  method FeedNext(dst: array<byte>, wrote: nat, b: seq<byte>, ghost rest: seq<seq<byte>>, ghost all: seq<byte>)
    returns (ok: bool, next: nat)
    requires wrote <= dst.Length && Splits(all, dst[..wrote], Fill([b] + rest, dst.Length - wrote))
    modifies dst
    ensures wrote <= next <= dst.Length && dst[next..] == old(dst[next..])
    ensures ok ==> Splits(all, dst[..next], Fill(rest, dst.Length - next))
    ensures !ok ==> next == wrote && all == dst[..wrote]
  {
    FillFirst(b, rest, dst.Length - wrote);
    ok, next := Feed(dst, wrote, b);
    if ok {
      SplitLater(all, old(dst[..wrote]), b, Fill(rest, dst.Length - next));
    }
  }

  /** `utf8.encodeInto`: the bytes of the longest run of whole code points the array holds. */
  method EncodeInto(u: seq<Unit>, dst: array<byte>) returns (wrote: nat)
    modifies dst
    ensures var ps := Points(u); var b := Utf8All(ps[..Fitting(ps, dst.Length)]);
      && wrote == |b| <= dst.Length && dst[..wrote] == b
      && dst[wrote..] == old(dst[wrote..])
  {
    var i: nat, ok := 0, true;
    wrote := 0;
    ghost var all := Fill(Codes(Points(u)), dst.Length);
    FillIsFitting(Points(u), dst.Length);
    assert u[0..] == u;
    while i < |u| && ok
      invariant i <= |u| && wrote <= dst.Length && dst[wrote..] == old(dst[wrote..])
      invariant ok ==> Splits(all, dst[..wrote], Fill(Codes(Points(u[i..])), dst.Length - wrote))
      invariant !ok ==> all == dst[..wrote]
      decreases |u| - i
    {
      ghost var was, from := dst[..], wrote;
      var b;
      b, i := TakeCode(u, i);
      ok, wrote := FeedNext(dst, wrote, b, Codes(Points(u[i..])), all);
      assert was[wrote..] == was[from..][wrote - from..];
    }
  }

  /** `utf8.Encode`: a scratch buffer that never truncates. */
  method Encode(u: seq<Unit>) returns (b: seq<byte>)
    ensures b == Encoded(u)
  {
    var scratch := new byte[|u| * 3 + 4];
    var n := EncodeInto(u, scratch);
    ThreePerUnit(u);
    FittingAll(Points(u), scratch.Length);
    assert Points(u)[..|Points(u)|] == Points(u);
    b := scratch[..n];
  }

  /** One code point, as one unit or two. */
  method PutUnits(units: array<Unit>, k: nat, cp: Scalar) returns (next: nat)
    requires k + |Utf16(cp)| <= units.Length
    modifies units
    ensures next == k + |Utf16(cp)| && units[..next] == old(units[..k]) + Utf16(cp)
  {
    if cp <= 0xFFFF {
      units[k] := Half(cp);
      next := k + 1;
    } else {
      var c := cp - 0x10000;
      units[k] := Half(0xD800 + c / 0x400);
      units[k + 1] := Half(0xDC00 + c % 0x400);
      next := k + 2;
    }
    assert units[..k] == old(units[..k]);
    assert units[..next] == units[..k] + units[k..next];
  }

  /** The units go behind those written so far. */
  method PutNext(units: array<Unit>, k: nat, cp: Scalar, ghost rest: seq<Unit>, ghost all: seq<Unit>)
    returns (next: nat)
    requires k + |Utf16(cp)| <= units.Length && Splits(all, units[..k], Utf16(cp) + rest)
    modifies units
    ensures next == k + |Utf16(cp)| && Splits(all, units[..next], rest)
  {
    next := PutUnits(units, k, cp);
    SplitLater(all, old(units[..k]), Utf16(cp), rest);
  }

  /** Drain, or put U+FFFD for the byte and skip it. */
  method TakeFirst(s: seq<byte>) returns (cp: Scalar, n: nat)
    requires s != []
    ensures (cp, n) == First(s)
  {
    var r := Drain(s);
    cp, n := REPLACEMENT, 1;
    if r.Some? {
      cp, n := r.value.0, r.value.1;
    }
  }

  lemma StrOfStep(s: seq<byte>, cur: nat, cp: Scalar, n: nat, at: nat)
    requires cur < |s| && First(s[cur..]) == (cp, n) && at == cur + n
    ensures cur + |Utf16(cp)| <= at <= |s| && StrOf(s[cur..]) == Utf16(cp) + StrOf(s[at..])
  {
    assert s[cur..][n..] == s[at..];
  }

  /** `JABCStrOfSlice`: any bytes, one unit a byte at most, so the scratch array is enough. */
  method StrOfSlice(s: seq<byte>) returns (u: seq<Unit>)
    ensures u == StrOf(s)
  {
    var units := new Unit[if |s| + 1 > 256 then |s| + 1 else 256];
    var k: nat, cur: nat := 0, 0;
    ghost var all := StrOf(s);
    assert s[0..] == s;
    while cur < |s|
      invariant k <= cur <= |s| && Splits(all, units[..k], StrOf(s[cur..]))
      decreases |s| - cur
    {
      var cp, n := TakeFirst(s[cur..]);
      var at := cur + n;
      StrOfStep(s, cur, cp, n, at);
      k := PutNext(units, k, cp, StrOf(s[at..]), all);
      cur := at;
    }
    u := units[..k];
  }

  /** `utf8.Decode`: malformed bytes are refused before any string is built. */
  method Decode(s: seq<byte>) returns (r: Option<seq<Unit>>)
    ensures r.Some? <==> Valid(s)
    ensures r.Some? ==> r.value == StrOf(s) && Encoded(r.value) == s
  {
    if !Valid(s) {
      return None;
    }
    var u := StrOfSlice(s);
    EncodeUndoesDecode(s);
    r := Some(u);
  }
}
