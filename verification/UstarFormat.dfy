/** The script pack's archive: jsrcpack.js writes a ustar, require.cpp reads it back.

    The format is the "ustar Interchange Format" of the pax utility in IEEE Std 1003.1.
    Paths are ASCII, so a JS string and its UTF-8 bytes are the same sequence. */
module UstarFormat {
  import opened Bytes
  import opened Wrappers

  const BLOCK := 512
  const SLASH: byte := 47
  const SPACE: byte := 32
  const ZERO: byte := 48         // '0'
  const MAGIC: seq<byte> := [117, 115, 116, 97, 114]   // "ustar"
  const MODE := 420              // 0644
  const INT32 := 0x8000_0000

  datatype Entry = Entry(path: seq<byte>, body: seq<byte>)

  /** (s + 511) & ~511 in 32-bit arithmetic. */
  function Align32(s: nat): int {
    var wrapped := (s + 511 + INT32) % (2 * INT32) - INT32;
    wrapped - wrapped % BLOCK
  }

  function Align(s: nat): (a: nat)
    ensures s <= a < s + BLOCK && a % BLOCK == 0
  {
    (s + 511) / BLOCK * BLOCK
  }

  /** Below 2^31 the 32-bit rounding is the rounding up to a block. */
  lemma AlignIsExact(s: nat)
    requires s + 511 < INT32
    ensures Align32(s) == Align(s)
  {
  }

  // ----- Octal fields -----

  function Pow8(k: nat): nat { if k == 0 then 1 else 8 * Pow8(k - 1) }

  /** n.toString(8). */
  function Digits(n: nat): seq<byte> {
    if n < 8 then [ZERO + n] else Digits(n / 8) + [ZERO + n % 8]
  }

  predicate IsDigit(b: byte) { ZERO <= b < ZERO + 8 }

  function Value(s: seq<byte>): int {
    if s == [] then 0 else 8 * Value(s[..|s| - 1]) + (s[|s| - 1] - ZERO)
  }

  lemma {:induction false} DigitsValue(n: nat)
    ensures Value(Digits(n)) == n && Digits(n) != []
    ensures forall i :: 0 <= i < |Digits(n)| ==> IsDigit(Digits(n)[i])
  {
    if 8 <= n {
      DigitsValue(n / 8);
      assert Digits(n)[..|Digits(n)| - 1] == Digits(n / 8);
    } else {
      assert Digits(n)[..0] == [];
    }
  }

  lemma {:induction false} DigitsLength(n: nat, k: nat)
    requires 0 < k && n < Pow8(k)
    ensures |Digits(n)| <= k
  {
    if 8 <= n {
      assert 1 < k;
      DigitsLength(n / 8, k - 1);
    }
  }

  lemma {:induction false} LeadingZero(s: seq<byte>)
    ensures Value([ZERO] + s) == Value(s)
  {
    if s == [] {
      assert [ZERO][..0] == [];
    } else {
      LeadingZero(s[..|s| - 1]);
      assert ([ZERO] + s)[..|s|] == [ZERO] + s[..|s| - 1];
    }
  }

  /** A numeric field: what number its text is, and how long the text must be. */
  ghost predicate IsOctal(s: seq<byte>, n: nat, width: nat) {
    && 0 < width && Value(s) == n && (forall i :: 0 <= i < |s| ==> IsDigit(s[i]))
    && width - 1 <= |s| && (1 < width && n < Pow8(width - 1) ==> |s| == width - 1)
  }

  /** The padded text of a numeric field. */
  function Octal(n: nat, width: nat): seq<byte> { Padded(Digits(n), width) }

  function Padded(s: seq<byte>, width: nat): seq<byte>
    decreases width - |s|
  {
    if |s| + 1 < width then Padded([ZERO] + s, width) else s
  }

  lemma {:induction false} PaddedOctal(s: seq<byte>, n: nat, width: nat)
    requires 0 < width && Value(s) == n && forall i :: 0 <= i < |s| ==> IsDigit(s[i])
    requires 1 < width && n < Pow8(width - 1) ==> |s| <= width - 1
    ensures IsOctal(Padded(s, width), n, width)
    decreases width - |s|
  {
    if |s| + 1 < width {
      LeadingZero(s);
      PaddedOctal([ZERO] + s, n, width);
    }
  }

  lemma OctalField(n: nat, width: nat)
    requires 1 < width
    ensures IsOctal(Octal(n, width), n, width)
  {
    DigitsValue(n);
    if n < Pow8(width - 1) {
      DigitsLength(n, width - 1);
    }
    PaddedOctal(Digits(n), n, width);
  }

  // ----- The name split -----

  /** Where a path over 100 bytes is cut: the first slash that fits both fields. */
  predicate Cuts(path: seq<byte>, i: nat) {
    i < |path| && path[i] == SLASH && i <= 155 && |path| - i - 1 <= 100
  }

  function FirstCut(path: seq<byte>, from: nat): Option<nat>
    decreases |path| - from
  {
    if |path| <= from then None
    else if Cuts(path, from) then Some(from)
    else FirstCut(path, from + 1)
  }

  /** (prefix, name), or None when the path is too long for the archive. */
  function Split(path: seq<byte>): Option<(seq<byte>, seq<byte>)> {
    if |path| <= 100 then Some(([], path))
    else match FirstCut(path, 0)
      case None => None
      case Some(i) => if i < |path| then Some((path[..i], path[i + 1..])) else None
  }

  lemma {:induction false} FirstCutCuts(path: seq<byte>, from: nat)
    ensures FirstCut(path, from).Some? ==> Cuts(path, FirstCut(path, from).value)
    ensures FirstCut(path, from).None? ==> forall i :: from <= i < |path| ==> !Cuts(path, i)
    decreases |path| - from
  {
    if from < |path| && !Cuts(path, from) {
      FirstCutCuts(path, from + 1);
    }
  }

  function Join(prefix: seq<byte>, name: seq<byte>): seq<byte> {
    if prefix == [] then name else prefix + [SLASH] + name
  }

  /** A relative path of a file: no NUL, no slash at either end. */
  predicate FilePath(path: seq<byte>) {
    && path != [] && path[0] != SLASH && path[|path| - 1] != SLASH
    && forall i :: 0 <= i < |path| ==> 0 < path[i] < 128
  }

  /** The splitter refuses exactly the paths with no cut that fits; the fields of the others
      fit, and rejoin to the path. */
  lemma SplitJoins(path: seq<byte>)
    requires FilePath(path)
    ensures Split(path).None? <==> 100 < |path| && forall i: nat :: !Cuts(path, i)
    ensures Split(path).Some? ==>
      var (prefix, name) := Split(path).value;
      && |prefix| <= 155 && 0 < |name| <= 100 && Join(prefix, name) == path
      && (forall i :: 0 <= i < |prefix| ==> 0 < prefix[i] < 128)
      && (forall i :: 0 <= i < |name| ==> 0 < name[i] < 128)
  {
    FirstCutCuts(path, 0);
    if 100 < |path| && FirstCut(path, 0).Some? {
      var i := FirstCut(path, 0).value;
      assert path == path[..i] + [SLASH] + path[i + 1..];
    }
  }

  // ----- The header block -----

  function At(s: seq<byte>, i: int): byte { if 0 <= i < |s| then s[i] else 0 }

  /** Byte i of the header while its checksum field still reads as spaces. */
  function BlankByte(i: nat, prefix: seq<byte>, name: seq<byte>, size: nat): byte {
    if i < 100 then At(name, i)
    else if i < 108 then At(Octal(MODE, 8), i - 100)
    else if i < 116 then At(Octal(0, 8), i - 108)
    else if i < 124 then At(Octal(0, 8), i - 116)
    else if i < 136 then At(Octal(size, 12), i - 124)
    else if i < 148 then At(Octal(0, 12), i - 136)
    else if i < 156 then SPACE
    else if i == 156 then ZERO
    else if i < 257 then 0
    else if i < 263 then At(MAGIC, i - 257)
    else if i < 265 then ZERO
    else if i < 345 then 0
    else if i < 500 then At(prefix, i - 345)
    else 0
  }

  function Sum(s: seq<byte>): nat {
    if s == [] then 0 else Sum(s[..|s| - 1]) + s[|s| - 1]
  }

  function Blank(prefix: seq<byte>, name: seq<byte>, size: nat): (b: seq<byte>)
    ensures |b| == BLOCK
  {
    seq(BLOCK, i requires 0 <= i < BLOCK => BlankByte(i, prefix, name, size))
  }

  /** The finished header: the sum as six digits, a NUL and a space. */
  function HeaderByte(i: nat, prefix: seq<byte>, name: seq<byte>, size: nat): byte {
    if 148 <= i < 155 then At(Octal(Sum(Blank(prefix, name, size)), 7), i - 148)
    else BlankByte(i, prefix, name, size)
  }

  function Header(prefix: seq<byte>, name: seq<byte>, size: nat): (h: seq<byte>)
    ensures |h| == BLOCK
  {
    seq(BLOCK, i requires 0 <= i < BLOCK => HeaderByte(i, prefix, name, size))
  }

  lemma {:induction false} SumBound(s: seq<byte>)
    ensures Sum(s) <= 255 * |s|
  {
    if s != [] {
      SumBound(s[..|s| - 1]);
    }
  }

  /** The stored checksum is six octal digits whose value is the byte sum of the header with
      its checksum field read as spaces. */
  lemma ChecksumFits(prefix: seq<byte>, name: seq<byte>, size: nat)
    ensures var h := Header(prefix, name, size);
      var spaced := h[..148] + seq(8, _ => SPACE) + h[156..];
      && (forall i :: 148 <= i < 154 ==> IsDigit(h[i])) && h[154] == 0 && h[155] == SPACE
      && Value(h[148..154]) == Sum(spaced)
  {
    var h, blank := Header(prefix, name, size), Blank(prefix, name, size);
    var spaced := h[..148] + seq(8, _ => SPACE) + h[156..];
    assert spaced == blank;
    SumBound(blank);
    assert Pow8(6) == 262144 by {
      assert Pow8(3) == 512;
    }
    OctalField(Sum(blank), 7);
    assert h[148..154] == Octal(Sum(blank), 7);
  }
}
