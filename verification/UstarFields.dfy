/** What stands in each field of a header, and what the reader makes of headers from other packers. */
module UstarFields {
  import opened Bytes
  import opened UstarArchive
  import opened UstarFormat
  import opened Wrappers

  // ----- Written -----

  /** `text`, and zeros up to `end`. */
  ghost predicate TextField(h: seq<byte>, at: nat, end: nat, text: seq<byte>) {
    at + |text| <= end <= |h| && h[at..at + |text|] == text && forall i :: at + |text| <= i < end ==> h[i] == 0
  }

  /** Octal digits that make `n`, and a NUL. */
  ghost predicate NumberField(h: seq<byte>, at: nat, end: nat, n: nat) {
    && at < end <= |h| && h[end - 1] == 0
    && (forall i :: at <= i < end - 1 ==> IsDigit(h[i]))
    && Value(h[at..end - 1]) == n
  }

  lemma TextStands(h: seq<byte>, at: nat, end: nat, text: seq<byte>)
    requires at + |text| <= end <= |h| && forall i :: at <= i < end ==> h[i] == At(text, i - at)
    ensures TextField(h, at, end, text)
  {
  }

  lemma NumberStands(h: seq<byte>, at: nat, end: nat, n: nat)
    requires at + 1 < end <= |h| && n < Pow8(end - at - 1)
    requires forall i :: at <= i < end ==> h[i] == At(Octal(n, end - at), i - at)
    ensures NumberField(h, at, end, n)
  {
    OctalField(n, end - at);
    assert h[at..end - 1] == Octal(n, end - at);
    forall i | at <= i < end - 1 ensures IsDigit(h[i]) {
      assert h[i] == Octal(n, end - at)[i - at];
    }
  }

  lemma SmallPowers()
    ensures Pow8(7) == 2097152 && 1 < Pow8(11)
  {
    assert Pow8(3) == 512 && Pow8(7) == 4096 * Pow8(3);
    assert Pow8(11) == 4096 * Pow8(7);
  }

  lemma BytesAre(prefix: seq<byte>, name: seq<byte>, size: nat)
    ensures var h := Header(prefix, name, size);
      forall i :: 0 <= i < BLOCK && !(148 <= i < 155) ==> h[i] == BlankByte(i, prefix, name, size)
  {
  }

  /** The names and the numbers: mode 644, nobody's, of no time. */
  lemma HeaderStarts(prefix: seq<byte>, name: seq<byte>, size: nat)
    requires |name| <= 100 && size < INT32
    ensures var h := Header(prefix, name, size);
      && TextField(h, 0, 100, name)
      && NumberField(h, 100, 108, 6 * 64 + 4 * 8 + 4) && NumberField(h, 108, 116, 0) && NumberField(h, 116, 124, 0)
      && NumberField(h, 124, 136, size) && NumberField(h, 136, 148, 0)
  {
    var h := Header(prefix, name, size);
    BytesAre(prefix, name, size);
    SmallPowers();
    SizeFits(size);
    TextStands(h, 0, 100, name);
    NumberStands(h, 100, 108, MODE);
    NumberStands(h, 108, 116, 0);
    NumberStands(h, 116, 124, 0);
    NumberStands(h, 124, 136, size);
    NumberStands(h, 136, 148, 0);
  }

  /** A regular file, no link; "ustar", a NUL and the version "00"; no owner's names, no device; the
      prefix. */
  lemma HeaderEnds(prefix: seq<byte>, name: seq<byte>, size: nat)
    requires |prefix| <= 155
    ensures var h := Header(prefix, name, size);
      && TextField(h, 156, 257, ['0' as int])
      && TextField(h, 257, 345, ['u' as int, 's' as int, 't' as int, 'a' as int, 'r' as int, 0, '0' as int, '0' as int])
      && TextField(h, 345, 500, prefix) && TextField(h, 500, 512, [])
  {
    var h := Header(prefix, name, size);
    BytesAre(prefix, name, size);
    TextStands(h, 156, 257, [48]);
    TextStands(h, 257, 345, [117, 115, 116, 97, 114, 0, 48, 48]);
    TextStands(h, 345, 500, prefix);
    TextStands(h, 500, 512, []);
  }

  /** A path is cut only if it is too long for the name, and then at the first slash that leaves
      both parts short enough. */
  lemma SplitIsFirst(path: seq<byte>)
    requires Split(path).Some?
    ensures var (prefix, name) := Split(path).value;
      if |path| <= 100 then prefix == [] && name == path
      else
        && |prefix| <= 155 && |name| <= 100 && path == prefix + [SLASH] + name
        && forall i :: 0 <= i < |prefix| && path[i] == SLASH ==> 100 < |path| - i - 1
  {
    if 100 < |path| {
      FirstFits(path, 0);
      var i := FirstCut(path, 0).value;
      assert path == path[..i] + [SLASH] + path[i + 1..];
      forall j | 0 <= j < i && path[j] == SLASH ensures 100 < |path| - j - 1 {
        assert !Cuts(path, j);
      }
    }
  }

  lemma {:induction false} FirstFits(path: seq<byte>, from: nat)
    requires FirstCut(path, from).Some?
    ensures var i := FirstCut(path, from).value;
      from <= i && Cuts(path, i) && forall j :: from <= j < i ==> !Cuts(path, j)
    decreases |path| - from
  {
    if !Cuts(path, from) {
      FirstFits(path, from + 1);
    }
  }

  lemma SumAligned(a: nat, b: nat)
    requires a % BLOCK == 0 && b % BLOCK == 0
    ensures (a + b) % BLOCK == 0
  {
  }

  lemma {:induction false} BlocksAligned(es: seq<Entry>)
    requires AllPackable(es)
    ensures |Blocks(es)| % BLOCK == 0
  {
    if es != [] {
      BlocksAligned(es[1..]);
      SumAligned(BLOCK, Align(|es[0].body|));
      SumAligned(|Block(es[0])|, |Blocks(es[1..])|);
    }
  }

  /** The archive is whole blocks, and ends with two of zeros. */
  lemma ArchiveEnds(es: seq<Entry>)
    requires AllPackable(es)
    ensures var a := Archive(es);
      && |a| % 512 == 0 && 1024 <= |a|
      && (forall i :: |a| - 1024 <= i < |a| ==> a[i] == 0) && (es == [] ==> |a| == 1024)
  {
    BlocksAligned(es);
  }

  // ----- Read -----

  ghost predicate AllSpace(s: seq<byte>) { forall i :: 0 <= i < |s| ==> IsSpace(s[i]) }

  ghost predicate AllDigits(s: seq<byte>) { forall i :: 0 <= i < |s| ==> IsDigit(s[i]) }

  /** No white space at either end. */
  ghost predicate Trimmed(s: seq<byte>) { s == [] || (!IsSpace(s[0]) && !IsSpace(s[|s| - 1])) }

  lemma {:induction false} TrimsLeft(lead: seq<byte>, s: seq<byte>)
    requires AllSpace(lead) && (s == [] || !IsSpace(s[0]))
    ensures TrimLeft(lead + s) == s
  {
    if lead == [] {
      assert lead + s == s;
    } else {
      assert (lead + s)[1..] == lead[1..] + s;
      TrimsLeft(lead[1..], s);
    }
  }

  lemma {:induction false} TrimsRight(s: seq<byte>, trail: seq<byte>)
    requires AllSpace(trail) && (s == [] || !IsSpace(s[|s| - 1]))
    ensures TrimRight(s + trail) == s
  {
    if trail == [] {
      assert s + trail == s;
    } else {
      var last := |trail| - 1;
      assert (s + trail)[..|s + trail| - 1] == s + trail[..last];
      TrimsRight(s, trail[..last]);
    }
  }

  lemma {:induction false} DigitsThenOther(digits: seq<byte>, rest: seq<byte>)
    requires AllDigits(digits) && (rest == [] || !IsDigit(rest[0]))
    ensures DigitPrefix(digits + rest) == digits
  {
    if digits == [] {
      assert digits + rest == rest;
    } else {
      assert (digits + rest)[1..] == digits[1..] + rest;
      DigitsThenOther(digits[1..], rest);
    }
  }

  /** A size field as other packers write it: white space around it, digits, and whatever follows
      them; without digits it counts as 0; and a sign counts. */
  lemma ReadsNumber(lead: seq<byte>, digits: seq<byte>, rest: seq<byte>, trail: seq<byte>)
    requires AllSpace(lead) && AllSpace(trail) && AllDigits(digits) && Trimmed(digits + rest)
    requires rest == [] || (!IsDigit(rest[0]) && (digits == [] ==> rest[0] != PLUS && rest[0] != MINUS))
    ensures ParseOctal(lead + (digits + rest + trail)) == Value(digits)
  {
    ReadsTrimmed(lead, digits + rest, trail);
    DigitsThenOther(digits, rest);
  }

  lemma ReadsSigned(lead: seq<byte>, digits: seq<byte>, trail: seq<byte>)
    requires AllSpace(lead) && AllSpace(trail) && AllDigits(digits)
    ensures ParseOctal(lead + ([PLUS] + digits + trail)) == Value(digits)
    ensures ParseOctal(lead + ([MINUS] + digits + trail)) == -Value(digits)
  {
    ReadsTrimmed(lead, [PLUS] + digits, trail);
    ReadsTrimmed(lead, [MINUS] + digits, trail);
    assert ([PLUS] + digits)[1..] == digits && ([MINUS] + digits)[1..] == digits;
    assert digits + [] == digits;
    DigitsThenOther(digits, []);
  }

  lemma ReadsTrimmed(lead: seq<byte>, s: seq<byte>, trail: seq<byte>)
    requires AllSpace(lead) && AllSpace(trail) && Trimmed(s)
    ensures TrimRight(TrimLeft(lead + (s + trail))) == s
  {
    if s == [] {
      assert s + trail == trail && lead + trail == lead + trail + [];
      TrimsLeft(lead + trail, []);
      assert TrimRight([]) == [];
    } else {
      TrimsLeft(lead, s + trail);
      TrimsRight(s, trail);
    }
  }

  /** The bytes of an archive from `at` on, as many as there are. */
  function BytesAt(raw: seq<byte>, at: nat, n: nat): seq<byte> {
    if |raw| <= at then [] else if |raw| <= at + n then raw[at..] else raw[at..at + n]
  }

  /** Any header: of a regular file (type '0', or NUL in old archives) it gives the file, cut short if
      the archive is; of anything else nothing; and the next header is at the next block boundary
      behind the bytes. */
  lemma EntryIs(raw: seq<byte>, off: nat)
    requires off + BLOCK <= |raw|
    ensures var f := FieldsAt(raw, off);
      var size := ParseOctal(f.digits);
      && (EntryAt(raw, off).Some? <==> Decodes(f) && 0 <= size && size + 511 < INT32)
      && (EntryAt(raw, off).Some? ==>
        var (files, next) := EntryAt(raw, off).value;
        && size <= next - off - BLOCK < size + BLOCK && (next - off) % BLOCK == 0
        && files == (if raw[off + 156] == '0' as int || raw[off + 156] == 0
           then [Entry(if f.prefix == [] then f.name else f.prefix + [SLASH] + f.name, BytesAt(raw, off + BLOCK, size))]
           else []))
  {
    var size := ParseOctal(FieldsAt(raw, off).digits);
    if 0 <= size {
      SubIs(raw, off + BLOCK, size);
    }
  }

  lemma SubIs(raw: seq<byte>, at: nat, n: nat)
    ensures Sub(raw, at, at + n) == BytesAt(raw, at, n)
  {
  }

  /** The reader goes from header to header, up to a block that starts with a NUL or the end; where a
      header stops it, nothing comes out. */
  lemma UntarWalks(raw: seq<byte>, off: nat)
    ensures |raw| < off + BLOCK || raw[off] == 0 ==> Untar(raw, off) == Some([])
    ensures off + BLOCK <= |raw| && raw[off] != 0 && EntryAt(raw, off).None? ==> Untar(raw, off).None?
    ensures off + BLOCK <= |raw| && raw[off] != 0 && EntryAt(raw, off).Some? ==>
      var (files, next) := EntryAt(raw, off).value;
      && (Untar(raw, off).None? <==> Untar(raw, next).None?)
      && (Untar(raw, off).Some? ==> Untar(raw, off).value == files + Untar(raw, next).value)
  {
  }
}
