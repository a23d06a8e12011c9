/** Whole archives: what the packer lays out, what the reader makes of any bytes, and that
    the one undoes the other. */
module UstarArchive {
  import opened Bytes
  import opened Wrappers
  import opened UstarFormat
  import Utf

  function Zeros(n: nat): (z: seq<byte>)
    ensures |z| == n && forall i :: 0 <= i < n ==> z[i] == 0
  {
    seq(n, _ => 0)
  }

  /** A file the packer takes: a path the splitter takes, and a size its 11 digits hold. */
  predicate Packable(e: Entry) {
    FilePath(e.path) && Split(e.path).Some? && |e.body| + 511 < INT32
  }

  predicate AllPackable(es: seq<Entry>) {
    forall i :: 0 <= i < |es| ==> Packable(es[i])
  }

  function Block(e: Entry): (b: seq<byte>)
    requires Packable(e)
    ensures |b| == BLOCK + Align(|e.body|)
  {
    var (prefix, name) := Split(e.path).value;
    Header(prefix, name, |e.body|) + e.body + Zeros(Align(|e.body|) - |e.body|)
  }

  function Blocks(es: seq<Entry>): seq<byte>
    requires AllPackable(es)
  {
    if es == [] then [] else Block(es[0]) + Blocks(es[1..])
  }

  /** Two zero blocks end the archive. */
  function Archive(es: seq<Entry>): seq<byte>
    requires AllPackable(es)
  {
    Blocks(es) + Zeros(1024)
  }

  lemma {:induction false} BlocksAppend(es: seq<Entry>, e: Entry)
    requires AllPackable(es) && Packable(e)
    ensures AllPackable(es + [e]) && Blocks(es + [e]) == Blocks(es) + Block(e)
  {
    if es == [] {
      assert es + [e] == [e] && [e][1..] == [] && Block(e) + [] == Block(e);
    } else {
      var tail := es[1..];
      assert (es + [e])[0] == es[0] && (es + [e])[1..] == tail + [e];
      BlocksAppend(tail, e);
      Regroup(Block(es[0]), Blocks(tail), Block(e));
    }
  }

  lemma Regroup(a: seq<byte>, b: seq<byte>, c: seq<byte>)
    ensures a + b + c == a + (b + c)
  {
  }

  // ----- The reader -----

  /** packStr: the bytes up to a NUL or the field's end. */
  function Text(raw: seq<byte>, off: nat, len: nat): (t: seq<byte>)
    requires off + len <= |raw|
    decreases |raw| - off
  {
    if len == 0 || raw[off] == 0 then [] else [raw[off]] + Text(raw, off + 1, len - 1)
  }

  /** ASCII white space. */
  predicate IsSpace(b: byte) { b == SPACE || 9 <= b <= 13 }

  function TrimLeft(s: seq<byte>): seq<byte> {
    if s != [] && IsSpace(s[0]) then TrimLeft(s[1..]) else s
  }

  function TrimRight(s: seq<byte>): seq<byte> {
    if s != [] && IsSpace(s[|s| - 1]) then TrimRight(s[..|s| - 1]) else s
  }

  function DigitPrefix(s: seq<byte>): seq<byte> {
    if s == [] || !IsDigit(s[0]) then [] else [s[0]] + DigitPrefix(s[1..])
  }

  const PLUS: byte := 43
  const MINUS: byte := 45

  /** parseInt(text.trim() || "0", 8): a sign, then the number the leading digits make.  Where there
      are none the source goes on with NaN, whose slices and rounding are those of 0. */
  function ParseOctal(s: seq<byte>): int {
    var t := TrimRight(TrimLeft(s));
    if t != [] && t[0] == MINUS then -Value(DigitPrefix(t[1..]))
    else if t != [] && t[0] == PLUS then Value(DigitPrefix(t[1..]))
    else Value(DigitPrefix(t))
  }

  function Clamp(i: nat, n: nat): nat { if i < n then i else n }

  /** raw.subarray(from, to). */
  function Sub(raw: seq<byte>, from: nat, to: nat): seq<byte> {
    if Clamp(to, |raw|) <= Clamp(from, |raw|) then [] else raw[Clamp(from, |raw|)..Clamp(to, |raw|)]
  }

  /** What the reader takes from a header. */
  datatype Fields = Fields(name: seq<byte>, prefix: seq<byte>, digits: seq<byte>, kind: byte)

  function FieldsAt(raw: seq<byte>, off: nat): Fields
    requires off + BLOCK <= |raw|
  {
    Fields(Text(raw, off, 100), Text(raw, off + 345, 155), Text(raw, off + 124, 12), raw[off + 156])
  }

  predicate Decodes(f: Fields) { Utf.Valid(f.name) && Utf.Valid(f.prefix) && Utf.Valid(f.digits) }

  /** What a header of `size` leads to: the file it carries, if it is a regular one, and where the
      next header lies. */
  function Listed(f: Fields, size: nat, raw: seq<byte>, off: nat): (seq<Entry>, nat) {
    var at := off + BLOCK;
    (if f.kind == ZERO || f.kind == 0 then [Entry(Join(f.prefix, f.name), Sub(raw, at, at + size))] else [],
     at + Align(size))
  }

  /** The header at `off`.  None where the source throws, because a field is no UTF-8, and at a
      size below zero or too large for the 32-bit rounding. */
  function EntryAt(raw: seq<byte>, off: nat): (r: Option<(seq<Entry>, nat)>)
    requires off + BLOCK <= |raw|
    ensures r.Some? ==> off < r.value.1
  {
    var f := FieldsAt(raw, off);
    var size := ParseOctal(f.digits);
    if !Decodes(f) || size < 0 || INT32 <= size + 511 then None else Some(Listed(f, size, raw, off))
  }

  /** These files, then the rest of the archive. */
  function After(files: seq<Entry>, rest: Option<seq<Entry>>): Option<seq<Entry>> {
    match rest case None => None case Some(es) => Some(files + es)
  }

  /** packUntar from `off` on: the files it writes, in order. */
  function Untar(raw: seq<byte>, off: nat): Option<seq<Entry>>
    decreases |raw| - off
  {
    if |raw| < off + BLOCK || raw[off] == 0 then Some([])
    else match EntryAt(raw, off)
      case None => None
      case Some((files, next)) => After(files, Untar(raw, next))
  }

  lemma {:induction false} TextReads(raw: seq<byte>, off: nat, len: nat, s: seq<byte>)
    requires off + len <= |raw| && |s| <= len
    requires forall i :: 0 <= i < len ==> raw[off + i] == At(s, i)
    requires forall i :: 0 <= i < |s| ==> s[i] != 0
    ensures Text(raw, off, len) == s
    decreases len
  {
    if len != 0 {
      assert raw[off + 0] == At(s, 0);
      if s != [] {
        forall i | 0 <= i < len - 1 ensures raw[off + 1 + i] == At(s[1..], i) {
          assert raw[off + (i + 1)] == At(s, i + 1);
        }
        TextReads(raw, off + 1, len - 1, s[1..]);
      }
    }
  }

  predicate Ascii(s: seq<byte>) { forall i :: 0 <= i < |s| ==> s[i] < 128 }

  lemma {:induction false} AsciiIsValid(s: seq<byte>)
    requires Ascii(s)
    ensures Utf.Valid(s)
  {
    if s != [] {
      assert Utf.Drain(s) == Some((s[0], 1));
      AsciiIsValid(s[1..]);
    }
  }

  lemma {:induction false} DigitsAllTheWay(s: seq<byte>)
    requires forall i :: 0 <= i < |s| ==> IsDigit(s[i])
    ensures DigitPrefix(s) == s
  {
    if s != [] {
      DigitsAllTheWay(s[1..]);
    }
  }

  /** Reading a numeric field back gives the number that was written. */
  lemma OctalRoundTrip(n: nat, width: nat)
    requires 1 < width && n < Pow8(width - 1)
    ensures ParseOctal(Octal(n, width)) == n
  {
    OctalField(n, width);
    var s := Octal(n, width);
    assert !IsSpace(s[0]) && !IsSpace(s[|s| - 1]);
    assert TrimLeft(s) == s && TrimRight(s) == s by {
      assert IsDigit(s[0]) && IsDigit(s[|s| - 1]);
    }
    DigitsAllTheWay(s);
  }

  /** A text field of the block at `off`. */
  lemma FieldReads(raw: seq<byte>, off: nat, block: seq<byte>, start: nat, len: nat, s: seq<byte>)
    requires |block| == BLOCK && off + BLOCK <= |raw| && raw[off..off + BLOCK] == block
    requires start + len <= BLOCK && |s| <= len
    requires forall i :: 0 <= i < len ==> block[start + i] == At(s, i)
    requires forall i :: 0 <= i < |s| ==> s[i] != 0
    ensures Text(raw, off + start, len) == s
  {
    forall i | 0 <= i < len ensures raw[off + start + i] == At(s, i) {
      assert raw[off..off + BLOCK][start + i] == raw[off + start + i];
    }
    TextReads(raw, off + start, len, s);
  }

  lemma HeaderName(prefix: seq<byte>, name: seq<byte>, size: nat)
    ensures forall i :: 0 <= i < 100 ==> Header(prefix, name, size)[0 + i] == At(name, i)
  {
  }

  lemma HeaderPrefix(prefix: seq<byte>, name: seq<byte>, size: nat)
    requires |prefix| <= 155
    ensures forall i :: 0 <= i < 155 ==> Header(prefix, name, size)[345 + i] == At(prefix, i)
  {
  }

  lemma HeaderSize(prefix: seq<byte>, name: seq<byte>, size: nat)
    ensures forall i :: 0 <= i < 12 ==> Header(prefix, name, size)[124 + i] == At(Octal(size, 12), i)
    ensures Header(prefix, name, size)[156] == ZERO
  {
  }

  lemma SizeFits(n: nat)
    requires n < INT32
    ensures n < Pow8(11)
  {
    assert Pow8(5) == 32768 && Pow8(8) == 512 * Pow8(5) && Pow8(11) == 512 * Pow8(8);
  }

  /** The two name fields of a header, wherever it lies. */
  lemma NamesRead(raw: seq<byte>, off: nat, prefix: seq<byte>, name: seq<byte>, size: nat)
    requires off + BLOCK <= |raw| && raw[off..off + BLOCK] == Header(prefix, name, size)
    requires |prefix| <= 155 && 0 < |name| <= 100
    requires (forall i :: 0 <= i < |prefix| ==> prefix[i] != 0) && forall i :: 0 <= i < |name| ==> name[i] != 0
    ensures Text(raw, off, 100) == name && Text(raw, off + 345, 155) == prefix && raw[off] != 0
  {
    var h := Header(prefix, name, size);
    HeaderName(prefix, name, size);
    FieldReads(raw, off, h, 0, 100, name);
    HeaderPrefix(prefix, name, size);
    FieldReads(raw, off, h, 345, 155, prefix);
  }

  /** Joined again, they are the path. */
  lemma PathReads(raw: seq<byte>, off: nat, path: seq<byte>, prefix: seq<byte>, name: seq<byte>, size: nat)
    requires FilePath(path) && Split(path) == Some((prefix, name))
    requires off + BLOCK <= |raw| && raw[off..off + BLOCK] == Header(prefix, name, size)
    ensures var f := FieldsAt(raw, off); f.name == name && f.prefix == prefix && Join(f.prefix, f.name) == path
    ensures raw[off] != 0
  {
    SplitJoins(path);
    NamesRead(raw, off, prefix, name, size);
  }

  /** The size field holds the digits of the size. */
  lemma SizeReads(raw: seq<byte>, off: nat, prefix: seq<byte>, name: seq<byte>, size: nat)
    requires size < INT32
    requires off + BLOCK <= |raw| && raw[off..off + BLOCK] == Header(prefix, name, size)
    ensures var f := FieldsAt(raw, off); f.digits == Octal(size, 12) && ParseOctal(f.digits) == size && f.kind == ZERO
  {
    SizeFits(size);
    OctalField(size, 12);
    HeaderSize(prefix, name, size);
    assert raw[off + 156] == raw[off..off + BLOCK][156];
    FieldReads(raw, off, Header(prefix, name, size), 124, 12, Octal(size, 12));
    OctalRoundTrip(size, 12);
  }

  /** The fields of a packed file are all text. */
  lemma FieldsDecode(f: Fields, path: seq<byte>, size: nat)
    requires FilePath(path) && Split(path) == Some((f.prefix, f.name)) && f.digits == Octal(size, 12)
    ensures Decodes(f)
  {
    SplitJoins(path);
    OctalField(size, 12);
    AsciiIsValid(f.name);
    AsciiIsValid(f.prefix);
    AsciiIsValid(f.digits);
  }

  /** The header of a packed file, wherever it lies, leads to the file and to what lies behind it. */
  lemma EntryReads(raw: seq<byte>, off: nat, e: Entry, prefix: seq<byte>, name: seq<byte>)
    requires Packable(e) && Split(e.path) == Some((prefix, name))
    requires off + BLOCK + |e.body| <= |raw| && raw[off + BLOCK..off + BLOCK + |e.body|] == e.body
    requires raw[off..off + BLOCK] == Header(prefix, name, |e.body|)
    ensures raw[off] != 0 && EntryAt(raw, off) == Some(([e], off + BLOCK + Align(|e.body|)))
  {
    var f := FieldsAt(raw, off);
    PathReads(raw, off, e.path, prefix, name, |e.body|);
    SizeReads(raw, off, prefix, name, |e.body|);
    FieldsDecode(f, e.path, |e.body|);
    ListedFile(f, raw, off, e);
  }

  lemma ListedFile(f: Fields, raw: seq<byte>, off: nat, e: Entry)
    requires off + BLOCK + |e.body| <= |raw| && raw[off + BLOCK..off + BLOCK + |e.body|] == e.body
    requires Join(f.prefix, f.name) == e.path && f.kind == ZERO
    ensures Listed(f, |e.body|, raw, off) == ([e], off + BLOCK + Align(|e.body|))
  {
    assert Sub(raw, off + BLOCK, off + BLOCK + |e.body|) == e.body;
  }

  /** One turn of the reader. */
  lemma UntarStep(raw: seq<byte>, off: nat, e: Entry, next: nat, rest: seq<Entry>)
    requires off + BLOCK <= |raw| && raw[off] != 0 && EntryAt(raw, off) == Some(([e], next))
    requires Untar(raw, next) == Some(rest)
    ensures Untar(raw, off) == Some([e] + rest)
  {
  }

  /** Where the parts of a block and the rest lie. */
  lemma BlockParts(raw: seq<byte>, off: nat, header: seq<byte>, body: seq<byte>, pad: seq<byte>, tail: seq<byte>)
    requires off <= |raw| && raw[off..] == header + body + pad + tail && |header| == BLOCK
    ensures var at := off + BLOCK;
      && at + |body| + |pad| <= |raw|
      && raw[off..at] == header && raw[at..at + |body|] == body && raw[at + |body| + |pad|..] == tail
  {
    var at, r := off + BLOCK, raw[off..];
    assert raw[off..at] == r[..BLOCK] == header;
    assert raw[at..at + |body|] == r[BLOCK..BLOCK + |body|] == body;
    assert raw[at + |body| + |pad|..] == r[BLOCK + |body| + |pad|..] == tail;
  }

  /** One packed file, wherever it lies: the reader gets it, and the next header is right behind
      it. */
  lemma FileReads(raw: seq<byte>, off: nat, e: Entry, tail: seq<byte>, next: nat)
    requires Packable(e) && off <= |raw| && raw[off..] == Block(e) + tail
    requires next == off + BLOCK + Align(|e.body|)
    ensures next <= |raw| && raw[next..] == tail
    ensures off + BLOCK <= |raw| && raw[off] != 0 && EntryAt(raw, off) == Some(([e], next))
  {
    var (prefix, name) := Split(e.path).value;
    var header, pad := Header(prefix, name, |e.body|), Zeros(Align(|e.body|) - |e.body|);
    BlockParts(raw, off, header, e.body, pad, tail);
    EntryReads(raw, off, e, prefix, name);
  }

  lemma FileThenRest(raw: seq<byte>, off: nat, e: Entry, tail: seq<byte>, next: nat, rest: seq<Entry>)
    requires Packable(e) && off <= |raw| && raw[off..] == Block(e) + tail
    requires next == off + BLOCK + Align(|e.body|) && Untar(raw, next) == Some(rest)
    ensures Untar(raw, off) == Some([e] + rest)
  {
    FileReads(raw, off, e, tail, next);
    UntarStep(raw, off, e, next, rest);
  }

  lemma HeadAndTail(es: seq<Entry>)
    requires es != []
    ensures es == [es[0]] + es[1..]
  {
  }

  /** Behind the first block lie the others. */
  lemma BlocksBehind(raw: seq<byte>, off: nat, es: seq<Entry>, next: nat)
    requires AllPackable(es) && es != [] && off <= |raw| && raw[off..] == Blocks(es) + Zeros(1024)
    requires next == off + BLOCK + Align(|es[0].body|)
    ensures next <= |raw| && raw[next..] == Blocks(es[1..]) + Zeros(1024)
    ensures raw[off..] == Block(es[0]) + raw[next..]
  {
    Regroup(Block(es[0]), Blocks(es[1..]), Zeros(1024));
    assert raw[next..] == raw[off..][|Block(es[0])|..];
  }

  /** Reading from the start of a block on gives the files laid out from there. */
  lemma {:induction false} UntarBlocks(raw: seq<byte>, off: nat, es: seq<Entry>)
    requires AllPackable(es) && off <= |raw| && raw[off..] == Blocks(es) + Zeros(1024)
    ensures Untar(raw, off) == Some(es)
    decreases |es|
  {
    if es == [] {
      assert raw[off..][0] == raw[off];
    } else {
      var next := off + BLOCK + Align(|es[0].body|);
      BlocksBehind(raw, off, es, next);
      UntarBlocks(raw, next, es[1..]);
      FileThenRest(raw, off, es[0], raw[next..], next, es[1..]);
      HeadAndTail(es);
    }
  }

  /** The archive unpacks to exactly the files packed, in order. */
  lemma UntarUndoesArchive(es: seq<Entry>)
    requires AllPackable(es)
    ensures Untar(Archive(es), 0) == Some(es)
  {
    assert Archive(es)[0..] == Blocks(es) + Zeros(1024);
    UntarBlocks(Archive(es), 0, es);
  }
}
