/** The packer and the reader as they run: bytes written at running offsets, blocks walked. */
module UstarTools {
  import opened Bytes
  import opened Wrappers
  import opened UstarFormat
  import opened UstarArchive

  /** dst.set(bytes, off). */
  method Put(dst: array<byte>, off: nat, s: seq<byte>)
    requires off + |s| <= dst.Length
    modifies dst
    ensures forall j :: 0 <= j < dst.Length ==>
      dst[j] == if off <= j < off + |s| then s[j - off] else old(dst[j])
  {
    forall j | off <= j < off + |s| {
      dst[j] := s[j - off];
    }
  }

  /** `octal`: pad the digits with zeros up to width - 1. */
  method OctalText(n: nat, width: nat) returns (s: seq<byte>)
    requires 1 < width
    ensures s == Octal(n, width) && IsOctal(s, n, width)
  {
    s := Digits(n);
    while |s| < width - 1
      invariant Padded(s, width) == Octal(n, width)
      decreases width - |s|
    {
      s := [ZERO] + s;
    }
    OctalField(n, width);
  }

  /** The splitter's search. */
  method SplitPath(path: seq<byte>) returns (r: Option<(seq<byte>, seq<byte>)>)
    ensures r == Split(path)
  {
    if |path| <= 100 {
      return Some(([], path));
    }
    var i := 0;
    while i < |path|
      invariant i <= |path| && FirstCut(path, 0) == FirstCut(path, i)
    {
      if path[i] == SLASH && i <= 155 && |path| - i - 1 <= 100 {
        return Some((path[..i], path[i + 1..]));
      }
      i := i + 1;
    }
    r := None;
  }

  /** The block at `off` holds these bytes, and nothing outside it changed. */
  twostate predicate OnlyBlock(dst: array<byte>, off: nat)
    reads dst
  {
    forall j :: 0 <= j < dst.Length && !(off <= j < off + BLOCK) ==> dst[j] == old(dst[j])
  }

  /** The name, mode and owner fields. */
  method WriteHead(dst: array<byte>, off: nat, prefix: seq<byte>, name: seq<byte>, size: nat)
    requires off + BLOCK <= dst.Length && |name| <= 100
    requires forall j :: off <= j < off + BLOCK ==> dst[j] == 0
    modifies dst
    ensures OnlyBlock(dst, off)
    ensures forall i :: 0 <= i < 124 ==> dst[off + i] == BlankByte(i, prefix, name, size)
    ensures forall j :: off + 124 <= j < off + BLOCK ==> dst[j] == 0
  {
    Put(dst, off, name);
    var mode := OctalText(MODE, 8);
    assert |mode| == 7 by { SmallOctal(MODE, 8); }
    var none := OctalText(0, 8);
    assert |none| == 7 by { SmallOctal(0, 8); }
    Put(dst, off + 100, mode);
    Put(dst, off + 108, none);
    Put(dst, off + 116, none);
  }

  lemma SmallOctal(n: nat, width: nat)
    requires n <= MODE && 4 < width
    ensures |Octal(n, width)| == width - 1
  {
    Pow8Grows(width - 1, 3);
    OctalField(n, width);
  }

  lemma {:induction false} Pow8Grows(a: nat, b: nat)
    requires b <= a
    ensures Pow8(b) <= Pow8(a)
    decreases a
  {
    if b < a {
      Pow8Grows(a - 1, b);
    }
  }

  /** The size and time fields and the spaces of the checksum field. */
  method WriteMiddle(dst: array<byte>, off: nat, prefix: seq<byte>, name: seq<byte>, size: nat)
    requires off + BLOCK <= dst.Length && size < INT32
    requires forall i :: 0 <= i < 124 ==> dst[off + i] == BlankByte(i, prefix, name, size)
    requires forall j :: off + 124 <= j < off + BLOCK ==> dst[j] == 0
    modifies dst
    ensures OnlyBlock(dst, off)
    ensures forall i :: 0 <= i < 156 ==> dst[off + i] == BlankByte(i, prefix, name, size)
    ensures forall j :: off + 156 <= j < off + BLOCK ==> dst[j] == 0
  {
    var length := OctalText(size, 12);
    assert |length| == 11 by { SizeFits(size); }
    var time := OctalText(0, 12);
    assert |time| == 11 by { SmallOctal(0, 12); }
    Put(dst, off + 124, length);
    Put(dst, off + 136, time);
    Put(dst, off + 148, seq(8, _ => SPACE));
  }

  /** The type, magic, version and prefix. */
  method WriteTail(dst: array<byte>, off: nat, prefix: seq<byte>, name: seq<byte>, size: nat)
    requires off + BLOCK <= dst.Length && |prefix| <= 155
    requires forall i :: 0 <= i < 156 ==> dst[off + i] == BlankByte(i, prefix, name, size)
    requires forall j :: off + 156 <= j < off + BLOCK ==> dst[j] == 0
    modifies dst
    ensures OnlyBlock(dst, off)
    ensures dst[off..off + BLOCK] == Blank(prefix, name, size)
  {
    dst[off + 156] := ZERO;
    Put(dst, off + 257, MAGIC);
    dst[off + 263] := ZERO;
    dst[off + 264] := ZERO;
    if prefix != [] {
      Put(dst, off + 345, prefix);
    }
    forall i | 0 <= i < BLOCK ensures dst[off + i] == BlankByte(i, prefix, name, size) {
    }
  }

  /** Sum the block's bytes. */
  method SumBlock(dst: array<byte>, off: nat) returns (sum: nat)
    requires off + BLOCK <= dst.Length
    ensures sum == Sum(dst[off..off + BLOCK])
  {
    sum := 0;
    for i := 0 to BLOCK
      invariant sum == Sum(dst[off..off + i])
    {
      assert dst[off..off + i + 1][..i] == dst[off..off + i];
      sum := sum + dst[off + i];
    }
  }

  /** `header`: false, and nothing written, when the path is too long for the archive. */
  method WriteHeader(dst: array<byte>, off: nat, path: seq<byte>, size: nat) returns (ok: bool)
    requires FilePath(path) && off + BLOCK <= dst.Length && size < INT32
    requires forall j :: off <= j < off + BLOCK ==> dst[j] == 0
    modifies dst
    ensures ok <==> Split(path).Some?
    ensures !ok ==> dst[..] == old(dst[..])
    ensures ok ==> OnlyBlock(dst, off)
    ensures ok ==>
      var (prefix, name) := Split(path).value; dst[off..off + BLOCK] == Header(prefix, name, size)
  {
    var split := SplitPath(path);
    if split.None? {
      return false;
    }
    SplitJoins(path);
    var (prefix, name) := split.value;
    WriteHead(dst, off, prefix, name, size);
    WriteMiddle(dst, off, prefix, name, size);
    WriteTail(dst, off, prefix, name, size);
    WriteChecksum(dst, off, prefix, name, size);
    ok := true;
  }

  /** Six digits, a NUL, a space. */
  method WriteChecksum(dst: array<byte>, off: nat, prefix: seq<byte>, name: seq<byte>, size: nat)
    requires off + BLOCK <= dst.Length && dst[off..off + BLOCK] == Blank(prefix, name, size)
    modifies dst
    ensures OnlyBlock(dst, off) && dst[off..off + BLOCK] == Header(prefix, name, size)
  {
    var sum := SumBlock(dst, off);
    var digits := OctalText(sum, 7);
    assert |digits| == 6 by {
      SumBound(dst[off..off + BLOCK]);
      assert Pow8(3) == 512 && Pow8(6) == 512 * Pow8(3);
    }
    forall i | 0 <= i < BLOCK ensures dst[off + i] == BlankByte(i, prefix, name, size) {
      assert dst[off..off + BLOCK][i] == dst[off + i];
    }
    Put(dst, off + 148, digits);
    dst[off + 154] := 0;
    dst[off + 155] := SPACE;
    forall i | 0 <= i < BLOCK ensures dst[off + i] == HeaderByte(i, prefix, name, size) {
    }
  }

  // ----- The whole archive -----

  /** How long the archive comes out: a header and a rounded body per file, two zero blocks. */
  function Total(es: seq<Entry>): (n: nat)
    ensures 1024 <= n
  {
    if es == [] then 1024 else Total(es[..|es| - 1]) + BLOCK + Align(|es[|es| - 1].body|)
  }

  lemma {:induction false} TotalGrows(es: seq<Entry>, i: nat)
    requires i <= |es|
    ensures Total(es[..i]) <= Total(es)
    ensures i < |es| ==> Total(es[..i]) + BLOCK + Align(|es[i].body|) <= Total(es)
    decreases |es| - i
  {
    if i == |es| {
      assert es[..i] == es;
    } else {
      assert es[..i + 1][..i] == es[..i];
      TotalGrows(es, i + 1);
    }
  }

  /** The buffer the packer allocates is exactly the size of the archive it writes. */
  lemma {:induction false} TotalIsArchive(es: seq<Entry>)
    requires AllPackable(es)
    ensures |Archive(es)| == Total(es)
  {
    if es != [] {
      var last := |es| - 1;
      TotalIsArchive(es[..last]);
      BlocksAppend(es[..last], es[last]);
      assert es[..last] + [es[last]] == es;
    }
  }

  /** The first pass: add up the sizes, rounded in 32-bit arithmetic. */
  method Measure(es: seq<Entry>) returns (raw: nat)
    requires Total(es) < INT32
    ensures raw == Total(es)
  {
    raw := 1024;
    for i := 0 to |es|
      invariant raw == Total(es[..i])
    {
      assert es[..i + 1][..i] == es[..i];
      TotalGrows(es, i);
      AlignIsExact(|es[i].body|);
      raw := raw + BLOCK + Align32(|es[i].body|);
    }
    assert es[..|es|] == es;
  }

  /** One file: its header, then its bytes, into room that is still zero. */
  method PackOne(tar: array<byte>, off: nat, e: Entry) returns (ok: bool)
    requires FilePath(e.path) && |e.body| + 511 < INT32
    requires off + BLOCK + Align(|e.body|) <= tar.Length
    requires forall j :: off <= j < tar.Length ==> tar[j] == 0
    modifies tar
    ensures ok <==> Packable(e)
    ensures ok ==> tar[..off] == old(tar[..off]) && tar[off..off + |Block(e)|] == Block(e)
    ensures ok ==> forall j :: off + |Block(e)| <= j < tar.Length ==> tar[j] == 0
  {
    ok := WriteHeader(tar, off, e.path, |e.body|);
    if ok {
      ghost var headed := tar[..];
      if |e.body| != 0 {
        Put(tar, off + BLOCK, e.body);
      }
      LaidOut(headed, tar[..], off, e);
    }
  }

  /** A header with the body behind it and zeros from there on is the file's block. */
  lemma LaidOut(headed: seq<byte>, now: seq<byte>, off: nat, e: Entry)
    requires Packable(e) && off + BLOCK + Align(|e.body|) <= |headed| == |now|
    requires var (prefix, name) := Split(e.path).value; headed[off..off + BLOCK] == Header(prefix, name, |e.body|)
    requires forall j :: off + BLOCK <= j < |headed| ==> headed[j] == 0
    requires forall j :: 0 <= j < |now| ==>
      now[j] == if off + BLOCK <= j < off + BLOCK + |e.body| then e.body[j - off - BLOCK] else headed[j]
    ensures now[..off] == headed[..off] && now[off..off + |Block(e)|] == Block(e)
  {
    var at, end, next := off + BLOCK, off + BLOCK + |e.body|, off + BLOCK + Align(|e.body|);
    assert now[off..at] == headed[off..at];
    assert now[at..end] == e.body;
    assert now[end..next] == Zeros(next - end);
    assert now[off..next] == now[off..at] + now[at..end] + now[end..next];
  }

  lemma PackedSoFar(es: seq<Entry>, i: nat)
    requires i < |es| && AllPackable(es[..i]) && Packable(es[i])
    ensures AllPackable(es[..i + 1]) && Blocks(es[..i + 1]) == Blocks(es[..i]) + Block(es[i])
    ensures Total(es[..i + 1]) == Total(es[..i]) + BLOCK + Align(|es[i].body|)
  {
    assert es[..i + 1] == es[..i] + [es[i]] && es[..i + 1][..i] == es[..i];
    BlocksAppend(es[..i], es[i]);
  }

  /** The second pass: every file behind the last, in room that is still zero. */
  method PackAll(tar: array<byte>, es: seq<Entry>) returns (ok: bool)
    requires forall i :: 0 <= i < |es| ==> FilePath(es[i].path)
    requires tar.Length == Total(es) < INT32
    requires forall j :: 0 <= j < tar.Length ==> tar[j] == 0
    modifies tar
    ensures ok <==> AllPackable(es)
    ensures ok ==> tar[..] == Archive(es)
  {
    var off := 0;
    for i := 0 to |es|
      invariant AllPackable(es[..i]) && off == |Blocks(es[..i])| == Total(es[..i]) - 1024
      invariant off + 1024 <= tar.Length && tar[..off] == Blocks(es[..i])
      invariant forall j :: off <= j < tar.Length ==> tar[j] == 0
    {
      TotalGrows(es, i);
      ok := PackOne(tar, off, es[i]);
      if !ok {
        return;
      }
      PackedSoFar(es, i);
      AlignIsExact(|es[i].body|);
      var next := off + BLOCK + Align32(|es[i].body|);
      assert tar[..next] == tar[..off] + tar[off..next];
      off := next;
    }
    assert es[..|es|] == es;
    assert tar[off..] == Zeros(1024);
    assert tar[..] == tar[..off] + tar[off..];
    ok := true;
  }

  lemma BodiesFit(es: seq<Entry>)
    requires Total(es) < INT32
    ensures forall i :: 0 <= i < |es| ==> |es[i].body| + 511 < INT32
  {
    forall i | 0 <= i < |es| ensures |es[i].body| + 511 < INT32 {
      TotalGrows(es, i);
    }
  }

  /** `pack`, to the raw tar bytes.  It throws (None) exactly when the splitter refuses some
      path; otherwise the bytes are the archive, and the reader gets every file back. */
  method PackTree(es: seq<Entry>) returns (r: Option<array<byte>>)
    requires forall i :: 0 <= i < |es| ==> FilePath(es[i].path)
    requires Total(es) < INT32
    ensures r.Some? <==> forall i :: 0 <= i < |es| ==> Split(es[i].path).Some?
    ensures r.Some? ==> AllPackable(es) && fresh(r.value)
    ensures r.Some? ==> r.value[..] == Archive(es) && Untar(r.value[..], 0) == Some(es)
  {
    var raw := Measure(es);
    var tar := new byte[raw](_ => 0);
    var ok := PackAll(tar, es);
    BodiesFit(es);
    if !ok {
      return None;
    }
    UntarUndoesArchive(es);
    r := Some(tar);
  }

  /** packStr. */
  method PackStr(b: array<byte>, off: nat, len: nat) returns (t: seq<byte>)
    requires off + len <= b.Length
    ensures t == Text(b[..], off, len)
  {
    var end := off;
    while end < off + len && b[end] != 0
      invariant off <= end <= off + len
      invariant Text(b[..], off, len) == b[off..end] + Text(b[..], end, off + len - end)
    {
      assert b[off..end + 1] == b[off..end] + [b[end]];
      end := end + 1;
    }
    t := b[off..end];
  }

  /** One turn of the reader: the file under this header, and where the next header lies. */
  method ReadEntry(raw: array<byte>, off: nat) returns (r: Option<(seq<Entry>, nat)>)
    requires off + BLOCK <= raw.Length
    ensures r == EntryAt(raw[..], off)
  {
    var name := PackStr(raw, off, 100);
    var prefix := PackStr(raw, off + 345, 155);
    var digits := PackStr(raw, off + 124, 12);
    var f := Fields(name, prefix, digits, raw[off + 156]);
    assert f == FieldsAt(raw[..], off);
    if !Decodes(f) {
      return None;
    }
    var size := ParseOctal(digits);
    if size < 0 || INT32 <= size + 511 {
      return None;
    }
    var listed := ListEntry(raw, off, f, size);
    r := Some(listed);
  }

  method ListEntry(raw: array<byte>, off: nat, f: Fields, size: nat) returns (r: (seq<Entry>, nat))
    requires off + BLOCK <= raw.Length && size + 511 < INT32
    ensures r == Listed(f, size, raw[..], off)
  {
    var name, at := f.name, off + BLOCK;
    if f.prefix != [] {
      name := f.prefix + [SLASH] + name;
    }
    var files := [];
    if f.kind == ZERO || f.kind == 0 {
      files := [Entry(name, Sub(raw[..], at, at + size))];
    }
    AlignIsExact(size);
    r := (files, at + Align32(size));
  }

  lemma AfterAfter(a: seq<Entry>, b: seq<Entry>, rest: Option<seq<Entry>>)
    ensures After(a, After(b, rest)) == After(a + b, rest)
  {
    if rest.Some? {
      assert a + (b + rest.value) == a + b + rest.value;
    }
  }

  /** `packUntar`: every file of the archive, or None where the reader's own numbers break. */
  method Unpack(raw: array<byte>) returns (r: Option<seq<Entry>>)
    ensures r == Untar(raw[..], 0)
  {
    var off, files := 0, [];
    ghost var all := Untar(raw[..], 0);
    assert all == After([], all) by { assert all.Some? ==> [] + all.value == all.value; }
    while off + BLOCK <= raw.Length && raw[off] != 0
      invariant all == After(files, Untar(raw[..], off))
      decreases raw.Length - off
    {
      var entry := ReadEntry(raw, off);
      if entry.None? {
        return None;
      }
      AfterAfter(files, entry.value.0, Untar(raw[..], entry.value.1));
      files, off := files + entry.value.0, entry.value.1;
    }
    assert files + [] == files;
    r := Some(files);
  }
}
