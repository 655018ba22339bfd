/**
 Reading a ustar archive (POSIX.1-2017, pax utility, "ustar Interchange Format"):
 the parser, a writer, and the proof that the one undoes the other.
 */
module Tar {
  import opened Bytes

  const BLOCK: nat := 512
  const DIRECTORY: byte := 53
  const SPACE: byte := 32

  type Text = seq<byte>

  datatype Entry = Entry(path: Text, data: seq<byte>, isDir: bool)

  // ---- fields ----

  predicate IsOctalDigit(b: byte) {
    48 <= b <= 55
  }

  /** Read digits onto `acc`, skipping blanks, up to the first other byte. */
  function OctalFrom(field: seq<byte>, acc: nat): (v: nat) {
    if field == [] then acc
    else if IsOctalDigit(field[0]) then OctalFrom(field[1..], acc * 8 + (field[0] - 48))
    else if field[0] == SPACE || field[0] == 0 then OctalFrom(field[1..], acc)
    else acc
  }

  function Pow8(n: nat): (p: nat)
    ensures p > 0
  {
    if n == 0 then 1 else 8 * Pow8(n - 1)
  }

  /** The bytes before the first NUL. */
  function CStr(field: seq<byte>): (s: seq<byte>)
    ensures |s| <= |field| && s == field[..|s|] && 0 !in s
    ensures |s| < |field| ==> field[|s|] == 0
  {
    if field == [] || field[0] == 0 then [] else [field[0]] + CStr(field[1..])
  }

  /** `octal`, which a 12-byte field cannot make overflow 64 bits. */
  method Octal(field: seq<byte>) returns (value: nat)
    requires |field| <= 12
    ensures value == OctalFrom(field, 0) && value < Pow8(12)
  {
    value := 0;
    for i := 0 to |field|
      invariant OctalFrom(field[i..], value) == OctalFrom(field, 0)
      invariant value < Pow8(i)
    {
      PowMonotone(i, 12);
      var b := field[i];
      assert field[i..][1..] == field[i + 1..];
      if IsOctalDigit(b) {
        value := value * 8 + (b - 48);
      } else if b != SPACE && b != 0 {
        return;
      }
    }
    PowMonotone(|field|, 12);
  }

  lemma {:induction false} PowMonotone(a: nat, b: nat)
    requires a <= b
    ensures Pow8(a) <= Pow8(b)
  {
    if a < b { PowMonotone(a, b - 1); }
  }

  // ---- the parser ----

  function Blocks(size: nat): (n: nat) {
    (size + BLOCK - 1) / BLOCK
  }

  /** The entry described by the header at `pos`; `decode` is the lossy UTF-8 decoding of names. */
  function EntryAt(tar: seq<byte>, pos: nat, decode: seq<byte> -> Text): (e: Entry)
    requires pos + BLOCK <= |tar|
  {
    var hdr := tar[pos..pos + BLOCK];
    var size := OctalFrom(hdr[124..136], 0);
    var body := pos + BLOCK;
    var isDir := hdr[156] == DIRECTORY;
    Entry(decode(CStr(hdr[..100])), if isDir then [] else tar[body..Min(body + size, |tar|)], isDir)
  }

  function NextHeader(tar: seq<byte>, pos: nat): (p: nat)
    requires pos + BLOCK <= |tar|
    ensures p > pos
  {
    pos + BLOCK + Blocks(OctalFrom(tar[pos..pos + BLOCK][124..136], 0)) * BLOCK
  }

  function Kept(e: Entry): (s: seq<Entry>) {
    if e.path != [] then [e] else []
  }

  function ParseFrom(tar: seq<byte>, pos: nat, decode: seq<byte> -> Text): (out: seq<Entry>)
    decreases |tar| - pos
  {
    if pos + BLOCK > |tar| || tar[pos] == 0 then []
    else Kept(EntryAt(tar, pos, decode)) + ParseFrom(tar, NextHeader(tar, pos), decode)
  }

  method ReadEntry(tar: seq<byte>, pos: nat, decode: seq<byte> -> Text) returns (e: Entry, next: nat)
    requires pos + BLOCK <= |tar|
    ensures e == EntryAt(tar, pos, decode) && next == NextHeader(tar, pos)
  {
    var hdr := tar[pos..pos + BLOCK];
    var name := decode(CStr(hdr[..100]));
    var size := Octal(hdr[124..136]);
    var body := pos + BLOCK;
    var isDir := hdr[156] == DIRECTORY;
    var data := [];
    if !isDir {
      data := tar[body..Min(body + size, |tar|)];
    }
    e := Entry(name, data, isDir);
    next := body + Blocks(size) * BLOCK;
  }

  lemma ParseStep(tar: seq<byte>, pos: nat, decode: seq<byte> -> Text)
    ensures pos + BLOCK > |tar| || tar[pos] == 0 ==> ParseFrom(tar, pos, decode) == []
    ensures pos + BLOCK <= |tar| && tar[pos] != 0 ==>
              ParseFrom(tar, pos, decode) == Kept(EntryAt(tar, pos, decode)) + ParseFrom(tar, NextHeader(tar, pos), decode)
  {}

  lemma Regroup<T>(a: seq<T>, b: seq<T>, c: seq<T>)
    ensures a + (b + c) == (a + b) + c
  {}

  /** The parser's loop; it ends on every byte string and never slices out of range. */
  method Parse(tar: seq<byte>, decode: seq<byte> -> Text) returns (out: seq<Entry>)
    ensures out == ParseFrom(tar, 0, decode)
  {
    hide ParseFrom, EntryAt, NextHeader;
    out := [];
    var pos := 0;
    while pos + BLOCK <= |tar|
      invariant out + ParseFrom(tar, pos, decode) == ParseFrom(tar, 0, decode)
      decreases |tar| - pos
    {
      ParseStep(tar, pos, decode);
      if tar[pos] == 0 {
        return;
      }
      var e, next := ReadEntry(tar, pos, decode);
      Regroup(out, Kept(e), ParseFrom(tar, next, decode));
      out := out + Kept(e);
      pos := next;
    }
    ParseStep(tar, pos, decode);
  }

  // ---- the format, in bytes ----

  /** A size field is octal, leading blanks are skipped, and anything else ends it. */
  lemma OctalExamples()
    ensures OctalFrom([32, 49, 55, 53, 48, 0], 0) == 1000
    ensures OctalFrom([49, 50, 57, 55], 0) == 10
  {
    assert [32, 49, 55, 53, 48, 0][1..] == [49, 55, 53, 48, 0] && [49, 55, 53, 48, 0][1..] == [55, 53, 48, 0];
    assert [55, 53, 48, 0][1..] == [53, 48, 0] && [53, 48, 0][1..] == [48, 0] && [48, 0][1..] == [0];
    assert OctalFrom([48, 0], 125) == 1000 && OctalFrom([53, 48, 0], 15) == 1000;
    assert [49, 50, 57, 55][1..] == [50, 57, 55] && [50, 57, 55][1..] == [57, 55];
  }

  /**
   What a header block means: the name runs from byte 0 to a NUL or byte 100, the
   size is in bytes 124 to 136, type flag 53 (`5`) makes a directory and any
   other a file with that many of the bytes that follow, as far as there are
   any. The next header is at the next multiple of 512 behind them.
   */
  lemma HeaderMeans(tar: seq<byte>, pos: nat, decode: seq<byte> -> Text, name: seq<byte>, size: nat)
    requires pos + 512 <= |tar| && 0 !in name && |name| <= 100 && name <= tar[pos..]
    requires |name| < 100 ==> tar[pos + |name|] == 0
    requires size == OctalFrom(tar[pos + 124..pos + 136], 0)
    ensures var e := EntryAt(tar, pos, decode);
            && e.path == decode(name) && (e.isDir <==> tar[pos + 156] == 53)
            && (e.isDir ==> e.data == [])
            && (!e.isDir ==> e.data <= tar[pos + 512..] && |e.data| == Min(size, |tar| - pos - 512))
    ensures var next := NextHeader(tar, pos);
            next % 512 == pos % 512 && pos + 512 + size <= next < pos + 1024 + size
  {
    hide CStr, OctalFrom;
    FieldOf(tar, pos, 0, 100);
    FieldOf(tar, pos, 124, 136);
    CStrIs(tar[pos..pos + 100], name);
  }

  lemma CStrIs(field: seq<byte>, name: seq<byte>)
    requires |field| == 100 && 0 !in name && |name| <= 100 && name <= field && (|name| < 100 ==> field[|name|] == 0)
    ensures CStr(field) == name
  {
    var s := CStr(field);
    hide CStr;
  }

  lemma FieldOf(tar: seq<byte>, pos: nat, a: nat, b: nat)
    requires pos + 512 <= |tar| && a <= b <= 512
    ensures tar[pos..pos + 512][a..b] == tar[pos + a..pos + b]
  {
    var x, y := tar[pos..pos + 512][a..b], tar[pos + a..pos + b];
    assert forall i :: 0 <= i < |x| ==> x[i] == y[i];
  }

  /** No entry without a name is kept. */
  lemma {:induction false} EveryEntryIsNamed(tar: seq<byte>, pos: nat, decode: seq<byte> -> Text)
    ensures forall e :: e in ParseFrom(tar, pos, decode) ==> e.path != []
    decreases |tar| - pos
  {
    hide EntryAt, NextHeader;
    if pos + BLOCK <= |tar| && tar[pos] != 0 {
      EveryEntryIsNamed(tar, NextHeader(tar, pos), decode);
    }
  }

  // ---- the writer ----

  /** An archive member; the three `meta` fields are the header bytes the parser does not look at. */
  datatype Member = Member(name: seq<byte>, data: seq<byte>, typeflag: byte,
                           meta1: seq<byte>, meta2: seq<byte>, meta3: seq<byte>)

  ghost predicate Valid(m: Member) {
    && 1 <= |m.name| <= 100 && 0 !in m.name && |m.data| < Pow8(11)
    && (m.typeflag == DIRECTORY ==> m.data == [])
    && |m.meta1| == 24 && |m.meta2| == 20 && |m.meta3| == 355
  }

  function OctalDigits(n: nat, k: nat): (d: seq<byte>)
    ensures |d| == k
  {
    if k == 0 then [] else OctalDigits(n / 8, k - 1) + [48 + n % 8]
  }

  function Header(m: Member): (h: seq<byte>) {
    m.name + Zeros(if |m.name| <= 100 then 100 - |m.name| else 0) + m.meta1
    + (OctalDigits(|m.data|, 11) + [0]) + m.meta2 + [m.typeflag] + m.meta3
  }

  function Padding(size: nat): (n: nat)
    ensures size + n == Blocks(size) * BLOCK
  {
    Blocks(size) * BLOCK - size
  }

  function Archive(members: seq<Member>, tail: seq<byte>): (a: seq<byte>) {
    if members == [] then tail
    else Header(members[0]) + members[0].data + Zeros(Padding(|members[0].data|)) + Archive(members[1..], tail)
  }

  function Expected(members: seq<Member>, decode: seq<byte> -> Text): (es: seq<Entry>) {
    if members == [] then []
    else
      var m := members[0];
      Kept(Entry(decode(m.name), m.data, m.typeflag == DIRECTORY)) + Expected(members[1..], decode)
  }

  // ---- the round trip ----

  lemma {:induction false} CStrOfPadded(name: seq<byte>, z: seq<byte>)
    requires 0 !in name && forall i :: 0 <= i < |z| ==> z[i] == 0
    ensures CStr(name + z) == name
  {
    if name == [] {
    } else {
      assert (name + z)[1..] == name[1..] + z;
      CStrOfPadded(name[1..], z);
    }
  }

  lemma {:induction false} OctalAppend(a: seq<byte>, b: seq<byte>, acc: nat)
    requires forall i :: 0 <= i < |a| ==> IsOctalDigit(a[i])
    ensures OctalFrom(a + b, acc) == OctalFrom(b, OctalFrom(a, acc))
  {
    if a == [] {
      assert a + b == b;
    } else {
      assert (a + b)[1..] == a[1..] + b;
      OctalAppend(a[1..], b, acc * 8 + (a[0] - 48));
    }
  }

  lemma {:induction false} DigitsAreOctal(n: nat, k: nat)
    requires n < Pow8(k)
    ensures forall i :: 0 <= i < k ==> IsOctalDigit(OctalDigits(n, k)[i])
    ensures OctalFrom(OctalDigits(n, k), 0) == n
  {
    if k > 0 {
      DigitsAreOctal(n / 8, k - 1);
      OctalAppend(OctalDigits(n / 8, k - 1), [48 + n % 8], 0);
    }
  }

  lemma OctalFieldRoundTrip(n: nat)
    requires n < Pow8(11)
    ensures OctalFrom(OctalDigits(n, 11) + [0], 0) == n
  {
    DigitsAreOctal(n, 11);
    OctalAppend(OctalDigits(n, 11), [0], 0);
  }

  lemma HeaderFields(m: Member)
    requires Valid(m)
    ensures var h := Header(m);
            && |h| == BLOCK && h[0] != 0 && CStr(h[..100]) == m.name
            && OctalFrom(h[124..136], 0) == |m.data| && h[156] == m.typeflag
  {
    var h := Header(m);
    var z := Zeros(100 - |m.name|);
    assert h[..100] == m.name + z;
    CStrOfPadded(m.name, z);
    assert h[124..136] == OctalDigits(|m.data|, 11) + [0];
    OctalFieldRoundTrip(|m.data|);
  }

  /** Parsing at the start of a written member yields that member and moves to the next. */
  lemma ParseMember(pre: seq<byte>, m: Member, rest: seq<byte>, decode: seq<byte> -> Text)
    requires Valid(m)
    ensures var block := Header(m) + m.data + Zeros(Padding(|m.data|));
            var tar := pre + block + rest;
            && |pre| + BLOCK <= |tar| && tar[|pre|] != 0
            && EntryAt(tar, |pre|, decode) == Entry(decode(m.name), m.data, m.typeflag == DIRECTORY)
            && NextHeader(tar, |pre|) == |pre + block|
  {
    HeaderFields(m);
    var h := Header(m);
    hide Header;
    var tar := pre + (h + m.data + Zeros(Padding(|m.data|))) + rest;
    var body := |pre| + BLOCK;
    assert tar[|pre|..body] == h;
    assert tar[body..body + |m.data|] == m.data;
  }

  lemma {:induction false} ParseFromMembers(pre: seq<byte>, members: seq<Member>, tail: seq<byte>, decode: seq<byte> -> Text)
    requires forall m :: m in members ==> Valid(m)
    requires |tail| < BLOCK || tail[0] == 0
    ensures ParseFrom(pre + Archive(members, tail), |pre|, decode) == Expected(members, decode)
    decreases |members|
  {
    hide EntryAt, NextHeader, Header, Valid, Kept;
    if members != [] {
      var m := members[0];
      var block := Header(m) + m.data + Zeros(Padding(|m.data|));
      var rest := Archive(members[1..], tail);
      assert pre + Archive(members, tail) == pre + block + rest;
      ParseMember(pre, m, rest, decode);
      ParseFromMembers(pre + block, members[1..], tail, decode);
    }
  }

  /**
   The parser undoes the writer, for every list of members and any tail that is
   shorter than a block or begins with a NUL (as the zero blocks at the end do).
   */
  lemma ParseUndoesWrite(members: seq<Member>, tail: seq<byte>, decode: seq<byte> -> Text)
    requires forall m :: m in members ==> Valid(m)
    requires |tail| < BLOCK || tail[0] == 0
    ensures ParseFrom(Archive(members, tail), 0, decode) == Expected(members, decode)
  {
    ParseFromMembers([], members, tail, decode);
    assert [] + Archive(members, tail) == Archive(members, tail);
  }
}
