/** Integer/byte helpers, the cursor over a byte sequence that stands for the
    package's io.Reader values, and the 27-byte page-header serialiser
    (util.go). */
module OggUtil {
  import opened OggTypes

  // ---------------------------------------------------------------- integers

  function Pow256(w: nat): (r: nat)
    ensures r >= 1
  {
    if w == 0 then 1 else 256 * Pow256(w - 1)
  }

  lemma {:induction false} Pow256Mono(v: nat, w: nat)
    requires v <= w
    ensures Pow256(v) <= Pow256(w)
  {
    if v < w { Pow256Mono(v, w - 1); }
  }

  /** Little-endian value of a byte string: the first byte is least significant. */
  function LeValue(b: Bytes): nat
  {
    if b == [] then 0 else b[0] + 256 * LeValue(b[1..])
  }

  /** Big-endian value of a byte string: the last byte is least significant. */
  function BeValue(b: Bytes): nat
  {
    if b == [] then 0 else 256 * BeValue(b[..|b| - 1]) + b[|b| - 1]
  }

  /** The w low bytes of n, least significant first. */
  function LeBytes(n: nat, w: nat): (r: Bytes)
    ensures |r| == w
  {
    if w == 0 then [] else [n % 256] + LeBytes(n / 256, w - 1)
  }

  /** The w low bytes of n, most significant first. */
  function BeBytes(n: nat, w: nat): (r: Bytes)
    ensures |r| == w
  {
    if w == 0 then [] else BeBytes(n / 256, w - 1) + [n % 256]
  }

  lemma {:induction false} LeValueBound(b: Bytes)
    ensures LeValue(b) < Pow256(|b|)
  {
    if b != [] { LeValueBound(b[1..]); }
  }

  lemma {:induction false} BeValueBound(b: Bytes)
    ensures BeValue(b) < Pow256(|b|)
  {
    if b != [] { BeValueBound(b[..|b| - 1]); }
  }

  /** Writing n in w little-endian bytes and reading them back gives n. */
  lemma {:induction false} LeRoundTrip(n: nat, w: nat)
    requires n < Pow256(w)
    ensures LeValue(LeBytes(n, w)) == n
  {
    if w > 0 {
      LeRoundTrip(n / 256, w - 1);
      assert LeBytes(n, w)[1..] == LeBytes(n / 256, w - 1);
    }
  }

  /** Every w-byte string is the little-endian encoding of its value. */
  lemma {:induction false} LeBytesOfValue(b: Bytes)
    ensures LeBytes(LeValue(b), |b|) == b
  {
    if b != [] {
      ByteSplit(b[0], LeValue(b[1..]));
      LeBytesOfValue(b[1..]);
    }
  }

  /** A byte plus 256 times anything splits back into the two by % and /. */
  lemma ByteSplit(lo: nat, hi: nat)
    requires lo < 256
    ensures (lo + 256 * hi) % 256 == lo && (lo + 256 * hi) / 256 == hi
  {
  }

  /** Writing n in w big-endian bytes and reading them back gives n. */
  lemma {:induction false} BeRoundTrip(n: nat, w: nat)
    requires n < Pow256(w)
    ensures BeValue(BeBytes(n, w)) == n
  {
    if w > 0 {
      BeRoundTrip(n / 256, w - 1);
      var r := BeBytes(n, w);
      assert r[..w - 1] == BeBytes(n / 256, w - 1);
    }
  }

  /** Two's complement reading of a 64-bit pattern. */
  function Signed64(u: nat): (g: int64)
    requires u < Two64
    ensures 0 <= g ==> g == u
    ensures g < 0 ==> g == u - Two64
  {
    if u >= Two64 / 2 then u - Two64 else u
  }

  /** The 64-bit pattern of a signed value (Go's uint64(g)). */
  function Unsigned64(g: int64): (u: nat)
    ensures u < Two64 && Signed64(u) == g
  {
    if g < 0 then g + Two64 else g
  }

  /** Go's arithmetic on a 64-bit int: the value kept modulo 2^64. */
  function Wrap64(x: int): (g: int64)
    ensures (g - x) % Two64 == 0
  {
    Signed64(x % Two64)
  }

  // ---------------------------------------------------------------- getInt

  /** getInt: shift the accumulator left by 8 and or in the next byte, on a
      64-bit int.  Defined from the right so that getInt(b + [x]) is
      one step after getInt(b). */
  function GetIntSpec(b: Bytes): int64
  {
    if b == [] then 0 else Wrap64(256 * GetIntSpec(b[..|b| - 1]) + b[|b| - 1])
  }

  /** getInt itself: the loop over the bytes.  The shift drops the top byte
      of the accumulator and leaves the low byte zero, so the or that follows
      is an addition. */
  method GetInt(b: Bytes) returns (n: int64)
    ensures n == GetIntSpec(b)
  {
    n := 0;
    var i := 0;
    while i < |b|
      invariant 0 <= i <= |b|
      invariant n == GetIntSpec(b[..i])
    {
      assert b[..i + 1][..i] == b[..i];
      n := Wrap64(n * 256 + b[i]);
      i := i + 1;
    }
    assert b[..|b|] == b;
  }

  /** For up to 7 bytes nothing wraps: getInt is the big-endian value. */
  lemma {:induction false} GetIntSmall(b: Bytes)
    requires |b| <= 7
    ensures GetIntSpec(b) == BeValue(b)
  {
    if b != [] {
      var p := b[..|b| - 1];
      GetIntSmall(p);
      BeValueBound(p);
      Pow256Mono(|p|, 6);
      assert Pow256(6) == 0x1_0000_0000_0000;
      var x := 256 * BeValue(p) + b[|b| - 1];
      assert 0 <= x < Two64 / 2;
    }
  }

  lemma MulMod(m: int)
    ensures (Two64 * m) % Two64 == 0
  {
  }

  /** One getInt step keeps two values congruent modulo 2^64. */
  lemma WrapStep(s: int, v: int, x: int, g: int)
    requires (s - v) % Two64 == 0 && (g - (256 * s + x)) % Two64 == 0
    ensures (g - (256 * v + x)) % Two64 == 0
  {
    var k := (s - v) / Two64;
    var j := (g - (256 * s + x)) / Two64;
    assert s - v == Two64 * k;
    assert g - (256 * s + x) == Two64 * j;
    assert g - (256 * v + x) == Two64 * (j + 256 * k);
    MulMod(j + 256 * k);
  }

  /** getInt on a 64-bit int keeps the big-endian value modulo 2^64. */
  lemma {:induction false} GetIntWraps(b: Bytes)
    ensures (GetIntSpec(b) - BeValue(b)) % Two64 == 0
  {
    if b != [] {
      var p := b[..|b| - 1];
      GetIntWraps(p);
      var s: int, x: int := GetIntSpec(p), b[|b| - 1];
      WrapStep(s, BeValue(p), x, Wrap64(256 * s + x));
    }
  }

  // ---------------------------------------------------------------- encodeUint32

  /** encodeUint32: the four bytes of n, most significant first; getInt reads
      them back as n. */
  function EncodeUint32(n: uint32): (r: Bytes)
    ensures |r| == 4 && GetIntSpec(r) == n
    ensures r[0] == n / 0x100_0000 && r[3] == n % 256
  {
    assert Pow256(4) == Two32;
    BeRoundTrip(n, 4);
    GetIntSmall(BeBytes(n, 4));
    BeBytesEnds(n);
    BeBytes(n, 4)
  }

  /** The first and last of the four big-endian bytes of a 32-bit value. */
  lemma BeBytesEnds(n: uint32)
    ensures BeBytes(n, 4)[0] == n / 0x100_0000 && BeBytes(n, 4)[3] == n % 256
  {
    var a := n / 256;
    var b := a / 256;
    var c := b / 256;
    DivSteps(n);
    assert BeBytes(n, 4) == BeBytes(a, 3) + [n % 256];
    assert BeBytes(a, 3) == BeBytes(b, 2) + [a % 256];
    assert BeBytes(b, 2) == BeBytes(c, 1) + [b % 256];
    assert BeBytes(c, 1) == [c % 256];
  }

  /** Three divisions by 256 are one by 2^24, which leaves a byte. */
  lemma DivSteps(n: uint32)
    ensures n / 256 / 256 / 256 == n / 0x100_0000 < 256
  {
    var a := n / 256;
    var b := a / 256;
    var c := b / 256;
    var r0, r1, r2 := n % 256, a % 256, b % 256;
    assert n == 256 * a + r0;
    assert a == 256 * b + r1;
    assert b == 256 * c + r2;
    assert n == 0x1_0000 * b + (256 * r1 + r0);
    assert n == 0x100_0000 * c + (0x1_0000 * r2 + 256 * r1 + r0);
  }

  // ---------------------------------------------------------------- toBytesSlice

  /** The 27 header bytes: magic, version, flags, then granule position,
      serial, sequence number and checksum little-endian, then the segment
      count. */
  function HeaderBytes(h: PageHeader): (r: Bytes)
    ensures |r| == HeaderSize
  {
    h.oggs + [h.version, h.flags] + LeBytes(Unsigned64(h.granulePosition), 8)
    + LeBytes(h.serialNumber, 4) + LeBytes(h.pageSequenceNumber, 4)
    + LeBytes(h.crc, 4) + [h.segments]
  }

  /** The little-endian 32-bit value of the four bytes at i. */
  function Le32At(b: Bytes, i: nat): (n: uint32)
    requires i + 4 <= |b|
  {
    b[i] as int + 0x100 * b[i + 1] as int + 0x1_0000 * b[i + 2] as int + 0x100_0000 * b[i + 3] as int
  }

  function LeUint32(b: Bytes): (n: uint32)
    requires |b| == 4
  {
    Le32At(b, 0)
  }

  /** Four bytes at i read as a 32-bit value are their little-endian value. */
  lemma Le32AtValue(b: Bytes, i: nat)
    requires i + 4 <= |b|
    ensures Le32At(b, i) == LeValue(b[i..i + 4])
  {
    var s := b[i..i + 4];
    assert LeValue(s[3..]) == b[i + 3] by { assert s[3..][1..] == []; }
    assert LeValue(s[2..]) == b[i + 2] as int + 256 * b[i + 3] as int by { assert s[2..][1..] == s[3..]; }
    assert LeValue(s[1..]) == b[i + 1] + 256 * LeValue(s[2..]) by { assert s[1..][1..] == s[2..]; }
  }

  /** binary.Read of a page header: the inverse of HeaderBytes. */
  function ParseHeader(b: Bytes): (h: PageHeader)
    requires |b| == HeaderSize
  {
    PageHeader(b[..4], b[4], b[5], Signed64(Le32At(b, 6) + Two32 * Le32At(b, 10)),
               Le32At(b, 14), Le32At(b, 18), Le32At(b, 22), b[26])
  }

  /** The granule position field is the little-endian value of bytes 6 to 13. */
  lemma GranuleValue(b: Bytes)
    requires |b| == HeaderSize
    ensures Le32At(b, 6) + Two32 * Le32At(b, 10) == LeValue(b[6..14])
  {
    var s := b[6..14];
    Le32AtValue(b, 10);
    assert s[4..] == b[10..14];
    var v := LeValue(s[4..]);
    assert LeValue(s[3..]) == b[9] + 256 * v by { assert s[3..][1..] == s[4..]; }
    assert LeValue(s[2..]) == b[8] + 256 * LeValue(s[3..]) by { assert s[2..][1..] == s[3..]; }
    assert LeValue(s[1..]) == b[7] + 256 * LeValue(s[2..]) by { assert s[1..][1..] == s[2..]; }
  }

  /** What binary.Read gets back from toBytesSlice is the header written. */
  lemma HeaderRoundTrip(h: PageHeader)
    ensures ParseHeader(HeaderBytes(h)) == h
  {
    var b := HeaderBytes(h);
    HeaderBytesFields(h);
    assert Pow256(4) == Two32 && Pow256(8) == Two64;
    LeRoundTrip(Unsigned64(h.granulePosition), 8);
    LeRoundTrip(h.serialNumber, 4);
    LeRoundTrip(h.pageSequenceNumber, 4);
    LeRoundTrip(h.crc, 4);
    ParseOfFields(b, h);
  }

  /** Where each field of a header lies in its serialisation. */
  lemma HeaderBytesFields(h: PageHeader)
    ensures var b := HeaderBytes(h);
      b[..4] == h.oggs && b[4] == h.version && b[5] == h.flags
      && b[6..14] == LeBytes(Unsigned64(h.granulePosition), 8)
      && b[14..18] == LeBytes(h.serialNumber, 4)
      && b[18..22] == LeBytes(h.pageSequenceNumber, 4)
      && b[22..26] == LeBytes(h.crc, 4) && b[26] == h.segments
  {
  }

  /** Parsing reads each field back from its own bytes. */
  lemma ParseOfFields(b: Bytes, h: PageHeader)
    requires |b| == HeaderSize
    requires b[..4] == h.oggs && b[4] == h.version && b[5] == h.flags
    requires LeValue(b[6..14]) == Unsigned64(h.granulePosition)
    requires LeValue(b[14..18]) == h.serialNumber
    requires LeValue(b[18..22]) == h.pageSequenceNumber
    requires LeValue(b[22..26]) == h.crc && b[26] == h.segments
    ensures ParseHeader(b) == h
  {
    GranuleValue(b);
    Le32AtValue(b, 14);
    Le32AtValue(b, 18);
    Le32AtValue(b, 22);
  }

  /** Every 27-byte string is the serialisation of the header parsed from it. */
  lemma HeaderBytesOfParse(b: Bytes)
    requires |b| == HeaderSize
    ensures HeaderBytes(ParseHeader(b)) == b
  {
    GranuleValue(b);
    Le32AtValue(b, 14);
    Le32AtValue(b, 18);
    Le32AtValue(b, 22);
    LeBytesOfValue(b[6..14]);
    LeBytesOfValue(b[14..18]);
    LeBytesOfValue(b[18..22]);
    LeBytesOfValue(b[22..26]);
    assert b == b[..4] + [b[4], b[5]] + b[6..14] + b[14..18] + b[18..22] + b[22..26] + [b[26]];
  }

  /** Setting the checksum field changes bytes 22 to 25 only. */
  lemma CrcFieldOnly(h: PageHeader, c: uint32)
    ensures var a, b := HeaderBytes(h), HeaderBytes(h.(crc := c));
      a[..22] == b[..22] && a[26] == b[26] && b[22..26] == LeBytes(c, 4)
  {
  }

  /** A header with CRC field 0 serialises with four zero bytes there. */
  lemma ZeroCrcField(h: PageHeader)
    requires h.crc == 0
    ensures HeaderBytes(h)[22..26] == [0, 0, 0, 0]
  {
    CrcFieldOnly(h, 0);
    assert h.(crc := 0) == h;
    assert LeBytes(0, 4) == [0, 0, 0, 0];
  }

  /** toBytesSlice: the fields written one after the other into a buffer. */
  method ToBytesSlice(h: PageHeader) returns (b: Bytes)
    ensures b == HeaderBytes(h)
  {
    b := [];
    b := b + h.oggs;
    b := b + [h.version];
    b := b + [h.flags];
    b := b + LeBytes(Unsigned64(h.granulePosition), 8);
    b := b + LeBytes(h.serialNumber, 4);
    b := b + LeBytes(h.pageSequenceNumber, 4);
    b := b + LeBytes(h.crc, 4);
    b := b + [h.segments];
  }

  // ---------------------------------------------------------------- layout

  /** The bytes e stand in data at pos. */
  predicate LaidOut(data: Bytes, pos: nat, e: Bytes)
  {
    pos + |e| <= |data| && data[pos..pos + |e|] == e
  }

  /** Bytes between others stand where the bytes before them end. */
  lemma LaidOutMiddle(pre: Bytes, e: Bytes, rest: Bytes)
    ensures LaidOut(pre + e + rest, |pre|, e)
  {
  }

  /** Bytes laid out one after the other: each part stands where the one
      before it ends. */
  lemma LaidOutSplit(data: Bytes, pos: nat, a: Bytes, b: Bytes)
    requires LaidOut(data, pos, a + b)
    ensures LaidOut(data, pos, a) && LaidOut(data, pos + |a|, b)
  {
    assert data[pos..pos + |a|] == (a + b)[..|a|];
    assert data[pos + |a|..pos + |a| + |b|] == (a + b)[|a|..];
  }

  // ---------------------------------------------------------------- readers

  /** The outcome of one read from a cursor: the value or error, and where
      the cursor is afterwards. */
  datatype Read<T> = Read(result: Result<T>, next: nat)

  /** io.ReadFull of n bytes at position pos of data.  Reading nothing always
      succeeds; a read that finds no byte at all is EOF; a read that finds
      some bytes but not n is UnexpectedEOF and leaves the cursor at the end. */
  function ReadAt(data: Bytes, pos: nat, n: nat): (r: Read<Bytes>)
    requires pos <= |data|
    ensures pos <= r.next <= |data|
    ensures r.result.Ok? <==> pos + n <= |data|
    ensures r.result.Ok? ==> r.result.value == data[pos..pos + n] && r.next == pos + n
    ensures r.result.Err? ==> r.next == |data|
    ensures r.result.Err? ==> r.result.error == (if pos == |data| then EOF else UnexpectedEOF)
  {
    if n == 0 then Read(Ok([]), pos)
    else if pos + n <= |data| then Read(Ok(data[pos..pos + n]), pos + n)
    else if pos == |data| then Read(Err(EOF), pos)
    else Read(Err(UnexpectedEOF), |data|)
  }

  /** Two reads in a row that both succeed read the concatenated bytes. */
  lemma ReadAtThen(data: Bytes, pos: nat, n: nat, m: nat)
    requires pos <= |data|
    requires ReadAt(data, pos, n).result.Ok?
    requires ReadAt(data, pos + n, m).result.Ok?
    ensures ReadAt(data, pos, n + m).result
         == Ok(ReadAt(data, pos, n).result.value + ReadAt(data, pos + n, m).result.value)
    ensures ReadAt(data, pos, n + m).next == ReadAt(data, pos + n, m).next
  {
    assert data[pos..pos + n + m] == data[pos..pos + n] + data[pos + n..pos + n + m];
  }

  /** readUint32: four bytes, little-endian. */
  function ReadUint32At(data: Bytes, pos: nat): (r: Read<uint32>)
    requires pos <= |data|
    ensures r.next == ReadAt(data, pos, 4).next
    ensures r.result.Err? ==> ReadAt(data, pos, 4).result.Err? && r.result.error == ReadAt(data, pos, 4).result.error
    ensures r.result.Ok? <==> pos + 4 <= |data|
    ensures r.result.Ok? ==> r.next == pos + 4 && LeBytes(r.result.value, 4) == data[pos..pos + 4]
  {
    var rd := ReadAt(data, pos, 4);
    match rd.result
    case Ok(b) => LeBytesOfValue(b); Le32AtValue(b, 0); assert b[0..4] == b; Read(Ok(LeUint32(b)), rd.next)
    case Err(e) => Read(Err(e), rd.next)
  }

  /** readInt: n bytes through getInt. */
  function ReadIntAt(data: Bytes, pos: nat, n: nat): (r: Read<int64>)
    requires pos <= |data|
    ensures r.result.Ok? <==> pos + n <= |data|
    ensures r.next == ReadAt(data, pos, n).next
  {
    var rd := ReadAt(data, pos, n);
    match rd.result
    case Ok(b) => Read(Ok(GetIntSpec(b)), rd.next)
    case Err(e) => Read(Err(e), rd.next)
  }

  /** readUint: readInt converted to an unsigned 64-bit int. */
  function ReadUintAt(data: Bytes, pos: nat, n: nat): (r: Read<nat>)
    requires pos <= |data|
    ensures r.next == ReadAt(data, pos, n).next
    ensures r.result.Ok? ==> r.result.value < Two64
  {
    var rd := ReadIntAt(data, pos, n);
    match rd.result
    case Ok(x) => Read(Ok(Unsigned64(x)), rd.next)
    case Err(e) => Read(Err(e), rd.next)
  }

  /** A 4-byte readInt is the big-endian value, in [0, 2^32), so the
      conversion of readUint never wraps. */
  lemma ReadUint4(data: Bytes, pos: nat)
    requires pos <= |data|
    ensures ReadIntAt(data, pos, 4).result.Ok? ==>
      var x := ReadIntAt(data, pos, 4).result.value;
      x == BeValue(data[pos..pos + 4]) && 0 <= x < Two32
      && ReadUintAt(data, pos, 4).result == Ok(x)
  {
    if pos + 4 <= |data| {
      GetIntSmall(data[pos..pos + 4]);
      BeValueBound(data[pos..pos + 4]);
      assert Pow256(4) == Two32;
    }
  }

  /** A little-endian 32-bit value laid out at pos reads back. */
  lemma ReadUint32Laid(data: Bytes, pos: nat, n: nat)
    requires n < Two32 && LaidOut(data, pos, LeBytes(n, 4))
    ensures ReadUint32At(data, pos) == Read(Ok(n), pos + 4)
  {
    var r := ReadUint32At(data, pos);
    assert Pow256(4) == Two32;
    LeRoundTrip(n, 4);
    LeRoundTrip(r.result.value, 4);
  }

  /** A big-endian 32-bit value laid out at pos reads back through readInt
      and readUint. */
  lemma ReadIntLaid(data: Bytes, pos: nat, n: uint32)
    requires LaidOut(data, pos, EncodeUint32(n))
    ensures ReadIntAt(data, pos, 4) == Read(Ok(n), pos + 4)
    ensures ReadUintAt(data, pos, 4) == Read(Ok(n), pos + 4)
  {
  }

  /** A cursor over an immutable byte sequence: bytes.Reader, or the file
      the decoder reads. */
  class ByteReader {
    const data: Bytes
    var pos: nat

    ghost predicate Valid()
      reads this
    {
      pos <= |data|
    }

    constructor (data: Bytes)
      ensures Valid() && this.data == data && pos == 0
    {
      this.data := data;
      pos := 0;
    }

    /** readBytes (io.ReadFull into a fresh buffer of n bytes). */
    method ReadBytes(n: nat) returns (r: Result<Bytes>)
      requires Valid()
      modifies this`pos
      ensures Valid() && Read(r, pos) == ReadAt(data, old(pos), n)
    {
      if n == 0 {
        r := Ok([]);
      } else if pos + n <= |data| {
        r := Ok(data[pos..pos + n]);
        pos := pos + n;
      } else if pos == |data| {
        r := Err(EOF);
      } else {
        r := Err(UnexpectedEOF);
        pos := |data|;
      }
    }

    /** readString: the same bytes, as a Go string. */
    method ReadString(n: nat) returns (r: Result<Bytes>)
      requires Valid()
      modifies this`pos
      ensures Valid() && Read(r, pos) == ReadAt(data, old(pos), n)
    {
      r := ReadBytes(n);
    }

    method ReadUint32() returns (r: Result<uint32>)
      requires Valid()
      modifies this`pos
      ensures Valid() && Read(r, pos) == ReadUint32At(data, old(pos))
    {
      var b := ReadBytes(4);
      if b.Err? {
        return Err(b.error);
      }
      r := Ok(LeUint32(b.value));
    }

    method ReadInt(n: nat) returns (r: Result<int64>)
      requires Valid()
      modifies this`pos
      ensures Valid() && Read(r, pos) == ReadIntAt(data, old(pos), n)
    {
      var b := ReadBytes(n);
      if b.Err? {
        return Err(b.error);
      }
      var x := GetInt(b.value);
      r := Ok(x);
    }

    method ReadUint(n: nat) returns (r: Result<nat>)
      requires Valid()
      modifies this`pos
      ensures Valid() && Read(r, pos) == ReadUintAt(data, old(pos), n)
    {
      var x := ReadInt(n);
      if x.Err? {
        return Err(x.error);
      }
      r := Ok(Unsigned64(x.value));
    }
  }
}
