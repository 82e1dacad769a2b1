/** The Ogg page checksum (crc32.go): CRC-32 with polynomial 0x04c11db7,
    most significant bit first, initial value 0 and no final xor, as in
    section 6 of RFC 3533.  The table is a function of the index; Init shows
    that the library's table-filling loop computes exactly that function. */
module OggCrc {
  import opened OggTypes

  const Poly: bv32 := 0x04c11db7

  /** One round of the table generator: shift left, and xor the polynomial
      when the bit shifted out was set. */
  function Round(r: bv32): bv32
  {
    if r & 0x8000_0000 != 0 then (r << 1) ^ Poly else r << 1
  }

  /** k rounds starting from r. */
  function Rounds(r: bv32, k: nat): bv32
    decreases k
  {
    if k == 0 then r else Rounds(Round(r), k - 1)
  }

  /** crcTable[i]: eight rounds starting from i << 24. */
  function TableEntry(i: uint8): bv32
  {
    Rounds((i as bv32) << 24, 8)
  }

  /** The first two entries of the table. */
  lemma TableStart()
    ensures TableEntry(0) == 0 && TableEntry(1) == Poly
  {
  }

  /** init: fills the 256 entries, each by eight rounds of the inner loop. */
  method Init(table: array<bv32>)
    requires table.Length == 256
    modifies table
    ensures forall i | 0 <= i < 256 :: table[i] == TableEntry(i)
  {
    var i := 0;
    while i < 256
      invariant 0 <= i <= 256
      invariant forall k | 0 <= k < i :: table[k] == TableEntry(k)
    {
      var r: bv32 := (i as bv32) << 24;
      var j := 0;
      while j < 8
        invariant 0 <= j <= 8
        invariant Rounds(r, 8 - j) == TableEntry(i)
      {
        if r & 0x8000_0000 != 0 {
          r := (r << 1) ^ Poly;
        } else {
          r := r << 1;
        }
        j := j + 1;
      }
      table[i] := r;
      i := i + 1;
    }
  }

  /** The table index of one step: the top byte of the register xor the
      input byte. */
  function Index(c: bv32, b: uint8): (i: uint8)
  {
    (((c >> 24) as bv8) ^ (b as bv8)) as int
  }

  /** One byte of calculateChecksum's loop. */
  function Step(c: bv32, b: uint8): bv32
  {
    (c << 8) ^ TableEntry(Index(c, b))
  }

  /** The register after feeding data, one byte at a time, to step from c. */
  function Fold(step: (bv32, uint8) -> bv32, c: bv32, data: Bytes): bv32
    decreases |data|
  {
    if data == [] then c else Fold(step, step(c, data[0]), data[1..])
  }

  /** Feeding a ++ b is feeding b after a. */
  lemma {:induction false} FoldAppend(step: (bv32, uint8) -> bv32, c: bv32, a: Bytes, b: Bytes)
    ensures Fold(step, c, a + b) == Fold(step, Fold(step, c, a), b)
    decreases |a|
  {
    if a == [] {
      assert a + b == b;
    } else {
      assert (a + b)[0] == a[0] && (a + b)[1..] == a[1..] + b;
      FoldAppend(step, step(c, a[0]), a[1..], b);
    }
  }

  function CrcFrom(c: bv32, data: Bytes): bv32
  {
    Fold(Step, c, data)
  }

  /** The checksum of a byte string: the register fed from 0. */
  function Crc(data: Bytes): uint32
  {
    CrcFrom(0, data) as int
  }

  /** With no input the checksum is the initial value 0. */
  lemma CrcEmpty()
    ensures Crc([]) == 0
  {
  }

  /** Streaming: the checksum of a ++ b continues from the register left by a. */
  lemma CrcStreaming(c: bv32, a: Bytes, b: Bytes)
    ensures CrcFrom(c, a + b) == CrcFrom(CrcFrom(c, a), b)
  {
    FoldAppend(Step, c, a, b);
  }

  /** Appending one byte is one more step of the loop. */
  lemma CrcAppend(c: bv32, a: Bytes, x: uint8)
    ensures CrcFrom(c, a + [x]) == Step(CrcFrom(c, a), x)
  {
    CrcStreaming(c, a, [x]);
    var d := CrcFrom(c, a);
    assert [x][1..] == [];
    assert Fold(Step, d, [x]) == Fold(Step, Step(d, x), []);
  }

  /** calculateChecksum: header, then segment table, then payload -- the
      second argument goes last. */
  method CalculateChecksum(header: Bytes, segments: Bytes, segmentTable: Bytes) returns (crc: uint32)
    ensures crc == Crc(header + segmentTable + segments)
  {
    var data := header + segmentTable + segments;
    var c: bv32 := 0;
    var i := 0;
    while i < |data|
      invariant 0 <= i <= |data|
      invariant Fold(Step, c, data[i..]) == CrcFrom(0, data)
    {
      assert data[i..][1..] == data[i + 1..];
      c := Step(c, data[i]);
      i := i + 1;
    }
    crc := c as int;
  }
}
