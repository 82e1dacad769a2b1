/** The demuxer (Decode in decoder.go): one page at a time from a reader it
    advances, the packets of a page found from its segment table, and the
    checksum recomputed but never enforced. */
module OggDecoder {
  import opened OggTypes
  import opened OggUtil
  import opened OggCrc
  import opened OggSegment
  import opened OggEncoder
  import opened OggTagRecord
  import opened OggComments
  import Base64

  // ---------------------------------------------------------------- lacing in reverse

  /** The table ends inside a packet: its last entry is 255. */
  predicate Continues(t: Bytes)
  {
    |t| > 0 && t[|t| - 1] == MaxSegSize
  }

  /** The packet lengths of a segment table: an entry below 255 ends the
      packet it adds to, an entry of 255 carries on into the next entry. */
  function PacketLengths(t: Bytes): (r: seq<nat>)
    ensures |r| == 0 <==> |t| == 0
  {
    if |t| == 0 then []
    else Extend(PacketLengths(t[..|t| - 1]), Continues(t[..|t| - 1]), t[|t| - 1])
  }

  /** One more entry x: added to the unfinished last packet, or a packet of
      its own. */
  function Extend(p: seq<nat>, more: bool, x: nat): (r: seq<nat>)
    requires more ==> |p| > 0
    ensures |r| == (if more then |p| else |p| + 1)
  {
    if more then p[|p| - 1 := p[|p| - 1] + x] else p + [x]
  }

  /** The lengths of a list of packets. */
  function Lengths(pk: seq<Bytes>): (r: seq<nat>)
    ensures |r| == |pk| && forall i | 0 <= i < |pk| :: r[i] == |pk[i]|
  {
    seq(|pk|, i requires 0 <= i < |pk| => |pk[i]|)
  }

  /** The packets read for the lengths: consecutive slices of b. */
  function Slices(b: Bytes, lengths: seq<nat>): (r: seq<Bytes>)
    requires Sum(lengths) <= |b|
    ensures |r| == |lengths|
    decreases |lengths|
  {
    if lengths == [] then []
    else
      SumCons(lengths);
      SumNat(lengths[1..]);
      [b[..lengths[0]]] + Slices(b[lengths[0]..], lengths[1..])
  }

  lemma {:induction false} SumNat(t: seq<nat>)
    ensures Sum(t) >= 0
  {
    if t != [] {
      SumNat(t[..|t| - 1]);
    }
  }

  lemma SumCons(t: seq<int>)
    requires t != []
    ensures Sum(t) == t[0] + Sum(t[1..])
  {
    SumAppend([t[0]], t[1..]);
    assert [t[0]] + t[1..] == t;
    assert [t[0]][..0] == [];
  }

  lemma ConcatCons(x: Bytes, r: seq<Bytes>)
    ensures Concat([x] + r) == x + Concat(r)
  {
    ConcatAppend([x], r);
    ConcatSingle(x);
  }

  // ---------------------------------------------------------------- lemmas on lacing in reverse

  /** The lengths add up to the table's sum (the payloadLength of Decode). */
  lemma {:induction false} SumPacketLengths(t: Bytes)
    ensures Sum(PacketLengths(t)) == Sum(t)
  {
    if t != [] {
      var init := t[..|t| - 1];
      var p, x := PacketLengths(init), t[|t| - 1];
      SumPacketLengths(init);
      if Continues(init) {
        SumAddLast(p, x);
      } else {
        SumAppend(p, [x]);
        assert [x][..0] == [];
      }
      SumAppend(init, [x]);
      assert init + [x] == t;
      assert [x][..0] == [];
    }
  }

  /** Adding x to the last length adds x to the sum. */
  lemma SumAddLast(p: seq<nat>, x: nat)
    requires p != []
    ensures Sum(p[|p| - 1 := p[|p| - 1] + x]) == Sum(p) + x
  {
    var init := p[..|p| - 1];
    SumAppend(init, [p[|p| - 1]]);
    SumAppend(init, [p[|p| - 1] + x]);
    assert init + [p[|p| - 1]] == p;
    assert init + [p[|p| - 1] + x] == p[|p| - 1 := p[|p| - 1] + x];
    assert [p[|p| - 1]][..0] == [] && [p[|p| - 1] + x][..0] == [];
  }

  /** A table that does not end inside a packet is read independently of
      what follows it. */
  lemma {:induction false} PacketLengthsAppend(a: Bytes, b: Bytes)
    requires !Continues(a)
    ensures PacketLengths(a + b) == PacketLengths(a) + PacketLengths(b)
    decreases |b|
  {
    if b == [] {
      assert a + b == a;
    } else {
      var init, x := b[..|b| - 1], b[|b| - 1];
      PacketLengthsAppend(a, init);
      assert b == init + [x];
      assert a + b == (a + init) + [x];
      PacketLengthsSnoc(a + init, x);
      PacketLengthsSnoc(init, x);
      if init == [] {
        assert a + init == a;
      }
      assert Continues(a + init) == Continues(init);
      ExtendAppend(PacketLengths(a), PacketLengths(init), Continues(init), x);
    }
  }

  /** Extending a list whose unfinished packet, if any, lies in its second
      part extends that part. */
  lemma ExtendAppend(pa: seq<nat>, q: seq<nat>, more: bool, x: nat)
    requires more ==> |q| > 0
    ensures Extend(pa + q, more, x) == pa + Extend(q, more, x)
  {
    if !more {
      assert (pa + q) + [x] == pa + (q + [x]);
    }
  }

  /** One more entry either adds to the unfinished last packet or is a
      packet of its own. */
  lemma PacketLengthsSnoc(t: Bytes, x: uint8)
    ensures PacketLengths(t + [x]) == Extend(PacketLengths(t), Continues(t), x)
  {
    var u := t + [x];
    assert u[..|u| - 1] == t && u[|u| - 1] == x;
  }

  /** A run of k entries of 255 is one unfinished packet of 255 * k bytes. */
  lemma {:induction false} PacketLengthsOfRun(k: nat)
    requires k > 0
    ensures PacketLengths(Repeat(255, k)) == [255 * k] && Continues(Repeat(255, k))
  {
    var r := Repeat(255, k);
    assert r[..k - 1] == Repeat(255, k - 1);
    if k > 1 {
      PacketLengthsOfRun(k - 1);
    }
  }

  /** The lacing of one packet reads back as its length. */
  lemma PacketLengthsOfLacing(n: nat)
    ensures PacketLengths(Lacing(n)) == [n] && !Continues(Lacing(n))
  {
    var t := Lacing(n);
    assert t[..|t| - 1] == Repeat(255, n / 255);
    if n / 255 > 0 {
      PacketLengthsOfRun(n / 255);
    }
  }

  /** The lacing of one more packet after a finished table reads back as
      one more length. */
  lemma PacketLengthsThen(a: Bytes, n: nat)
    requires !Continues(a)
    ensures PacketLengths(a + Lacing(n)) == PacketLengths(a) + [n]
    ensures !Continues(a + Lacing(n))
  {
    var l := Lacing(n);
    PacketLengthsOfLacing(n);
    PacketLengthsAppend(a, l);
    assert (a + l)[|a + l| - 1] == l[|l| - 1];
  }

  /** Decoding a table inverts the lacing of the encoder: the lacing of a
      list of packets reads back as their lengths. */
  lemma {:induction false} PacketLengthsOfLacingOf(pk: seq<Bytes>)
    ensures PacketLengths(LacingOf(pk)) == Lengths(pk)
    ensures !Continues(LacingOf(pk))
  {
    if pk != [] {
      var init, x := pk[..|pk| - 1], pk[|pk| - 1];
      PacketLengthsOfLacingOf(init);
      PacketLengthsThen(LacingOf(init), |x|);
      assert LacingOf(pk) == LacingOf(init) + Lacing(|x|);
      LengthsSnoc(pk);
    }
  }

  /** The lengths of a list are those of all but its last packet, then the last. */
  lemma LengthsSnoc(pk: seq<Bytes>)
    requires pk != []
    ensures Lengths(pk) == Lengths(pk[..|pk| - 1]) + [|pk[|pk| - 1]|]
  {
  }

  /** No rejoining across pages: a table ending in 255 gives its trailing
      fragment as a packet of its own.  Read as one table with the next
      page's table [0], the fragment would have been closed by that entry;
      read page by page, the next page yields an extra empty packet. */
  lemma NoRejoin(t: Bytes)
    requires Continues(t)
    ensures PacketLengths(t + [0]) == PacketLengths(t)
    ensures PacketLengths(t) + PacketLengths([0]) == PacketLengths(t) + [0]
    ensures PacketLengths(t + [0]) != PacketLengths(t) + PacketLengths([0])
  {
    var p := PacketLengths(t);
    assert (t + [0])[..|t|] == t;
    assert p[|p| - 1 := p[|p| - 1] + 0] == p;
    assert [0][..0] == [];
    assert |PacketLengths(t) + [0]| == |p| + 1;
  }

  // ---------------------------------------------------------------- lemmas on slices

  /** The slices of b cover its first Sum(lengths) bytes, in order. */
  lemma {:induction false} ConcatSlices(b: Bytes, lengths: seq<nat>)
    requires Sum(lengths) <= |b|
    ensures Sum(lengths) >= 0
    ensures Concat(Slices(b, lengths)) == b[..Sum(lengths)]
    ensures forall i | 0 <= i < |lengths| :: |Slices(b, lengths)[i]| == lengths[i]
    decreases |lengths|
  {
    SumNat(lengths);
    if lengths != [] {
      SumCons(lengths);
      SumNat(lengths[1..]);
      var n := lengths[0];
      ConcatSlices(b[n..], lengths[1..]);
      ConcatCons(b[..n], Slices(b[n..], lengths[1..]));
      assert b[..n] + b[n..][..Sum(lengths[1..])] == b[..Sum(lengths)];
    }
  }

  /** Slicing the bytes of a list of packets by their lengths gives the list. */
  lemma {:induction false} SlicesOfConcat(pk: seq<Bytes>)
    ensures Sum(Lengths(pk)) == |Concat(pk)|
    ensures Slices(Concat(pk), Lengths(pk)) == pk
    decreases |pk|
  {
    if pk != [] {
      var rest := pk[1..];
      SlicesOfConcat(rest);
      ConcatCons(pk[0], rest);
      assert [pk[0]] + rest == pk;
      var lens := Lengths(pk);
      assert lens[1..] == Lengths(rest);
      SumCons(lens);
      var b := Concat(pk);
      assert b[..|pk[0]|] == pk[0] && b[|pk[0]|..] == Concat(rest);
    }
  }

  // ---------------------------------------------------------------- one page

  /** The packet reads of Decode: one io.ReadFull per length, appended to
      the packets read so far, stopping at the first that fails. */
  function ReadPackets(data: Bytes, pos: nat, lengths: seq<nat>, acc: seq<Bytes>): (r: Read<seq<Bytes>>)
    requires pos <= |data|
    ensures pos <= r.next <= |data|
    ensures r.result.Ok? ==> |r.result.value| == |acc| + |lengths|
    decreases |lengths|
  {
    if lengths == [] then Read(Ok(acc), pos)
    else
      var rd := ReadAt(data, pos, lengths[0]);
      match rd.result
      case Err(e) => Read(Err(e), rd.next)
      case Ok(packet) => ReadPackets(data, rd.next, lengths[1..], acc + [packet])
  }

  /** When enough bytes follow, the packets are consecutive slices covering
      exactly Sum(lengths) bytes; otherwise the read fails. */
  lemma ReadPacketsSlices(data: Bytes, pos: nat, lengths: seq<nat>, acc: seq<Bytes>)
    requires pos <= |data|
    ensures Sum(lengths) >= 0
    ensures pos + Sum(lengths) <= |data| ==>
      ReadPackets(data, pos, lengths, acc)
        == Read(Ok(acc + Slices(data[pos..pos + Sum(lengths)], lengths)), pos + Sum(lengths))
    ensures pos + Sum(lengths) > |data| ==> ReadPackets(data, pos, lengths, acc).result.Err?
  {
    SumNat(lengths);
    if pos + Sum(lengths) <= |data| {
      ReadPacketsFit(data, pos, lengths, acc, pos + Sum(lengths));
    } else {
      ReadPacketsShort(data, pos, lengths, acc);
    }
  }

  /** Packets that all fit are read as the slices up to end e. */
  lemma {:induction false} ReadPacketsFit(data: Bytes, pos: nat, lengths: seq<nat>, acc: seq<Bytes>, e: nat)
    requires pos <= |data| && Sum(lengths) >= 0 && e == pos + Sum(lengths) <= |data|
    ensures ReadPackets(data, pos, lengths, acc) == Read(Ok(acc + Slices(data[pos..e], lengths)), e)
    decreases |lengths|
  {
    if lengths == [] {
      assert acc + [] == acc;
    } else {
      SumCons(lengths);
      var n, rest := lengths[0], lengths[1..];
      SumNat(rest);
      var x := data[pos..pos + n];
      assert ReadPackets(data, pos, lengths, acc) == ReadPackets(data, pos + n, rest, acc + [x]);
      ReadPacketsFit(data, pos + n, rest, acc + [x], e);
      SlicesStep(data, pos, lengths);
      SnocThen(acc, x, Slices(data[pos + n..e], rest));
    }
  }

  /** When the lengths run past the end of the data, the read fails. */
  lemma {:induction false} ReadPacketsShort(data: Bytes, pos: nat, lengths: seq<nat>, acc: seq<Bytes>)
    requires pos <= |data| && pos + Sum(lengths) > |data|
    ensures ReadPackets(data, pos, lengths, acc).result.Err?
    decreases |lengths|
  {
    if lengths != [] {
      SumCons(lengths);
      var n, rest := lengths[0], lengths[1..];
      if pos + n <= |data| {
        var x := data[pos..pos + n];
        assert ReadPackets(data, pos, lengths, acc) == ReadPackets(data, pos + n, rest, acc + [x]);
        ReadPacketsShort(data, pos + n, rest, acc + [x]);
      }
    }
  }

  /** Appending one element, then a list, is prepending the element to the list. */
  lemma SnocThen<T>(acc: seq<T>, x: T, y: seq<T>)
    ensures (acc + [x]) + y == acc + ([x] + y)
  {
  }

  /** The first slice, then the slices of the bytes after it. */
  lemma SlicesStep(data: Bytes, pos: nat, lengths: seq<nat>)
    requires lengths != [] && Sum(lengths) == lengths[0] + Sum(lengths[1..])
    requires Sum(lengths[1..]) >= 0 && pos + Sum(lengths) <= |data|
    ensures Slices(data[pos..pos + Sum(lengths)], lengths)
         == [data[pos..pos + lengths[0]]] + Slices(data[pos + lengths[0]..pos + Sum(lengths)], lengths[1..])
  {
    var n, b := lengths[0], data[pos..pos + Sum(lengths)];
    assert b[..n] == data[pos..pos + n];
    assert b[n..] == data[pos + n..pos + Sum(lengths)];
  }

  /** A decoded page (its header with CRC field 0), with the checksum the
      page carried and its segment table, from which Decode recomputes the
      checksum. */
  datatype Decoded = Decoded(page: Page, storedCrc: uint32, table: Bytes)

  /** The check Decode makes: the CRC of the header with CRC field 0, the
      table and the payload against the stored one.  A mismatch is only
      logged; the page is returned either way. */
  predicate CrcMatches(d: Decoded)
  {
    Crc(HeaderBytes(d.page.header) + d.table + Concat(d.page.packets)) == d.storedCrc
  }

  /** Decode at position pos: the 27-byte header, then the checks and the
      rest of the page. */
  function DecodeAt(data: Bytes, pos: nat): (r: Read<Decoded>)
    requires pos <= |data|
    ensures pos <= r.next <= |data|
    ensures r.result.Ok? ==> r.next > pos + HeaderSize
  {
    var hd := ReadAt(data, pos, HeaderSize);
    match hd.result
    case Err(e) => Read(Err(e), hd.next)
    case Ok(hb) => DecodeAfterHeader(data, hd.next, ParseHeader(hb))
  }

  /** The capture pattern is checked before the segment count; then the
      segment table is read. */
  function DecodeAfterHeader(data: Bytes, pos: nat, h: PageHeader): (r: Read<Decoded>)
    requires pos <= |data|
    ensures pos <= r.next <= |data|
    ensures r.result.Ok? ==> r.next > pos
  {
    if h.oggs != Oggs then Read(Err(InvalidOggs), pos)
    else if h.segments < 1 then Read(Err(BadSegs), pos)
    else
      var tb := ReadAt(data, pos, h.segments);
      match tb.result
      case Err(e) => Read(Err(e), tb.next)
      case Ok(table) => DecodeAfterTable(data, tb.next, h, table)
  }

  /** The packets the table delimits. */
  function DecodeAfterTable(data: Bytes, pos: nat, h: PageHeader, table: Bytes): (r: Read<Decoded>)
    requires pos <= |data|
    ensures pos <= r.next <= |data|
  {
    var pk := ReadPackets(data, pos, PacketLengths(table), []);
    match pk.result
    case Err(e) => Read(Err(e), pk.next)
    case Ok(packets) =>
      Read(Ok(Decoded(Page(h.(crc := 0), packets), h.crc, table)), pk.next)
  }

  /** The packet reads for the lengths a table delimits: they succeed
      exactly when Sum(table) bytes follow, and then give consecutive slices
      of those bytes, of the delimited lengths. */
  lemma PacketsOfTable(data: Bytes, pos: nat, table: Bytes)
    requires pos <= |data|
    ensures Sum(table) >= 0 && Sum(PacketLengths(table)) == Sum(table)
    ensures var pk := ReadPackets(data, pos, PacketLengths(table), []);
      (pos + Sum(table) <= |data| <==> pk.result.Ok?)
      && (pk.result.Ok? ==>
            pk == Read(Ok(Slices(data[pos..pos + Sum(table)], PacketLengths(table))), pos + Sum(table))
            && Concat(pk.result.value) == data[pos..pos + Sum(table)]
            && Lengths(pk.result.value) == PacketLengths(table))
  {
    SumPacketLengths(table);
    SumNat(PacketLengths(table));
    PacketsOfLengths(data, pos, PacketLengths(table));
  }

  lemma PacketsOfLengths(data: Bytes, pos: nat, lens: seq<nat>)
    requires pos <= |data|
    ensures Sum(lens) >= 0
    ensures var pk := ReadPackets(data, pos, lens, []);
      (pos + Sum(lens) <= |data| <==> pk.result.Ok?)
      && (pk.result.Ok? ==>
            pk == Read(Ok(Slices(data[pos..pos + Sum(lens)], lens)), pos + Sum(lens))
            && Concat(pk.result.value) == data[pos..pos + Sum(lens)]
            && Lengths(pk.result.value) == lens)
  {
    ReadPacketsSlices(data, pos, lens, []);
    if pos + Sum(lens) <= |data| {
      var b := data[pos..pos + Sum(lens)];
      ConcatSlices(b, lens);
      assert b[..Sum(lens)] == b;
      assert [] + Slices(b, lens) == Slices(b, lens);
    }
  }

  /** The packets stage of Decode. */
  lemma DecodeAfterTableSlices(data: Bytes, pos: nat, h: PageHeader, table: Bytes)
    requires pos <= |data|
    ensures Sum(table) >= 0 && Sum(PacketLengths(table)) == Sum(table)
    ensures var r := DecodeAfterTable(data, pos, h, table);
      (pos + Sum(table) <= |data| <==> r.result.Ok?)
      && (r.result.Ok? ==>
            var packets := Slices(data[pos..pos + Sum(table)], PacketLengths(table));
            r == Read(Ok(Decoded(Page(h.(crc := 0), packets), h.crc, table)), pos + Sum(table))
            && Concat(packets) == data[pos..pos + Sum(table)]
            && Lengths(packets) == PacketLengths(table))
  {
    PacketsOfTable(data, pos, table);
  }

  /** What Decode promises: "OggS" is checked before the segment count, an
      empty or truncated header is EOF or UnexpectedEOF, and a page that
      decodes has the parsed header with CRC field 0, at least one packet,
      packets of the lengths its table delimits covering the Sum(table)
      bytes after the table, and a checksum mismatch is not an error. */
  lemma DecodeShape(data: Bytes, pos: nat)
    requires pos <= |data|
    ensures var r := DecodeAt(data, pos);
      (pos + HeaderSize <= |data| && data[pos..pos + 4] != Oggs ==> r.result == Err(InvalidOggs))
      && (pos + HeaderSize <= |data| && data[pos..pos + 4] == Oggs && data[pos + 26] == 0
          ==> r.result == Err(BadSegs))
      && (pos == |data| ==> r.result == Err(EOF))
      && (pos < |data| < pos + HeaderSize ==> r.result == Err(UnexpectedEOF))
  {
  }

  /** With a whole header in the data, Decode goes on with the header it
      parses from those 27 bytes. */
  lemma HeaderStage(data: Bytes, pos: nat)
    requires pos + HeaderSize <= |data|
    ensures DecodeAt(data, pos) == DecodeAfterHeader(data, pos + HeaderSize, ParseHeader(data[pos..pos + HeaderSize]))
  {
  }

  /** With a valid header and its whole table in the data, Decode goes on
      with that table. */
  lemma TableStage(data: Bytes, pos: nat, h: PageHeader)
    requires h.oggs == Oggs && h.segments >= 1 && pos + h.segments <= |data|
    ensures DecodeAfterHeader(data, pos, h) == DecodeAfterTable(data, pos + h.segments, h, data[pos..pos + h.segments])
  {
  }

  /** A page that decodes has the parsed header with CRC field 0 and at
      least one segment and one packet; its packets have the lengths its
      table delimits and cover the Sum(table) bytes after the table, where
      the reader stops. */
  lemma DecodeOk(data: Bytes, pos: nat)
    requires pos <= |data|
    requires DecodeAt(data, pos).result.Ok?
    ensures var r := DecodeAt(data, pos);
      var p := r.result.value.page;
      var q := pos + HeaderSize + p.header.segments;
      var table := data[pos + HeaderSize..q];
      p.header == ParseHeader(data[pos..pos + HeaderSize]).(crc := 0)
      && p.header.segments >= 1 && |p.packets| >= 1
      && r.next == q + Sum(table)
      && Lengths(p.packets) == PacketLengths(table)
      && Concat(p.packets) == data[q..r.next]
  {
    HeaderStage(data, pos);
    var h := ParseHeader(data[pos..pos + HeaderSize]);
    AfterHeaderOk(data, pos + HeaderSize, h);
    var p := DecodeAt(data, pos).result.value.page;
    assert p.header.segments == h.segments;
  }

  lemma AfterHeaderOk(data: Bytes, pos: nat, h: PageHeader)
    requires pos <= |data|
    requires DecodeAfterHeader(data, pos, h).result.Ok?
    ensures var r := DecodeAfterHeader(data, pos, h);
      var p := r.result.value.page;
      var q := pos + h.segments;
      var table := data[pos..q];
      p.header == h.(crc := 0)
      && h.segments >= 1 && |p.packets| >= 1
      && r.next == q + Sum(table)
      && Lengths(p.packets) == PacketLengths(table)
      && Concat(p.packets) == data[q..r.next]
  {
    TableStage(data, pos, h);
    AfterTableOk(data, pos + h.segments, h, data[pos..pos + h.segments]);
  }

  lemma AfterTableOk(data: Bytes, pos: nat, h: PageHeader, table: Bytes)
    requires pos <= |data| && |table| >= 1
    requires DecodeAfterTable(data, pos, h, table).result.Ok?
    ensures var r := DecodeAfterTable(data, pos, h, table);
      var p := r.result.value.page;
      p.header == h.(crc := 0) && |p.packets| >= 1
      && r.next == pos + Sum(table)
      && Lengths(p.packets) == PacketLengths(table)
      && Concat(p.packets) == data[pos..r.next]
  {
    DecodeAfterTableSlices(data, pos, h, table);
    var end := pos + Sum(table);
    var packets := Slices(data[pos..end], PacketLengths(table));
    assert DecodeAfterTable(data, pos, h, table)
        == Read(Ok(Decoded(Page(h.(crc := 0), packets), h.crc, table)), end);
    assert |Lengths(packets)| == |packets|;
  }

  /** Decode over the bytes of a header goes on with that header. */
  lemma HeaderAt(data: Bytes, pos: nat, h: PageHeader)
    requires LaidOut(data, pos, HeaderBytes(h))
    ensures DecodeAt(data, pos) == DecodeAfterHeader(data, pos + HeaderSize, h)
  {
    HeaderRoundTrip(h);
    HeaderStage(data, pos);
  }

  /** The table stage over a table laid out at pos. */
  lemma TableAt(data: Bytes, pos: nat, h: PageHeader, table: Bytes)
    requires h.oggs == Oggs && h.segments == |table| && |table| >= 1 && LaidOut(data, pos, table)
    ensures DecodeAfterHeader(data, pos, h) == DecodeAfterTable(data, pos + |table|, h, table)
  {
    TableStage(data, pos, h);
  }

  /** The packets stage over a payload laid out at pos. */
  lemma PayloadAt(data: Bytes, pos: nat, h: PageHeader, table: Bytes, payload: Bytes)
    requires Sum(table) == |payload| && LaidOut(data, pos, payload)
    ensures Sum(PacketLengths(table)) == |payload|
    ensures DecodeAfterTable(data, pos, h, table)
         == Read(Ok(Decoded(Page(h.(crc := 0), Slices(payload, PacketLengths(table))), h.crc, table)),
                 pos + |payload|)
  {
    SumPacketLengths(table);
    DecodeAfterTableSlices(data, pos, h, table);
  }

  /** The header and table stages of a page laid out at pos, whose
      payload starts at q. */
  lemma HeaderTableAt(data: Bytes, pos: nat, q: nat, h: PageHeader, table: Bytes, payload: Bytes)
    requires q == pos + HeaderSize + |table|
    requires h.oggs == Oggs && h.segments == |table| && |table| >= 1
    requires LaidOut(data, pos, HeaderBytes(h) + table + payload)
    ensures DecodeAt(data, pos) == DecodeAfterTable(data, q, h, table)
    ensures LaidOut(data, q, payload)
  {
    LaidOutSplit(data, pos, HeaderBytes(h) + table, payload);
    LaidOutSplit(data, pos, HeaderBytes(h), table);
    HeaderAt(data, pos, h);
    TableAt(data, pos + HeaderSize, h, table);
  }

  /** A stream holding, at pos, the bytes of a header, its table and a
      payload as long as the table says decodes there to that header with
      the checksum field cleared, to the packets the table delimits in the
      payload, and to the stored checksum; the reader ends after the
      payload, which starts at q. */
  lemma DecodePageAt(data: Bytes, pos: nat, q: nat, h: PageHeader, table: Bytes, payload: Bytes)
    requires q == pos + HeaderSize + |table|
    requires h.oggs == Oggs && h.segments == |table| && |table| >= 1 && Sum(table) == |payload|
    requires LaidOut(data, pos, HeaderBytes(h) + table + payload)
    ensures Sum(PacketLengths(table)) == |payload|
    ensures DecodeAt(data, pos)
         == Read(Ok(Decoded(Page(h.(crc := 0), Slices(payload, PacketLengths(table))), h.crc, table)),
                 q + |payload|)
  {
    HeaderTableAt(data, pos, q, h, table, payload);
    PayloadAt(data, q, h, table, payload);
  }

  /** The round trip with writePage: the bytes emitted for a page whose
      header was stamped with CRC field 0 decode, wherever they stand in the
      stream, to that header and to the packets its table delimits in its
      payload, with the checksum writePage stamped, which matches the one
      Decode recomputes; the reader ends just after them. */
  lemma DecodeEmitted(pre: Bytes, p: OutPage, rest: Bytes)
    requires p.header.oggs == Oggs && p.header.crc == 0
    requires 1 <= |p.table| && p.header.segments == |p.table| && Sum(p.table) == |p.payload|
    ensures Sum(PacketLengths(p.table)) == |p.payload|
    ensures var d := Decoded(Page(p.header, Slices(p.payload, PacketLengths(p.table))),
                             Crc(HeaderBytes(p.header) + p.table + p.payload), p.table);
      DecodeAt(pre + Emit(p) + rest, |pre|) == Read(Ok(d), |pre| + |Emit(p)|)
      && CrcMatches(d)
  {
    var c := Crc(HeaderBytes(p.header) + p.table + p.payload);
    var h := p.header.(crc := c);
    assert Emit(p) == HeaderBytes(h) + p.table + p.payload;
    LaidOutMiddle(pre, Emit(p), rest);
    DecodePageAt(pre + Emit(p) + rest, |pre|, |pre| + HeaderSize + |p.table|, h, p.table, p.payload);
    assert h.(crc := 0) == p.header;
    ConcatSlices(p.payload, PacketLengths(p.table));
    assert p.payload[..|p.payload|] == p.payload;
  }

  lemma {:induction false} EmitAllAppend(a: seq<OutPage>, b: seq<OutPage>)
    ensures EmitAll(a + b) == EmitAll(a) + EmitAll(b)
    decreases |a|
  {
    if a == [] {
      assert a + b == b;
    } else {
      EmitAllAppend(a[1..], b);
      EmitAllStep(a, b);
    }
  }

  lemma EmitAllStep(a: seq<OutPage>, b: seq<OutPage>)
    requires a != []
    ensures EmitAll(a + b) == Emit(a[0]) + EmitAll(a[1..] + b)
  {
    assert (a + b)[0] == a[0] && (a + b)[1..] == a[1..] + b;
  }

  /** Every page WritePackets writes decodes, at its place in the output,
      to its stamped header with CRC field 0, and to the packets the
      segmentation put on it, fragments of packets split across pages
      included, with a matching checksum. */
  lemma DecodeMuxPage(flag: uint8, granule: int64, serial: uint32, pn: uint32, packets: seq<Bytes>, k: nat)
    requires |packets| > 0 && k < |MuxPages(flag, granule, serial, pn, packets)|
    ensures var pages := MuxPages(flag, granule, serial, pn, packets);
      var p, before := pages[k], EmitAll(pages[..k]);
      EmitAll(pages) == before + EmitAll(pages[k..])
      && Sum(PacketLengths(p.table)) == |p.payload|
      && var d := Decoded(Page(p.header, Slices(p.payload, PacketLengths(p.table))),
                          Crc(HeaderBytes(p.header) + p.table + p.payload), p.table);
         DecodeAt(before + EmitAll(pages[k..]), |before|) == Read(Ok(d), |before| + |Emit(p)|)
         && CrcMatches(d)
  {
    var pages := MuxPages(flag, granule, serial, pn, packets);
    MuxHeaders(flag, granule, serial, pn, packets, k);
    MuxTables(flag, granule, serial, pn, packets, k);
    var p := pages[k];
    assert pages == pages[..k] + pages[k..];
    EmitAllAppend(pages[..k], pages[k..]);
    assert pages[k..] == [p] + pages[k + 1..];
    EmitAllCons(p, pages[k + 1..]);
    DecodeEmitted(EmitAll(pages[..k]), p, EmitAll(pages[k + 1..]));
    Assoc(EmitAll(pages[..k]), Emit(p), EmitAll(pages[k + 1..]));
  }

  /** End to end for a packet list whose lacing fits one page: what
      WritePackets writes decodes to the first header stamped with the
      table length and to exactly the packets written. */
  lemma DecodeMuxFits(flag: uint8, granule: int64, serial: uint32, pn: uint32, packets: seq<Bytes>)
    requires |packets| > 0 && |LacingOf(packets)| <= MaxSegSize
    ensures var out := EmitAll(MuxPages(flag, granule, serial, pn, packets));
      var r := DecodeAt(out, 0);
      r.next == |out| && r.result.Ok? && CrcMatches(r.result.value)
      && r.result.value.page == Page(FirstHeader(flag, granule, serial, pn).(segments := |LacingOf(packets)|), packets)
  {
    MuxFits(flag, granule, serial, pn, packets);
    var t := LacingOf(packets);
    var p := OutPage(FirstHeader(flag, granule, serial, pn).(segments := |t|), t, Concat(packets));
    EmitAllCons(p, []);
    assert EmitAll(MuxPages(flag, granule, serial, pn, packets)) == [] + Emit(p) + [];
    SumLacingOf(packets);
    PacketLengthsOfLacingOf(packets);
    SlicesOfConcat(packets);
    LacingOfPrefix(packets, 1);
    assert packets[..1] == [packets[0]];
    LacingOfSingle(packets[0]);
    DecodeEmitted([], p, []);
  }

  // ---------------------------------------------------------------- ReadTags

  /** The tag of a comment packet behind its prefix: the comments read
      after the prefix, with the codec the prefix names. */
  function PacketTag(packet: Bytes, prefix: Bytes, codec: Bytes, decode: Bytes -> Option<Image>): (r: Result<TagValues>)
    requires |prefix| <= |packet|
  {
    match CommentsAt(packet, |prefix|, Applying(decode)).result
    case Err(e) => Err(e)
    case Ok(t) => Ok(t.(codec := codec))
  }

  /** The first packet of a page, in order, that starts with the Vorbis
      prefix (tested first) or the Opus prefix, parsed; None when no packet
      does. */
  function PacketsTag(packets: seq<Bytes>, decode: Bytes -> Option<Image>): (r: Option<Result<TagValues>>)
    decreases |packets|
  {
    if packets == [] then None
    else if HasPrefix(packets[0], VorbisPrefix) then Some(PacketTag(packets[0], VorbisPrefix, Vorbis, decode))
    else if HasPrefix(packets[0], OpusPrefix) then Some(PacketTag(packets[0], OpusPrefix, Opus, decode))
    else PacketsTag(packets[1..], decode)
  }

  /** ReadTags from position pos of the stream: pages are decoded in order
      until one holds a comment packet, whose tag remembers the stream; an
      EOF from Decode means no tag (Ok(None)); any other error is returned. */
  function ReadTagsAt(data: Bytes, pos: nat, decode: Bytes -> Option<Image>): (r: Result<Option<TagValues>>)
    requires pos <= |data|
    decreases |data| - pos
  {
    var d := DecodeAt(data, pos);
    match d.result
    case Err(e) => if e == EOF then Ok(None) else Err(e)
    case Ok(page) =>
      match PacketsTag(page.page.packets, decode)
      case Some(Err(e)) => Err(e)
      case Some(Ok(t)) => Ok(Some(t.(stream := data)))
      case None => ReadTagsAt(data, d.next, decode)
  }

  /** ReadTags passes over a page that holds no comment header and goes
      on where the next page starts. */
  lemma ReadTagsSkip(data: Bytes, pos: nat, decode: Bytes -> Option<Image>)
    requires pos <= |data| && DecodeAt(data, pos).result.Ok?
    requires PacketsTag(DecodeAt(data, pos).result.value.page.packets, decode) == None
    ensures ReadTagsAt(data, pos, decode) == ReadTagsAt(data, DecodeAt(data, pos).next, decode)
  {
  }

  /** ReadTags stops at a page that holds a comment header and returns its
      tag, which remembers the stream. */
  lemma ReadTagsFound(data: Bytes, pos: nat, decode: Bytes -> Option<Image>, t: TagValues)
    requires pos <= |data| && DecodeAt(data, pos).result.Ok?
    requires PacketsTag(DecodeAt(data, pos).result.value.page.packets, decode) == Some(Ok(t))
    ensures ReadTagsAt(data, pos, decode) == Ok(Some(t.(stream := data)))
  {
  }

  /** A page none of whose packets starts with either prefix holds no tag. */
  lemma {:induction false} PacketsWithoutTag(packets: seq<Bytes>, decode: Bytes -> Option<Image>)
    requires forall i | 0 <= i < |packets| :: !HasPrefix(packets[i], VorbisPrefix) && !HasPrefix(packets[i], OpusPrefix)
    ensures PacketsTag(packets, decode) == None
    decreases |packets|
  {
    if packets != [] {
      PacketsWithoutTag(packets[1..], decode);
    }
  }

  /** ReadTags on a stream whose first page, written by WritePackets, starts
      with a comment packet built without art: the tag holds exactly the
      written fields, the vendor string, the codec the prefix names and the
      stream itself. */
  lemma ReadTagsOfCommentPage(flag: uint8, granule: int64, serial: uint32, pn: uint32,
                              fields: map<TagField, Bytes>, order: seq<TagField>, codec: Bytes,
                              rest: seq<Bytes>, decode: Bytes -> Option<Image>)
    requires Writable(fields) && IsOrder(order)
    requires |LacingOf([CommentPacket(FieldComments(fields, order), [], codec)] + rest)| <= MaxSegSize
    ensures var data := EmitAll(MuxPages(flag, granule, serial, pn,
                                         [CommentPacket(FieldComments(fields, order), [], codec)] + rest));
      ReadTagsAt(data, 0, decode)
      == Ok(Some(Blank().(vendor := VendorString, fields := fields,
                          codec := if codec == Vorbis then Vorbis else Opus, stream := data)))
  {
    var packets := [CommentPacket(FieldComments(fields, order), [], codec)] + rest;
    var data := EmitAll(MuxPages(flag, granule, serial, pn, packets));
    DecodeMuxFits(flag, granule, serial, pn, packets);
    CommentPacketTag(fields, order, codec, rest, decode);
    assert DecodeAt(data, 0).result.value.page.packets == packets;
  }

  /** The comment packet of a list is found first and parsed back to its
      fields, under the codec its prefix names. */
  lemma CommentPacketTag(fields: map<TagField, Bytes>, order: seq<TagField>, codec: Bytes,
                         rest: seq<Bytes>, decode: Bytes -> Option<Image>)
    requires Writable(fields) && IsOrder(order)
    ensures PacketsTag([CommentPacket(FieldComments(fields, order), [], codec)] + rest, decode)
         == Some(Ok(Blank().(vendor := VendorString, fields := fields,
                             codec := if codec == Vorbis then Vorbis else Opus)))
  {
    var fs := FieldComments(fields, order);
    var packet := CommentPacket(fs, [], codec);
    var prefix := HeaderPrefix(codec);
    CommentPacketReadBack(fields, order, codec, decode);
    CommentPacketParts(fs, [], codec);
    assert packet[..|prefix|] == prefix;
    if codec != Vorbis {
      assert packet[0] == prefix[0] != VorbisPrefix[0];
    }
    assert ([packet] + rest)[0] == packet;
  }

  // ---------------------------------------------------------------- the decoder

  /** OGGDecoder: the reader pages are read from, and the reader over the
      comment packet being parsed. */
  class Decoder {
    const reader: ByteReader
    var tagReader: ByteReader?

    constructor (reader: ByteReader)
      ensures this.reader == reader && tagReader == null
    {
      this.reader := reader;
      tagReader := null;
    }

    /** Decode: reads one page and advances the reader past it; the second
        result is the outcome of the checksum comparison, which Decode only
        logs. */
    method Decode() returns (r: Result<Decoded>, crcMatches: bool)
      requires reader.Valid()
      modifies reader`pos
      ensures reader.Valid() && Read(r, reader.pos) == DecodeAt(reader.data, old(reader.pos))
      ensures r.Ok? ==> crcMatches == CrcMatches(r.value)
    {
      crcMatches := false;
      var hb := reader.ReadBytes(HeaderSize);
      if hb.Err? {
        return Err(hb.error), crcMatches;
      }
      var header := ParseHeader(hb.value);
      if header.oggs != Oggs {
        return Err(InvalidOggs), crcMatches;
      }
      if header.segments < 1 {
        return Err(BadSegs), crcMatches;
      }
      var tb := reader.ReadBytes(header.segments);
      if tb.Err? {
        return Err(tb.error), crcMatches;
      }
      var segmentTable := tb.value;
      var packetLengths := Delace(segmentTable);
      var packets, payloadBytes := ReadPacketList(packetLengths);
      if packets.Err? {
        return Err(packets.error), crcMatches;
      }
      var oldCrc := header.crc;
      header := header.(crc := 0);
      var headerBytes := ToBytesSlice(header);
      var crc := CalculateChecksum(headerBytes, payloadBytes, segmentTable);
      r := Ok(Decoded(Page(header, packets.value), oldCrc, segmentTable));
      crcMatches := crc == oldCrc;
    }

    /** The packets loop of Decode: reads each packet in turn and gathers
        the payload bytes. */
    method ReadPacketList(packetLengths: seq<nat>) returns (r: Result<seq<Bytes>>, payloadBytes: Bytes)
      requires reader.Valid()
      modifies reader`pos
      ensures reader.Valid()
      ensures Read(r, reader.pos) == ReadPackets(reader.data, old(reader.pos), packetLengths, [])
      ensures r.Ok? ==> payloadBytes == Concat(r.value)
    {
      var data, posPackets := reader.data, reader.pos;
      var packets: seq<Bytes> := [];
      payloadBytes := [];
      var k := 0;
      while k < |packetLengths|
        invariant 0 <= k <= |packetLengths| && reader.Valid() && reader.data == data
        invariant ReadPackets(data, posPackets, packetLengths, [])
               == ReadPackets(data, reader.pos, packetLengths[k..], packets)
        invariant payloadBytes == Concat(packets)
      {
        var packet := reader.ReadBytes(packetLengths[k]);
        assert packetLengths[k..][1..] == packetLengths[k + 1..];
        if packet.Err? {
          return Err(packet.error), payloadBytes;
        }
        ConcatAppend(packets, [packet.value]);
        ConcatSingle(packet.value);
        packets := packets + [packet.value];
        payloadBytes := payloadBytes + packet.value;
        k := k + 1;
      }
      r := Ok(packets);
    }

    /** readPictureBlock, over a reader of its own. */
    method ReadPictureBlock(data: Bytes) returns (r: Result<Bytes>)
      ensures r == PictureDataAt(data)
    {
      var reader := new ByteReader(data);
      var kind := reader.ReadInt(4);
      if kind.Err? {
        return Err(kind.error);
      }
      var mimeLen := reader.ReadUint(4);
      if mimeLen.Err? {
        return Err(mimeLen.error);
      }
      var mime := reader.ReadString(mimeLen.value);
      if mime.Err? {
        return Err(mime.error);
      }
      var descLen := reader.ReadUint(4);
      if descLen.Err? {
        return Err(descLen.error);
      }
      var desc := reader.ReadString(descLen.value);
      if desc.Err? {
        return Err(desc.error);
      }
      ghost var pos := reader.pos;
      var width := reader.ReadInt(4);
      if width.Err? {
        return Err(width.error);
      }
      var height := reader.ReadInt(4);
      if height.Err? {
        return Err(height.error);
      }
      var depth := reader.ReadInt(4);
      if depth.Err? {
        return Err(depth.error);
      }
      var colors := reader.ReadInt(4);
      if colors.Err? {
        return Err(colors.error);
      }
      ghost var posLen := reader.pos;
      var dataLen := reader.ReadInt(4);
      if dataLen.Err? {
        return Err(dataLen.error);
      }
      ReadUint4(data, posLen);
      var output := reader.ReadBytes(dataLen.value);
      r := output;
    }

    /** The picture branch of readComments: the base64 text decoded, the
        picture data read from the block and handed to the image decoder
        unless it is empty. */
    method CoverArt(fieldValue: Bytes, decode: Bytes -> Option<Image>, current: Option<Image>) returns (r: Result<Option<Image>>)
      ensures r == CoverArtOf(fieldValue, decode, current)
    {
      var data := Base64.Decode(fieldValue);
      if data.Err? {
        return Err(data.error);
      }
      var picture := ReadPictureBlock(data.value);
      if picture.Err? {
        return Err(picture.error);
      }
      r := Ok(current);
      if |picture.value| > 0 {
        var img := decode(picture.value);
        if img.None? {
          return Err(ImageDecodeFailed);
        }
        r := Ok(Some(img.value));
      }
    }

    /** One comment of readComments applied to the tag being built: None,
        with the tag changed as ApplyComment says, or the error that ends
        readComments. */
    method ApplyTo(oggTag: OggTag, comment: Bytes, decode: Bytes -> Option<Image>) returns (err: Option<Error>)
      modifies oggTag
      ensures var r := ApplyComment(old(oggTag.Values()), comment, decode);
        match r
        case Err(e) => err == Some(e)
        case Ok(u) => err == None && oggTag.Values() == u
    {
      var splitComment := Split(comment, Equals);
      if |splitComment| != 2 {
        return None;
      }
      var fieldName := ToUpper(splitComment[0]);
      var fieldValue := splitComment[1];
      if fieldName == PictureKey {
        var art := CoverArt(fieldValue, decode, oggTag.coverArt);
        if art.Err? {
          return Some(art.error);
        }
        oggTag.coverArt := art.value;
      }
      ghost var t := oggTag.Values();
      assert t == old(oggTag.Values()).(coverArt := t.coverArt);
      if fieldName in TagFieldMapping() {
        oggTag.fields := oggTag.fields[TagFieldMapping()[fieldName] := fieldValue];
      } else {
        oggTag.unmapped := oggTag.unmapped[fieldName := fieldValue];
      }
      assert oggTag.Values() == Store(t, fieldName, fieldValue);
      err := None;
    }

    /** readComments: the vendor, the comment count and the comments, from
        the tag reader, into a new tag. */
    method ReadComments(decode: Bytes -> Option<Image>) returns (r: Result<TagValues>)
      requires tagReader != null && tagReader.Valid()
      modifies tagReader`pos
      ensures tagReader.Valid()
      ensures Read(r, tagReader.pos) == CommentsAt(tagReader.data, old(tagReader.pos), Applying(decode))
    {
      var rd := tagReader;
      ghost var data, start := rd.data, rd.pos;
      var oggTag := new OggTag();
      var vendorLength := rd.ReadUint32();
      if vendorLength.Err? {
        return Err(vendorLength.error);
      }
      var vendor := rd.ReadString(vendorLength.value);
      if vendor.Err? {
        return Err(vendor.error);
      }
      oggTag.vendor := vendor.value;
      var commentsLength := rd.ReadUint32();
      if commentsLength.Err? {
        return Err(commentsLength.error);
      }
      var i := 0;
      while i < commentsLength.value
        invariant 0 <= i <= commentsLength.value
        invariant rd.Valid() && rd.data == data && rd == tagReader
        invariant CommentsAt(data, start, Applying(decode))
               == CommentsLoop(data, rd.pos, commentsLength.value - i, oggTag.Values(), Applying(decode))
      {
        var commentLength := rd.ReadUint32();
        if commentLength.Err? {
          return Err(commentLength.error);
        }
        var comment := rd.ReadString(commentLength.value);
        if comment.Err? {
          return Err(comment.error);
        }
        var err := ApplyTo(oggTag, comment.value, decode);
        if err.Some? {
          return Err(err.value);
        }
        i := i + 1;
      }
      r := Ok(oggTag.Values());
    }

    /** The comment packet branch of ReadTags: the tag reader is set to a
        reader over the packet, the prefix is skipped and the comments are
        read; the tag gets the codec the prefix names. */
    method PacketTagOf(packet: Bytes, prefix: Bytes, codec: Bytes, decode: Bytes -> Option<Image>) returns (r: Result<TagValues>)
      requires HasPrefix(packet, prefix)
      modifies this
      ensures r == PacketTag(packet, prefix, codec, decode)
    {
      tagReader := new ByteReader(packet);
      var _ := tagReader.ReadBytes(|prefix|);
      var resultTag := ReadComments(decode);
      if resultTag.Err? {
        return Err(resultTag.error);
      }
      r := Ok(resultTag.value.(codec := codec));
    }

    /** ReadTags: pages are decoded until one holds a comment packet, whose
        tag remembers the reader. */
    method ReadTags(decode: Bytes -> Option<Image>) returns (r: Result<Option<TagValues>>)
      requires reader.Valid()
      modifies this, reader`pos
      ensures reader.Valid()
      ensures r == ReadTagsAt(reader.data, old(reader.pos), decode)
    {
      ghost var data, start := reader.data, reader.pos;
      while true
        invariant reader.Valid() && reader.data == data
        invariant ReadTagsAt(data, start, decode) == ReadTagsAt(data, reader.pos, decode)
        decreases |data| - reader.pos
      {
        var oggPage, _ := Decode();
        if oggPage.Err? {
          if oggPage.error == EOF {
            return Ok(None);
          }
          return Err(oggPage.error);
        }
        var packets := oggPage.value.page.packets;
        var k := 0;
        while k < |packets|
          invariant 0 <= k <= |packets| && reader.Valid() && reader.data == data
          invariant PacketsTag(packets, decode) == PacketsTag(packets[k..], decode)
        {
          var packet := packets[k];
          assert packets[k..][1..] == packets[k + 1..];
          if HasPrefix(packet, VorbisPrefix) {
            var resultTag := PacketTagOf(packet, VorbisPrefix, Vorbis, decode);
            if resultTag.Err? {
              return Err(resultTag.error);
            }
            return Ok(Some(resultTag.value.(stream := reader.data)));
          } else if HasPrefix(packet, OpusPrefix) {
            var resultTag := PacketTagOf(packet, OpusPrefix, Opus, decode);
            if resultTag.Err? {
              return Err(resultTag.error);
            }
            return Ok(Some(resultTag.value.(stream := reader.data)));
          }
          k := k + 1;
        }
      }
    }
  }

  /** The lacing loop of Decode: each entry is added to the last packet
      length while that packet continues, and starts a new one otherwise. */
  method Delace(segmentTable: Bytes) returns (packetLengths: seq<nat>)
    ensures packetLengths == PacketLengths(segmentTable)
  {
    packetLengths := [];
    var packetContinues := false;
    var i := 0;
    while i < |segmentTable|
      invariant 0 <= i <= |segmentTable|
      invariant packetLengths == PacketLengths(segmentTable[..i])
      invariant packetContinues == Continues(segmentTable[..i])
    {
      var segmentLength := segmentTable[i];
      assert segmentTable[..i + 1][..i] == segmentTable[..i];
      if packetContinues {
        packetLengths := packetLengths[|packetLengths| - 1 := packetLengths[|packetLengths| - 1] + segmentLength];
      } else {
        packetLengths := packetLengths + [segmentLength];
      }
      packetContinues := segmentLength == MaxSegSize;
      i := i + 1;
    }
    assert segmentTable[..i] == segmentTable;
  }
}
