/** The page writer and the muxer of the encoder (encoder.go): writePage
    stamps and checksums one page, WritePackets cuts a packet list into
    pages with the segmentation engine, and EncodeBOS / Encode / EncodeEOS
    choose the flag of the first page. */
module OggEncoder {
  import opened OggTypes
  import opened OggUtil
  import opened OggCrc
  import opened OggSegment

  // ---------------------------------------------------------------- page numbers

  /** The page number after n: Go's uint32 increment wraps around. */
  function Next(n: uint32): uint32
  {
    (n + 1) % Two32
  }

  /** The page number k pages after n. */
  function Advance(n: uint32, k: nat): uint32
  {
    (n + k) % Two32
  }

  lemma AdvanceZero(n: uint32)
    ensures Advance(n, 0) == n
  {
  }

  lemma AdvanceNext(n: uint32, k: nat)
    ensures Advance(Next(n), k) == Advance(n, k + 1)
  {
    if n + 1 == Two32 {
      assert (n + 1 + k) % Two32 == k % Two32 by {
        assert n + 1 + k == k + 1 * Two32;
      }
    }
  }

  lemma NextAdvance(n: uint32, k: nat)
    ensures Next(Advance(n, k)) == Advance(n, k + 1)
  {
    var a := n + k;
    var q := a / Two32;
    assert a == q * Two32 + a % Two32;
    assert a + 1 == q * Two32 + (a % Two32 + 1);
    if a % Two32 + 1 == Two32 {
      assert a + 1 == (q + 1) * Two32;
    }
  }

  // ---------------------------------------------------------------- one page

  /** A table of at most 255 entries keeps its length when converted to a byte. */
  lemma SmallLength(n: nat)
    requires n <= MaxSegSize
    ensures n % 256 == n
  {
  }

  /** What writePage stamps into the caller's header: the current page
      number, and the number of table entries converted to a byte. */
  function Stamped(h: PageHeader, pn: uint32, table: Bytes): (s: PageHeader)
  {
    h.(pageSequenceNumber := pn, segments := |table| % 256)
  }

  /** A page as writePage lays it out: the stamped header (its CRC field as
      the caller left it), the segment table and the payload. */
  datatype OutPage = OutPage(header: PageHeader, table: Bytes, payload: Bytes)

  /** The bytes writePage appends for a page: the header carrying the CRC of
      header, table and payload, then the table, then the payload. */
  function Emit(p: OutPage): (b: Bytes)
    ensures |b| == HeaderSize + |p.table| + |p.payload|
    ensures b[HeaderSize..] == p.table + p.payload
  {
    var c := Crc(HeaderBytes(p.header) + p.table + p.payload);
    HeaderBytes(p.header.(crc := c)) + p.table + p.payload
  }

  /** The bytes of a list of pages, one after the other. */
  function EmitAll(ps: seq<OutPage>): Bytes
    decreases |ps|
  {
    if ps == [] then [] else Emit(ps[0]) + EmitAll(ps[1..])
  }

  /** The checksum of section 6 of RFC 3533: for a page whose header was
      stamped with CRC field 0, the CRC of the emitted page with bytes 22 to
      25 zeroed is the little-endian value stored in those bytes, and the
      other header bytes are those of the stamped header. */
  lemma EmitChecksum(p: OutPage)
    requires p.header.crc == 0
    ensures var b := Emit(p);
      b[..22] == HeaderBytes(p.header)[..22] && b[26] == HeaderBytes(p.header)[26]
      && Crc(b[..22] + [0, 0, 0, 0] + b[26..]) == LeValue(b[22..26])
  {
    var h, rest := p.header, p.table + p.payload;
    var c := Crc(HeaderBytes(h) + p.table + p.payload);
    var z, a := HeaderBytes(h), HeaderBytes(h.(crc := c));
    CrcFieldOnly(h, c);
    ZeroCrcField(h);
    assert HeaderBytes(h) + p.table + p.payload == z + rest;
    CrcSpliced(a, z, rest, c);
    assert Emit(p) == a + rest;
  }

  /** The CRC stored in a header is the CRC of the page with that field
      zeroed. */
  lemma CrcSpliced(a: Bytes, z: Bytes, rest: Bytes, c: uint32)
    requires |a| == HeaderSize && |z| == HeaderSize
    requires a[..22] == z[..22] && a[26] == z[26] && z[22..26] == [0, 0, 0, 0]
    requires a[22..26] == LeBytes(c, 4) && Crc(z + rest) == c
    ensures var b := a + rest;
      b[..22] == z[..22] && b[26] == z[26]
      && Crc(b[..22] + [0, 0, 0, 0] + b[26..]) == LeValue(b[22..26])
  {
    FieldSpliced(a, z, rest);
    assert Pow256(4) == Two32;
    LeRoundTrip(c, 4);
  }

  /** Two headers that differ in the CRC field only: zeroing that field in
      the one, followed by more bytes, gives the other. */
  lemma FieldSpliced(a: Bytes, z: Bytes, rest: Bytes)
    requires |a| == HeaderSize && |z| == HeaderSize
    requires a[..22] == z[..22] && a[26] == z[26] && z[22..26] == [0, 0, 0, 0]
    ensures var b := a + rest;
      b[..22] == a[..22] && b[26] == a[26] && b[22..26] == a[22..26]
      && b[..22] + [0, 0, 0, 0] + b[26..] == z + rest
  {
    var b := a + rest;
    assert z == z[..22] + z[22..26] + z[26..];
    assert z[26..] == [z[26]];
    assert b[26..] == [a[26]] + rest;
  }

  // ---------------------------------------------------------------- the muxer's rounds

  /** What is left to do after a round: nothing when its left-over queue
      starts with an empty packet part, else the lacing of that queue. */
  function Measure(s: Segmented): nat
  {
    if s.bad.leftPay == [] then 0 else |LacingOf(Packets(s.bad))|
  }

  /** Each round takes 255 lacing values off the queue, or ends the muxer. */
  lemma NextRound(pay: SegmentizePayload)
    requires pay.leftPay != []
    ensures Measure(Segmentation(pay)) < |LacingOf(Packets(pay))|
  {
    SegmentationBounds(pay);
    if |LacingOf(Packets(pay))| > MaxSegSize {
      SegmentationProgress(pay);
    }
  }

  /** The round after s: the segmentation of what s left over. */
  function Following(s: Segmented): (n: Segmented)
    requires s.bad.leftPay != []
    ensures Measure(n) < Measure(s)
  {
    NextRound(s.bad);
    Segmentation(s.bad)
  }

  /** The rounds of WritePackets from round s on: each segments the queue
      the one before left over, for as long as that queue starts with a
      part of a packet that is not empty. */
  function Rounds(s: Segmented): (r: seq<Segmented>)
    ensures |r| >= 1 && r[0] == s && r[|r| - 1].bad.leftPay == []
    decreases Measure(s)
  {
    if s.bad.leftPay == [] then [s] else [s] + Rounds(Following(s))
  }

  /** All rounds of WritePackets for a queue. */
  function Schedule(pay: SegmentizePayload): seq<Segmented>
  {
    Rounds(Segmentation(pay))
  }

  /** The muxer terminates: every round but the last takes 255 lacing values
      off the queue, so a queue gives at most |lacing| / 255 + 1 pages. */
  lemma {:induction false} RoundsLength(pay: SegmentizePayload)
    ensures |Schedule(pay)| <= |LacingOf(Packets(pay))| / MaxSegSize + 1
    decreases |LacingOf(Packets(pay))|
  {
    var s := Segmentation(pay);
    SegmentationBounds(pay);
    if s.bad.leftPay != [] {
      SegmentationProgress(pay);
      RoundsLength(s.bad);
      assert Schedule(pay) == [s] + Schedule(s.bad);
    }
  }

  /** The left-over queue of a round never has a trailing partial packet. */
  lemma SegmentationBadRight(pay: SegmentizePayload)
    ensures Segmentation(pay).bad.rightPay == []
  {
  }

  /** Every page of the muxer has 1 to 255 table entries adding up to its
      payload length, every page but the last has all 255, and a page with
      fewer than 255 leaves nothing over. */
  lemma {:induction false} RoundsTables(q: SegmentizePayload, k: nat)
    requires q.rightPay == [] && k < |Schedule(q)|
    ensures var t := Schedule(q)[k].table;
      1 <= |t| <= MaxSegSize && Sum(t) == |Flatten(Schedule(q)[k].good)|
      && (k + 1 < |Schedule(q)| ==> |t| == MaxSegSize)
      && (|t| < MaxSegSize ==> Schedule(q)[k].bad == EmptyPayload)
    decreases k
  {
    var s := Segmentation(q);
    var r := Schedule(q);
    SegmentationBounds(q);
    if k == 0 {
      SegmentationConserves(q);
    } else {
      assert s.bad.leftPay != [];
      SegmentationBadRight(q);
      RoundsTables(s.bad, k - 1);
      assert r == [s] + Schedule(s.bad);
      assert r[k] == Schedule(s.bad)[k - 1];
    }
  }

  lemma LastCons<T>(x: T, r: seq<T>)
    requires |r| > 0
    ensures ([x] + r)[|r|] == r[|r| - 1]
  {
  }

  /** The payload bytes of the pages of a schedule, in order. */
  function Payloads(r: seq<Segmented>): Bytes
    decreases |r|
  {
    if r == [] then [] else Flatten(r[0].good) + Payloads(r[1..])
  }

  /** No byte is duplicated or reordered: from round s on, the pages carry
      the bytes s placed and left over, in order, up to what the last round
      leaves over, which never has a trailing part. */
  lemma {:induction false} RoundsConserve(s: Segmented)
    requires s.bad.rightPay == []
    ensures var r := Rounds(s);
      Payloads(r) + Flatten(r[|r| - 1].bad) == Flatten(s.good) + Flatten(s.bad)
      && r[|r| - 1].bad.rightPay == []
    decreases Measure(s)
  {
    var r := Rounds(s);
    if s.bad.leftPay == [] {
      assert r == [s] && r[1..] == [];
      assert Payloads(r) == Flatten(s.good) + [];
    } else {
      var n := Following(s);
      SegmentationConserves(s.bad);
      SegmentationBadRight(s.bad);
      RoundsConserve(n);
      var r' := Rounds(n);
      assert r == [s] + r' && r[1..] == r';
      LastCons(s, r');
      var a, b, c := Flatten(s.good), Payloads(r'), Flatten(r'[|r'| - 1].bad);
      assert Payloads(r) == a + b;
      assert b + c == Flatten(s.bad);
      Assoc(a, b, c);
    }
  }

  // ---------------------------------------------------------------- pages of a schedule

  /** The pages WritePackets writes for a schedule: writePage stamps each
      page into the same header, whose flags get the continuation bit after
      the first page. */
  function Paginate(h: PageHeader, pn: uint32, sched: seq<Segmented>): seq<OutPage>
    decreases |sched|
  {
    if sched == [] then []
    else
      var p := Stamped(h, pn, sched[0].table);
      [OutPage(p, sched[0].table, Flatten(sched[0].good))]
        + Paginate(p.(flags := WithContinuation(p.flags)), Next(pn), sched[1..])
  }

  /** Page k of a schedule: the caller's flag on the first page and the same
      flag with the continuation bit on the others, page number pn + k, the
      k-th table and the bytes the k-th round placed. */
  lemma {:induction false} PaginateShape(h: PageHeader, pn: uint32, sched: seq<Segmented>)
    ensures |Paginate(h, pn, sched)| == |sched|
    ensures forall k | 0 <= k < |sched| :: Paginate(h, pn, sched)[k] == OutPage(
      h.(flags := if k == 0 then h.flags else WithContinuation(h.flags),
         pageSequenceNumber := Advance(pn, k), segments := |sched[k].table| % 256),
      sched[k].table, Flatten(sched[k].good))
    decreases |sched|
  {
    if sched != [] {
      var p := Stamped(h, pn, sched[0].table);
      var h' := p.(flags := WithContinuation(p.flags));
      PaginateShape(h', Next(pn), sched[1..]);
      var r := Paginate(h, pn, sched);
      var r' := Paginate(h', Next(pn), sched[1..]);
      assert r == [OutPage(p, sched[0].table, Flatten(sched[0].good))] + r';
      forall k | 0 <= k < |sched|
        ensures r[k] == OutPage(
          h.(flags := if k == 0 then h.flags else WithContinuation(h.flags),
             pageSequenceNumber := Advance(pn, k), segments := |sched[k].table| % 256),
          sched[k].table, Flatten(sched[k].good))
      {
        if k > 0 {
          AdvanceNext(pn, k - 1);
          assert r[k] == r'[k - 1];
          assert sched[1..][k - 1] == sched[k];
        }
      }
    }
  }

  /** The pages of a schedule: the page of its first round, then the pages
      of the rounds after it, in the header writePage stamped, with the
      continuation bit. */
  lemma PaginateStep(h: PageHeader, pn: uint32, s: Segmented)
    ensures Paginate(h, pn, Rounds(s))
         == [OutPage(Stamped(h, pn, s.table), s.table, Flatten(s.good))]
            + (if s.bad.leftPay == [] then []
               else Paginate(Stamped(h, pn, s.table).(flags := WithContinuation(h.flags)), Next(pn), Schedule(s.bad)))
  {
    var r := Rounds(s);
    if s.bad.leftPay == [] {
      assert r[1..] == [];
    } else {
      assert r[1..] == Schedule(s.bad);
    }
  }

  /** Appending three parts one after the other appends their concatenation. */
  lemma AppendThree(out: Bytes, a: Bytes, b: Bytes, c: Bytes)
    ensures out + a + b + c == out + (a + b + c)
  {
  }

  lemma Assoc(a: Bytes, b: Bytes, c: Bytes)
    ensures a + (b + c) == (a + b) + c
  {
  }

  lemma EmitAllCons(p: OutPage, ps: seq<OutPage>)
    ensures EmitAll([p] + ps) == Emit(p) + EmitAll(ps)
  {
    assert ([p] + ps)[1..] == ps;
  }

  // ---------------------------------------------------------------- WritePackets

  /** The header WritePackets starts from. */
  function FirstHeader(flag: uint8, granule: int64, serial: uint32, pn: uint32): PageHeader
  {
    PageHeader(Oggs, 0, flag, granule, serial, pn, 0, 0)
  }

  /** The work queue of a non-empty packet list. */
  function Queue(packets: seq<Bytes>): (pay: SegmentizePayload)
    requires |packets| > 0
    ensures Packets(pay) == packets && pay.rightPay == []
  {
    SegmentizePayload(packets[0], packets[1..], [])
  }

  /** The pages WritePackets writes for a packet list. */
  function MuxPages(flag: uint8, granule: int64, serial: uint32, pn: uint32, packets: seq<Bytes>): seq<OutPage>
    requires |packets| > 0
  {
    Paginate(FirstHeader(flag, granule, serial, pn), pn, Schedule(Queue(packets)))
  }

  /** The headers of WritePackets' pages: "OggS", version 0, the caller's
      granule and serial, CRC field 0 before checksumming, consecutive page
      numbers from pn, the caller's flag on the first page and the
      continuation bit added on the others, keeping a BOS or EOS bit. */
  lemma MuxHeaders(flag: uint8, granule: int64, serial: uint32, pn: uint32, packets: seq<Bytes>, k: nat)
    requires |packets| > 0 && k < |MuxPages(flag, granule, serial, pn, packets)|
    ensures var h := MuxPages(flag, granule, serial, pn, packets)[k].header;
      h.oggs == Oggs && h.version == 0 && h.granulePosition == granule
      && h.serialNumber == serial && h.crc == 0
      && h.pageSequenceNumber == Advance(pn, k)
      && h.flags == (if k == 0 then flag else WithContinuation(flag))
      && (k > 0 ==> Bit(h.flags, 0) && Bit(h.flags, 1) == Bit(flag, 1) && Bit(h.flags, 2) == Bit(flag, 2))
  {
    var h0 := FirstHeader(flag, granule, serial, pn);
    var sched := Schedule(Queue(packets));
    PaginateShape(h0, pn, sched);
    var h := MuxPages(flag, granule, serial, pn, packets)[k].header;
    assert h == h0.(flags := if k == 0 then flag else WithContinuation(flag),
                    pageSequenceNumber := Advance(pn, k), segments := |sched[k].table| % 256);
    FlagBits(flag);
  }

  /** The tables of WritePackets' pages: 1 to 255 entries, counted in the
      header, adding up to the payload length, and all 255 on every page
      but the last. */
  lemma MuxTables(flag: uint8, granule: int64, serial: uint32, pn: uint32, packets: seq<Bytes>, k: nat)
    requires |packets| > 0 && k < |MuxPages(flag, granule, serial, pn, packets)|
    ensures var pages := MuxPages(flag, granule, serial, pn, packets);
      var p := pages[k];
      p.header.segments == |p.table| && 1 <= |p.table| <= MaxSegSize
      && Sum(p.table) == |p.payload|
      && (k + 1 < |pages| ==> |p.table| == MaxSegSize)
  {
    var h0 := FirstHeader(flag, granule, serial, pn);
    var sched := Schedule(Queue(packets));
    PaginateShape(h0, pn, sched);
    var p := MuxPages(flag, granule, serial, pn, packets)[k];
    assert p.table == sched[k].table && p.payload == Flatten(sched[k].good)
        && p.header.segments == |sched[k].table| % 256;
    RoundsTables(Queue(packets), k);
    SmallLength(|p.table|);
  }

  /** Everything the packets hold is on the pages, in order, except what an
      exactly filled last page leaves over: a queue whose first packet part
      is empty, which is never written.  A last page that is not full loses
      nothing. */
  lemma MuxConserves(flag: uint8, granule: int64, serial: uint32, pn: uint32, packets: seq<Bytes>)
    requires |packets| > 0
    ensures var pages := MuxPages(flag, granule, serial, pn, packets);
      var sched := Schedule(Queue(packets));
      var left := sched[|sched| - 1].bad;
      left.leftPay == [] && left.rightPay == []
      && Payloads(sched) + Concat(left.middlePay) == Concat(packets)
      && (|pages[|pages| - 1].table| < MaxSegSize ==> Payloads(sched) == Concat(packets))
  {
    var pay := Queue(packets);
    var sched := Schedule(pay);
    var pages := Paginate(FirstHeader(flag, granule, serial, pn), pn, sched);
    assert pages == MuxPages(flag, granule, serial, pn, packets);
    PaginateLast(FirstHeader(flag, granule, serial, pn), pn, sched);
    FlattenPackets(pay);
    assert Flatten(pay) == Concat(packets) by {
      assert Concat(Packets(pay)) + [] == Concat(Packets(pay));
    }
    ScheduleConserves(pay);
  }

  /** The last page of a schedule carries the last table. */
  lemma PaginateLast(h: PageHeader, pn: uint32, sched: seq<Segmented>)
    requires |sched| > 0
    ensures var pages := Paginate(h, pn, sched);
      |pages| == |sched| && pages[|pages| - 1].table == sched[|sched| - 1].table
  {
    PaginateShape(h, pn, sched);
  }

  /** A queue with nothing but its first part and whole packets. */
  lemma FlattenMiddle(p: SegmentizePayload)
    requires p.leftPay == [] && p.rightPay == []
    ensures Flatten(p) == Concat(p.middlePay)
  {
    assert p.leftPay + Concat(p.middlePay) == Concat(p.middlePay);
  }

  /** The schedule of a queue carries its bytes in order, up to the whole
      packets the last round leaves over, which are none when the last page
      is not full. */
  lemma ScheduleConserves(pay: SegmentizePayload)
    requires pay.rightPay == []
    ensures var r := Schedule(pay);
      var left := r[|r| - 1].bad;
      left.leftPay == [] && left.rightPay == []
      && Payloads(r) + Concat(left.middlePay) == Flatten(pay)
      && (|r[|r| - 1].table| < MaxSegSize ==> Payloads(r) == Flatten(pay))
  {
    ScheduleStart(pay);
    RoundsTables(pay, |Schedule(pay)| - 1);
    RoundsLeave(Segmentation(pay), Flatten(pay));
  }

  /** The first round accounts for every byte of the queue. */
  lemma ScheduleStart(pay: SegmentizePayload)
    requires pay.rightPay == []
    ensures var s := Segmentation(pay);
      s.bad.rightPay == [] && Flatten(s.good) + Flatten(s.bad) == Flatten(pay)
  {
    SegmentationConserves(pay);
    SegmentationBadRight(pay);
  }

  /** The rounds from s carry the bytes s accounts for, up to the whole
      packets the last round leaves over. */
  lemma RoundsLeave(s: Segmented, whole: Bytes)
    requires s.bad.rightPay == [] && Flatten(s.good) + Flatten(s.bad) == whole
    ensures var r := Rounds(s);
      var left := r[|r| - 1].bad;
      left.leftPay == [] && left.rightPay == []
      && Payloads(r) + Concat(left.middlePay) == whole
      && (left == EmptyPayload ==> Payloads(r) == whole)
  {
    var r := Rounds(s);
    var last := r[|r| - 1];
    RoundsConserve(s);
    FlattenMiddle(last.bad);
    if last.bad == EmptyPayload {
      assert Payloads(r) + [] == Payloads(r);
    }
  }

  /** A packet list whose lacing fits one page becomes exactly one page:
      the table is the lacing and the payload all the bytes. */
  lemma MuxFits(flag: uint8, granule: int64, serial: uint32, pn: uint32, packets: seq<Bytes>)
    requires |packets| > 0 && |LacingOf(packets)| <= MaxSegSize
    ensures MuxPages(flag, granule, serial, pn, packets)
         == [OutPage(FirstHeader(flag, granule, serial, pn).(segments := |LacingOf(packets)|),
                     LacingOf(packets), Concat(packets))]
  {
    var pay := Queue(packets);
    var h0 := FirstHeader(flag, granule, serial, pn);
    SegmentationFits(pay);
    FlattenPackets(pay);
    SmallLength(|LacingOf(packets)|);
    AdvanceZero(pn);
    var s := Segmentation(pay);
    assert Schedule(pay) == [s];
    PaginateShape(h0, pn, [s]);
    var pages := MuxPages(flag, granule, serial, pn, packets);
    assert pages[0] == OutPage(h0.(segments := |LacingOf(packets)|), LacingOf(packets), Concat(packets));
  }

  /** The exact-fill drop: a first packet of exactly 255 * 255 bytes fills a
      page with 255 entries of 255 and no terminator, and the muxer stops
      there, so none of the packets after it is written. */
  lemma MuxExactFill(flag: uint8, granule: int64, serial: uint32, pn: uint32, packets: seq<Bytes>)
    requires |packets| > 0 && |packets[0]| == MaxSegSequenceSize
    ensures MuxPages(flag, granule, serial, pn, packets)
         == [OutPage(FirstHeader(flag, granule, serial, pn).(segments := MaxSegSize),
                     Repeat(255, MaxSegSize), packets[0])]
  {
    var pay := Queue(packets);
    var h0 := FirstHeader(flag, granule, serial, pn);
    SegmentationAtLeft(pay);
    assert packets[0][..MaxSegSequenceSize] == packets[0];
    assert Flatten(SegmentizePayload(packets[0], [], [])) == packets[0];
    SmallLength(MaxSegSize);
    AdvanceZero(pn);
    var s := Segmentation(pay);
    assert Schedule(pay) == [s];
    PaginateShape(h0, pn, [s]);
    var pages := MuxPages(flag, granule, serial, pn, packets);
    assert pages[0] == OutPage(h0.(segments := MaxSegSize), Repeat(255, MaxSegSize), packets[0]);
  }

  /** The list substituted for an empty one by the Encode entry points. */
  function OrDummy(packets: seq<Bytes>): (r: seq<Bytes>)
    ensures |r| > 0
  {
    if packets == [] then DummyPacket else packets
  }

  /** An empty packet list becomes one page with the table [0] and no payload. */
  lemma MuxEmpty(flag: uint8, granule: int64, serial: uint32, pn: uint32)
    ensures MuxPages(flag, granule, serial, pn, OrDummy([]))
         == [OutPage(FirstHeader(flag, granule, serial, pn).(segments := 1), [0], [])]
  {
    LacingOfSingle([]);
    LacingShape(0);
    ConcatSingle([]);
    MuxFits(flag, granule, serial, pn, DummyPacket);
  }

  /** The payload buffer of writePage: the left part, each whole packet and
      the right part, written one after the other. */
  method Gather(pay: SegmentizePayload) returns (payload: Bytes)
    ensures payload == Flatten(pay)
  {
    payload := pay.leftPay;
    var k := 0;
    while k < |pay.middlePay|
      invariant 0 <= k <= |pay.middlePay|
      invariant payload == pay.leftPay + Concat(pay.middlePay[..k])
    {
      assert pay.middlePay[..k + 1][..k] == pay.middlePay[..k];
      payload := payload + pay.middlePay[k];
      k := k + 1;
    }
    assert pay.middlePay[..k] == pay.middlePay;
    payload := payload + pay.rightPay;
  }

  // ---------------------------------------------------------------- the encoder

  /** OGGEncoder: the bytes written so far, the serial number it writes and
      the number of the next page. */
  class Encoder {
    var output: Bytes
    var serial: uint32
    var pageNumber: uint32

    /** An encoder over an empty writer, with the zero serial and page number. */
    constructor ()
      ensures output == [] && serial == 0 && pageNumber == 0
    {
      output := [];
      serial := 0;
      pageNumber := 0;
    }

    /** The pages still to be written from header h and page pn on, for a
        left-over queue. */
    ghost function Remaining(h: PageHeader, pn: uint32, bad: SegmentizePayload): seq<OutPage>
    {
      if bad.leftPay == [] then [] else Paginate(h, pn, Schedule(bad))
    }

    /** writePage: stamps the header with the page number, which it then
        increments, and with the table length; computes the CRC with the
        header as given; and appends header, table and payload.  The stamped
        header is handed back, as the Go code stamps the caller's header. */
    method WritePage(h: PageHeader, segtbl: Bytes, pay: SegmentizePayload) returns (stamped: PageHeader)
      modifies this
      ensures stamped == Stamped(h, old(pageNumber), segtbl)
      ensures pageNumber == Next(old(pageNumber)) && serial == old(serial)
      ensures output == old(output) + Emit(OutPage(stamped, segtbl, Flatten(pay)))
    {
      stamped := h.(pageSequenceNumber := pageNumber);
      pageNumber := Next(pageNumber);
      stamped := stamped.(segments := |segtbl| % 256);

      var payload := Gather(pay);
      var headerBytes := ToBytesSlice(stamped);
      var crc := CalculateChecksum(headerBytes, payload, segtbl);
      headerBytes := ToBytesSlice(stamped.(crc := crc));
      ghost var page := OutPage(stamped, segtbl, Flatten(pay));
      assert Emit(page) == headerBytes + segtbl + payload;

      output := output + headerBytes;
      output := output + segtbl;
      output := output + payload;
      AppendThree(old(output), headerBytes, segtbl, payload);
    }

    /** WritePackets: the first page with the caller's flag, then pages with
        the continuation bit while the left-over queue starts with a
        non-empty packet part. */
    method WritePackets(flag: uint8, granule: int64, packets: seq<Bytes>)
      requires |packets| > 0
      modifies this
      ensures serial == old(serial)
      ensures output == old(output) + EmitAll(MuxPages(flag, granule, old(serial), old(pageNumber), packets))
      ensures pageNumber == Advance(old(pageNumber), |MuxPages(flag, granule, old(serial), old(pageNumber), packets)|)
    {
      var header := FirstHeader(flag, granule, serial, pageNumber);
      ghost var all := MuxPages(flag, granule, serial, pageNumber, packets);
      ghost var pn0 := pageNumber;

      var segtbl, good, bad := Segmentize(SegmentizePayload(packets[0], packets[1..], []));
      PaginateStep(header, pn0, Segmented(segtbl, good, bad));
      header := WritePage(header, segtbl, good);
      header := header.(flags := WithContinuation(header.flags));
      ghost var later := Remaining(header, pageNumber, bad);
      assert all == [all[0]] + later;
      EmitAllCons(all[0], later);
      Assoc(old(output), Emit(all[0]), EmitAll(later));
      AdvanceZero(pn0);
      NextAdvance(pn0, 0);
      ghost var count := 1;

      while |bad.leftPay| > 0
        invariant serial == old(serial) && header.flags % 2 == 1
        invariant old(output) + EmitAll(all) == output + EmitAll(Remaining(header, pageNumber, bad))
        invariant pageNumber == Advance(pn0, count) && count + |Remaining(header, pageNumber, bad)| == |all|
        decreases |Remaining(header, pageNumber, bad)|
      {
        ghost var rest := Remaining(header, pageNumber, bad);
        ghost var out := output;
        segtbl, good, bad := Segmentize(bad);
        PaginateStep(header, pageNumber, Segmented(segtbl, good, bad));
        header := WritePage(header, segtbl, good);
        assert header.(flags := WithContinuation(header.flags)) == header;
        later := Remaining(header, pageNumber, bad);
        assert rest == [rest[0]] + later;
        EmitAllCons(rest[0], later);
        assert rest[0] == OutPage(header, segtbl, Flatten(good));
        Assoc(out, Emit(rest[0]), EmitAll(later));
        NextAdvance(pn0, count);
        count := count + 1;
      }
    }

    /** EncodeBOS: the beginning-of-stream flag on the first page. */
    method EncodeBOS(granule: int64, packets: seq<Bytes>)
      modifies this
      ensures serial == old(serial)
      ensures output == old(output) + EmitAll(MuxPages(FlagBOS, granule, old(serial), old(pageNumber), OrDummy(packets)))
      ensures pageNumber == Advance(old(pageNumber), |MuxPages(FlagBOS, granule, old(serial), old(pageNumber), OrDummy(packets))|)
    {
      var ps := packets;
      if |ps| == 0 {
        ps := DummyPacket;
      }
      WritePackets(FlagBOS, granule, ps);
    }

    /** Encode: no flag on the first page. */
    method Encode(granule: int64, packets: seq<Bytes>)
      modifies this
      ensures serial == old(serial)
      ensures output == old(output) + EmitAll(MuxPages(0, granule, old(serial), old(pageNumber), OrDummy(packets)))
      ensures pageNumber == Advance(old(pageNumber), |MuxPages(0, granule, old(serial), old(pageNumber), OrDummy(packets))|)
    {
      var ps := packets;
      if |ps| == 0 {
        ps := DummyPacket;
      }
      WritePackets(0, granule, ps);
    }

    /** EncodeEOS: the end-of-stream flag on the first page. */
    method EncodeEOS(granule: int64, packets: seq<Bytes>)
      modifies this
      ensures serial == old(serial)
      ensures output == old(output) + EmitAll(MuxPages(FlagEOS, granule, old(serial), old(pageNumber), OrDummy(packets)))
      ensures pageNumber == Advance(old(pageNumber), |MuxPages(FlagEOS, granule, old(serial), old(pageNumber), OrDummy(packets))|)
    {
      var ps := packets;
      if |ps| == 0 {
        ps := DummyPacket;
      }
      WritePackets(FlagEOS, granule, ps);
    }
  }
}
