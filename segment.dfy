/** The segmentation engine of the encoder (Segmentize in encoder.go): the
    lacing of section 5 of RFC 3533, one page's worth at a time.  A packet
    of n bytes is laced as n / 255 entries of 255 and one terminating entry
    n % 255; a page holds at most 255 entries, and what does not fit is
    handed back for the next page. */
module OggSegment {
  import opened OggTypes

  // ---------------------------------------------------------------- specification

  /** The lacing values of one packet of n bytes. */
  function Lacing(n: nat): (t: Bytes)
    ensures |t| == n / 255 + 1
  {
    Repeat(255, n / 255) + [n % 255]
  }

  /** The packets of a work queue, the partial first one included. */
  function Packets(pay: SegmentizePayload): (pk: seq<Bytes>)
    ensures |pk| == |pay.middlePay| + 1
  {
    [pay.leftPay] + pay.middlePay
  }

  /** The lacing values of a list of packets, one after the other. */
  function LacingOf(pk: seq<Bytes>): Bytes
  {
    if pk == [] then [] else LacingOf(pk[..|pk| - 1]) + Lacing(|pk[|pk| - 1]|)
  }

  /** The index of the first packet, at or after q, whose lacing does not
      fit in one page together with the lacing of all packets before it. */
  function OverflowFrom(pk: seq<Bytes>, q: nat): (p: nat)
    requires q < |pk| && |LacingOf(pk[..q])| <= MaxSegSize < |LacingOf(pk)|
    ensures q <= p < |pk| && |LacingOf(pk[..p])| <= MaxSegSize < |LacingOf(pk[..p + 1])|
    decreases |pk| - q
  {
    if |LacingOf(pk[..q + 1])| > MaxSegSize then q
    else
      assert pk[..|pk|] == pk;
      OverflowFrom(pk, q + 1)
  }

  /** The packet at which a queue whose lacing does not fit overflows. */
  function Overflow(pk: seq<Bytes>): (q: nat)
    requires |pk| > 0 && |LacingOf(pk)| > MaxSegSize
    ensures q < |pk| && |LacingOf(pk[..q])| <= MaxSegSize < |LacingOf(pk[..q + 1])|
  {
    OverflowFrom(pk, 0)
  }

  /** How many bytes of the overflowing packet the page takes: one 255-byte
      segment per table entry still free. */
  function Cut(pk: seq<Bytes>): (cut: nat)
    requires |pk| > 0 && |LacingOf(pk)| > MaxSegSize
    ensures cut <= |pk[Overflow(pk)]|
  {
    var q := Overflow(pk);
    LacingOfSnoc(pk, q);
    (MaxSegSize - |LacingOf(pk[..q])|) * MaxSegSize
  }

  /** The three results of one round. */
  datatype Segmented = Segmented(table: Bytes, good: SegmentizePayload, bad: SegmentizePayload)

  /** One round of segmentation.  When the lacing of every packet fits, the
      table is that lacing, all of the queue is placed and nothing is left.
      Otherwise the page takes the first 255 lacing values: the packets
      before the overflowing one whole, and as many 255-byte segments of the
      overflowing one as there are entries left (Cut bytes of it); the rest
      of that packet and the packets after it are left over.  A trailing
      partial packet of the input is not carried over. */
  function Segmentation(pay: SegmentizePayload): (s: Segmented)
  {
    var pk := Packets(pay);
    var t := LacingOf(pk);
    if |t| <= MaxSegSize then Segmented(t, pay, EmptyPayload)
    else
      var q, cut := Overflow(pk), Cut(pk);
      if q == 0 then
        Segmented(t[..MaxSegSize],
                  SegmentizePayload(pay.leftPay[..cut], [], []),
                  SegmentizePayload(pay.leftPay[cut..], pay.middlePay, []))
      else
        Segmented(t[..MaxSegSize],
                  SegmentizePayload(pay.leftPay, pay.middlePay[..q - 1], pay.middlePay[q - 1][..cut]),
                  SegmentizePayload(pay.middlePay[q - 1][cut..], pay.middlePay[q..], []))
  }

  // ---------------------------------------------------------------- lemmas on lacing

  lemma LacingOfSnoc(pk: seq<Bytes>, q: nat)
    requires q < |pk|
    ensures LacingOf(pk[..q + 1]) == LacingOf(pk[..q]) + Lacing(|pk[q]|)
  {
    assert pk[..q + 1][..q] == pk[..q];
  }

  /** The lacing of a prefix of the packets is a prefix of their lacing. */
  lemma {:induction false} LacingOfPrefix(pk: seq<Bytes>, q: nat)
    requires q <= |pk|
    ensures |LacingOf(pk[..q])| <= |LacingOf(pk)|
    ensures LacingOf(pk)[..|LacingOf(pk[..q])|] == LacingOf(pk[..q])
    decreases |pk| - q
  {
    if q < |pk| {
      LacingOfPrefix(pk, q + 1);
      LacingOfSnoc(pk, q);
      var a, b := LacingOf(pk[..q]), LacingOf(pk[..q + 1]);
      assert b[..|a|] == a;
      assert LacingOf(pk)[..|a|] == LacingOf(pk)[..|b|][..|a|];
    } else {
      assert pk[..q] == pk;
    }
  }

  /** Three example lacings, and the shape of every lacing: runs of 255
      closed by one value below 255, together adding up to the length. */
  lemma LacingShape(n: nat)
    ensures Lacing(0) == [0] && Lacing(255) == [255, 0] && Lacing(510) == [255, 255, 0]
    ensures Lacing(n)[n / 255] < MaxSegSize && Sum(Lacing(n)) == n
    ensures forall i | 0 <= i < n / 255 :: Lacing(n)[i] == MaxSegSize
  {
    assert Repeat(255, 1) == [255];
    assert Repeat(255, 2) == [255, 255];
    SumRepeat(n / 255);
    SumAppend(Repeat(255, n / 255), [n % 255]);
  }

  lemma ConcatSingle(x: Bytes)
    ensures Concat([x]) == x
  {
    assert [x][..0] == [];
  }

  lemma LacingOfSingle(x: Bytes)
    ensures LacingOf([x]) == Lacing(|x|)
  {
    assert [x][..0] == [];
  }

  lemma {:induction false} SumRepeat(k: nat)
    ensures Sum(Repeat(255, k)) == 255 * k
  {
    if k > 0 {
      SumRepeat(k - 1);
      assert Repeat(255, k)[..k - 1] == Repeat(255, k - 1);
    }
  }

  lemma {:induction false} SumAppend(a: seq<int>, b: seq<int>)
    ensures Sum(a + b) == Sum(a) + Sum(b)
    decreases |b|
  {
    if b == [] {
      assert a + b == a;
    } else {
      var c := b[..|b| - 1];
      SumAppend(a, c);
      assert (a + b)[..|a + b| - 1] == a + c;
    }
  }

  lemma {:induction false} ConcatAppend(a: seq<Bytes>, b: seq<Bytes>)
    ensures Concat(a + b) == Concat(a) + Concat(b)
    decreases |b|
  {
    if b == [] {
      assert a + b == a;
    } else {
      var c := b[..|b| - 1];
      ConcatAppend(a, c);
      assert (a + b)[..|a + b| - 1] == a + c;
    }
  }

  /** The lacing values of the packets add up to their total length. */
  lemma {:induction false} SumLacingOf(pk: seq<Bytes>)
    ensures Sum(LacingOf(pk)) == |Concat(pk)|
  {
    if pk != [] {
      var init := pk[..|pk| - 1];
      SumLacingOf(init);
      LacingShape(|pk[|pk| - 1]|);
      SumAppend(LacingOf(init), Lacing(|pk[|pk| - 1]|));
    }
  }

  /** The lacing of two packet lists in a row. */
  lemma {:induction false} LacingOfAppend(a: seq<Bytes>, b: seq<Bytes>)
    ensures LacingOf(a + b) == LacingOf(a) + LacingOf(b)
    decreases |b|
  {
    if b == [] {
      assert a + b == a;
    } else {
      var c := b[..|b| - 1];
      LacingOfAppend(a, c);
      assert (a + b)[..|a + b| - 1] == a + c;
    }
  }

  // ---------------------------------------------------------------- lemmas on a round

  /** The overflowing packet is the only one at which the lacing crosses the
      page boundary. */
  lemma OverflowUnique(pk: seq<Bytes>, q: nat)
    requires q < |pk| && |LacingOf(pk[..q])| <= MaxSegSize < |LacingOf(pk[..q + 1])|
    ensures |LacingOf(pk)| > MaxSegSize && Overflow(pk) == q
  {
    LacingOfPrefix(pk, q + 1);
    var p := OverflowFrom(pk, 0);
    if p < q {
      assert pk[..q][..p + 1] == pk[..p + 1];
      LacingOfPrefix(pk[..q], p + 1);
    } else if q < p {
      assert pk[..p][..q + 1] == pk[..q + 1];
      LacingOfPrefix(pk[..p], q + 1);
    }
  }

  /** Segmentize returns a table of 1 to 255 entries, and leaves something
      over only with a full table.  A queue whose lacing fits is placed
      whole. */
  lemma SegmentationBounds(pay: SegmentizePayload)
    ensures var s := Segmentation(pay);
      1 <= |s.table| <= MaxSegSize
      && (s.bad != EmptyPayload ==> |s.table| == MaxSegSize)
      && (|LacingOf(Packets(pay))| <= MaxSegSize <==> s.table == LacingOf(Packets(pay)))
      && (|LacingOf(Packets(pay))| <= MaxSegSize ==> s.good == pay && s.bad == EmptyPayload)
  {
    var pk := Packets(pay);
    LacingOfPrefix(pk, 1);
    assert pk[..1] == [pay.leftPay];
    assert LacingOf([pay.leftPay]) == Lacing(|pay.leftPay|);
  }

  /** The packets of the queue the page is built from: the first piece, the
      whole packets, and the trailing piece when there is one. */
  function PagePackets(good: SegmentizePayload): seq<Bytes>
  {
    [good.leftPay] + good.middlePay + (if good.rightPay == [] then [] else [good.rightPay])
  }

  lemma FlattenPackets(pay: SegmentizePayload)
    ensures Flatten(pay) == Concat(Packets(pay)) + pay.rightPay
  {
    ConcatAppend([pay.leftPay], pay.middlePay);
    ConcatSingle(pay.leftPay);
  }

  /** A full table: the lacing of the packets before the overflowing one,
      then one 255 entry per byte block taken from it. */
  lemma OverflowTable(pk: seq<Bytes>)
    requires |pk| > 0 && |LacingOf(pk)| > MaxSegSize
    ensures LacingOf(pk)[..MaxSegSize] == LacingOf(pk[..Overflow(pk)]) + Repeat(255, Cut(pk) / MaxSegSize)
    ensures Cut(pk) == MaxSegSize * (MaxSegSize - |LacingOf(pk[..Overflow(pk)])|)
  {
    var q := Overflow(pk);
    LacingOfSnoc(pk, q);
    LacingOfPrefix(pk, q + 1);
    TableOfPrefix(LacingOf(pk), LacingOf(pk[..q]), |pk[q]|);
  }

  /** A table whose first entries are some head and then the lacing of an
      n-byte packet that does not fit: its first 255 entries are the head
      and then runs of 255. */
  lemma TableOfPrefix(all: Bytes, head: Bytes, n: nat)
    requires |head| <= MaxSegSize < |head| + |Lacing(n)| <= |all|
    requires all[..|head| + |Lacing(n)|] == head + Lacing(n)
    ensures all[..MaxSegSize] == head + Repeat(255, MaxSegSize - |head|)
  {
    var a := MaxSegSize - |head|;
    LacingRuns(n, a);
    assert all[..MaxSegSize] == (head + Lacing(n))[..MaxSegSize];
    assert (head + Lacing(n))[..MaxSegSize] == head + Lacing(n)[..a];
  }

  /** Up to n / 255 entries, the lacing of n bytes is runs of 255. */
  lemma LacingRuns(n: nat, a: nat)
    requires a <= n / 255
    ensures Lacing(n)[..a] == Repeat(255, a)
  {
  }

  /** The packets of an overflowing round, split at the overflow point. */
  lemma OverflowPieces(pay: SegmentizePayload)
    requires |LacingOf(Packets(pay))| > MaxSegSize
    ensures var pk, s := Packets(pay), Segmentation(pay);
      var q, cut := Overflow(pk), Cut(pk);
      Flatten(s.good) == Concat(pk[..q]) + pk[q][..cut]
      && Packets(s.bad) == [pk[q][cut..]] + pk[q + 1..] && s.bad.rightPay == []
  {
    var pk, s := Packets(pay), Segmentation(pay);
    var q, cut := Overflow(pk), Cut(pk);
    if q == 0 {
      assert pk[..0] == [] && pk[1..] == pay.middlePay;
    } else {
      var m := pay.middlePay;
      assert pk[..q] == [pay.leftPay] + m[..q - 1];
      ConcatAppend([pay.leftPay], m[..q - 1]);
      ConcatSingle(pay.leftPay);
      assert pk[q] == m[q - 1] && pk[q + 1..] == m[q..];
    }
  }

  /** No byte is lost or repeated: the placed bytes followed by the left-over
      bytes are the input, and the table accounts for exactly the placed
      bytes.  (The input's trailing partial packet is always empty where
      Segmentize is called.) */
  lemma SegmentationConserves(pay: SegmentizePayload)
    requires pay.rightPay == []
    ensures Flatten(Segmentation(pay).good) + Flatten(Segmentation(pay).bad) == Flatten(pay)
    ensures Sum(Segmentation(pay).table) == |Flatten(Segmentation(pay).good)|
  {
    var pk := Packets(pay);
    FlattenPackets(pay);
    if |LacingOf(pk)| <= MaxSegSize {
      SumLacingOf(pk);
    } else {
      OverflowConservesBytes(pay);
      OverflowSum(pay);
    }
  }

  lemma OverflowConservesBytes(pay: SegmentizePayload)
    requires |LacingOf(Packets(pay))| > MaxSegSize
    ensures Flatten(Segmentation(pay).good) + Flatten(Segmentation(pay).bad) == Concat(Packets(pay))
  {
    var pk, s := Packets(pay), Segmentation(pay);
    OverflowPieces(pay);
    FlattenPackets(s.bad);
    ConcatAtCut(pk, Overflow(pk), Cut(pk));
  }

  /** Cutting packet q of a list at byte cut splits the concatenation there. */
  lemma ConcatAtCut(pk: seq<Bytes>, q: nat, cut: nat)
    requires q < |pk| && cut <= |pk[q]|
    ensures Concat(pk[..q]) + pk[q][..cut] + Concat([pk[q][cut..]] + pk[q + 1..]) == Concat(pk)
  {
    assert pk == pk[..q] + ([pk[q]] + pk[q + 1..]);
    ConcatSplice(pk[..q], pk[q], pk[q + 1..], cut);
  }

  lemma ConcatSplice(before: seq<Bytes>, x: Bytes, after: seq<Bytes>, cut: nat)
    requires cut <= |x|
    ensures Concat(before) + x[..cut] + Concat([x[cut..]] + after) == Concat(before + ([x] + after))
  {
    var l, m := Concat(before), Concat(after);
    ConcatCons(x[cut..], after);
    ConcatCons(x, after);
    ConcatAppend(before, [x] + after);
    assert x[..cut] + x[cut..] == x;
    Regroup3(l, x[..cut], x[cut..], m);
  }

  lemma ConcatCons(x: Bytes, after: seq<Bytes>)
    ensures Concat([x] + after) == x + Concat(after)
  {
    ConcatAppend([x], after);
    ConcatSingle(x);
  }

  lemma Regroup3(l: Bytes, a: Bytes, b: Bytes, m: Bytes)
    ensures l + a + (b + m) == l + (a + b + m)
  {
  }

  lemma OverflowSum(pay: SegmentizePayload)
    requires |LacingOf(Packets(pay))| > MaxSegSize
    ensures Sum(Segmentation(pay).table) == |Flatten(Segmentation(pay).good)|
  {
    var pk := Packets(pay);
    var q, cut := Overflow(pk), Cut(pk);
    OverflowTable(pk);
    OverflowPieces(pay);
    SumAppend(LacingOf(pk[..q]), Repeat(255, cut / MaxSegSize));
    SumRepeat(cut / MaxSegSize);
    SumLacingOf(pk[..q]);
  }

  /** Every round that overflows uses up exactly 255 lacing values: the
      lacing of what is left is 255 values shorter than that of the input. */
  lemma SegmentationProgress(pay: SegmentizePayload)
    requires |LacingOf(Packets(pay))| > MaxSegSize
    ensures |LacingOf(Packets(Segmentation(pay).bad))| == |LacingOf(Packets(pay))| - MaxSegSize
  {
    var pk := Packets(pay);
    var q, cut := Overflow(pk), Cut(pk);
    OverflowPieces(pay);
    OverflowTable(pk);
    LacingRest(pk, q, MaxSegSize - |LacingOf(pk[..q])|);
  }

  /** Cutting a blocks of 255 bytes off packet q removes the lacing of the
      packets before it and a entries. */
  lemma LacingRest(pk: seq<Bytes>, q: nat, a: nat)
    requires q < |pk| && a * MaxSegSize <= |pk[q]|
    ensures |LacingOf([pk[q][a * MaxSegSize..]] + pk[q + 1..])|
      == |LacingOf(pk)| - |LacingOf(pk[..q])| - a
  {
    var x, cut := pk[q], a * MaxSegSize;
    LacingOfSnoc(pk, q);
    LacingOfAppend([x[cut..]], pk[q + 1..]);
    LacingOfAppend(pk[..q + 1], pk[q + 1..]);
    assert pk[..q + 1] + pk[q + 1..] == pk;
    LacingOfSingle(x[cut..]);
    LacingDrop(|x|, a);
  }

  lemma LacingDrop(n: nat, a: nat)
    requires a * MaxSegSize <= n
    ensures |Lacing(n - a * MaxSegSize)| == |Lacing(n)| - a
  {
  }

  lemma SegmentationFits(pay: SegmentizePayload)
    requires |LacingOf(Packets(pay))| <= MaxSegSize
    ensures Segmentation(pay) == Segmented(LacingOf(Packets(pay)), pay, EmptyPayload)
  {
  }

  /** A first packet of at least 255 * 255 bytes fills the page by itself:
      the table is 255 entries of 255 and the page takes 65025 bytes of it. */
  lemma SegmentationAtLeft(pay: SegmentizePayload)
    requires |pay.leftPay| >= MaxSegSequenceSize
    ensures Segmentation(pay) == Segmented(Repeat(255, MaxSegSize),
      SegmentizePayload(pay.leftPay[..MaxSegSequenceSize], [], []),
      SegmentizePayload(pay.leftPay[MaxSegSequenceSize..], pay.middlePay, []))
  {
    var pk := Packets(pay);
    assert pk[..0] == [] && pk[..1] == [pay.leftPay];
    LacingOfSingle(pay.leftPay);
    assert LacingOf(pk[..0]) == [];
    OverflowUnique(pk, 0);
    OverflowTable(pk);
  }

  /** When packet p of the middle list is the one that overflows, the page
      takes the packets before it whole and as many 255-byte blocks of it as
      there are free entries. */
  lemma SegmentationAtMiddle(pay: SegmentizePayload, p: nat)
    requires p < |pay.middlePay|
    requires |LacingOf(Packets(pay)[..p + 1])| <= MaxSegSize < |LacingOf(Packets(pay)[..p + 2])|
    ensures var a := MaxSegSize - |LacingOf(Packets(pay)[..p + 1])|;
      a * MaxSegSize <= |pay.middlePay[p]| &&
      Segmentation(pay) == Segmented(LacingOf(Packets(pay)[..p + 1]) + Repeat(255, a),
        SegmentizePayload(pay.leftPay, pay.middlePay[..p], pay.middlePay[p][..a * MaxSegSize]),
        SegmentizePayload(pay.middlePay[p][a * MaxSegSize..], pay.middlePay[p + 1..], []))
  {
    var pk := Packets(pay);
    OverflowUnique(pk, p + 1);
    OverflowTable(pk);
  }

  // ---------------------------------------------------------------- the engine

  /** The inner loop of Segmentize: entries of 255 from index i0 on, one per
      255-byte block of an n-byte packet, while the table has room.  It
      returns the next free index and the number of blocks not placed. */
  method PlaceRuns(tbl: array<uint8>, i0: nat, n: nat, ghost prefix: Bytes) returns (i: nat, s255s: nat)
    requires tbl.Length == MaxSegSize && i0 <= MaxSegSize && tbl[..i0] == prefix
    modifies tbl
    ensures i0 <= i <= MaxSegSize && (i - i0) + s255s == n / MaxSegSize
    ensures i < MaxSegSize ==> s255s == 0
    ensures tbl[..i] == prefix + Repeat(255, i - i0)
  {
    i := i0;
    s255s := n / MaxSegSize;
    while i < tbl.Length && s255s > 0
      invariant i0 <= i <= MaxSegSize && (i - i0) + s255s == n / MaxSegSize
      invariant tbl[..i] == prefix + Repeat(255, i - i0)
    {
      tbl[i] := MaxSegSize;
      i := i + 1;
      s255s := s255s - 1;
    }
  }

  /** One packet of Segmentize: its runs of 255, then its
      terminator if the table still has room. */
  method PlacePacket(tbl: array<uint8>, i0: nat, n: nat, ghost prefix: Bytes) returns (i: nat, s255s: nat, placed: bool)
    requires tbl.Length == MaxSegSize && i0 <= MaxSegSize && tbl[..i0] == prefix
    modifies tbl
    ensures i0 <= i <= MaxSegSize
    ensures placed <==> |prefix + Lacing(n)| <= MaxSegSize
    ensures placed ==> tbl[..i] == prefix + Lacing(n)
    ensures !placed ==> (i == MaxSegSize && tbl[..] == prefix + Repeat(255, i - i0)
                         && s255s * MaxSegSize + (i - i0) * MaxSegSize + n % MaxSegSize == n)
  {
    i, s255s := PlaceRuns(tbl, i0, n, prefix);
    placed := i < MaxSegSize;
    if placed {
      tbl[i] := n % MaxSegSize;
      assert tbl[..i + 1] == prefix + Repeat(255, i - i0) + [n % MaxSegSize];
      i := i + 1;
    } else {
      assert tbl[..] == tbl[..i];
    }
  }

  /** Segmentize: fills a 255-entry table in place, packet by packet, and
      returns it trimmed together with the placed and the left-over queue.
      This part lays out the first (possibly partial) packet. */
  method Segmentize(pay: SegmentizePayload) returns (segtbl: Bytes, good: SegmentizePayload, bad: SegmentizePayload)
    ensures Segmented(segtbl, good, bad) == Segmentation(pay)
  {
    var tbl := new uint8[MaxSegSize](_ => 0);
    ghost var pk := Packets(pay);
    assert pk[..1] == [pay.leftPay];
    LacingOfSingle(pay.leftPay);

    var i, s255s, placed := PlacePacket(tbl, 0, |pay.leftPay|, []);
    if !placed {
      var rem := |pay.leftPay| % MaxSegSize;
      var leftStart := |pay.leftPay| - (s255s * MaxSegSize) - rem;
      SegmentationAtLeft(pay);
      segtbl := tbl[..];
      good := SegmentizePayload(pay.leftPay[0..leftStart], [], []);
      bad := SegmentizePayload(pay.leftPay[leftStart..], pay.middlePay, []);
      return;
    }
    segtbl, good, bad := SegmentizeMiddle(pay, tbl, i);
  }

  /** The rest of Segmentize: the whole packets after the first one, laid
      out from entry i on. */
  method SegmentizeMiddle(pay: SegmentizePayload, tbl: array<uint8>, i: nat)
      returns (segtbl: Bytes, good: SegmentizePayload, bad: SegmentizePayload)
    requires tbl.Length == MaxSegSize && 1 <= i <= MaxSegSize
    requires tbl[..i] == LacingOf(Packets(pay)[..1])
    modifies tbl
    ensures Segmented(segtbl, good, bad) == Segmentation(pay)
  {
    ghost var pk := Packets(pay);
    var i := i;
    var p := 0;
    while p < |pay.middlePay|
      invariant 0 <= p <= |pay.middlePay|
      invariant 1 <= i <= MaxSegSize && tbl[..i] == LacingOf(pk[..p + 1])
    {
      LacingOfSnoc(pk, p + 1);
      assert pk[p + 1] == pay.middlePay[p];
      ghost var i0 := i;
      var s255s, placed;
      i, s255s, placed := PlacePacket(tbl, i, |pay.middlePay[p]|, LacingOf(pk[..p + 1]));
      if !placed {
        var rem := |pay.middlePay[p]| % MaxSegSize;
        var right := |pay.middlePay[p]| - (s255s * MaxSegSize) - rem;
        SegmentationAtMiddle(pay, p);
        ghost var a := MaxSegSize - |LacingOf(pk[..p + 1])|;
        assert i0 == |LacingOf(pk[..p + 1])| && i - i0 == a && right == a * MaxSegSize;
        segtbl := tbl[..];
        good := SegmentizePayload(pay.leftPay, pay.middlePay[0..p], pay.middlePay[p][0..right]);
        bad := SegmentizePayload(pay.middlePay[p][right..], pay.middlePay[p + 1..], []);
        assert segtbl == LacingOf(pk[..p + 1]) + Repeat(255, a);
        assert pay.middlePay[0..p] == pay.middlePay[..p];
        assert pay.middlePay[p][0..right] == pay.middlePay[p][..a * MaxSegSize];
        return;
      }
      p := p + 1;
    }

    assert pk[..p + 1] == pk;
    SegmentationFits(pay);
    segtbl := tbl[..i];
    good := pay;
    bad := EmptyPayload;
  }
}
