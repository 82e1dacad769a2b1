/** The rewrite of SaveTags (encoder.go): the stream a tag was read from
    is decoded page by page and each page is written again through a new
    encoder, with serial number 0 and page numbers from 0.  The first page
    goes through EncodeBOS; a page whose first packet is a comment header
    gets a comment packet made from the tag; a page whose flags are exactly
    FlagEOS goes through EncodeEOS; every other page goes through Encode.
    The bytes are returned rather than written to a file. */
module OggRemux {
  import opened OggTypes
  import opened OggUtil
  import opened OggSegment
  import opened OggCrc
  import opened OggEncoder
  import opened OggDecoder
  import opened OggTagRecord
  import opened OggComments

  // ---------------------------------------------------------------- the pages of a stream

  /** Decode called from position pos until it fails: the pages in order
      when it fails with EOF, else the error that stopped it.  Decode never
      returns a page without packets. */
  function PagesFrom(data: Bytes, pos: nat): (r: Result<seq<Page>>)
    requires pos <= |data|
    ensures r.Ok? ==> forall i | 0 <= i < |r.value| :: |r.value[i].packets| > 0
    decreases |data| - pos
  {
    var d := DecodeAt(data, pos);
    match d.result
    case Err(e) => if e == EOF then Ok([]) else Err(e)
    case Ok(x) =>
      DecodeOk(data, pos);
      match PagesFrom(data, d.next)
      case Err(e) => Err(e)
      case Ok(rest) => Ok([x.page] + rest)
  }

  /** Pages decoded before those of r. */
  function Prepend(pages: seq<Page>, r: Result<seq<Page>>): Result<seq<Page>>
  {
    match r
    case Err(e) => Err(e)
    case Ok(rest) => Ok(pages + rest)
  }

  // ---------------------------------------------------------------- pages to encoder calls

  /** The encoder entry point a page is written through. */
  datatype Entry = EncodeBOS | Encode | EncodeEOS

  /** One call of an encoder entry point: its granule position and packets. */
  datatype Call = Call(entry: Entry, granule: int64, packets: seq<Bytes>)

  /** The flag each entry point gives the first page it writes. */
  function FlagOf(e: Entry): uint8
  {
    match e
    case EncodeBOS => FlagBOS
    case Encode => 0
    case EncodeEOS => FlagEOS
  }

  /** A page whose first packet starts with the Vorbis or the Opus comment
      header prefix. */
  predicate IsCommentPage(p: Page)
  {
    |p.packets| > 0 && (HasPrefix(p.packets[0], VorbisPrefix) || HasPrefix(p.packets[0], OpusPrefix))
  }

  /** The call SaveTags makes for a page after the first. */
  function PageCall(p: Page, comment: Bytes): Call
  {
    var g := p.header.granulePosition;
    if IsCommentPage(p) then Call(Encode, g, p.packets[0 := comment])
    else if p.header.flags == FlagEOS then Call(EncodeEOS, g, p.packets)
    else Call(Encode, g, p.packets)
  }

  /** The calls SaveTags makes for the decoded pages: EncodeBOS for the
      first, PageCall for each of the others. */
  function RemuxCalls(pages: seq<Page>, comment: Bytes): (calls: seq<Call>)
    requires |pages| > 0
  {
    [Call(EncodeBOS, pages[0].header.granulePosition, pages[0].packets)]
      + seq(|pages| - 1, i requires 0 <= i < |pages| - 1 => PageCall(pages[i + 1], comment))
  }

  /** The page mapping: one call per page, each with the page's granule
      position; the first page through EncodeBOS with its packets; a
      comment page through Encode with its first packet replaced; a page
      whose flags are exactly FlagEOS through EncodeEOS; any other page,
      one with FlagEOS and other bits too included, through Encode, with
      its packets. */
  lemma RemuxMapping(pages: seq<Page>, comment: Bytes, k: nat)
    requires k < |pages|
    ensures var calls := RemuxCalls(pages, comment);
      var p := pages[k];
      |calls| == |pages| && calls[k].granule == p.header.granulePosition
      && (k == 0 ==> calls[k] == Call(EncodeBOS, p.header.granulePosition, p.packets))
      && (k > 0 && IsCommentPage(p) ==>
            calls[k].entry == Encode && |calls[k].packets| == |p.packets|
            && calls[k].packets[0] == comment && calls[k].packets[1..] == p.packets[1..])
      && (k > 0 && !IsCommentPage(p) ==>
            calls[k].packets == p.packets
            && calls[k].entry == (if p.header.flags == FlagEOS then EncodeEOS else Encode))
  {
    if k > 0 {
      var calls := RemuxCalls(pages, comment);
      assert calls[k] == PageCall(pages[k], comment);
    }
  }

  /** The end-of-stream test is an equality: a last page that carries
      FlagEOS together with the continuation bit is written without the
      end-of-stream flag. */
  lemma EosByEquality(p: Page, comment: Bytes)
    requires !IsCommentPage(p) && p.header.flags == FlagEOS + FlagCOP
    ensures FlagOf(PageCall(p, comment).entry) == 0
  {
  }

  /** The calls for pages one page longer: one call more. */
  lemma RemuxCallsSnoc(pages: seq<Page>, p: Page, comment: Bytes)
    requires |pages| > 0
    ensures RemuxCalls(pages + [p], comment) == RemuxCalls(pages, comment) + [PageCall(p, comment)]
  {
    var a, b := RemuxCalls(pages + [p], comment), RemuxCalls(pages, comment) + [PageCall(p, comment)];
    assert |a| == |b|;
    forall i | 0 <= i < |a|
      ensures a[i] == b[i]
    {
      if 0 < i < |pages| {
        assert (pages + [p])[i] == pages[i];
      }
    }
  }

  // ---------------------------------------------------------------- encoder calls to pages

  /** The pages one call writes from page number pn, with serial 0. */
  function CallPages(c: Call, pn: uint32): seq<OutPage>
  {
    MuxPages(FlagOf(c.entry), c.granule, 0, pn, OrDummy(c.packets))
  }

  /** The pages an encoder writes for the calls, one call after the
      other, from page number 0, where mux gives the pages of one call
      from the page number it starts at. */
  function Chain(mux: (Call, uint32) -> seq<OutPage>, calls: seq<Call>): seq<OutPage>
    decreases |calls|
  {
    if calls == [] then []
    else
      var pre := Chain(mux, calls[..|calls| - 1]);
      pre + mux(calls[|calls| - 1], |pre| % Two32)
  }

  /** The pages a new encoder writes for the calls. */
  function AllPages(calls: seq<Call>): seq<OutPage>
  {
    Chain(CallPages, calls)
  }

  /** Page numbers run on modulo 2^32 from one call to the next. */
  lemma AdvanceMod(a: nat, k: nat)
    ensures Advance(a % Two32, k) == (a + k) % Two32
  {
    var q := a / Two32;
    assert a == q * Two32 + a % Two32;
    assert a + k == q * Two32 + (a % Two32 + k);
  }

  /** The pages of calls one longer: the pages of the last call follow,
      numbered on from the others. */
  lemma ChainSnoc(mux: (Call, uint32) -> seq<OutPage>, calls: seq<Call>, c: Call)
    ensures Chain(mux, calls + [c]) == Chain(mux, calls) + mux(c, |Chain(mux, calls)| % Two32)
  {
    assert (calls + [c])[..|calls|] == calls;
  }

  /** The pages of call k stand right after those of the calls before it. */
  lemma {:induction false} ChainAt(mux: (Call, uint32) -> seq<OutPage>, calls: seq<Call>, k: nat, i: nat)
    requires k < |calls|
    requires i < |mux(calls[k], |Chain(mux, calls[..k])| % Two32)|
    ensures var pre := Chain(mux, calls[..k]);
      |pre| + i < |Chain(mux, calls)|
      && Chain(mux, calls)[|pre| + i] == mux(calls[k], |pre| % Two32)[i]
    decreases |calls|
  {
    var n := |calls|;
    if k == n - 1 {
      assert calls[..n - 1] == calls[..k];
    } else {
      assert calls[..n - 1][..k] == calls[..k];
      ChainAt(mux, calls[..n - 1], k, i);
    }
  }

  /** Every page of the chain is page i of the pages of some call k. */
  lemma {:induction false} ChainLocate(mux: (Call, uint32) -> seq<OutPage>, calls: seq<Call>, j: nat) returns (k: nat, i: nat)
    requires j < |Chain(mux, calls)|
    ensures k < |calls|
    ensures var pre := Chain(mux, calls[..k]);
      j == |pre| + i && i < |mux(calls[k], |pre| % Two32)|
      && Chain(mux, calls)[j] == mux(calls[k], |pre| % Two32)[i]
    decreases |calls|
  {
    var n := |calls|;
    var pre := Chain(mux, calls[..n - 1]);
    if j < |pre| {
      k, i := ChainLocate(mux, calls[..n - 1], j);
      assert calls[..n - 1][..k] == calls[..k];
    } else {
      k, i := n - 1, j - |pre|;
    }
  }

  /** A page as the rewrite writes it: "OggS", version 0, serial 0, page
      number n, the CRC field 0 before checksumming, and a table of 1 to
      255 entries counted in the header and adding up to the payload
      length. */
  predicate Written(p: OutPage, n: uint32)
  {
    p.header.oggs == Oggs && p.header.version == 0 && p.header.serialNumber == 0
    && p.header.crc == 0 && p.header.pageSequenceNumber == n
    && p.header.segments == |p.table| && 1 <= |p.table| <= MaxSegSize && Sum(p.table) == |p.payload|
  }

  /** When every call's page i is written with page number pn + i, the
      chain's page j is written with page number j. */
  lemma ChainWritten(mux: (Call, uint32) -> seq<OutPage>, calls: seq<Call>, j: nat)
    requires forall c: Call, pn: uint32, i: nat | i < |mux(c, pn)| :: Written(mux(c, pn)[i], Advance(pn, i))
    requires j < |Chain(mux, calls)|
    ensures Written(Chain(mux, calls)[j], j % Two32)
  {
    var k, i := ChainLocate(mux, calls, j);
    var before := |Chain(mux, calls[..k])|;
    AdvanceMod(before, i);
  }

  /** Every page the rewrite writes is an Ogg page of serial 0 whose page
      number is its place in the output, modulo 2^32. */
  lemma AllPagesHeaders(calls: seq<Call>, j: nat)
    requires j < |AllPages(calls)|
    ensures Written(AllPages(calls)[j], j % Two32)
  {
    forall c: Call, pn: uint32, i: nat | i < |CallPages(c, pn)|
      ensures Written(CallPages(c, pn)[i], Advance(pn, i))
    {
      CallPageHeader(c, pn, i);
    }
    ChainWritten(CallPages, calls, j);
  }

  /** Page i of a call's pages is written with page number pn + i. */
  lemma CallPageHeader(c: Call, pn: uint32, i: nat)
    requires i < |CallPages(c, pn)|
    ensures Written(CallPages(c, pn)[i], Advance(pn, i))
  {
    MuxHeaders(FlagOf(c.entry), c.granule, 0, pn, OrDummy(c.packets), i);
    MuxTables(FlagOf(c.entry), c.granule, 0, pn, OrDummy(c.packets), i);
  }

  /** Where page j of a list of pages starts in their bytes. */
  function PageStart(ps: seq<OutPage>, j: nat): (n: nat)
    requires j <= |ps|
    ensures n <= |EmitAll(ps)|
  {
    assert ps == ps[..j] + ps[j..];
    EmitAllAppend(ps[..j], ps[j..]);
    |EmitAll(ps[..j])|
  }

  /** The output of the rewrite is a well-formed run of Ogg pages: page j
      decodes where it starts to its header (CRC field 0) and the packets
      its table delimits, with a checksum that matches, and the reader
      stops where page j + 1 starts. */
  lemma RemuxPageDecodes(calls: seq<Call>, j: nat)
    requires j < |AllPages(calls)|
    ensures var ps := AllPages(calls);
      var p, at := ps[j], PageStart(ps, j);
      Sum(PacketLengths(p.table)) == |p.payload|
      && var d := Decoded(Page(p.header, Slices(p.payload, PacketLengths(p.table))),
                          Crc(HeaderBytes(p.header) + p.table + p.payload), p.table);
         DecodeAt(EmitAll(ps), at) == Read(Ok(d), PageStart(ps, j + 1))
         && CrcMatches(d)
  {
    AllPagesHeaders(calls, j);
    WrittenDecodes(AllPages(calls), j);
  }

  /** A written page decodes where it starts in a list of pages. */
  lemma WrittenDecodes(ps: seq<OutPage>, j: nat)
    requires j < |ps| && Written(ps[j], ps[j].header.pageSequenceNumber)
    ensures var p, at := ps[j], PageStart(ps, j);
      Sum(PacketLengths(p.table)) == |p.payload|
      && var d := Decoded(Page(p.header, Slices(p.payload, PacketLengths(p.table))),
                          Crc(HeaderBytes(p.header) + p.table + p.payload), p.table);
         DecodeAt(EmitAll(ps), at) == Read(Ok(d), PageStart(ps, j + 1))
         && CrcMatches(d)
  {
    PageBytes(ps, j);
    DecodeEmitted(EmitAll(ps[..j]), ps[j], EmitAll(ps[j + 1..]));
  }

  /** The bytes of a list of pages around page j. */
  lemma PageBytes(ps: seq<OutPage>, j: nat)
    requires j < |ps|
    ensures EmitAll(ps) == EmitAll(ps[..j]) + Emit(ps[j]) + EmitAll(ps[j + 1..])
    ensures PageStart(ps, j) == |EmitAll(ps[..j])|
    ensures PageStart(ps, j + 1) == PageStart(ps, j) + |Emit(ps[j])|
  {
    var p := ps[j];
    assert ps == ps[..j] + [p] + ps[j + 1..];
    EmitAround(ps[..j], p, ps[j + 1..]);
    assert ps[..j + 1] == ps[..j] + [p] + [];
    EmitAround(ps[..j], p, []);
  }

  /** The bytes of pages before, a page and pages after. */
  lemma EmitAround(pre: seq<OutPage>, p: OutPage, post: seq<OutPage>)
    ensures EmitAll(pre + [p] + post) == EmitAll(pre) + Emit(p) + EmitAll(post)
  {
    assert pre + [p] + post == pre + ([p] + post);
    EmitAllAppend(pre, [p] + post);
    EmitAllCons(p, post);
    Assoc(EmitAll(pre), Emit(p), EmitAll(post));
  }

  /** A call whose packets fit one page writes one page, which decodes to
      exactly those packets, with the entry point's flag, the call's
      granule position, serial 0 and the page number it was written with. */
  lemma CallFits(c: Call, pn: uint32)
    requires |c.packets| > 0 && |LacingOf(c.packets)| <= MaxSegSize
    ensures var ps := CallPages(c, pn);
      |ps| == 1 && Carries(ps[0], FitHeader(c, pn), c.packets)
  {
    MuxFits(FlagOf(c.entry), c.granule, 0, pn, c.packets);
    SumLacingOf(c.packets);
    PacketLengthsOfLacingOf(c.packets);
    SlicesOfConcat(c.packets);
  }

  /** The header of the one page of a call that fits a page. */
  function FitHeader(c: Call, pn: uint32): PageHeader
    requires |LacingOf(c.packets)| <= MaxSegSize
  {
    FirstHeader(FlagOf(c.entry), c.granule, 0, pn).(segments := |LacingOf(c.packets)|)
  }

  /** A written page carries header h and, by its table, these packets. */
  predicate Carries(p: OutPage, h: PageHeader, packets: seq<Bytes>)
  {
    p.header == h && Sum(PacketLengths(p.table)) == |p.payload|
    && Slices(p.payload, PacketLengths(p.table)) == packets
  }

  /** The audio pages survive the rewrite: a page after the first that is
      not a comment page and whose packets fit one page is written as one
      page that decodes, where it stands in the output, to the same packets
      and granule position, with flag FlagEOS when the page's flags were
      exactly FlagEOS and 0 otherwise, serial 0, and a matching checksum. */
  lemma AudioPageKept(pages: seq<Page>, comment: Bytes, k: nat)
    requires 0 < k < |pages| && !IsCommentPage(pages[k]) && |pages[k].packets| > 0
    requires |LacingOf(pages[k].packets)| <= MaxSegSize
    ensures var calls := RemuxCalls(pages, comment);
      var ps := AllPages(calls);
      var j := |AllPages(calls[..k])|;
      var p := pages[k];
      j < |ps|
      && var r := DecodeAt(EmitAll(ps), PageStart(ps, j));
         r.result.Ok? && CrcMatches(r.result.value)
         && r.result.value.page.packets == p.packets
         && r.result.value.page.header.granulePosition == p.header.granulePosition
         && r.result.value.page.header.flags == (if p.header.flags == FlagEOS then FlagEOS else 0)
         && r.result.value.page.header.serialNumber == 0
         && r.result.value.page.header.pageSequenceNumber == j % Two32
  {
    RemuxMapping(pages, comment, k);
    CallKept(RemuxCalls(pages, comment), k);
  }

  /** Call k, the first included, whose packets fit one page: its page
      decodes where it stands to its packets, granule position and flag. */
  lemma CallKept(calls: seq<Call>, k: nat)
    requires k < |calls|
    requires |calls[k].packets| > 0 && |LacingOf(calls[k].packets)| <= MaxSegSize
    ensures var j := |AllPages(calls[..k])|;
      j < |AllPages(calls)|
      && DecodesAt(AllPages(calls), j, Page(FitHeader(calls[k], j % Two32), calls[k].packets))
  {
    var c := calls[k];
    var j := |AllPages(calls[..k])|;
    CallFits(c, j % Two32);
    ChainAt(CallPages, calls, k, 0);
    DecodedPage(calls, j, c.packets, FitHeader(c, j % Two32));
  }

  /** Page j of the output, known to carry the given header and packets,
      decodes to them. */
  lemma DecodedPage(calls: seq<Call>, j: nat, packets: seq<Bytes>, h: PageHeader)
    requires j < |AllPages(calls)| && Carries(AllPages(calls)[j], h, packets)
    ensures DecodesAt(AllPages(calls), j, Page(h, packets))
  {
    RemuxPageDecodes(calls, j);
  }

  /** Page j of a list of pages decodes, where it starts, to this page
      with a matching checksum. */
  ghost predicate DecodesAt(ps: seq<OutPage>, j: nat, page: Page)
    requires j < |ps|
  {
    var r := DecodeAt(EmitAll(ps), PageStart(ps, j));
    r.result.Ok? && CrcMatches(r.result.value) && r.result.value.page == page
  }

  // ---------------------------------------------------------------- the comment packet

  /** The picture block SaveTags embeds: the cover art encoded as JPEG and
      wrapped by createMetadataBlockPicture; empty when there is no cover
      art or either step fails. */
  function ArtBlock(t: TagValues, codecs: Codecs): Bytes
  {
    match t.coverArt
    case None => []
    case Some(img) =>
      match codecs.encodeJpeg(img)
      case None => []
      case Some(jpg) =>
        match MetadataBlockPicture(codecs.decodeConfig, jpg)
        case Err(_) => []
        case Ok(block) => block
  }

  /** The comment packet SaveTags puts on a comment page: one "KEY=value"
      comment per well-known field, in the given visiting order, and the
      picture block, behind the tag's codec prefix. */
  function TagComment(t: TagValues, codecs: Codecs, order: seq<TagField>): Bytes
    requires forall f :: f in t.fields
  {
    CommentPacket(FieldComments(t.fields, order), ArtBlock(t, codecs), t.codec)
  }

  /** SaveTags up to the commit: the stream the tag was read from, read
      from its start, re-encoded page by page; an error from the first
      Decode, EOF included, or a later error other than EOF, is returned. */
  function SaveTagsOf(t: TagValues, codecs: Codecs, order: seq<TagField>): Result<Bytes>
    requires forall f :: f in t.fields
  {
    match PagesFrom(t.stream, 0)
    case Err(e) => Err(e)
    case Ok(pages) =>
      if pages == [] then Err(EOF)
      else Ok(EmitAll(AllPages(RemuxCalls(pages, TagComment(t, codecs, order)))))
  }

  /** The comment fields loop of SaveTags: "KEY=value" for each entry of
      the field mapping, in the order it is visited. */
  method CommentFieldsOf(tag: OggTag, order: seq<TagField>) returns (commentFields: seq<Bytes>)
    requires tag.Valid()
    ensures commentFields == FieldComments(tag.fields, order)
  {
    commentFields := [];
    var i := 0;
    while i < |order|
      invariant 0 <= i <= |order|
      invariant commentFields == FieldComments(tag.fields, order[..i])
    {
      var field := order[i];
      FieldCommentsSnoc(tag.fields, order, i);
      commentFields := commentFields + [KeyOf(field) + [Equals] + tag.fields[field]];
      i := i + 1;
    }
    assert order[..i] == order;
  }

  /** The comments of one more field in the visiting order: one comment
      more, at the end. */
  lemma FieldCommentsSnoc(fields: map<TagField, Bytes>, order: seq<TagField>, i: nat)
    requires forall f :: f in fields
    requires i < |order|
    ensures FieldComments(fields, order[..i + 1])
         == FieldComments(fields, order[..i]) + [KeyOf(order[i]) + [Equals] + fields[order[i]]]
  {
  }

  /** The cover art branch of SaveTags. */
  method PictureOf(tag: OggTag, codecs: Codecs) returns (img: Bytes)
    ensures img == ArtBlock(tag.Values(), codecs)
  {
    img := [];
    if tag.coverArt.Some? {
      var jpg := codecs.encodeJpeg(tag.coverArt.value);
      if jpg.Some? {
        var block := CreateMetadataBlockPicture(codecs.decodeConfig, jpg.value);
        if block.Ok? {
          img := block.value;
        }
      }
    }
  }

  /** The loop of SaveTags, with the bytes it buffers returned instead of
      committed to a file. */
  method SaveTags(tag: OggTag, codecs: Codecs, order: seq<TagField>) returns (r: Result<Bytes>)
    requires tag.Valid()
    ensures r == SaveTagsOf(tag.Values(), codecs, order)
  {
    var reader := new ByteReader(tag.stream);
    var decoder := new Decoder(reader);
    var encoder := new OggEncoder.Encoder();
    ghost var data := tag.stream;
    ghost var comment := TagComment(tag.Values(), codecs, order);

    var page := NextPage(decoder);
    if page.Err? {
      SaveTagsFirstErr(tag.Values(), codecs, order, page.error);
      return Err(page.error);
    }
    var first := page.value.page;
    var bos := Call(EncodeBOS, first.header.granulePosition, first.packets);
    WriteCall(encoder, bos);
    ghost var pages := [first];
    RemuxFirst(first, comment);
    assert encoder.output == EmitAll(CallPages(bos, 0));
    assert encoder.pageNumber == Advance(0, |CallPages(bos, 0)|);

    while true
      invariant reader.Valid() && reader.data == data && decoder.reader == reader
      invariant |pages| > 0
      invariant PagesFrom(data, 0) == Prepend(pages, PagesFrom(data, reader.pos))
      invariant encoder.serial == 0
      invariant encoder.output == EmitAll(AllPages(RemuxCalls(pages, comment)))
      invariant encoder.pageNumber == |AllPages(RemuxCalls(pages, comment))| % Two32
      decreases |data| - reader.pos
    {
      page := NextPage(decoder);
      if page.Err? {
        if page.error == EOF {
          break;
        }
        SaveTagsErr(tag.Values(), codecs, order, pages, page.error);
        return Err(page.error);
      }
      var p := page.value.page;
      PrependAppend(pages, [p], PagesFrom(data, reader.pos));
      RemuxNext(encoder, tag, codecs, order, p, pages);
      pages := pages + [p];
    }
    SaveTagsOk(tag.Values(), codecs, order, pages);
    r := Ok(encoder.output);
  }

  /** One turn of the loop of SaveTags: the page's call written behind
      the pages written so far gives the pages of one page more. */
  method RemuxNext(encoder: Encoder, tag: OggTag, codecs: Codecs, order: seq<TagField>, p: Page, ghost pages: seq<Page>)
    requires tag.Valid() && |p.packets| > 0 && |pages| > 0 && encoder.serial == 0
    requires var ps := AllPages(RemuxCalls(pages, TagComment(tag.Values(), codecs, order)));
      encoder.output == EmitAll(ps) && encoder.pageNumber == |ps| % Two32
    modifies encoder
    ensures encoder.serial == 0
    ensures var ps := AllPages(RemuxCalls(pages + [p], TagComment(tag.Values(), codecs, order)));
      encoder.output == EmitAll(ps) && encoder.pageNumber == |ps| % Two32
  {
    ghost var comment := TagComment(tag.Values(), codecs, order);
    ghost var before := AllPages(RemuxCalls(pages, comment));
    ghost var written := CallPages(PageCall(p, comment), |before| % Two32);
    RemuxPage(encoder, tag, codecs, order, p);
    assert encoder.output == EmitAll(before) + EmitAll(written);
    RemuxStep(pages, p, comment);
  }

  lemma PrependAppend(a: seq<Page>, b: seq<Page>, r: Result<seq<Page>>)
    ensures Prepend(a, Prepend(b, r)) == Prepend(a + b, r)
  {
    if r.Ok? {
      assert a + (b + r.value) == (a + b) + r.value;
    }
  }

  /** SaveTags when the pages end at EOF. */
  lemma SaveTagsOk(t: TagValues, codecs: Codecs, order: seq<TagField>, pages: seq<Page>)
    requires forall f :: f in t.fields
    requires pages != [] && PagesFrom(t.stream, 0) == Prepend(pages, Ok([]))
    ensures SaveTagsOf(t, codecs, order) == Ok(EmitAll(AllPages(RemuxCalls(pages, TagComment(t, codecs, order)))))
  {
    assert pages + [] == pages;
  }

  /** SaveTags when the first Decode fails. */
  lemma SaveTagsFirstErr(t: TagValues, codecs: Codecs, order: seq<TagField>, e: Error)
    requires forall f :: f in t.fields
    requires PagesFrom(t.stream, 0) == if e == EOF then Ok([]) else Err(e)
    ensures SaveTagsOf(t, codecs, order) == Err(e)
  {
  }

  /** SaveTags when a Decode fails with an error other than EOF after the
      given pages, or with any error before the first. */
  lemma SaveTagsErr(t: TagValues, codecs: Codecs, order: seq<TagField>, pages: seq<Page>, e: Error)
    requires forall f :: f in t.fields
    requires PagesFrom(t.stream, 0) == Prepend(pages, if e == EOF then Ok([]) else Err(e))
    requires pages == [] || e != EOF
    ensures SaveTagsOf(t, codecs, order) == Err(e)
  {
  }

  /** SaveTags followed by ReadTags gives back the values just set.  The
      stream is one whose first page holds no comment header and whose
      second page starts with one, the tag has no cover art, and the packets
      of the first two calls fit one page each.  Then ReadTags on the bytes
      SaveTags writes passes over the BOS page and finds on the next page a
      tag with exactly the tag's fields, the library's vendor string, the
      codec the tag's prefix names and the new stream. */
  lemma SaveTagsReadBack(t: TagValues, codecs: Codecs, order: seq<TagField>, pages: seq<Page>,
                         decode: Bytes -> Option<Image>)
    requires t.coverArt == None && Writable(t.fields) && IsOrder(order)
    requires PagesFrom(t.stream, 0) == Ok(pages) && |pages| >= 2
    requires forall i | 0 <= i < |pages[0].packets| ::
               !HasPrefix(pages[0].packets[i], VorbisPrefix) && !HasPrefix(pages[0].packets[i], OpusPrefix)
    requires IsCommentPage(pages[1])
    requires |LacingOf(pages[0].packets)| <= MaxSegSize
    requires |LacingOf([TagComment(t, codecs, order)] + pages[1].packets[1..])| <= MaxSegSize
    ensures SaveTagsOf(t, codecs, order).Ok?
    ensures var out := SaveTagsOf(t, codecs, order).value;
      ReadTagsAt(out, 0, decode)
      == Ok(Some(Blank().(vendor := VendorString, fields := t.fields,
                          codec := if t.codec == Vorbis then Vorbis else Opus, stream := out)))
  {
    var comment := TagComment(t, codecs, order);
    var calls := RemuxCalls(pages, comment);
    var ps := AllPages(calls);
    var out := EmitAll(ps);
    assert SaveTagsOf(t, codecs, order) == Ok(out);
    var at := FirstPageSkipped(pages, comment, decode);
    SecondPageTag(t, codecs, order, pages, decode);
    ReadTagsSkip(out, 0, decode);
    ReadTagsFound(out, at, decode, Blank().(vendor := VendorString, fields := t.fields,
                                            codec := if t.codec == Vorbis then Vorbis else Opus));
  }

  /** ReadTags passes over the BOS page of the rewrite when the first page
      held no comment header; the next page starts where that page ends. */
  lemma FirstPageSkipped(pages: seq<Page>, comment: Bytes, decode: Bytes -> Option<Image>) returns (at: nat)
    requires |pages| >= 2 && |pages[0].packets| > 0
    requires forall i | 0 <= i < |pages[0].packets| ::
               !HasPrefix(pages[0].packets[i], VorbisPrefix) && !HasPrefix(pages[0].packets[i], OpusPrefix)
    requires |LacingOf(pages[0].packets)| <= MaxSegSize
    ensures var ps := AllPages(RemuxCalls(pages, comment));
      var out := EmitAll(ps);
      0 < |ps| && at == PageStart(ps, 1) && DecodeAt(out, 0).result.Ok?
      && DecodeAt(out, 0).next == at
      && PacketsTag(DecodeAt(out, 0).result.value.page.packets, decode) == None
  {
    var calls := RemuxCalls(pages, comment);
    var ps := AllPages(calls);
    RemuxMapping(pages, comment, 0);
    assert calls[..0] == [];
    CallKept(calls, 0);
    RemuxPageDecodes(calls, 0);
    PacketsWithoutTag(pages[0].packets, decode);
    at := PageStart(ps, 1);
  }

  /** The second page of the rewrite, written by Encode with the new comment
      packet in front, decodes where it starts to packets whose tag is the
      tag's fields under the library's vendor string. */
  lemma SecondPageTag(t: TagValues, codecs: Codecs, order: seq<TagField>, pages: seq<Page>,
                      decode: Bytes -> Option<Image>)
    requires t.coverArt == None && Writable(t.fields) && IsOrder(order)
    requires |pages| >= 2 && |pages[0].packets| > 0 && IsCommentPage(pages[1])
    requires |LacingOf(pages[0].packets)| <= MaxSegSize
    requires |LacingOf([TagComment(t, codecs, order)] + pages[1].packets[1..])| <= MaxSegSize
    ensures var ps := AllPages(RemuxCalls(pages, TagComment(t, codecs, order)));
      1 < |ps| && DecodeAt(EmitAll(ps), PageStart(ps, 1)).result.Ok?
      && PacketsTag(DecodeAt(EmitAll(ps), PageStart(ps, 1)).result.value.page.packets, decode)
         == Some(Ok(Blank().(vendor := VendorString, fields := t.fields,
                             codec := if t.codec == Vorbis then Vorbis else Opus)))
  {
    var comment := TagComment(t, codecs, order);
    var h := SecondPageDecodes(pages, comment);
    CommentPacketTag(t.fields, order, t.codec, pages[1].packets[1..], decode);
  }

  /** The second page of the rewrite decodes where it starts to the page's
      packets with the first one replaced by the comment packet. */
  lemma SecondPageDecodes(pages: seq<Page>, comment: Bytes) returns (h: PageHeader)
    requires |pages| >= 2 && |pages[0].packets| > 0 && IsCommentPage(pages[1])
    requires |LacingOf(pages[0].packets)| <= MaxSegSize
    requires |LacingOf([comment] + pages[1].packets[1..])| <= MaxSegSize
    ensures var ps := AllPages(RemuxCalls(pages, comment));
      1 < |ps| && DecodesAt(ps, 1, Page(h, [comment] + pages[1].packets[1..]))
  {
    var calls := RemuxCalls(pages, comment);
    FirstCallOnePage(pages, comment);
    SecondCall(pages, comment);
    CallKept(calls, 1);
    h := FitHeader(calls[1], 1);
  }

  /** The BOS call of the rewrite writes one page when its packets fit. */
  lemma FirstCallOnePage(pages: seq<Page>, comment: Bytes)
    requires |pages| >= 2 && |pages[0].packets| > 0
    requires |LacingOf(pages[0].packets)| <= MaxSegSize
    ensures |AllPages(RemuxCalls(pages, comment)[..1])| == 1
  {
    var calls := RemuxCalls(pages, comment);
    RemuxMapping(pages, comment, 0);
    CallFits(calls[0], 0);
    assert calls[..1] == [] + [calls[0]];
    ChainSnoc(CallPages, [], calls[0]);
  }

  /** The call for a comment page after the first carries the comment
      packet in front of the page's other packets. */
  lemma SecondCall(pages: seq<Page>, comment: Bytes)
    requires |pages| >= 2 && IsCommentPage(pages[1])
    ensures RemuxCalls(pages, comment)[1].packets == [comment] + pages[1].packets[1..]
  {
    RemuxMapping(pages, comment, 1);
  }

  /** Decode, seen as one step of PagesFrom: a page and the pages after
      it, or the error that ends the pages. */
  method NextPage(decoder: Decoder) returns (r: Result<Decoded>)
    requires decoder.reader.Valid()
    modifies decoder.reader`pos
    ensures decoder.reader.Valid()
    ensures r.Ok? ==> old(decoder.reader.pos) < decoder.reader.pos && |r.value.page.packets| > 0
    ensures r.Ok? ==> PagesFrom(decoder.reader.data, old(decoder.reader.pos))
                      == Prepend([r.value.page], PagesFrom(decoder.reader.data, decoder.reader.pos))
    ensures r.Err? ==> PagesFrom(decoder.reader.data, old(decoder.reader.pos))
                       == if r.error == EOF then Ok([]) else Err(r.error)
  {
    ghost var at := decoder.reader.pos;
    var crcMatches;
    r, crcMatches := decoder.Decode();
    PagesStep(decoder.reader.data, at);
    if r.Ok? {
      DecodeOk(decoder.reader.data, at);
    }
  }

  /** The encoder entry point a call names, on an encoder of serial 0. */
  method WriteCall(encoder: Encoder, c: Call)
    requires encoder.serial == 0
    modifies encoder
    ensures encoder.serial == 0
    ensures encoder.output == old(encoder.output) + EmitAll(CallPages(c, old(encoder.pageNumber)))
    ensures encoder.pageNumber == Advance(old(encoder.pageNumber), |CallPages(c, old(encoder.pageNumber))|)
  {
    match c.entry
    case EncodeBOS => encoder.EncodeBOS(c.granule, c.packets);
    case Encode => encoder.Encode(c.granule, c.packets);
    case EncodeEOS => encoder.EncodeEOS(c.granule, c.packets);
  }

  /** The body of the loop of SaveTags for a page after the first: the
      call PageCall names, the comment packet built from the tag in place
      of the first packet on a comment page. */
  method RemuxPage(encoder: Encoder, tag: OggTag, codecs: Codecs, order: seq<TagField>, p: Page)
    requires tag.Valid() && |p.packets| > 0 && encoder.serial == 0
    modifies encoder
    ensures encoder.serial == 0
    ensures var c := CallPages(PageCall(p, TagComment(tag.Values(), codecs, order)), old(encoder.pageNumber));
      encoder.output == old(encoder.output) + EmitAll(c)
      && encoder.pageNumber == Advance(old(encoder.pageNumber), |c|)
  {
    var call: Call;
    var granule := p.header.granulePosition;
    if HasPrefix(p.packets[0], VorbisPrefix) || HasPrefix(p.packets[0], OpusPrefix) {
      var commentFields := CommentFieldsOf(tag, order);
      var img := PictureOf(tag, codecs);
      var packet := CreateCommentPacket(commentFields, img, tag.codec);
      call := Call(Encode, granule, p.packets[0 := packet]);
    } else if p.header.flags == FlagEOS {
      call := Call(EncodeEOS, granule, p.packets);
    } else {
      call := Call(Encode, granule, p.packets);
    }
    assert call == PageCall(p, TagComment(tag.Values(), codecs, order));
    WriteCall(encoder, call);
  }

  /** The output after one more page: the pages of its call follow, and
      the page number moves on by their count. */
  lemma RemuxStep(pages: seq<Page>, p: Page, comment: Bytes)
    requires |pages| > 0
    ensures var before := AllPages(RemuxCalls(pages, comment));
      var cp := CallPages(PageCall(p, comment), |before| % Two32);
      var after := AllPages(RemuxCalls(pages + [p], comment));
      EmitAll(after) == EmitAll(before) + EmitAll(cp)
      && |after| % Two32 == Advance(|before| % Two32, |cp|)
  {
    RemuxCallsSnoc(pages, p, comment);
    ChainStep(CallPages, RemuxCalls(pages, comment), PageCall(p, comment));
  }

  /** The bytes of a chain one call longer: the bytes of the last call's
      pages follow, and the page count moves on by their number. */
  lemma ChainStep(mux: (Call, uint32) -> seq<OutPage>, calls: seq<Call>, c: Call)
    ensures var before := Chain(mux, calls);
      var cp := mux(c, |before| % Two32);
      var after := Chain(mux, calls + [c]);
      EmitAll(after) == EmitAll(before) + EmitAll(cp)
      && |after| % Two32 == Advance(|before| % Two32, |cp|)
  {
    var before := Chain(mux, calls);
    var cp := mux(c, |before| % Two32);
    ChainSnoc(mux, calls, c);
    EmitAllAppend(before, cp);
    AdvanceMod(|before|, |cp|);
  }

  /** The output after the first page: the pages EncodeBOS writes for it. */
  lemma RemuxFirst(first: Page, comment: Bytes)
    ensures var ps := AllPages(RemuxCalls([first], comment));
      ps == CallPages(Call(EncodeBOS, first.header.granulePosition, first.packets), 0)
      && |ps| % Two32 == Advance(0, |ps|)
  {
    var calls := RemuxCalls([first], comment);
    assert calls == [] + [Call(EncodeBOS, first.header.granulePosition, first.packets)];
    ChainSnoc(CallPages, [], calls[0]);
  }

  /** One step of PagesFrom. */
  lemma PagesStep(data: Bytes, pos: nat)
    requires pos <= |data|
    ensures var d := DecodeAt(data, pos);
      PagesFrom(data, pos)
      == match d.result
         case Err(e) => if e == EOF then Ok([]) else Err(e)
         case Ok(x) => Prepend([x.page], PagesFrom(data, d.next))
  {
  }
}
