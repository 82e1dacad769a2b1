/** Shared constants, byte-level types and records of the Ogg page layer
    (types.go), together with the error values the library returns
    (errors.go and the io errors its readers surface). */
module OggTypes {

  type uint8 = x: int | 0 <= x < 0x100
  type uint32 = x: int | 0 <= x < 0x1_0000_0000
  type int64 = x: int | -0x8000_0000_0000_0000 <= x < 0x8000_0000_0000_0000

  /** A Go byte slice, and also a Go string: both are sequences of bytes. */
  type Bytes = seq<uint8>

  const Two32: int := 0x1_0000_0000
  const Two64: int := 0x1_0000_0000_0000_0000

  /** A conversion to uint32 keeps a value that fits. */
  lemma Fits32(x: int)
    requires 0 <= x < Two32
    ensures x % Two32 == x
  {
  }

  /** The bytes of an ASCII (or Latin-1) literal. */
  function Ascii(s: string): (r: Bytes)
    requires forall i | 0 <= i < |s| :: s[i] as int < 0x100
    ensures |r| == |s|
    ensures forall i | 0 <= i < |s| :: r[i] == s[i] as int
  {
    seq(|s|, i requires 0 <= i < |s| => s[i] as int)
  }

  function Concat(ss: seq<Bytes>): (r: Bytes)
  {
    if ss == [] then [] else Concat(ss[..|ss| - 1]) + ss[|ss| - 1]
  }

  function Sum(t: seq<int>): int
  {
    if t == [] then 0 else Sum(t[..|t| - 1]) + t[|t| - 1]
  }

  function Repeat(x: uint8, n: nat): (r: Bytes)
    ensures |r| == n && forall i | 0 <= i < n :: r[i] == x
  {
    if n == 0 then [] else Repeat(x, n - 1) + [x]
  }

  function HasPrefix(s: Bytes, prefix: Bytes): bool
  {
    |prefix| <= |s| && s[..|prefix|] == prefix
  }

  // ---------------------------------------------------------------- codecs

  const Vorbis: Bytes := Ascii("vorbis")
  const Opus: Bytes := Ascii("opus")

  // ---------------------------------------------------------------- sizes

  const HeaderSize: nat := 27
  const MaxSegSize: nat := 255
  const MaxSegSequenceSize: nat := MaxSegSize * 255
  const MaxPageSize: nat := HeaderSize + MaxSegSequenceSize + MaxSegSize

  // ---------------------------------------------------------------- header flags

  const FlagCOP: uint8 := 1  // continuation of packet
  const FlagBOS: uint8 := 2  // beginning of stream
  const FlagEOS: uint8 := 4  // end of stream

  /** Bit k (0 is the least significant) of a flag byte. */
  function Bit(flags: uint8, k: nat): bool
  {
    (flags / Pow2(k)) % 2 == 1
  }

  function Pow2(k: nat): (r: nat)
    ensures r >= 1
  {
    if k == 0 then 1 else 2 * Pow2(k - 1)
  }

  /** Go's `flags | FlagCOP`: sets bit 0 and keeps bits 1 to 7. */
  function WithContinuation(flags: uint8): (r: uint8)
    ensures r % 2 == 1 && r / 2 == flags / 2
  {
    if flags % 2 == 1 then flags else flags + 1
  }

  /** The flag values are the distinct single bits 0, 1 and 2, so setting the
      continuation bit keeps a beginning- or end-of-stream bit. */
  lemma FlagBits(flags: uint8)
    ensures FlagCOP == Pow2(0) && FlagBOS == Pow2(1) && FlagEOS == Pow2(2)
    ensures Bit(WithContinuation(flags), 0)
    ensures Bit(WithContinuation(flags), 1) == Bit(flags, 1)
    ensures Bit(WithContinuation(flags), 2) == Bit(flags, 2)
  {
    var r := WithContinuation(flags);
    assert Pow2(2) == 4 && Pow2(1) == 2;
    assert r / 4 == (r / 2) / 2 && flags / 4 == (flags / 2) / 2;
  }

  // ---------------------------------------------------------------- magic values

  const Oggs: Bytes := Ascii("OggS")
  const VorbisPrefix: Bytes := [3] + Ascii("vorbis")
  const OpusPrefix: Bytes := Ascii("OpusTags")

  /** The packet list substituted for an empty one: exactly one empty packet. */
  const DummyPacket: seq<Bytes> := [[]]

  // ---------------------------------------------------------------- records

  type Magic = s: Bytes | |s| == 4 witness [0, 0, 0, 0]

  datatype PageHeader = PageHeader(
    oggs: Magic,
    version: uint8,
    flags: uint8,
    granulePosition: int64,
    serialNumber: uint32,
    pageSequenceNumber: uint32,
    crc: uint32,
    segments: uint8)

  /** A decoded page: its header and the packets its segment table delimits. */
  datatype Page = Page(header: PageHeader, packets: seq<Bytes>)

  /** The work queue of the segmentation engine: the (rest of the) packet
      that is placed first, the whole packets after it, and a trailing
      partial packet (only ever set on the "good" output). */
  datatype SegmentizePayload = SegmentizePayload(leftPay: Bytes, middlePay: seq<Bytes>, rightPay: Bytes)

  const EmptyPayload: SegmentizePayload := SegmentizePayload([], [], [])

  /** Every payload byte of a work queue, in order. */
  function Flatten(p: SegmentizePayload): Bytes
  {
    p.leftPay + Concat(p.middlePay) + p.rightPay
  }

  // ---------------------------------------------------------------- tag fields

  /** The well-known comment fields of a tag. */
  datatype TagField =
    | Album | AlbumArtist | Artist | BPM | Composer | Copyright | DiscNumber
    | DiscTotal | Encoder | Genre | Title | TrackNumber | TrackTotal

  /** The upper-case comment key of each well-known field. */
  function KeyOf(f: TagField): (key: Bytes)
  {
    match f
    case Album => Ascii("ALBUM")
    case AlbumArtist => Ascii("ALBUMARTIST")
    case Artist => Ascii("ARTIST")
    case BPM => Ascii("BPM")
    case Composer => Ascii("COMPOSER")
    case Copyright => Ascii("COPYRIGHT")
    case DiscNumber => Ascii("DISCNUMBER")
    case DiscTotal => Ascii("DISCTOTAL")
    case Encoder => Ascii("ENCODER")
    case Genre => Ascii("GENRE")
    case Title => Ascii("TITLE")
    case TrackNumber => Ascii("TRACKNUMBER")
    case TrackTotal => Ascii("TRACKTOTAL")
  }

  const AllFields: seq<TagField> :=
    [Album, AlbumArtist, Artist, BPM, Composer, Copyright, DiscNumber,
     DiscTotal, Encoder, Genre, Title, TrackNumber, TrackTotal]

  /** tagFieldMapping: each upper-case comment key to the field it sets. */
  function TagFieldMapping(): (m: map<Bytes, TagField>)
  {
    KeysInjective();
    map f | f in AllFields :: KeyOf(f) := f
  }

  const PictureKey: Bytes := Ascii("METADATA_BLOCK_PICTURE")

  lemma KeysDistinct(f: TagField, g: TagField)
    requires f != g
    ensures KeyOf(f) != KeyOf(g)
  {
    var a, b := KeyOf(f), KeyOf(g);
    if |a| == |b| {
      assert a[0] != b[0];
    }
  }

  lemma KeysInjective()
    ensures forall f, g | KeyOf(f) == KeyOf(g) :: f == g
  {
    forall f, g | f != g ensures KeyOf(f) != KeyOf(g) { KeysDistinct(f, g); }
  }

  /** AllFields lists each of the 13 fields exactly once. */
  lemma AllFieldsComplete()
    ensures forall f :: f in AllFields
    ensures |AllFields| == 13 && forall i, j | 0 <= i < j < 13 :: AllFields[i] != AllFields[j]
  {
    forall f ensures f in AllFields {
      match f
      case Album => assert AllFields[0] == f;
      case AlbumArtist => assert AllFields[1] == f;
      case Artist => assert AllFields[2] == f;
      case BPM => assert AllFields[3] == f;
      case Composer => assert AllFields[4] == f;
      case Copyright => assert AllFields[5] == f;
      case DiscNumber => assert AllFields[6] == f;
      case DiscTotal => assert AllFields[7] == f;
      case Encoder => assert AllFields[8] == f;
      case Genre => assert AllFields[9] == f;
      case Title => assert AllFields[10] == f;
      case TrackNumber => assert AllFields[11] == f;
      case TrackTotal => assert AllFields[12] == f;
    }
  }

  /** tagFieldMapping maps each field's key to that field. */
  lemma MappingHasEveryField(f: TagField)
    ensures KeyOf(f) in TagFieldMapping() && TagFieldMapping()[KeyOf(f)] == f
  {
    AllFieldsComplete();
    KeysInjective();
  }

  /** tagFieldMapping holds no key but those of the 13 fields. */
  lemma MappingHasOnlyFieldKeys(k: Bytes)
    requires k in TagFieldMapping()
    ensures KeyOf(TagFieldMapping()[k]) == k
  {
    KeysInjective();
    var f :| f in AllFields && KeyOf(f) == k;
  }

  /** METADATA_BLOCK_PICTURE is not one of the mapped keys. */
  lemma PictureKeyUnmapped()
    ensures PictureKey !in TagFieldMapping()
  {
    if PictureKey in TagFieldMapping() {
      MappingHasOnlyFieldKeys(PictureKey);
    }
  }

  // ---------------------------------------------------------------- errors

  datatype Error =
    | EOF               // io.EOF: no byte was available
    | UnexpectedEOF     // io.ErrUnexpectedEOF: fewer bytes than requested
    | InvalidOggs       // ErrInvalidOggs: the capture pattern is not "OggS"
    | BadSegs           // ErrBadSegs: a page declares no segment
    | CorruptBase64     // base64.CorruptInputError
    | ImageDecodeFailed // the external image decoder refused the picture data
    | AlbumArtUnreadable // "failed to decode album art image"

  datatype Result<T> = Ok(value: T) | Err(error: Error)

  datatype Option<T> = None | Some(value: T)
}
