/** The comment header the library reads and writes: the Vorbis I comment
    header (section 5 of the Vorbis I specification) behind "\x03vorbis",
    or the Opus tags header (section 5.2 of RFC 7845) behind "OpusTags".
    Both hold a vendor string and a list of "KEY=value" comments, each
    behind its little-endian 32-bit length.  The cover art travels as a
    FLAC PICTURE block (section 8.8 of RFC 9639), base64-encoded, in a
    METADATA_BLOCK_PICTURE comment. */
module OggComments {
  import opened OggTypes
  import opened OggUtil
  import Base64
  import opened OggTagRecord

  const Equals: uint8 := 0x3D  // '='
  const VendorString: Bytes := Ascii("gcottom-oggmeta")
  const MimeType: Bytes := Ascii("image/jpeg")
  const Description: Bytes := Ascii("Cover")
  /** The Vorbis framing bit that closes a Vorbis comment header. */
  const FramingBit: Bytes := [1]

  /** The size image.DecodeConfig reports. */
  datatype Config = Config(width: int, height: int)

  /** The image codecs the library calls, which are not part of this model:
      image.Decode, image.DecodeConfig and jpeg.Encode, with None for an
      error. */
  datatype Codecs = Codecs(
    decode: Bytes -> Option<Image>,
    decodeConfig: Bytes -> Option<Config>,
    encodeJpeg: Image -> Option<Bytes>)

  // ---------------------------------------------------------------- strings.Split

  /** strings.Split on a one-byte separator: the parts between separators,
      one more than there are separators. */
  function Split(s: Bytes, sep: uint8): (parts: seq<Bytes>)
    ensures |parts| >= 1
    decreases |s|
  {
    if s == [] then [[]]
    else
      var rest := Split(s[1..], sep);
      if s[0] == sep then [[]] + rest else [[s[0]] + rest[0]] + rest[1..]
  }

  /** strings.Join, the inverse of Split. */
  function Join(parts: seq<Bytes>, sep: uint8): Bytes
    requires |parts| >= 1
    decreases |parts|
  {
    if |parts| == 1 then parts[0] else parts[0] + [sep] + Join(parts[1..], sep)
  }

  /** Split cuts at every separator and nowhere else: the parts joined back
      give the text, and no part holds a separator. */
  lemma {:induction false} SplitJoin(s: Bytes, sep: uint8)
    ensures Join(Split(s, sep), sep) == s
    ensures forall i | 0 <= i < |Split(s, sep)| :: sep !in Split(s, sep)[i]
    decreases |s|
  {
    if s != [] {
      SplitJoin(s[1..], sep);
      var rest := Split(s[1..], sep);
      var parts := Split(s, sep);
      if s[0] != sep {
        SplitHead(s[0], sep, rest);
      } else {
        assert parts[1..] == rest;
        assert Join(parts, sep) == [] + [sep] + Join(rest, sep);
        assert s == [sep] + s[1..];
        forall i | 0 <= i < |parts| ensures sep !in parts[i] {
          if i > 0 {
            assert parts[i] == rest[i - 1];
          }
        }
      }
    }
  }

  /** The step of SplitJoin for a first byte that is not a separator. */
  lemma SplitHead(x: uint8, sep: uint8, rest: seq<Bytes>)
    requires x != sep && |rest| >= 1
    requires forall i | 0 <= i < |rest| :: sep !in rest[i]
    ensures var parts := [[x] + rest[0]] + rest[1..];
      Join(parts, sep) == [x] + Join(rest, sep)
      && forall i | 0 <= i < |parts| :: sep !in parts[i]
  {
    var parts := [[x] + rest[0]] + rest[1..];
    if |rest| > 1 {
      assert parts[1..] == rest[1..];
      assert Join(rest, sep) == rest[0] + [sep] + Join(rest[1..], sep);
    }
    forall i | 0 <= i < |parts| ensures sep !in parts[i] {
      if i > 0 {
        assert parts[i] == rest[i];
      }
    }
  }

  /** There is one part more than there are separators. */
  lemma {:induction false} SplitCount(s: Bytes, sep: uint8)
    ensures |Split(s, sep)| == multiset(s)[sep] + 1
    decreases |s|
  {
    if s != [] {
      SplitCount(s[1..], sep);
      assert s == [s[0]] + s[1..];
      assert multiset(s) == multiset([s[0]]) + multiset(s[1..]);
    }
  }

  /** Text that holds no separator is a single part. */
  lemma {:induction false} SplitFree(a: Bytes, sep: uint8)
    requires sep !in a
    ensures Split(a, sep) == [a]
    decreases |a|
  {
    if a != [] {
      SplitFree(a[1..], sep);
      assert [a[0]] + a[1..] == a;
    }
  }

  /** A separator-free first part is split off where the first separator
      stands. */
  lemma {:induction false} SplitAfter(a: Bytes, sep: uint8, rest: Bytes)
    requires sep !in a
    ensures Split(a + [sep] + rest, sep) == [a] + Split(rest, sep)
    decreases |a|
  {
    var s := a + [sep] + rest;
    if a == [] {
      assert s[1..] == rest;
    } else {
      assert s[1..] == a[1..] + [sep] + rest;
      SplitAfter(a[1..], sep, rest);
      assert [a[0]] + a[1..] == a;
    }
  }

  /** "KEY=value" with no other '=' splits into the key and the value. */
  lemma SplitPair(key: Bytes, value: Bytes)
    requires Equals !in key && Equals !in value
    ensures Split(key + [Equals] + value, Equals) == [key, value]
  {
    SplitAfter(key, Equals, value);
    SplitFree(value, Equals);
  }

  // ---------------------------------------------------------------- strings.ToUpper

  predicate IsLower(c: uint8)
  {
    0x61 <= c <= 0x7A
  }

  function Upper(c: uint8): uint8
  {
    if IsLower(c) then c - 0x20 else c
  }

  /** strings.ToUpper restricted to ASCII: each lower-case letter becomes its
      upper-case letter, every other byte stays, including the bytes of
      non-ASCII letters that Go's Unicode case mapping would change. */
  function ToUpper(s: Bytes): (r: Bytes)
    ensures |r| == |s|
  {
    seq(|s|, i requires 0 <= i < |s| => Upper(s[i]))
  }

  predicate NoLower(s: Bytes)
  {
    forall i | 0 <= i < |s| :: !IsLower(s[i])
  }

  /** Upper-casing leaves text without lower-case letters as it is, and
      its result has none, so doing it twice changes nothing more. */
  lemma ToUpperFixes(s: Bytes)
    ensures NoLower(s) ==> ToUpper(s) == s
    ensures NoLower(ToUpper(s)) && ToUpper(ToUpper(s)) == ToUpper(s)
  {
  }

  /** Upper-case letters and '_' only. */
  lemma KeyText(s: string)
    requires forall i | 0 <= i < |s| :: 'A' <= s[i] <= 'Z' || s[i] == '_'
    ensures NoLower(Ascii(s)) && Equals !in Ascii(s)
  {
  }

  /** The keys the library writes are upper case and hold no '='. */
  lemma KeyShape(f: TagField)
    ensures NoLower(KeyOf(f)) && Equals !in KeyOf(f)
  {
    match f
    case Album => KeyText("ALBUM");
    case AlbumArtist => KeyText("ALBUMARTIST");
    case Artist => KeyText("ARTIST");
    case BPM => KeyText("BPM");
    case Composer => KeyText("COMPOSER");
    case Copyright => KeyText("COPYRIGHT");
    case DiscNumber => KeyText("DISCNUMBER");
    case DiscTotal => KeyText("DISCTOTAL");
    case Encoder => KeyText("ENCODER");
    case Genre => KeyText("GENRE");
    case Title => KeyText("TITLE");
    case TrackNumber => KeyText("TRACKNUMBER");
    case TrackTotal => KeyText("TRACKTOTAL");
  }

  lemma PictureKeyShape()
    ensures NoLower(PictureKey) && Equals !in PictureKey
  {
    KeyText("METADATA_BLOCK_PICTURE");
  }

  // ---------------------------------------------------------------- readPictureBlock

  /** readPictureBlock: the big-endian picture type, the MIME type and the
      description behind their lengths, then the width, height, colour
      depth and colour count, are read and dropped; the picture data behind
      its 32-bit length is the result.  A short read is the error. */
  function PictureDataAt(b: Bytes): (r: Result<Bytes>)
  {
    var kind := ReadIntAt(b, 0, 4);
    if kind.result.Err? then Err(kind.result.error) else
    var mimeLen := ReadUintAt(b, kind.next, 4);
    if mimeLen.result.Err? then Err(mimeLen.result.error) else
    var mime := ReadAt(b, mimeLen.next, mimeLen.result.value);
    if mime.result.Err? then Err(mime.result.error) else
    var descLen := ReadUintAt(b, mime.next, 4);
    if descLen.result.Err? then Err(descLen.result.error) else
    var desc := ReadAt(b, descLen.next, descLen.result.value);
    if desc.result.Err? then Err(desc.result.error) else
    PictureDataFrom(b, desc.next)
  }

  /** The rest of readPictureBlock from position pos, behind the
      description. */
  function PictureDataFrom(b: Bytes, pos: nat): (r: Result<Bytes>)
    requires pos <= |b|
  {
    var width := ReadIntAt(b, pos, 4);
    if width.result.Err? then Err(width.result.error) else
    var height := ReadIntAt(b, width.next, 4);
    if height.result.Err? then Err(height.result.error) else
    var depth := ReadIntAt(b, height.next, 4);
    if depth.result.Err? then Err(depth.result.error) else
    var colors := ReadIntAt(b, depth.next, 4);
    if colors.result.Err? then Err(colors.result.error) else
    var dataLen := ReadIntAt(b, colors.next, 4);
    if dataLen.result.Err? then Err(dataLen.result.error) else
    ReadUint4(b, colors.next);
    ReadAt(b, dataLen.next, dataLen.result.value).result
  }

  // ---------------------------------------------------------------- readComments

  /** The cover art a METADATA_BLOCK_PICTURE value leaves: a base64 error,
      a short picture block or an image the decoder refuses is an error;
      empty picture data keeps the cover art the tag had. */
  function CoverArtOf(value: Bytes, decode: Bytes -> Option<Image>, current: Option<Image>): Result<Option<Image>>
  {
    match Base64.Decode(value)
    case Err(e) => Err(e)
    case Ok(block) =>
      match PictureDataAt(block)
      case Err(e) => Err(e)
      case Ok(data) =>
        if |data| == 0 then Ok(current)
        else match decode(data)
          case None => Err(ImageDecodeFailed)
          case Some(img) => Ok(Some(img))
  }

  /** A mapped key sets its field; any other key, METADATA_BLOCK_PICTURE
      included, goes to the unmapped comments. */
  function Store(t: TagValues, name: Bytes, value: Bytes): TagValues
  {
    if name in TagFieldMapping() then t.(fields := t.fields[TagFieldMapping()[name] := value])
    else t.(unmapped := t.unmapped[name := value])
  }

  /** One comment of readComments: one that does not split into exactly two
      parts on '=' is skipped; the key is upper-cased; a picture key first
      decodes the cover art; then the value is stored under the key. */
  function ApplyComment(t: TagValues, comment: Bytes, decode: Bytes -> Option<Image>): Result<TagValues>
  {
    var parts := Split(comment, Equals);
    if |parts| != 2 then Ok(t)
    else
      var name, value := ToUpper(parts[0]), parts[1];
      var art := if name == PictureKey then CoverArtOf(value, decode, t.coverArt) else Ok(t.coverArt);
      match art
      case Err(e) => Err(e)
      case Ok(a) => Ok(Store(t.(coverArt := a), name, value))
  }

  /** What the comments loop does with one comment. */
  type Applier = (TagValues, Bytes) -> Result<TagValues>

  /** ApplyComment with the image decoder fixed. */
  function Applying(decode: Bytes -> Option<Image>): (apply: Applier)
    ensures forall t, comment :: apply(t, comment) == ApplyComment(t, comment, decode)
  {
    (t, comment) => ApplyComment(t, comment, decode)
  }

  /** The comments applied one after the other, the first error ending it. */
  function ApplyAll(t: TagValues, cs: seq<Bytes>, apply: Applier): Result<TagValues>
    decreases |cs|
  {
    if cs == [] then Ok(t)
    else match apply(t, cs[0])
      case Err(e) => Err(e)
      case Ok(u) => ApplyAll(u, cs[1..], apply)
  }

  /** One turn of the comments loop: the comment's length, the comment,
      and the comment applied to the tag. */
  function CommentAt(data: Bytes, pos: nat, t: TagValues, apply: Applier): (r: Read<TagValues>)
    requires pos <= |data|
    ensures pos <= r.next <= |data|
  {
    var n := ReadUint32At(data, pos);
    match n.result
    case Err(e) => Read(Err(e), n.next)
    case Ok(len) =>
      var c := ReadAt(data, n.next, len);
      match c.result
      case Err(e) => Read(Err(e), c.next)
      case Ok(comment) => Read(apply(t, comment), c.next)
  }

  /** The comments loop run n more times. */
  function CommentsLoop(data: Bytes, pos: nat, n: nat, t: TagValues, apply: Applier): (r: Read<TagValues>)
    requires pos <= |data|
    ensures pos <= r.next <= |data|
    decreases n
  {
    if n == 0 then Read(Ok(t), pos)
    else
      var c := CommentAt(data, pos, t, apply);
      match c.result
      case Err(e) => Read(Err(e), c.next)
      case Ok(u) => CommentsLoop(data, c.next, n - 1, u, apply)
  }

  /** readComments from position pos of a comment packet: the vendor
      length and vendor, the comment count, then that many comments into a
      new tag. */
  function CommentsAt(data: Bytes, pos: nat, apply: Applier): (r: Read<TagValues>)
    requires pos <= |data|
    ensures pos <= r.next <= |data|
  {
    var vl := ReadUint32At(data, pos);
    if vl.result.Err? then Read(Err(vl.result.error), vl.next) else
    var vendor := ReadAt(data, vl.next, vl.result.value);
    if vendor.result.Err? then Read(Err(vendor.result.error), vendor.next) else
    var count := ReadUint32At(data, vendor.next);
    if count.result.Err? then Read(Err(count.result.error), count.next) else
    CommentsLoop(data, count.next, count.result.value, Blank().(vendor := vendor.result.value), apply)
  }

  // ---------------------------------------------------------------- createMetadataBlockPicture

  /** The picture block createMetadataBlockPicture writes: picture type 3
      (front cover), "image/jpeg", "Cover", the width and height converted
      to uint32, colour depth 24, no palette, then the data behind its
      length, every number big-endian. */
  function PictureBlock(c: Config, art: Bytes): (b: Bytes)
    ensures |b| == 47 + |art|
  {
    PictureHead() + PictureDims(c) + EncodeUint32(|art| % Two32) + art
  }

  /** The part of every block: the picture type, MIME type and description. */
  function PictureHead(): (b: Bytes)
    ensures |b| == 27
  {
    EncodeUint32(3) + EncodeUint32(|MimeType|) + MimeType + EncodeUint32(|Description|) + Description
  }

  /** The width, height, colour depth and colour count. */
  function PictureDims(c: Config): (b: Bytes)
    ensures |b| == 16
  {
    EncodeUint32(c.width % Two32) + EncodeUint32(c.height % Two32) + EncodeUint32(24) + EncodeUint32(0)
  }

  /** createMetadataBlockPicture: an error when the image configuration
      cannot be decoded, else the picture block. */
  function MetadataBlockPicture(decodeConfig: Bytes -> Option<Config>, art: Bytes): Result<Bytes>
  {
    match decodeConfig(art)
    case None => Err(AlbumArtUnreadable)
    case Some(c) => Ok(PictureBlock(c, art))
  }

  method CreateMetadataBlockPicture(decodeConfig: Bytes -> Option<Config>, albumArtData: Bytes) returns (r: Result<Bytes>)
    ensures r == MetadataBlockPicture(decodeConfig, albumArtData)
  {
    var img := decodeConfig(albumArtData);
    if img.None? {
      return Err(AlbumArtUnreadable);
    }
    var res := EncodeUint32(3);
    res := res + EncodeUint32(|MimeType|);
    res := res + MimeType;
    res := res + EncodeUint32(|Description|);
    res := res + Description;
    ghost var head := res;
    res := res + EncodeUint32(img.value.width % Two32);
    res := res + EncodeUint32(img.value.height % Two32);
    res := res + EncodeUint32(24);
    res := res + EncodeUint32(0);
    assert res == head + PictureDims(img.value);
    res := res + EncodeUint32(|albumArtData| % Two32);
    res := res + albumArtData;
    r := Ok(res);
  }

  // ---------------------------------------------------------------- createCommentPacket

  /** binary.LittleEndian.PutUint32 of a length converted to uint32. */
  function Le32(n: nat): (b: Bytes)
    ensures |b| == 4
  {
    LeBytes(n % Two32, 4)
  }

  /** A comment behind its length. */
  function CommentBytes(c: Bytes): (b: Bytes)
    ensures |b| == 4 + |c|
  {
    Le32(|c|) + c
  }

  /** The comments one after the other, each behind its length. */
  function CommentList(cs: seq<Bytes>): Bytes
    decreases |cs|
  {
    if cs == [] then [] else CommentBytes(cs[0]) + CommentList(cs[1..])
  }

  /** The packet type and codec signature: "\x03vorbis" for codec "vorbis",
      "OpusTags" for any other codec. */
  function HeaderPrefix(codec: Bytes): Bytes
  {
    if codec == Vorbis then VorbisPrefix else OpusPrefix
  }

  const PictureField: Bytes := PictureKey + [Equals]

  /** The METADATA_BLOCK_PICTURE comment of a picture block. */
  function PictureComment(block: Bytes): Bytes
  {
    PictureField + Base64.Encode(block)
  }

  /** createCommentPacket: the prefix, the vendor "gcottom-oggmeta", the
      comment count, the comments, the picture comment when the picture
      block has more than one byte, and the framing bit for Vorbis.  The
      count includes the picture as soon as the block is not empty. */
  function CommentPacket(fields: seq<Bytes>, art: Bytes, codec: Bytes): Bytes
  {
    var count := if |art| > 0 then |fields| + 1 else |fields|;
    var packet := HeaderPrefix(codec) + (Le32(|VendorString|) + VendorString + Le32(count) + CommentList(fields));
    var packet := if |art| > 1 then packet + CommentBytes(PictureComment(art)) else packet;
    if codec == Vorbis then packet + FramingBit else packet
  }

  lemma {:induction false} CommentListAppend(cs: seq<Bytes>, c: Bytes)
    ensures CommentList(cs + [c]) == CommentList(cs) + CommentBytes(c)
    decreases |cs|
  {
    if cs == [] {
      assert [c][1..] == [];
    } else {
      assert (cs + [c])[1..] == cs[1..] + [c];
      CommentListAppend(cs[1..], c);
    }
  }

  /** One more turn of the writing loop: the comment list grows by one. */
  lemma CommentListGrows(head: Bytes, cs: seq<Bytes>, i: nat)
    requires i < |cs|
    ensures head + CommentList(cs[..i]) + Le32(|cs[i]|) + cs[i] == head + CommentList(cs[..i + 1])
  {
    CommentListAppend(cs[..i], cs[i]);
    assert cs[..i + 1] == cs[..i] + [cs[i]];
  }

  /** The three appends of the picture comment write it behind its length. */
  lemma PictureCommentAppended(packet: Bytes, art: Bytes)
    ensures packet + Le32(|PictureField| + |Base64.Encode(art)|) + PictureField + Base64.Encode(art)
         == packet + CommentBytes(PictureComment(art))
  {
  }

  method CreateCommentPacket(commentFields: seq<Bytes>, albumArt: Bytes, codec: Bytes) returns (commentPacket: Bytes)
    ensures commentPacket == CommentPacket(commentFields, albumArt, codec)
  {
    ghost var count := if |albumArt| > 0 then |commentFields| + 1 else |commentFields|;
    commentPacket := Le32(|VendorString|) + VendorString;
    if |albumArt| > 0 {
      commentPacket := commentPacket + Le32(|commentFields| + 1);
    } else {
      commentPacket := commentPacket + Le32(|commentFields|);
    }
    ghost var head := commentPacket;
    assert head == Le32(|VendorString|) + VendorString + Le32(count);
    var i := 0;
    while i < |commentFields|
      invariant 0 <= i <= |commentFields|
      invariant commentPacket == head + CommentList(commentFields[..i])
    {
      CommentListGrows(head, commentFields, i);
      commentPacket := commentPacket + Le32(|commentFields[i]|);
      commentPacket := commentPacket + commentFields[i];
      i := i + 1;
    }
    assert commentFields[..i] == commentFields;
    if codec == Vorbis {
      commentPacket := VorbisPrefix + commentPacket;
    } else {
      commentPacket := OpusPrefix + commentPacket;
    }
    ghost var packet := commentPacket;
    if |albumArt| > 1 {
      var albumArtBase64 := Base64.Encode(albumArt);
      PictureCommentAppended(commentPacket, albumArt);
      commentPacket := commentPacket + Le32(|PictureField| + |albumArtBase64|);
      commentPacket := commentPacket + PictureField;
      commentPacket := commentPacket + albumArtBase64;
    }
    if codec == Vorbis {
      commentPacket := commentPacket + FramingBit;
    }
  }

  // ---------------------------------------------------------------- the picture block read back

  /** readPictureBlock(createMetadataBlockPicture(d)) == d: the data of a
      picture block comes back whatever the image size, as long as its
      length fits the 32-bit length field. */
  lemma PictureRoundTrip(c: Config, art: Bytes)
    requires |art| < Two32
    ensures PictureDataAt(PictureBlock(c, art)) == Ok(art)
  {
    var b := PictureBlock(c, art);
    Fits32(|art|);
    LaidOutSplit(b, 0, PictureHead() + PictureDims(c) + EncodeUint32(|art|), art);
    LaidOutSplit(b, 0, PictureHead() + PictureDims(c), EncodeUint32(|art|));
    LaidOutSplit(b, 0, PictureHead(), PictureDims(c));
    PictureHeadLaid(b);
    PictureDataFromLaid(b, 27, |art|, art);
  }

  /** The picture type, MIME type and description createMetadataBlockPicture
      writes are read and passed over. */
  lemma PictureHeadLaid(b: Bytes)
    requires LaidOut(b, 0, PictureHead())
    ensures 27 <= |b| && PictureDataAt(b) == PictureDataFrom(b, 27)
  {
    PictureHeadParts(b);
    ReadIntLaid(b, 0, 3);
    ReadIntLaid(b, 4, 10);
    ReadIntLaid(b, 18, 5);
  }

  /** Where the parts of the head of a picture block stand. */
  lemma PictureHeadParts(b: Bytes)
    requires LaidOut(b, 0, PictureHead())
    ensures |MimeType| == 10 && |Description| == 5
    ensures LaidOut(b, 0, EncodeUint32(3)) && LaidOut(b, 4, EncodeUint32(10))
      && LaidOut(b, 8, MimeType) && LaidOut(b, 18, EncodeUint32(5)) && LaidOut(b, 22, Description)
  {
    FiveLaid(b, EncodeUint32(3), EncodeUint32(|MimeType|), MimeType, EncodeUint32(|Description|), Description);
  }

  /** Five parts laid out together from 0 stand one after the other. */
  lemma FiveLaid(b: Bytes, p1: Bytes, p2: Bytes, p3: Bytes, p4: Bytes, p5: Bytes)
    requires LaidOut(b, 0, p1 + p2 + p3 + p4 + p5)
    ensures LaidOut(b, 0, p1) && LaidOut(b, |p1|, p2) && LaidOut(b, |p1| + |p2|, p3)
      && LaidOut(b, |p1| + |p2| + |p3|, p4) && LaidOut(b, |p1| + |p2| + |p3| + |p4|, p5)
  {
    LaidOutSplit(b, 0, p1 + p2 + p3 + p4, p5);
    LaidOutSplit(b, 0, p1 + p2 + p3, p4);
    LaidOutSplit(b, 0, p1 + p2, p3);
    LaidOutSplit(b, 0, p1, p2);
  }

  /** Behind the description, the four numbers are passed over and the
      data behind its length is the result. */
  lemma PictureDataFromLaid(b: Bytes, pos: nat, n: uint32, art: Bytes)
    requires n == |art| && pos + 16 <= |b|
    requires LaidOut(b, pos + 16, EncodeUint32(n)) && LaidOut(b, pos + 20, art)
    ensures PictureDataFrom(b, pos) == Ok(art)
  {
    ReadIntLaid(b, pos + 16, n);
  }

  // ---------------------------------------------------------------- comments read back

  /** A comment laid out behind its length is read and applied. */
  lemma CommentAtLaid(data: Bytes, pos: nat, t: TagValues, c: Bytes, apply: Applier)
    requires |c| < Two32 && LaidOut(data, pos, CommentBytes(c))
    ensures CommentAt(data, pos, t, apply) == Read(apply(t, c), pos + 4 + |c|)
  {
    LaidOutSplit(data, pos, Le32(|c|), c);
    Fits32(|c|);
    ReadUint32Laid(data, pos, |c|);
  }

  /** The comments cs stand one after the other behind their lengths from
      pos, and end at q. */
  ghost predicate CommentsLaid(data: Bytes, pos: nat, q: nat, cs: seq<Bytes>)
    decreases |cs|
  {
    if cs == [] then pos == q else
    |cs[0]| < Two32 && LaidOut(data, pos, CommentBytes(cs[0]))
    && CommentsLaid(data, pos + 4 + |cs[0]|, q, cs[1..])
  }

  lemma {:induction false} CommentListLaid(data: Bytes, pos: nat, cs: seq<Bytes>)
    requires forall i | 0 <= i < |cs| :: |cs[i]| < Two32
    requires LaidOut(data, pos, CommentList(cs))
    ensures CommentsLaid(data, pos, pos + |CommentList(cs)|, cs)
    decreases |cs|
  {
    if cs != [] {
      LaidOutSplit(data, pos, CommentBytes(cs[0]), CommentList(cs[1..]));
      CommentListLaid(data, pos + 4 + |cs[0]|, cs[1..]);
    }
  }

  /** One comment laid out: one turn of the loop applies it. */
  lemma CommentsLoopStep(data: Bytes, pos: nat, n: nat, t: TagValues, c: Bytes, apply: Applier)
    requires n > 0 && |c| < Two32 && LaidOut(data, pos, CommentBytes(c))
    ensures pos + 4 + |c| <= |data|
    ensures apply(t, c).Err? ==> CommentsLoop(data, pos, n, t, apply).result == Err(apply(t, c).error)
    ensures apply(t, c).Ok? ==>
      CommentsLoop(data, pos, n, t, apply) == CommentsLoop(data, pos + 4 + |c|, n - 1, apply(t, c).value, apply)
  {
    CommentAtLaid(data, pos, t, c, apply);
  }

  /** The comments loop over laid-out comments applies them in order and
      goes on after them. */
  lemma {:induction false} CommentsLoopLaid(data: Bytes, pos: nat, q: nat, cs: seq<Bytes>, n: nat, m: nat, t: TagValues, apply: Applier)
    requires pos <= |data| && q <= |data| && CommentsLaid(data, pos, q, cs) && n == |cs| + m
    ensures var r := ApplyAll(t, cs, apply);
      CommentsLoop(data, pos, n, t, apply).result
      == if r.Err? then Err(r.error) else CommentsLoop(data, q, m, r.value, apply).result
    decreases |cs|, 1
  {
    if cs != [] {
      CommentsLoopCons(data, pos, q, cs, n, m, t, apply);
    } else {
      CommentsLoopNone(data, pos, q, n, m, t, apply);
    }
  }

  /** The first comment is applied by one turn of the loop, the others by
      the turns after it. */
  lemma {:induction false} CommentsLoopCons(data: Bytes, pos: nat, q: nat, cs: seq<Bytes>, n: nat, m: nat, t: TagValues, apply: Applier)
    requires cs != [] && pos <= |data| && q <= |data| && CommentsLaid(data, pos, q, cs) && n == |cs| + m
    ensures var r := ApplyAll(t, cs, apply);
      CommentsLoop(data, pos, n, t, apply).result
      == if r.Err? then Err(r.error) else CommentsLoop(data, q, m, r.value, apply).result
    decreases |cs|, 0
  {
    CommentsLaidHead(data, pos, q, cs);
    CommentsLoopStep(data, pos, n, t, cs[0], apply);
    ApplyAllStep(t, cs, apply);
    if apply(t, cs[0]).Ok? {
      CommentsLoopLaid(data, pos + 4 + |cs[0]|, q, cs[1..], n - 1, m, apply(t, cs[0]).value, apply);
    }
  }

  lemma CommentsLoopNone(data: Bytes, pos: nat, q: nat, n: nat, m: nat, t: TagValues, apply: Applier)
    requires pos <= |data| && CommentsLaid(data, pos, q, []) && n == m
    ensures CommentsLoop(data, pos, n, t, apply).result
      == if ApplyAll(t, [], apply).Err? then Err(ApplyAll(t, [], apply).error)
         else CommentsLoop(data, q, m, ApplyAll(t, [], apply).value, apply).result
  {
    assert pos == q && ApplyAll(t, [], apply) == Ok(t);
  }

  /** The first comment applied, then the others. */
  lemma ApplyAllStep(t: TagValues, cs: seq<Bytes>, apply: Applier)
    requires cs != []
    ensures var r := apply(t, cs[0]);
      ApplyAll(t, cs, apply) == if r.Err? then Err(r.error) else ApplyAll(r.value, cs[1..], apply)
  {
  }

  lemma CommentsLaidHead(data: Bytes, pos: nat, q: nat, cs: seq<Bytes>)
    requires cs != [] && CommentsLaid(data, pos, q, cs)
    ensures |cs[0]| < Two32 && LaidOut(data, pos, CommentBytes(cs[0]))
    ensures CommentsLaid(data, pos + 4 + |cs[0]|, q, cs[1..])
  {
  }

  /** readComments behind a laid-out vendor and count: the loop runs that
      many times from a new tag holding the vendor. */
  lemma CommentsAtHeader(data: Bytes, pos: nat, vendor: Bytes, k: nat, apply: Applier)
    requires |vendor| < Two32 && k < Two32
    requires LaidOut(data, pos, Le32(|vendor|) + vendor + Le32(k))
    ensures pos + 8 + |vendor| <= |data|
    ensures CommentsAt(data, pos, apply)
         == CommentsLoop(data, pos + 8 + |vendor|, k, Blank().(vendor := vendor), apply)
  {
    var p := pos + 4 + |vendor|;
    LaidOutSplit(data, pos, Le32(|vendor|) + vendor, Le32(k));
    VendorLaid(data, pos, vendor);
    Fits32(k);
    ReadUint32Laid(data, p, k);
    var vl := ReadUint32At(data, pos);
    var v := ReadAt(data, vl.next, vl.result.value);
    var count := ReadUint32At(data, v.next);
    assert v.next == p && count.next == p + 4 && count.result == Ok(k);
    assert v.result == Ok(vendor);
  }

  /** A laid-out vendor is read behind its length. */
  lemma VendorLaid(data: Bytes, pos: nat, vendor: Bytes)
    requires |vendor| < Two32 && LaidOut(data, pos, Le32(|vendor|) + vendor)
    ensures ReadUint32At(data, pos) == Read(Ok(|vendor|), pos + 4)
    ensures ReadAt(data, pos + 4, |vendor|) == Read(Ok(vendor), pos + 4 + |vendor|)
  {
    LaidOutSplit(data, pos, Le32(|vendor|), vendor);
    Fits32(|vendor|);
    ReadUint32Laid(data, pos, |vendor|);
  }

  /** readComments over a laid-out vendor, count and comments: the
      comments are applied in order to a new tag holding the vendor, and
      the remaining m turns of the loop read on behind them. */
  lemma CommentsAtLaid(data: Bytes, pos: nat, q: nat, vendor: Bytes, cs: seq<Bytes>, k: nat, m: nat, apply: Applier)
    requires |vendor| < Two32 && k == |cs| + m && k < Two32 && q <= |data|
    requires LaidOut(data, pos, Le32(|vendor|) + vendor + Le32(k))
    requires CommentsLaid(data, pos + 8 + |vendor|, q, cs)
    ensures var r := ApplyAll(Blank().(vendor := vendor), cs, apply);
      CommentsAt(data, pos, apply).result
      == if r.Err? then Err(r.error) else CommentsLoop(data, q, m, r.value, apply).result
  {
    var start, t := pos + 8 + |vendor|, Blank().(vendor := vendor);
    CommentsAtHeader(data, pos, vendor, k, apply);
    CommentsLoopLaid(data, start, q, cs, k, m, t, apply);
    assert CommentsAt(data, pos, apply).result == CommentsLoop(data, start, k, t, apply).result;
  }

  // ---------------------------------------------------------------- single comments

  /** "KEY=value" for a mapped key and a value without '=' sets that field
      and changes nothing else. */
  lemma ApplyField(t: TagValues, f: TagField, value: Bytes, decode: Bytes -> Option<Image>)
    requires Equals !in value
    ensures ApplyComment(t, KeyOf(f) + [Equals] + value, decode) == Ok(t.(fields := t.fields[f := value]))
  {
    KeyShape(f);
    SplitPair(KeyOf(f), value);
    ToUpperFixes(KeyOf(f));
    MappingHasEveryField(f);
    PictureKeyUnmapped();
  }

  /** A comment that does not hold exactly one '=' is skipped. */
  lemma ApplySkips(t: TagValues, comment: Bytes, decode: Bytes -> Option<Image>)
    requires multiset(comment)[Equals] != 1
    ensures ApplyComment(t, comment, decode) == Ok(t)
  {
    SplitCount(comment, Equals);
  }

  /** A picture comment whose base64 text is unpadded is decoded, and also
      stored as an unmapped comment. */
  lemma ApplyPicture(t: TagValues, block: Bytes, decode: Bytes -> Option<Image>)
    requires |block| % 3 == 0
    ensures ApplyComment(t, PictureComment(block), decode)
         == match CoverArtOf(Base64.Encode(block), decode, t.coverArt)
            case Err(e) => Err(e)
            case Ok(a) => Ok(t.(coverArt := a, unmapped := t.unmapped[PictureKey := Base64.Encode(block)]))
  {
    var enc := Base64.Encode(block);
    Base64.EncodePadding(block);
    assert Equals !in enc;
    PictureKeyShape();
    SplitPair(PictureKey, enc);
    ToUpperFixes(PictureKey);
    PictureKeyUnmapped();
    assert PictureComment(block) == PictureKey + [Equals] + enc;
  }

  /** The padding quirk: readComments splits on every '=', so a picture
      comment whose base64 text ends in '=' padding, that is, one for a
      picture block whose length is not a multiple of three, splits into
      more than two parts and is dropped whole. */
  lemma PaddedPictureSkipped(t: TagValues, block: Bytes, decode: Bytes -> Option<Image>)
    requires |block| % 3 != 0
    ensures ApplyComment(t, PictureComment(block), decode) == Ok(t)
  {
    var enc := Base64.Encode(block);
    Base64.EncodePadding(block);
    assert enc[|enc| - 1] == Equals;
    assert PictureField[|PictureKey|] == Equals;
    assert multiset(PictureComment(block)) == multiset(PictureField) + multiset(enc);
    ApplySkips(t, PictureComment(block), decode);
  }

  /** The cover art of a picture comment SaveTags writes: the decoder's
      reading of the JPEG data. */
  lemma CoverArtOfBlock(c: Config, jpg: Bytes, decode: Bytes -> Option<Image>, current: Option<Image>)
    requires 0 < |jpg| < Two32
    ensures CoverArtOf(Base64.Encode(PictureBlock(c, jpg)), decode, current)
         == match decode(jpg)
            case None => Err(ImageDecodeFailed)
            case Some(img) => Ok(Some(img))
  {
    Base64.DecodeEncode(PictureBlock(c, jpg));
    PictureRoundTrip(c, jpg);
  }

  // ---------------------------------------------------------------- the comment packet read back

  /** The comment list SaveTags builds: "KEY=value" for each well-known
      field, in the order the field mapping is visited. */
  function FieldComments(fields: map<TagField, Bytes>, order: seq<TagField>): (cs: seq<Bytes>)
    requires forall f :: f in fields
    ensures |cs| == |order|
  {
    seq(|order|, i requires 0 <= i < |order| => KeyOf(order[i]) + [Equals] + fields[order[i]])
  }

  /** An order in which Go may visit tagFieldMapping: each of the 13
      fields, 13 entries in all. */
  predicate IsOrder(order: seq<TagField>)
  {
    |order| == |AllFields| && forall f :: f in order
  }

  /** The fields of m after the fields in order are set to their values in
      vals, one after the other. */
  function Overwrite(m: map<TagField, Bytes>, vals: map<TagField, Bytes>, order: seq<TagField>): (r: map<TagField, Bytes>)
    requires forall f :: f in vals
    ensures forall f :: f in r <==> f in m || f in order
    ensures forall f | f in r :: r[f] == if f in order then vals[f] else m[f]
    decreases |order|
  {
    if order == [] then m
    else Overwrite(m[order[0] := vals[order[0]]], vals, order[1..])
  }

  /** The keys are at most 22 bytes long. */
  lemma KeyLength(f: TagField)
    ensures |KeyOf(f)| <= 22
  {
  }

  /** Values that hold no '=' and fit a 32-bit length once behind their key. */
  predicate Writable(fields: map<TagField, Bytes>)
  {
    forall f :: f in fields && Equals !in fields[f] && |fields[f]| < Two32 - 23
  }

  /** The comments SaveTags builds set, read back in order, each field to
      its value. */
  lemma {:induction false} ApplyFieldComments(t: TagValues, fields: map<TagField, Bytes>, order: seq<TagField>, decode: Bytes -> Option<Image>)
    requires Writable(fields)
    ensures ApplyAll(t, FieldComments(fields, order), Applying(decode))
         == Ok(t.(fields := Overwrite(t.fields, fields, order)))
    decreases |order|
  {
    if order != [] {
      var f := order[0];
      var cs := FieldComments(fields, order);
      var u := t.(fields := t.fields[f := fields[f]]);
      assert cs[0] == KeyOf(f) + [Equals] + fields[f];
      assert cs[1..] == FieldComments(fields, order[1..]);
      FieldApplied(t, f, fields[f], decode);
      ApplyAllCons(t, cs, Applying(decode));
      ApplyFieldComments(u, fields, order[1..], decode);
    }
  }

  /** ApplyField through the applier of the comments loop. */
  lemma FieldApplied(t: TagValues, f: TagField, value: Bytes, decode: Bytes -> Option<Image>)
    requires Equals !in value
    ensures Applying(decode)(t, KeyOf(f) + [Equals] + value) == Ok(t.(fields := t.fields[f := value]))
  {
    ApplyField(t, f, value, decode);
  }

  /** The first comment applied, then the others. */
  lemma ApplyAllCons(t: TagValues, cs: seq<Bytes>, apply: Applier)
    requires cs != []
    ensures ApplyAll(t, cs, apply)
         == match apply(t, cs[0])
            case Err(e) => Err(e)
            case Ok(u) => ApplyAll(u, cs[1..], apply)
  {
  }

  /** The comments a comment packet holds: the field comments, then the
      picture comment when the picture block has more than one byte. */
  function PacketComments(fs: seq<Bytes>, art: Bytes): seq<Bytes>
  {
    fs + (if |art| > 1 then [PictureComment(art)] else [])
  }

  /** The trailer of a comment packet: the framing bit for Vorbis only. */
  function Trailer(codec: Bytes): Bytes
  {
    if codec == Vorbis then FramingBit else []
  }

  /** The vendor and the comment count of a comment packet. */
  function CountHead(fs: seq<Bytes>, art: Bytes): Bytes
  {
    Le32(|VendorString|) + VendorString + Le32(if |art| > 0 then |fs| + 1 else |fs|)
  }

  /** A comment packet is its prefix, its vendor and count, its comments
      and its trailer, one after the other. */
  lemma CommentPacketParts(fs: seq<Bytes>, art: Bytes, codec: Bytes)
    ensures CommentPacket(fs, art, codec)
         == HeaderPrefix(codec) + (CountHead(fs, art) + CommentList(PacketComments(fs, art))) + Trailer(codec)
  {
    var pre, head, tail := HeaderPrefix(codec), CountHead(fs, art), Trailer(codec);
    var list := CommentList(fs);
    var x := if |art| > 1 then CommentBytes(PictureComment(art)) else [];
    assert CommentPacket(fs, art, codec) == pre + (head + list) + x + tail by {
      var base := pre + (head + list);
      assert base + [] == base;
    }
    if |art| > 1 {
      CommentListAppend(fs, PictureComment(art));
    } else {
      assert PacketComments(fs, art) == fs;
    }
    assert CommentList(PacketComments(fs, art)) == list + x;
    Regroup(pre, head, list, x, tail);
  }

  lemma Regroup(pre: Bytes, head: Bytes, list: Bytes, x: Bytes, tail: Bytes)
    ensures pre + (head + list) + x + tail == pre + (head + (list + x)) + tail
  {
  }

  /** Every field comment fits a 32-bit length. */
  lemma FieldCommentsFit(fields: map<TagField, Bytes>, order: seq<TagField>)
    requires Writable(fields)
    ensures forall i | 0 <= i < |order| :: |FieldComments(fields, order)[i]| < Two32
  {
    forall i | 0 <= i < |order|
      ensures |FieldComments(fields, order)[i]| < Two32
    {
      KeyLength(order[i]);
    }
  }

  /** Where the comments of a comment packet end: behind the prefix, the
      vendor and count and the comment list. */
  function CommentsEnd(fs: seq<Bytes>, art: Bytes, codec: Bytes): nat
  {
    |HeaderPrefix(codec)| + |CountHead(fs, art)| + |CommentList(PacketComments(fs, art))|
  }

  /** Where the parts of a comment packet stand: the prefix, then the
      vendor and count, then the comments from 8 + |vendor| bytes behind the
      prefix up to the trailer. */
  lemma CommentPacketLaid(fields: map<TagField, Bytes>, order: seq<TagField>, art: Bytes, codec: Bytes)
    requires Writable(fields) && |art| < Two32 / 2
    ensures var fs := FieldComments(fields, order);
      var packet := CommentPacket(fs, art, codec);
      var p := |HeaderPrefix(codec)|;
      |packet| == CommentsEnd(fs, art, codec) + |Trailer(codec)|
      && packet[..p] == HeaderPrefix(codec)
      && LaidOut(packet, p, CountHead(fs, art))
      && CommentsLaid(packet, p + 8 + |VendorString|, CommentsEnd(fs, art, codec), PacketComments(fs, art))
  {
    PacketCommentsFit(fields, order, art);
    PacketLaid(FieldComments(fields, order), art, codec);
  }

  /** CommentPacketLaid for any comments that fit 32-bit lengths. */
  lemma PacketLaid(fs: seq<Bytes>, art: Bytes, codec: Bytes)
    requires var cs := PacketComments(fs, art); forall i | 0 <= i < |cs| :: |cs[i]| < Two32
    ensures var packet := CommentPacket(fs, art, codec);
      var p := |HeaderPrefix(codec)|;
      |packet| == CommentsEnd(fs, art, codec) + |Trailer(codec)|
      && packet[..p] == HeaderPrefix(codec)
      && LaidOut(packet, p, CountHead(fs, art))
      && CommentsLaid(packet, p + 8 + |VendorString|, CommentsEnd(fs, art, codec), PacketComments(fs, art))
  {
    CommentPacketParts(fs, art, codec);
    CountHeadLength(fs, art);
    var cs := PacketComments(fs, art);
    var packet, prefix, head, list := CommentPacket(fs, art, codec), HeaderPrefix(codec), CountHead(fs, art), CommentList(cs);
    ThreeParts(packet, prefix, head, list, Trailer(codec));
    ListLaidAt(packet, |prefix| + |head|, list, cs);
  }

  lemma CountHeadLength(fs: seq<Bytes>, art: Bytes)
    ensures |CountHead(fs, art)| == 8 + |VendorString|
  {
  }

  /** Every comment of a comment packet fits a 32-bit length. */
  lemma PacketCommentsFit(fields: map<TagField, Bytes>, order: seq<TagField>, art: Bytes)
    requires Writable(fields) && |art| < Two32 / 2
    ensures var cs := PacketComments(FieldComments(fields, order), art);
      forall i | 0 <= i < |cs| :: |cs[i]| < Two32
  {
    var fs := FieldComments(fields, order);
    var cs := PacketComments(fs, art);
    FieldCommentsFit(fields, order);
    if |art| > 1 {
      Base64.EncodeLength(art);
      assert cs[|fs|] == PictureComment(art);
    }
  }

  lemma ListLaidAt(packet: Bytes, pos: nat, list: Bytes, cs: seq<Bytes>)
    requires list == CommentList(cs) && LaidOut(packet, pos, list)
    requires forall i | 0 <= i < |cs| :: |cs[i]| < Two32
    ensures CommentsLaid(packet, pos, pos + |list|, cs)
  {
    CommentListLaid(packet, pos, cs);
  }

  /** Two parts between a prefix and a tail stand one after the other. */
  lemma ThreeParts(packet: Bytes, prefix: Bytes, a: Bytes, b: Bytes, tail: Bytes)
    requires packet == prefix + (a + b) + tail
    ensures |packet| == |prefix| + |a| + |b| + |tail| && packet[..|prefix|] == prefix
    ensures LaidOut(packet, |prefix|, a) && LaidOut(packet, |prefix| + |a|, b)
  {
    LaidOutMiddle(prefix, a + b, tail);
    LaidOutSplit(packet, |prefix|, a, b);
  }

  /** readComments over a comment packet: the comments it holds applied
      in order to a new tag holding the vendor, then the turns of the loop
      the count asks for beyond them, from the end of the comments. */
  lemma PacketReadsComments(fields: map<TagField, Bytes>, order: seq<TagField>, art: Bytes, codec: Bytes, m: nat, apply: Applier)
    requires Writable(fields) && |art| < Two32 / 2 && |order| < Two32 - 1
    requires m == (if |art| == 1 then 1 else 0)
    ensures var fs := FieldComments(fields, order);
      var packet := CommentPacket(fs, art, codec);
      var r := ApplyAll(Blank().(vendor := VendorString), PacketComments(fs, art), apply);
      |packet| == CommentsEnd(fs, art, codec) + |Trailer(codec)|
      && CommentsAt(packet, |HeaderPrefix(codec)|, apply).result
         == if r.Err? then Err(r.error) else CommentsLoop(packet, CommentsEnd(fs, art, codec), m, r.value, apply).result
  {
    var fs := FieldComments(fields, order);
    var packet, cs := CommentPacket(fs, art, codec), PacketComments(fs, art);
    var p, q, k := |HeaderPrefix(codec)|, CommentsEnd(fs, art, codec), |cs| + m;
    CommentPacketLaid(fields, order, art, codec);
    CountHeadIs(fs, art, m);
    CommentsAtLaid(packet, p, q, VendorString, cs, k, m, apply);
  }

  /** The count a comment packet announces is the number of comments it
      holds, plus one for cover art of a single byte, which is counted but
      not written. */
  lemma CountHeadIs(fs: seq<Bytes>, art: Bytes, m: nat)
    requires m == (if |art| == 1 then 1 else 0) && |fs| < Two32 - 1
    ensures |PacketComments(fs, art)| + m < Two32 && |VendorString| < Two32
    ensures CountHead(fs, art) == Le32(|VendorString|) + VendorString + Le32(|PacketComments(fs, art)| + m)
  {
  }

  /** The tag round trip on the comment packet: without cover art, the
      comment header SaveTags writes reads back to the vendor
      "gcottom-oggmeta" and exactly the values of the 13 fields, in
      whatever order the fields were written. */
  lemma CommentPacketReadBack(fields: map<TagField, Bytes>, order: seq<TagField>, codec: Bytes, decode: Bytes -> Option<Image>)
    requires Writable(fields) && IsOrder(order)
    ensures var packet := CommentPacket(FieldComments(fields, order), [], codec);
      |HeaderPrefix(codec)| <= |packet|
      && CommentsAt(packet, |HeaderPrefix(codec)|, Applying(decode)).result
         == Ok(Blank().(vendor := VendorString, fields := fields))
  {
    var fs := FieldComments(fields, order);
    PacketReadsComments(fields, order, [], codec, 0, Applying(decode));
    assert PacketComments(fs, []) == fs;
    FieldCommentsApplied(fields, order, decode);
  }

  /** The field comments of a full visiting order, applied to a new tag,
      set exactly the 13 fields. */
  lemma FieldCommentsApplied(fields: map<TagField, Bytes>, order: seq<TagField>, decode: Bytes -> Option<Image>)
    requires Writable(fields) && IsOrder(order)
    ensures ApplyAll(Blank().(vendor := VendorString), FieldComments(fields, order), Applying(decode))
         == Ok(Blank().(vendor := VendorString, fields := fields))
  {
    var t := Blank().(vendor := VendorString);
    ApplyFieldComments(t, fields, order, decode);
    OverwriteAll(t.fields, fields, order);
  }

  /** Overwriting every field leaves exactly the new values. */
  lemma OverwriteAll(m: map<TagField, Bytes>, vals: map<TagField, Bytes>, order: seq<TagField>)
    requires (forall f :: f in vals) && forall f :: f in order
    ensures Overwrite(m, vals, order) == vals
  {
  }

  /** The picture count quirk: a picture block of exactly one byte is
      counted in the comment count but not written, so reading the packet
      back runs out of bytes at the missing comment and fails. */
  lemma PictureCountMismatch(fields: map<TagField, Bytes>, order: seq<TagField>, art: Bytes, codec: Bytes, decode: Bytes -> Option<Image>)
    requires Writable(fields) && |art| == 1 && |order| < Two32 - 1
    ensures var packet := CommentPacket(FieldComments(fields, order), art, codec);
      |HeaderPrefix(codec)| <= |packet|
      && CommentsAt(packet, |HeaderPrefix(codec)|, Applying(decode)).result.Err?
  {
    var fs := FieldComments(fields, order);
    var t := Blank().(vendor := VendorString);
    PacketReadsComments(fields, order, art, codec, 1, Applying(decode));
    assert PacketComments(fs, art) == fs;
    ApplyFieldComments(t, fields, order, decode);
  }

  /** The cover art round trip on the comment packet: with JPEG data of
      3k + 1 bytes, whose picture block of 47 more bytes is a multiple of
      three long (so that its base64 text has no '=' padding), the comment
      header reads back to the 13 fields,
      the picture the image decoder makes of the JPEG data, and the picture
      comment kept among the unmapped comments. */
  lemma CommentPacketPictureReadBack(fields: map<TagField, Bytes>, order: seq<TagField>, c: Config, jpg: Bytes, codec: Bytes, decode: Bytes -> Option<Image>)
    requires Writable(fields) && IsOrder(order)
    requires 0 < |jpg| < Two32 / 4 && |jpg| % 3 == 1
    ensures var block := PictureBlock(c, jpg);
      var packet := CommentPacket(FieldComments(fields, order), block, codec);
      |HeaderPrefix(codec)| <= |packet|
      && CommentsAt(packet, |HeaderPrefix(codec)|, Applying(decode)).result
         == match decode(jpg)
            case None => Err(ImageDecodeFailed)
            case Some(img) => Ok(Blank().(vendor := VendorString, fields := fields, coverArt := Some(img),
                                          unmapped := map[PictureKey := Base64.Encode(block)]))
  {
    var block := PictureBlock(c, jpg);
    PacketReadsComments(fields, order, block, codec, 0, Applying(decode));
    PictureCommentsApplied(fields, order, c, jpg, decode);
  }

  /** The comments of a comment packet with a JPEG picture block, applied
      to a new tag. */
  lemma PictureCommentsApplied(fields: map<TagField, Bytes>, order: seq<TagField>, c: Config, jpg: Bytes, decode: Bytes -> Option<Image>)
    requires Writable(fields) && IsOrder(order)
    requires 0 < |jpg| < Two32 / 4 && |jpg| % 3 == 1
    ensures var block := PictureBlock(c, jpg);
      ApplyAll(Blank().(vendor := VendorString), PacketComments(FieldComments(fields, order), block), Applying(decode))
      == match decode(jpg)
         case None => Err(ImageDecodeFailed)
         case Some(img) => Ok(Blank().(vendor := VendorString, fields := fields, coverArt := Some(img),
                                       unmapped := map[PictureKey := Base64.Encode(block)]))
  {
    var block := PictureBlock(c, jpg);
    var fs := FieldComments(fields, order);
    var t := Blank().(vendor := VendorString);
    assert PacketComments(fs, block) == fs + [PictureComment(block)];
    ApplyAllSnoc(t, fs, PictureComment(block), Applying(decode));
    FieldCommentsApplied(fields, order, decode);
    PictureApplied(t.(fields := fields), c, jpg, decode);
  }

  /** The picture comment of a JPEG picture block, applied to a tag. */
  lemma PictureApplied(u: TagValues, c: Config, jpg: Bytes, decode: Bytes -> Option<Image>)
    requires 0 < |jpg| < Two32 / 4 && |jpg| % 3 == 1
    ensures var block := PictureBlock(c, jpg);
      Applying(decode)(u, PictureComment(block))
      == match decode(jpg)
         case None => Err(ImageDecodeFailed)
         case Some(img) => Ok(u.(coverArt := Some(img), unmapped := u.unmapped[PictureKey := Base64.Encode(block)]))
  {
    var block := PictureBlock(c, jpg);
    BlockThirds(|jpg|);
    ApplyingPicture(u, block, decode);
    CoverArtOfBlock(c, jpg, decode, u.coverArt);
  }

  /** A picture block of 3k + 1 bytes of data is a multiple of three long. */
  lemma BlockThirds(n: nat)
    requires n % 3 == 1
    ensures (47 + n) % 3 == 0
  {
    assert 47 + n == 3 * (n / 3 + 16);
  }

  /** ApplyPicture, through the applier of the comments loop. */
  lemma ApplyingPicture(u: TagValues, block: Bytes, decode: Bytes -> Option<Image>)
    requires |block| % 3 == 0
    ensures Applying(decode)(u, PictureComment(block))
         == match CoverArtOf(Base64.Encode(block), decode, u.coverArt)
            case Err(e) => Err(e)
            case Ok(a) => Ok(u.(coverArt := a, unmapped := u.unmapped[PictureKey := Base64.Encode(block)]))
  {
    ApplyPicture(u, block, decode);
  }

  /** The comments applied one after the other, the last one after all
      the others. */
  lemma {:induction false} ApplyAllSnoc(t: TagValues, cs: seq<Bytes>, c: Bytes, apply: Applier)
    ensures ApplyAll(t, cs + [c], apply)
         == match ApplyAll(t, cs, apply)
            case Err(e) => Err(e)
            case Ok(u) => apply(u, c)
    decreases |cs|
  {
    if cs == [] {
      assert [c][1..] == [];
    } else {
      assert (cs + [c])[1..] == cs[1..] + [c];
      match apply(t, cs[0])
      case Err(e) =>
      case Ok(u) => ApplyAllSnoc(u, cs[1..], c, apply);
    }
  }
}
