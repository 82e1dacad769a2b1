# Ogg page codec and Vorbis/Opus tag rewriter, modelled in Dafny

This project models the core of a Go library that reads and writes Ogg
streams and the Vorbis or Opus comment header inside them. It covers:

- the page checksum: a table-driven CRC-32 with polynomial 0x04C11DB7, initial
  value 0 and no final XOR, as in section 6 of RFC 3533;
- the 27-byte page header and the integer readers over a byte cursor;
- segmentation (the lacing of section 5 of RFC 3533) and the muxer that cuts a
  packet list into pages, stamps the page sequence number and writes the CRC;
- the demuxer that parses one page back into its packets;
- the comment packet:
  - the writer builds it: the vendor string, the `KEY=value` comments and an
    optional base64 FLAC picture block;
  - the reader walks it: it splits each comment on `=`, upper-cases the key
    (ASCII letters only, see "Left out") and stores the value in a field or
    in the unmapped comments;
- the page mapping of `SaveTags`: re-encode every page, replace the comment
  packet, and choose BOS, plain or EOS for each page;
- the `OggTag` record with its getters, setters and `ClearAllTags`.

Each source file becomes a module:

| module | file | contents |
|---|---|---|
| `OggTypes` | `types.dfy` | constants, flags, page header, field mapping |
| `OggUtil` | `util.dfy` | byte helpers, header serialiser, `ByteReader` cursor class |
| `OggCrc` | `crc32.dfy` | the table, filled in place; the checksum loop |
| `OggSegment` | `segment.dfy` | `Segmentize`, filling an `array` segment table |
| `OggEncoder` | `encoder.dfy` | the `Encoder` class: output bytes and page counter |
| `OggDecoder` | `decoder.dfy` | the `Decoder` class over a `ByteReader` |
| `OggComments` | `comment.dfy` | comment packet writer and reader |
| `OggTagRecord` | `tag.dfy` | the `OggTag` class |
| `OggRemux` | `remux.dfy` | the `SaveTags` loop |
| `Base64` | `base64.dfy` | standard base64 encoding and decoding (RFC 4648, section 4) |
| `Decimal` | `decimal.dfy` | `%d` formatting and `strconv.Atoi` |

Each imperative operation is a method. Its postcondition ties the result, or
the new state, to a specification function. The properties are lemmas about
those functions.

The model follows the code where it departs from the format descriptions.
The proved consequences are these:

- **Full table, trailing data lost.** `WritePackets` writes further pages only
  while part of the packet that overflowed the table is left over. When a
  packet ends exactly at entry 255 of the table, nothing is left over: the
  page gets no terminating entry, and any later packets are not written.
  That happens in three ways:
  - the first packet is a positive multiple of 65025 bytes (`MuxExactFill`
    shows 65025);
  - a later packet's length is a multiple of 255 and its runs of 255 end at
    entry 255 (a later packet of another length leaves its remainder over,
    and the pages go on);
  - an empty packet arrives when the table is exactly full.

  `MuxConserves` states the general case: the payload written plus the
  middle packets left behind is the input.
- **No rejoining of packets.** `Decode` works one page at a time. A page whose
  table ends in 255 yields its trailing fragment as a packet of its own
  (`NoRejoin`).
- **EOS is tested by equality.** `SaveTags` re-encodes a page as EOS only when
  its flags byte is exactly 4. An EOS page that also carries the continuation
  bit becomes a plain page (`EosByEquality`).
- **Every mapped field is written.** The reflective lookup in `SaveTags`
  (encoder.go:185-189) always finds the field, so every mapped field is
  written, empty values included. The order is Go's map order, which is
  unspecified; here it is a parameter `order`.
- **The picture count and the picture disagree.** `createCommentPacket` counts
  the picture when `len(albumArt) > 0` but writes it only when
  `len(albumArt) > 1`. With one byte of art the count claims a comment that is
  not there, and reading the packet back fails (`PictureCountMismatch`). The
  real picture block is at least 47 bytes long, so `SaveTags` never reaches
  this case.
- **Padded base64 is skipped.** The reader splits each comment on every `=`.
  A picture whose base64 text ends in `=` padding therefore splits into more
  than two parts, and the comment is skipped (`PaddedPictureSkipped`). A
  picture block whose length is a multiple of 3 is read back
  (`CommentPacketPictureReadBack`).
- **A CRC mismatch is only reported.** A mismatch is not an error. `Decode`
  returns whether the checksum matched, where the code prints a line.
- **Continuation flag.** Continuation pages of one `WritePackets` call keep
  the caller's flag bits and add bit 0 (`flag | FlagCOP`). The flag is not
  replaced.

## Model

| member | source | states |
|---|---|---|
| OggTypes.FlagBits | types.go:17-21 | COP, BOS and EOS are the single bits 0, 1 and 2, and `flags \| FlagCOP` sets bit 0 while keeping the BOS and EOS bits |
| OggTypes.WithContinuation | encoder.go:34 | the continuation flag sets the low bit and keeps every higher bit of the caller's flag |
| OggTypes.KeysDistinct | types.go:31 | two different tag fields never share a comment key |
| OggTypes.KeysInjective | types.go:31 | the field-to-key mapping is one-to-one |
| OggTypes.AllFieldsComplete | ogg.go:10-30 | the 13 mapped text fields of OggTag, each listed exactly once |
| OggTypes.MappingHasEveryField | types.go:31 | every field's upper-case key is in tagFieldMapping and maps back to that field |
| OggTypes.MappingHasOnlyFieldKeys | types.go:31 | tagFieldMapping holds no key besides the 13 field keys |
| OggTypes.PictureKeyUnmapped | types.go:31 | METADATA_BLOCK_PICTURE is not a mapped key, so the reader also files it among the unmapped comments |
| OggUtil.LeRoundTrip | util.go:9-15 | reading back the little-endian bytes of any n below 256^w gives n |
| OggUtil.LeBytesOfValue | util.go:9-15 | every byte string is the little-endian encoding of its value |
| OggUtil.BeRoundTrip | util.go:58-64 | reading back the big-endian bytes of any n below 256^w gives n |
| OggUtil.Signed64 | util.go:34-41 | a 64-bit pattern read as Go int: itself when non-negative, otherwise that value minus 2^64 |
| OggUtil.Unsigned64 | util.go:50-56 | the uint conversion of an int is below 2^64 and converts back to the same int |
| OggUtil.Wrap64 | util.go:34-41 | 64-bit wrap-around: the result is congruent to the input modulo 2^64 |
| OggUtil.GetInt | util.go:34-41 | the shift-and-or loop computes the big-endian fold with 64-bit wrap-around |
| OggUtil.GetIntSmall | util.go:34-41 | for at most 7 bytes, getInt is exactly the big-endian value |
| OggUtil.GetIntWraps | util.go:34-41 | for any length, getInt agrees with the big-endian value modulo 2^64 |
| OggUtil.EncodeUint32 | util.go:58-64 | 4 bytes, most significant first, which getInt reads back as n |
| OggUtil.HeaderBytes | util.go:66-78 | the serialised header is exactly 27 bytes |
| OggUtil.HeaderBytesFields | util.go:66-78 | field layout: magic 0-3, version 4, flags 5, granule LE 6-13, serial LE 14-17, sequence LE 18-21, CRC LE 22-25, segments 26 |
| OggUtil.HeaderRoundTrip | decoder.go:17-19 | parsing the serialised header gives the header back |
| OggUtil.HeaderBytesOfParse | decoder.go:17-19 | serialising a parsed 27-byte block gives the same bytes |
| OggUtil.CrcFieldOnly | util.go:75 | changing only the CRC field changes only bytes 22-25 of the header |
| OggUtil.ToBytesSlice | util.go:66-78 | the buffer-writing serialiser produces HeaderBytes(h) |
| OggUtil.ReadAt | util.go:17-24 | io.ReadFull: exactly n bytes and the cursor advanced by n; otherwise EOF at the end and unexpected EOF on a short read, with no partial result |
| OggUtil.ReadUint32At | util.go:9-15 | consumes 4 bytes and returns their little-endian value; fails when fewer remain |
| OggUtil.ReadIntAt | util.go:42-48 | succeeds exactly when n bytes remain and consumes them |
| OggUtil.ReadUintAt | util.go:50-56 | the result of readUint is below 2^64 |
| OggUtil.ReadUint4 | util.go:42-56 | a 4-byte readInt is the big-endian value in [0, 2^32), and readUint returns the same value |
| OggUtil.ReadIntLaid | util.go:42-56 | readInt and readUint on bytes written by encodeUint32(n) return n and consume 4 bytes |
| OggUtil.ByteReader.ReadBytes | util.go:17-24 | the cursor method returns and consumes what ReadAt describes |
| OggUtil.ByteReader.ReadString | util.go:26-32 | the same contract as readBytes |
| OggUtil.ByteReader.ReadUint32 | util.go:9-15 | the cursor method returns and consumes what ReadUint32At describes |
| OggUtil.ByteReader.ReadInt | util.go:42-48 | the cursor method returns and consumes what ReadIntAt describes |
| OggUtil.ByteReader.ReadUint | util.go:50-56 | the cursor method returns and consumes what ReadUintAt describes |
| OggCrc.TableStart | crc32.go:5-17 | table entry 0 is 0 and table entry 1 is the polynomial 0x04C11DB7 |
| OggCrc.Init | crc32.go:5-17 | the nested loops fill entry i with eight shift-and-xor rounds starting from i<<24 |
| OggCrc.CrcEmpty | crc32.go:19-28 | the checksum of no bytes is 0 (initial value 0, no final XOR) |
| OggCrc.CrcStreaming | crc32.go:24-26 | the CRC of a ++ b continues from the CRC of a over b |
| OggCrc.CrcAppend | crc32.go:24-26 | one more byte is one table step |
| OggCrc.CalculateChecksum | crc32.go:19-28 | the loop computes the CRC of header ++ segment table ++ payload; the second argument goes last |
| OggSegment.Lacing | encoder.go:49-58 | a packet of n bytes takes n/255 + 1 table entries |
| OggSegment.LacingShape | encoder.go:49-58 | n/255 entries of 255, then n mod 255; the entries sum to n; 0 gives [0], 255 gives [255, 0], 510 gives [255, 255, 0] |
| OggSegment.Overflow | encoder.go:66-84 | the packet that first makes the table exceed 255 entries |
| OggSegment.SegmentationBounds | encoder.go:45-89 | the table has 1 to 255 entries; a leftover comes only with a full table; all packets fit exactly when the table is their whole lacing, and then nothing is left over |
| OggSegment.SegmentationConserves | encoder.go:45-89 | placed bytes ++ leftover bytes == input bytes, and the table sums to the placed bytes |
| OggSegment.SegmentationProgress | encoder.go:60-62 | when the table overflows, the leftover's lacing is exactly 255 entries shorter |
| OggSegment.SegmentationFits | encoder.go:86-88 | when the whole lacing fits, everything is placed and nothing is left over |
| OggSegment.SegmentationAtLeft | encoder.go:56-64 | a first packet of at least 65025 bytes fills the table with 255s, and its rest leads the leftover |
| OggSegment.SegmentationAtMiddle | encoder.go:66-84 | a middle packet that overflows contributes runs of 255 to the end of the table, and its rest leads the leftover |
| OggSegment.OverflowTable | encoder.go:66-84 | a full table is the lacing of the packets before the overflowing one, then 255s |
| OggSegment.PlaceRuns | encoder.go:51-55 | writes runs of 255 into the table until the runs or the table run out |
| OggSegment.PlacePacket | encoder.go:68-77 | places a packet's whole lacing when it fits, otherwise fills the table with its 255-runs |
| OggSegment.Segmentize | encoder.go:45-89 | the array-filling method returns the table, placed payload and leftover of Segmentation |
| OggSegment.SegmentizeMiddle | encoder.go:66-89 | the middle-packet loop completes the table started by the first packet, as Segmentation says |
| OggEncoder.Emit | encoder.go:128-153 | a written page is 27 header bytes, then the table, then the payload |
| OggEncoder.EmitChecksum | encoder.go:136-143 | the CRC field of a written page holds the CRC of the page with that field zeroed |
| OggEncoder.Following | encoder.go:35-40 | each further round strictly reduces the remaining lacing, so the loop terminates |
| OggEncoder.Rounds | encoder.go:35-40 | the rounds start from the first segmentation and stop when no overflowing packet remains |
| OggEncoder.RoundsLength | encoder.go:29-40 | at most (lacing entries)/255 + 1 pages are written |
| OggEncoder.RoundsTables | encoder.go:29-40 | every page's table has 1 to 255 entries summing to its payload; every page but the last is full; a short table leaves nothing over |
| OggEncoder.RoundsConserve | encoder.go:29-40 | the payloads of all rounds, plus what the last round leaves over, are the input bytes |
| OggEncoder.PaginateShape | encoder.go:120-124 | page k gets the caller's flag (k = 0) or the flag with COP (k > 0), sequence number pn + k mod 2^32, and its table length as segment count |
| OggEncoder.MuxHeaders | encoder.go:19-43 | every page of WritePackets has magic OggS, version 0, the granule, the serial and CRC 0 before stamping; the sequence numbers are consecutive; later pages carry COP and keep BOS/EOS |
| OggEncoder.MuxTables | encoder.go:29-40 | each page's segment count equals its table length (1 to 255); the table sums to the payload; every page but the last is full |
| OggEncoder.MuxConserves | encoder.go:29-40 | the payloads written, followed by the middle packets the loop leaves behind, are the packets' bytes; if the last table is short, nothing is left behind |
| OggEncoder.MuxFits | encoder.go:19-43 | packets whose lacing fits in 255 entries become one page carrying exactly those packets |
| OggEncoder.MuxExactFill | encoder.go:56-64 | a first packet of exactly 65025 bytes yields one page of 255 entries of 255 and no terminator; later packets are not written |
| OggEncoder.MuxEmpty | encoder.go:94-99 | an empty packet list is replaced by the dummy packet and written as one page with table [0] |
| OggEncoder.OrDummy | types.go:29 | the packet list is never empty after substitution of the dummy packet |
| OggEncoder.Gather | encoder.go:128-132 | the payload writer concatenates the first-packet rest, the middle packets and the split tail |
| OggEncoder.Encoder.constructor | types.go:56-60 | a new encoder has written nothing and starts at page number 0 |
| OggEncoder.Encoder.WritePage | encoder.go:120-155 | stamps the current page number and segment count, appends exactly the emitted page to the output, and increments the page number by one |
| OggEncoder.Encoder.WritePackets | encoder.go:19-43 | appends the pages of MuxPages and advances the page number by their count |
| OggEncoder.Encoder.EncodeBOS | encoder.go:94-99 | WritePackets with FlagBOS, the empty list replaced by the dummy packet |
| OggEncoder.Encoder.Encode | encoder.go:104-109 | WritePackets with flag 0, the empty list replaced by the dummy packet |
| OggEncoder.Encoder.EncodeEOS | encoder.go:113-118 | WritePackets with FlagEOS, the empty list replaced by the dummy packet |
| OggDecoder.PacketLengths | decoder.go:35-48 | a segment table yields packet lengths exactly when it is non-empty |
| OggDecoder.SumPacketLengths | decoder.go:35-48 | the packet lengths sum to the table sum, so no payload byte is lost |
| OggDecoder.PacketLengthsAppend | decoder.go:39-48 | a table that ends a packet delaces independently of what follows it |
| OggDecoder.PacketLengthsOfLacing | decoder.go:39-48 | the lacing of one n-byte packet delaces to [n] and closes the packet |
| OggDecoder.PacketLengthsOfLacingOf | decoder.go:35-48 | delacing inverts the encoder's lacing: the table of a packet list gives back their lengths |
| OggDecoder.NoRejoin | decoder.go:35-48 | a table ending in 255 followed by the next page's [0] gives a different packet split than one table would; the decoder does not rejoin |
| OggDecoder.ConcatSlices | decoder.go:50-61 | slicing by the lengths gives consecutive pieces that concatenate to the first Sum(lengths) bytes |
| OggDecoder.SlicesOfConcat | decoder.go:50-61 | slicing the concatenation of packets by their lengths gives the packets back |
| OggDecoder.ReadPacketsSlices | decoder.go:50-61 | the packet reads succeed exactly when the payload is present, and return its slices |
| OggDecoder.PacketsOfTable | decoder.go:50-61 | the packets cover exactly Sum(table) bytes after the table, in order, with the delaced lengths |
| OggDecoder.DecodeAt | decoder.go:14-75 | a successful decode consumes more than a header's worth of bytes |
| OggDecoder.DecodeShape | decoder.go:14-27 | bad magic gives ErrInvalidOggs, a zero segment count gives ErrBadSegs, the end gives EOF, and a short header gives unexpected EOF |
| OggDecoder.DecodeOk | decoder.go:14-75 | a decoded page has the parsed header with CRC 0, at least one segment and one packet, and packets that are the delaced payload |
| OggDecoder.DecodePageAt | decoder.go:14-75 | header, table and payload laid out at the cursor decode to that header (CRC 0) and the delaced packets |
| OggDecoder.DecodeEmitted | decoder.go:63-72 | decoding a page written by writePage returns its header and packets, and the checksum matches |
| OggDecoder.DecodeMuxPage | decoder.go:14-75 | every page WritePackets writes decodes at its offset, and its checksum matches |
| OggDecoder.DecodeMuxFits | decoder.go:14-75 | round trip: packets written on one page are decoded back exactly, consuming the whole output |
| OggDecoder.Decoder.constructor | types.go:51-54 | a decoder over a reader, with no tag reader yet |
| OggDecoder.Decoder.Decode | decoder.go:14-75 | reads and consumes what DecodeAt describes, and reports whether the recomputed CRC matched |
| OggDecoder.Decoder.ReadPacketList | decoder.go:50-61 | reads the packets of a length list and their concatenated payload |
| OggDecoder.Decoder.ReadPictureBlock | decoder.go:179-231 | skips type, MIME, description and the four 32-bit fields, then returns exactly data-length bytes |
| OggDecoder.Decoder.CoverArt | decoder.go:147-163 | base64-decodes the picture comment, extracts the picture data and decodes the image |
| OggDecoder.Decoder.ApplyTo | decoder.go:141-174 | one comment updates the tag as ApplyComment says (key upper-cased over ASCII), or reports its error |
| OggDecoder.Decoder.ReadComments | decoder.go:115-177 | reads vendor, count and comments from the tag reader as CommentsAt says |
| OggDecoder.Decoder.PacketTagOf | decoder.go:89-98 | parses a comment packet after its prefix and sets the codec |
| OggDecoder.Decoder.ReadTags | decoder.go:77-113 | the first packet, in page order then packet order, that starts with the Vorbis prefix (tested first) or the Opus prefix gives the tag; the end of the stream gives no tag |
| OggDecoder.CommentPacketTag | decoder.go:89-109 | a packet list led by a comment packet without art gives the tag with exactly the written fields, the vendor string, and codec "vorbis" for the Vorbis prefix and "opus" otherwise |
| OggDecoder.ReadTagsSkip | decoder.go:77-113 | ReadTags passes over a page without a comment header and goes on at the next page |
| OggDecoder.ReadTagsFound | decoder.go:89-109 | ReadTags stops at the first page holding a comment header and returns its tag with the stream |
| OggDecoder.PacketsWithoutTag | decoder.go:89-109 | a page none of whose packets starts with either prefix yields no tag |
| OggDecoder.ReadTagsOfCommentPage | decoder.go:77-113 | round trip: ReadTags on a stream whose first page WritePackets wrote with such a comment packet returns that tag, remembering the stream |
| OggDecoder.Delace | decoder.go:35-48 | the loop that grows the last length computes PacketLengths |
| OggComments.Split | decoder.go:141 | strings.Split always returns at least one part |
| OggComments.SplitJoin | decoder.go:141 | joining the parts with the separator gives the string back, and no part contains the separator |
| OggComments.SplitCount | decoder.go:141-144 | a comment has exactly as many parts as '=' characters plus one |
| OggComments.SplitPair | decoder.go:141-146 | KEY=value without further '=' splits into exactly the key and the value |
| OggComments.ToUpperFixes | decoder.go:145 | ASCII upper-casing leaves keys without lower-case letters alone and is idempotent |
| OggComments.KeyShape | types.go:31 | every mapped key is upper-case and contains no '=' |
| OggComments.CreateMetadataBlockPicture | encoder.go:238-258 | the buffer writer produces the picture block, or fails when the image dimensions cannot be read |
| OggComments.PictureBlock | encoder.go:245-256 | a picture block is 47 bytes of fields plus the picture data |
| OggComments.PictureRoundTrip | decoder.go:179-231 | readPictureBlock of a created picture block returns the picture data |
| OggComments.CreateCommentPacket | encoder.go:260-296 | the append sequence produces the comment packet layout |
| OggComments.CommentPacketParts | encoder.go:260-296 | prefix (Vorbis or Opus), vendor and count, comments in order, the picture only for art longer than one byte, and the framing byte for Vorbis only |
| OggComments.CountHeadIs | encoder.go:261-271 | the count written counts the picture whenever art is non-empty |
| OggComments.ApplyField | decoder.go:166-168 | KEY=value for a mapped key stores the value in that field; a later duplicate overwrites it |
| OggComments.ApplySkips | decoder.go:141-144 | a comment without exactly one '=' leaves the tag unchanged |
| OggComments.ApplyPicture | decoder.go:147-174 | an unpadded picture comment sets the cover art and is also stored as unmapped |
| OggComments.PaddedPictureSkipped | decoder.go:141-144 | a picture whose base64 text is padded is skipped entirely |
| OggComments.CoverArtOfBlock | decoder.go:147-163 | the cover art of a picture comment is the decoded picture data, or an image error |
| OggComments.FieldComments | encoder.go:185-189 | one KEY=value comment per mapped field, in the given order |
| OggComments.Overwrite | decoder.go:166-168 | the fields named in the order take their new values; all others keep theirs |
| OggComments.OverwriteAll | decoder.go:166-168 | when every field is named, the result is exactly the new values |
| OggComments.ApplyFieldComments | decoder.go:132-175 | reading the field comments overwrites exactly those fields |
| OggComments.CommentsLoopLaid | decoder.go:132-175 | the comment loop over laid-out comments applies them in order |
| OggComments.CommentsAtLaid | decoder.go:115-131 | vendor, count and comments laid out in a packet are read back and applied |
| OggComments.PacketReadsComments | decoder.go:115-177 | reading a created comment packet applies its comments in order |
| OggComments.CommentPacketReadBack | encoder.go:260-296 | round trip: a packet without art reads back as the vendor and exactly the written field values |
| OggComments.PictureCountMismatch | encoder.go:266-290 | with one byte of art the count promises a comment that is not written, so reading the packet back fails |
| OggComments.CommentPacketPictureReadBack | encoder.go:283-290 | round trip with a picture whose base64 text is unpadded: the fields, the decoded cover art and the unmapped picture comment come back |
| Base64.ValueOfChar | decoder.go:149 | every alphabet character decodes to its index, and none is padding or a line break |
| Base64.EncodeLength | encoder.go:284 | the encoding is 4 characters per started group of 3 bytes |
| Base64.EncodePadding | encoder.go:284 | the encoding contains '=' exactly when the length is not a multiple of 3, and then ends in '=' |
| Base64.EncodeChars | encoder.go:284 | the encoding contains no line break |
| Base64.DecodeEncode | decoder.go:149 | decoding the encoding gives the bytes back |
| Decimal.NatTextDigits | ogg.go:137-139 | the decimal text of n is non-empty, all digits, and has value n |
| Decimal.AtoiItoa | ogg.go:61-67 | parsing the decimal text of any 64-bit integer gives it back |
| Decimal.AtoiRejects | ogg.go:61-67 | the empty string, a lone sign and a string ending in a non-digit do not parse |
| Decimal.AtoiExamples | ogg.go:61-67 | leading zeros and a plus sign parse; 127 and -3 are rendered as "127" and "-3" |
| OggTagRecord.EmptyFields | ogg.go:32-47 | every text field is present and empty |
| OggTagRecord.Blank | ogg.go:10-30 | a new tag has every field present |
| OggTagRecord.NumberOfText | ogg.go:61-67 | an integer getter returns n for the rendering of n, and 0 for text that does not parse, including "" |
| OggTagRecord.OggTag.constructor | ogg.go:10-30 | a zero tag: empty fields, no art, nothing unmapped |
| OggTagRecord.OggTag.ClearAllTags | ogg.go:32-47 | the 13 text fields become empty and the cover art none; vendor, codec, unmapped comments and stream are unchanged |
| OggTagRecord.OggTag.Get | ogg.go:49-107 | a string getter returns the text stored in its own field of the tag |
| OggTagRecord.OggTag.GetCoverArt | ogg.go:77-79 | returns the tag's stored cover art, none when it is nil |
| OggTagRecord.OggTag.GetNumber | ogg.go:109-115 | the parsed field value, or 0 when the text is not a decimal integer |
| OggTagRecord.OggTag.Set | ogg.go:125-127 | a string setter stores its argument verbatim in its own field only, and the getter returns it |
| OggTagRecord.OggTag.SetNumber | ogg.go:173-175 | an integer setter stores the decimal rendering in its own field only, and the getter returns n |
| OggTagRecord.OggTag.SetCoverArt | ogg.go:149-151 | replaces the cover art and nothing else |
| OggTagRecord.SetterExamples | ogg_test.go:92-111 | title stored verbatim; BPM 127 and track 3 of 12 read back as numbers |
| OggRemux.PagesFrom | encoder.go:174-181 | the decoded pages up to EOF, or the first error; every page has a packet |
| OggRemux.RemuxMapping | encoder.go:165-213 | the first page is re-encoded BOS; a later page whose first packet is a comment header gets the new packet and flag 0; a page with flags exactly EOS is re-encoded EOS; any other page gets flag 0; granules and other packets are kept |
| OggRemux.EosByEquality | encoder.go:203 | an EOS page that also has the continuation bit is re-encoded with flag 0 |
| OggRemux.RemuxCallsSnoc | encoder.go:174-213 | one more decoded page adds exactly its own encoder call |
| OggRemux.AllPagesHeaders | encoder.go:120-124 | the rewritten stream numbers its pages consecutively from 0 across calls, with serial 0 |
| OggRemux.RemuxPageDecodes | encoder.go:157-213 | every page of the rewritten stream decodes at its offset, and its checksum matches |
| OggRemux.AudioPageKept | encoder.go:202-212 | a non-comment page that fits one page is decoded back from the output with the same packets and granule, flag EOS or 0, serial 0 and its new sequence number |
| OggRemux.CallKept | encoder.go:199-211 | any call, the BOS call included, whose packets fit one page is decoded back from its place in the output as one page with exactly those packets |
| OggRemux.SaveTagsReadBack | encoder.go:157-213 | SaveTags followed by ReadTags gives back a tag with exactly the fields just set, the library's vendor and the codec, for a stream whose second page carries the comment header and a tag without cover art |
| OggRemux.FirstPageSkipped | decoder.go:77-113 | ReadTags passes over the rewritten BOS page when it carries no comment header, and goes on where the next page starts |
| OggRemux.SecondPageTag | encoder.go:199-201 | the rewritten comment page decodes to packets whose tag is the fields just set |
| OggRemux.SecondPageDecodes | encoder.go:199-201 | the rewritten comment page decodes to the new comment packet followed by the page's other packets |
| OggRemux.FirstCallOnePage | encoder.go:165-172 | the BOS call writes exactly one page when its packets fit |
| OggRemux.SecondCall | encoder.go:199-201 | the call for a comment page puts the new comment packet in front of the page's other packets |
| OggRemux.CommentFieldsOf | encoder.go:184-189 | the comment list built from the tag's fields in the given order |
| OggRemux.PictureOf | encoder.go:190-197 | the picture block of the JPEG-encoded cover art; no art, or an encoding failure, gives no picture |
| OggRemux.SaveTags | encoder.go:157-213 | the loop produces the bytes of SaveTagsOf: the rewritten stream, or the first decode error |
| OggRemux.RemuxNext | encoder.go:175-212 | after each page the output is the rewritten stream of the pages so far, and the page counter is its length mod 2^32 |
| OggRemux.SaveTagsOk | encoder.go:157-213 | a stream that decodes to pages up to EOF is rewritten page by page through the mapping |
| OggRemux.SaveTagsFirstErr | encoder.go:165-168 | an error on the first page, EOF included, is returned |
| OggRemux.SaveTagsErr | encoder.go:174-181 | a later error other than EOF is returned |
| OggRemux.NextPage | encoder.go:175-181 | one Decode step advances the stream and consumes exactly one decoded page of PagesFrom |
| OggRemux.WriteCall | encoder.go:199-211 | one Encode* call appends its pages and advances the page counter by their count |
| OggRemux.RemuxPage | encoder.go:183-212 | one loop iteration appends the pages of that page's call |
| OggRemux.RemuxFirst | encoder.go:165-172 | the first page alone gives the BOS call's pages, numbered from 0 |
| OggRemux.PagesStep | encoder.go:174-181 | PagesFrom takes one decoded page and continues, stops on EOF, and passes on any other error |

## Left out

- The file commit at the end of `SaveTags` (encoder.go:214-235) is OS I/O: the type test for a file, reopening and truncating, writing, seeking and `io.Copy`. `SaveTags` returns the rewritten bytes instead.
- OggComments.ToUpperFixes: the key is upper-cased over ASCII letters only. Go's `strings.ToUpper` (decoder.go:145) also maps non-ASCII letters (for example "tıtle" becomes "TITLE") and replaces invalid UTF-8 with U+FFFD. This Unicode case mapping is not modelled.
- OggComments.ToUpper: the same ASCII-only restriction. A key holding bytes of 0x80 or above keeps those bytes unchanged.
- OggComments.ApplyComment: because of that restriction, a comment whose key only becomes a mapped key under Unicode case mapping is filed among the unmapped comments. Go sets the field instead.
- OggDecoder.Decoder.ApplyTo: the same ASCII-only upper-casing as ApplyComment.
- OggEncoder.Encoder.WritePackets: Go indexes `packets[0]` (encoder.go:29) and panics on an empty list. The model requires a non-empty list instead. Its only callers, the Encode* wrappers, substitute the dummy packet first, so they never pass an empty list.
- OggRemux.SaveTags: Go calls `tag.reader.Seek` (encoder.go:158), which panics on a nil reader, that is, for an `OggTag` not produced by `ReadTags`. The model reads such a tag's stream as empty, so `SaveTags` returns the EOF error of its first `Decode` instead of panicking.
- The initial `Seek(0, 0)` in `SaveTags` cannot fail on an in-memory stream; the model reads the stream from its start.
- `io.Reader`, `io.ReadSeeker` and the writers are a byte sequence with a cursor (`ByteReader`) and an output sequence (`Encoder.output`). Reader and writer I/O errors other than end of input are not modelled.
- Reflection over `OggTag` fields is replaced by the `TagField` enumeration and `KeyOf`. Go's map iteration order is the `order` parameter.
- Image codecs are parameters: `image.DecodeConfig` as `decodeConfig`, `image.Decode` as `decode`, and `jpeg.Encode` inside `Codecs`. Pixel data is opaque.
- The `fmt.Println` on a CRC mismatch (decoder.go:71) is logging. The model returns the mismatch as a boolean instead.
- OggCrc.Init: the table is proved to hold the bitwise rounds of each index. The stronger fact is not proved: that the table-driven CRC equals polynomial division over GF(2).
- The panic in `encodeUint32` when the buffer write fails (util.go:58-64) cannot happen for an in-memory buffer, and is left out.
- OggTagRecord.OggTag.Set: the thirteen string getters and setters (ogg.go:49-179) are modelled by one generic member per kind, indexed by `TagField`: `Get`, `Set`, `GetNumber` and `SetNumber`. There is no separate member per field.
- errors.go contributes only the two error values `InvalidOggs` and `BadSegs` of the `Error` datatype.
- Unmapped comments read from a stream are not written back by `SaveTags`, as in the source. The model does not need to state anything about them.
- The test fixtures of ogg_test.go (files and image comparison) are not part of this model. Its setter and getter assertions appear as `SetterExamples`.
