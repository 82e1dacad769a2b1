/** The tag record of a stream (OggTag in ogg.go): the thirteen text fields
    the comment header maps, the codec and vendor strings, the cover art,
    the comments no field maps, and the stream the tag was read from. */
module OggTagRecord {
  import opened OggTypes
  import opened Decimal

  /** A decoded picture.  The image codecs that produce and consume it are
      parameters of the operations that need them. */
  datatype Image = Image(width: nat, height: nat, pixels: Bytes)

  /** The values a tag holds at one moment. */
  datatype TagValues = TagValues(
    fields: map<TagField, Bytes>,
    codec: Bytes,
    vendor: Bytes,
    coverArt: Option<Image>,
    unmapped: map<Bytes, Bytes>,
    stream: Bytes)

  /** Every text field empty, as in a zero OggTag. */
  function EmptyFields(): (m: map<TagField, Bytes>)
    ensures forall f :: f in m && m[f] == []
  {
    AllFieldsComplete();
    map f | f in AllFields :: []
  }

  /** A new OggTag: everything empty, no cover art. */
  function Blank(): (t: TagValues)
    ensures forall f :: f in t.fields
  {
    TagValues(EmptyFields(), [], [], None, map[], [])
  }

  /** The fields whose getters parse a decimal integer. */
  predicate Numeric(f: TagField)
  {
    f == BPM || f == DiscNumber || f == DiscTotal || f == TrackNumber || f == TrackTotal
  }

  /** The integer getters: the parsed value, or 0 when the text is not a
      decimal integer. */
  function NumberOf(text: Bytes): int64
  {
    match Atoi(text)
    case Some(n) => n
    case None => 0
  }

  lemma NumberOfText(n: int64, text: Bytes)
    ensures NumberOf(Itoa(n)) == n
    ensures Atoi(text) == None ==> NumberOf(text) == 0
    ensures NumberOf([]) == 0
  {
    AtoiItoa(n);
    AtoiRejects([]);
  }

  class OggTag {
    var fields: map<TagField, Bytes>
    var codec: Bytes
    var vendor: Bytes
    var coverArt: Option<Image>
    var unmapped: map<Bytes, Bytes>
    /** The reader the tag was read from, as the bytes it yields from its start. */
    var stream: Bytes

    /** Every one of the thirteen text fields is present. */
    ghost predicate Valid()
      reads this
    {
      forall f :: f in fields
    }

    function Values(): TagValues
      reads this
    {
      TagValues(fields, codec, vendor, coverArt, unmapped, stream)
    }

    constructor ()
      ensures Valid() && Values() == Blank()
    {
      fields := EmptyFields();
      codec, vendor, coverArt, unmapped, stream := [], [], None, map[], [];
    }

    /** ClearAllTags: the thirteen text fields become empty and the cover
        art goes; the vendor, codec, unmapped comments and stream stay. */
    method ClearAllTags()
      requires Valid()
      modifies this
      ensures Valid() && Values() == old(Values()).(fields := EmptyFields(), coverArt := None)
    {
      fields := EmptyFields();
      coverArt := None;
    }

    /** The string getters (GetAlbum, GetArtist, ...): the stored text. */
    function Get(f: TagField): (v: Bytes)
      requires Valid()
      reads this
      ensures v == Values().fields[f]
    {
      fields[f]
    }

    /** The integer getters (GetBPM, GetTrackNumber, ...). */
    function GetNumber(f: TagField): (n: int64)
      requires Valid() && Numeric(f)
      reads this
      ensures Atoi(fields[f]).Some? ==> n == Atoi(fields[f]).value
      ensures Atoi(fields[f]).None? ==> n == 0
    {
      NumberOf(fields[f])
    }

    /** GetCoverArt: the stored image, None for a nil one. */
    function GetCoverArt(): (art: Option<Image>)
      reads this
      ensures art == Values().coverArt
    {
      coverArt
    }

    /** The string setters (SetAlbum, SetArtist, ...): the argument verbatim,
        nothing else changes. */
    method Set(f: TagField, value: Bytes)
      requires Valid()
      modifies this
      ensures Valid() && Values() == old(Values()).(fields := old(fields)[f := value])
      ensures Get(f) == value
    {
      fields := fields[f := value];
    }

    /** The integer setters (SetBPM, SetTrackNumber, ...): the decimal text
        of the argument, which the matching getter parses back. */
    method SetNumber(f: TagField, n: int64)
      requires Valid() && Numeric(f)
      modifies this
      ensures Valid() && Values() == old(Values()).(fields := old(fields)[f := Itoa(n)])
      ensures GetNumber(f) == n
    {
      fields := fields[f := Itoa(n)];
      NumberOfText(n, []);
    }

    method SetCoverArt(art: Option<Image>)
      modifies this
      ensures Values() == old(Values()).(coverArt := art)
    {
      coverArt := art;
    }
  }

  /** A setter as a change of values. */
  function WithField(t: TagValues, f: TagField, value: Bytes): TagValues
  {
    t.(fields := t.fields[f := value])
  }

  /** The getters return what the test suite expects of the setters: the
      verbatim text, and BPM 127 and track 3 of 12. */
  lemma SetterExamples(t: TagValues, title: Bytes)
    requires forall h :: h in t.fields
    ensures WithField(t, Title, title).fields[Title] == title
    ensures NumberOf(WithField(t, BPM, Itoa(127)).fields[BPM]) == 127
    ensures NumberOf(WithField(WithField(t, TrackNumber, Itoa(3)), TrackTotal, Itoa(12)).fields[TrackNumber]) == 3
    ensures NumberOf(WithField(WithField(t, TrackNumber, Itoa(3)), TrackTotal, Itoa(12)).fields[TrackTotal]) == 12
  {
    NumberOfText(127, []);
    NumberOfText(3, []);
    NumberOfText(12, []);
  }
}
