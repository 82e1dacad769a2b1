/** The standard base64 encoding of section 4 of RFC 4648 with '=' padding,
    as Go's base64.StdEncoding encodes and decodes it.  The decoder skips
    carriage returns and line feeds, requires the padding, and does not
    insist that the unused bits of the last character are zero. */
module Base64 {
  import opened OggTypes

  const PadChar: uint8 := 0x3D  // '='
  const CR: uint8 := 0x0D
  const LF: uint8 := 0x0A

  /** The character of a 6-bit value. */
  function CharOf(v: nat): (c: uint8)
    requires v < 64
  {
    if v < 26 then 0x41 + v            // 'A'..'Z'
    else if v < 52 then 0x61 + (v - 26) // 'a'..'z'
    else if v < 62 then 0x30 + (v - 52) // '0'..'9'
    else if v == 62 then 0x2B           // '+'
    else 0x2F                           // '/'
  }

  /** The 6-bit value of a character of the alphabet. */
  function ValueOf(c: uint8): (r: Option<nat>)
    ensures r.Some? ==> r.value < 64
  {
    if 0x41 <= c <= 0x5A then Some(c - 0x41)
    else if 0x61 <= c <= 0x7A then Some(c - 0x61 + 26)
    else if 0x30 <= c <= 0x39 then Some(c - 0x30 + 52)
    else if c == 0x2B then Some(62)
    else if c == 0x2F then Some(63)
    else None
  }

  lemma ValueOfChar(v: nat)
    requires v < 64
    ensures ValueOf(CharOf(v)) == Some(v) && CharOf(v) != PadChar
    ensures CharOf(v) != CR && CharOf(v) != LF
  {
  }

  // ---------------------------------------------------------------- encoding

  /** The four 6-bit values of the 24 bits of three bytes, most significant
      first. */
  function Quad(x: uint8, y: uint8, z: uint8): (s: Bytes)
    ensures |s| == 4
  {
    [CharOf(x / 4), CharOf(x % 4 * 16 + y / 16), CharOf(y % 16 * 4 + z / 64), CharOf(z % 64)]
  }

  /** EncodeToString: each group of three bytes becomes four characters;
      a last group of one or two bytes is padded with "==" or "=". */
  function Encode(b: Bytes): (s: Bytes)
    ensures |s| == 0 <==> b == []
    decreases |b|
  {
    if b == [] then []
    else if |b| == 1 then Quad(b[0], 0, 0)[..2] + [PadChar, PadChar]
    else if |b| == 2 then Quad(b[0], b[1], 0)[..3] + [PadChar]
    else Quad(b[0], b[1], b[2]) + Encode(b[3..])
  }

  /** Four characters for every three bytes or fewer. */
  lemma {:induction false} EncodeLength(b: Bytes)
    ensures |Encode(b)| == (|b| + 2) / 3 * 4
    decreases |b|
  {
    if |b| >= 3 {
      EncodeLength(b[3..]);
      assert (|b| + 2) / 3 == (|b[3..]| + 2) / 3 + 1;
    }
  }

  // ---------------------------------------------------------------- decoding

  /** The input with line breaks removed, which the decoder skips. */
  function Strip(s: Bytes): (r: Bytes)
    ensures |r| <= |s|
  {
    if s == [] then []
    else (if s[0] == CR || s[0] == LF then [] else [s[0]]) + Strip(s[1..])
  }

  /** The three bytes of the 24 bits of four 6-bit values. */
  function Triple(a: nat, b: nat, c: nat, d: nat): (r: Bytes)
    requires a < 64 && b < 64 && c < 64 && d < 64
    ensures |r| == 3
  {
    [a * 4 + b / 16, b % 16 * 16 + c / 4, c % 4 * 64 + d]
  }

  /** Decoding of the line-break-free text: whole groups of four characters
      of the alphabet, of which the last may end in "==" or "=". */
  function DecodeGroups(s: Bytes): (r: Result<Bytes>)
    decreases |s|
  {
    if s == [] then Ok([])
    else if |s| < 4 then Err(CorruptBase64)
    else
      var a, b, c, d := ValueOf(s[0]), ValueOf(s[1]), ValueOf(s[2]), ValueOf(s[3]);
      if a.None? || b.None? then Err(CorruptBase64)
      else if |s| == 4 && s[2] == PadChar && s[3] == PadChar then
        Ok(Triple(a.value, b.value, 0, 0)[..1])
      else if c.None? then Err(CorruptBase64)
      else if |s| == 4 && s[3] == PadChar then
        Ok(Triple(a.value, b.value, c.value, 0)[..2])
      else if d.None? then Err(CorruptBase64)
      else match DecodeGroups(s[4..])
        case Err(e) => Err(e)
        case Ok(rest) => Ok(Triple(a.value, b.value, c.value, d.value) + rest)
  }

  /** DecodeString. */
  function Decode(s: Bytes): Result<Bytes>
  {
    DecodeGroups(Strip(s))
  }

  // ---------------------------------------------------------------- lemmas

  /** The characters of a group are alphabet characters with the values
      they were made from. */
  lemma QuadValues(x: uint8, y: uint8, z: uint8)
    ensures var q := Quad(x, y, z);
      ValueOf(q[0]) == Some(x / 4) && ValueOf(q[1]) == Some(x % 4 * 16 + y / 16)
      && ValueOf(q[2]) == Some(y % 16 * 4 + z / 64) && ValueOf(q[3]) == Some(z % 64)
      && forall i | 0 <= i < 4 :: q[i] != PadChar && q[i] != CR && q[i] != LF
  {
    ValueOfChar(x / 4);
    ValueOfChar(x % 4 * 16 + y / 16);
    ValueOfChar(y % 16 * 4 + z / 64);
    ValueOfChar(z % 64);
  }

  /** The three bytes split into 6-bit values and joined back. */
  lemma TripleQuad(x: uint8, y: uint8, z: uint8)
    ensures Triple(x / 4, x % 4 * 16 + y / 16, y % 16 * 4 + z / 64, z % 64) == [x, y, z]
  {
    var b, c := x % 4 * 16 + y / 16, y % 16 * 4 + z / 64;
    assert b / 16 == x % 4 && b % 16 == y / 16;
    assert c / 4 == y % 16 && c % 4 == z / 64;
  }

  lemma StripPlain(s: Bytes)
    requires forall i | 0 <= i < |s| :: s[i] != CR && s[i] != LF
    ensures Strip(s) == s
  {
    if s != [] {
      StripPlain(s[1..]);
    }
  }

  /** The encoding uses alphabet characters and '=' only. */
  lemma {:induction false} EncodeChars(b: Bytes)
    ensures forall i | 0 <= i < |Encode(b)| :: Encode(b)[i] != CR && Encode(b)[i] != LF
    decreases |b|
  {
    if |b| >= 3 {
      EncodeChars(b[3..]);
      QuadValues(b[0], b[1], b[2]);
    } else if |b| == 2 {
      QuadValues(b[0], b[1], 0);
    } else if |b| == 1 {
      QuadValues(b[0], 0, 0);
    }
  }

  /** A full group in front of more text decodes to its three bytes in
      front of what that text decodes to. */
  lemma DecodeQuadThen(x: uint8, y: uint8, z: uint8, t: Bytes)
    ensures DecodeGroups(Quad(x, y, z) + t)
         == match DecodeGroups(t)
            case Err(e) => Err(e)
            case Ok(r) => Ok([x, y, z] + r)
  {
    var s := Quad(x, y, z) + t;
    QuadValues(x, y, z);
    TripleQuad(x, y, z);
    assert s[..4] == Quad(x, y, z) && s[4..] == t;
  }

  lemma DecodeShort(x: uint8, y: uint8)
    ensures DecodeGroups(Encode([x])) == Ok([x])
    ensures DecodeGroups(Encode([x, y])) == Ok([x, y])
  {
    QuadValues(x, 0, 0);
    TripleQuad(x, 0, 0);
    var s := Encode([x]);
    assert s == Quad(x, 0, 0)[..2] + [PadChar, PadChar];
    assert Triple(x / 4, x % 4 * 16, 0, 0) == [x, 0, 0];
    assert DecodeGroups(s) == Ok(Triple(x / 4, x % 4 * 16, 0, 0)[..1]);
    assert [x, 0, 0][..1] == [x];
    QuadValues(x, y, 0);
    TripleQuad(x, y, 0);
    var s' := Encode([x, y]);
    assert s' == Quad(x, y, 0)[..3] + [PadChar];
    var b, c := x % 4 * 16 + y / 16, y % 16 * 4;
    assert Triple(x / 4, b, c, 0) == [x, y, 0];
    assert s'[2] != PadChar;
    assert DecodeGroups(s') == Ok(Triple(x / 4, b, c, 0)[..2]);
    assert [x, y, 0][..2] == [x, y];
  }

  /** Decoding the line-break-free encoding gives the bytes back. */
  lemma {:induction false} DecodeGroupsEncode(b: Bytes)
    ensures DecodeGroups(Encode(b)) == Ok(b)
    decreases |b|
  {
    if |b| >= 3 {
      DecodeGroupsEncode(b[3..]);
      DecodeQuadThen(b[0], b[1], b[2], Encode(b[3..]));
      assert b == [b[0], b[1], b[2]] + b[3..];
    } else if |b| == 2 {
      DecodeShort(b[0], b[1]);
      assert b == [b[0], b[1]];
    } else if |b| == 1 {
      DecodeShort(b[0], 0);
      assert b == [b[0]];
    }
  }

  /** RFC 4648 round trip: DecodeString(EncodeToString(b)) == b. */
  lemma DecodeEncode(b: Bytes)
    ensures Decode(Encode(b)) == Ok(b)
  {
    EncodeChars(b);
    StripPlain(Encode(b));
    DecodeGroupsEncode(b);
  }

  predicate HasPad(s: Bytes)
  {
    exists i | 0 <= i < |s| :: s[i] == PadChar
  }

  lemma HasPadAppend(a: Bytes, b: Bytes)
    ensures HasPad(a + b) <==> HasPad(a) || HasPad(b)
  {
    if HasPad(a + b) {
      var i :| 0 <= i < |a + b| && (a + b)[i] == PadChar;
      if i >= |a| {
        assert b[i - |a|] == PadChar;
      }
    }
    if HasPad(a) {
      var i :| 0 <= i < |a| && a[i] == PadChar;
      assert (a + b)[i] == PadChar;
    }
    if HasPad(b) {
      var i :| 0 <= i < |b| && b[i] == PadChar;
      assert (a + b)[i + |a|] == PadChar;
    }
  }

  /** The encoding holds a '=' exactly when the length is not a multiple of
      three, and then it is the last character. */
  lemma {:induction false} EncodePadding(b: Bytes)
    ensures HasPad(Encode(b)) <==> |b| % 3 != 0
    ensures |b| % 3 != 0 ==> Encode(b)[|Encode(b)| - 1] == PadChar
    decreases |b|
  {
    var s := Encode(b);
    if |b| >= 3 {
      EncodePadding(b[3..]);
      var q, t := Quad(b[0], b[1], b[2]), Encode(b[3..]);
      assert s == q + t;
      LessThree(|b|);
      QuadNoPad(b[0], b[1], b[2]);
      PadAfter(q, t);
      assert HasPad(s) <==> HasPad(t);
      if |b| % 3 != 0 {
        assert t != [] && s[|s| - 1] == t[|t| - 1];
      }
    } else if |b| == 2 {
      PaddedTail(Quad(b[0], b[1], 0)[..3], [PadChar]);
    } else if |b| == 1 {
      PaddedTail(Quad(b[0], 0, 0)[..2], [PadChar, PadChar]);
    } else {
      assert s == [];
    }
  }

  lemma LessThree(n: nat)
    requires n >= 3
    ensures (n - 3) % 3 == n % 3
  {
  }

  lemma QuadNoPad(x: uint8, y: uint8, z: uint8)
    ensures !HasPad(Quad(x, y, z))
  {
    QuadValues(x, y, z);
  }

  /** A pad-free prefix changes neither whether there is a pad nor the last
      character. */
  lemma PadAfter(q: Bytes, t: Bytes)
    requires !HasPad(q)
    ensures HasPad(q + t) <==> HasPad(t)
    ensures t != [] ==> (q + t)[|q + t| - 1] == t[|t| - 1]
  {
    HasPadAppend(q, t);
  }

  /** A string ending in padding has a pad, and ends with it. */
  lemma PaddedTail(p: Bytes, pad: Bytes)
    requires pad == [PadChar] || pad == [PadChar, PadChar]
    ensures HasPad(p + pad) && (p + pad)[|p + pad| - 1] == PadChar
  {
    assert (p + pad)[|p|] == PadChar;
  }
}
