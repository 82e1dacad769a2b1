/** Decimal text of the integer tag fields: fmt.Sprintf("%d", n), which the
    setters of ogg.go store, and strconv.Atoi, which the getters parse with.
    Go's int is 64 bits wide. */
module Decimal {
  import opened OggTypes

  const Zero: uint8 := 0x30  // '0'
  const Minus: uint8 := 0x2D // '-'
  const Plus: uint8 := 0x2B  // '+'

  predicate IsDigit(c: uint8)
  {
    Zero <= c < Zero + 10
  }

  predicate AllDigits(s: Bytes)
  {
    forall i | 0 <= i < |s| :: IsDigit(s[i])
  }

  /** The value of a string of decimal digits, most significant first. */
  function DigitsValue(s: Bytes): nat
    requires AllDigits(s)
  {
    if s == [] then 0 else 10 * DigitsValue(s[..|s| - 1]) + (s[|s| - 1] - Zero)
  }

  /** The shortest decimal digits of n. */
  function NatText(n: nat): (s: Bytes)
    decreases n
  {
    if n < 10 then [Zero + n] else NatText(n / 10) + [Zero + n % 10]
  }

  /** fmt.Sprintf("%d", n): a minus sign for negative values, then the digits. */
  function Itoa(n: int): Bytes
  {
    if n < 0 then [Minus] + NatText(-n) else NatText(n)
  }

  /** strconv.Atoi: an optional sign, at least one digit, and a value that
      fits in 64 bits; anything else is an error (here None). */
  function Atoi(s: Bytes): (r: Option<int64>)
  {
    if s == [] then None
    else
      var negative := s[0] == Minus;
      var digits := if s[0] == Minus || s[0] == Plus then s[1..] else s;
      if digits == [] || !AllDigits(digits) then None
      else
        var d: int := DigitsValue(digits);
        var v := if negative then -d else d;
        if -Two64 / 2 <= v < Two64 / 2 then Some(v) else None
  }

  // ---------------------------------------------------------------- lemmas

  lemma {:induction false} NatTextDigits(n: nat)
    ensures |NatText(n)| > 0 && AllDigits(NatText(n)) && DigitsValue(NatText(n)) == n
    decreases n
  {
    if n >= 10 {
      NatTextDigits(n / 10);
      var s := NatText(n);
      assert s[..|s| - 1] == NatText(n / 10);
    }
  }

  /** The decimal text of any 64-bit integer parses back to it: what a
      setter stores, the matching getter returns. */
  lemma AtoiItoa(n: int64)
    ensures Atoi(Itoa(n)) == Some(n)
  {
    var m: int := n;
    var t := NatText(if m < 0 then -m else m);
    NatTextDigits(if m < 0 then -m else m);
    assert IsDigit(t[0]);
    var s := Itoa(n);
    if n < 0 {
      assert s == [Minus] + t && s[0] == Minus && s[1..] == t;
    } else {
      assert s == t && s[0] != Minus && s[0] != Plus;
    }
  }

  /** Text that is not a decimal integer does not parse; in particular the
      empty text and text with a sign alone do not. */
  lemma AtoiRejects(s: Bytes)
    ensures s == [] || s == [Minus] || s == [Plus] ==> Atoi(s) == None
    ensures |s| > 0 && !IsDigit(s[|s| - 1]) ==> Atoi(s) == None
  {
    if |s| > 0 && !IsDigit(s[|s| - 1]) {
      var digits := if s[0] == Minus || s[0] == Plus then s[1..] else s;
      if digits != [] {
        assert digits[|digits| - 1] == s[|s| - 1];
      }
    }
  }

  /** Leading zeros and a plus sign are accepted: "007" and "+7" are 7. */
  lemma AtoiExamples()
    ensures Atoi([Zero, Zero, Zero + 7]) == Some(7)
    ensures Atoi([Plus, Zero + 7]) == Some(7)
    ensures Itoa(127) == [Zero + 1, Zero + 2, Zero + 7]
    ensures Itoa(-3) == [Minus, Zero + 3]
  {
    var a, b: Bytes := [Zero, Zero, Zero + 7], [Plus, Zero + 7];
    assert a[..2] == [Zero, Zero] && [Zero, Zero][..1] == [Zero] && [Zero][..0] == [];
    assert DigitsValue([Zero]) == 0;
    assert DigitsValue([Zero, Zero]) == 0;
    assert DigitsValue(a) == 7;
    assert b[1..] == [Zero + 7] && [Zero + 7][..0] == [];
    assert DigitsValue(b[1..]) == 7;
  }
}
