// Every spelling of a string that section 7 of RFC 8259 allows, and what the parser makes of it.
module CjsonSpelling {

  import opened CjsonText
  import opened CjsonUtf
  import opened CjsonRoundTrip

  /** One unit of a spelling: a byte as it is, a two-character escape, an escape in four or eight digits with
      their values, or four digits that are not all digits. */
  datatype Unit =
    | Raw(b: byte)
    | Pair(letter: byte, b: byte)
    | Digits(digits: seq<byte>, values: seq<nat>)
    | Broken(digits: seq<byte>)

  /** The eight two-character escapes, and what they stand for. */
  predicate StandsFor(letter: byte, b: byte) {
    || (letter == 34 && b == 34)
    || (letter == 92 && b == 92)
    || (letter == 47 && b == 47)
    || (letter == 98 && b == 8)
    || (letter == 102 && b == 12)
    || (letter == 110 && b == 10)
    || (letter == 114 && b == 13)
    || (letter == 116 && b == 9)
  }

  /** A hexadecimal digit of either case. */
  predicate DigitIs(d: byte, v: nat) {
    || (48 <= d <= 57 && v == d - 48)
    || (65 <= d <= 70 && v == d - 55)
    || (97 <= d <= 102 && v == d - 87)
  }

  ghost predicate NoDigit(d: byte) {
    forall v: nat :: !DigitIs(d, v)
  }

  predicate DigitsAre(digits: seq<byte>, values: seq<nat>) {
    |digits| == |values| && forall k :: 0 <= k < |digits| ==> DigitIs(digits[k], values[k])
  }

  function FourDigits(values: seq<nat>): nat
    requires |values| == 4
  {
    values[0] * 0x1000 + values[1] * 0x100 + values[2] * 0x10 + values[3]
  }

  /** The code point of four digits, or of a surrogate pair. */
  function CodePoint(values: seq<nat>): int
    requires |values| == 4 || |values| == 8
  {
    if |values| == 4 then FourDigits(values)
    else 0x1_0000 + (FourDigits(values[..4]) - 0xD800) * 0x400 + (FourDigits(values[4..]) - 0xDC00)
  }

  predicate IsSurrogate(n: int) {
    0xD800 <= n <= 0xDFFF
  }

  ghost predicate ValidUnit(u: Unit) {
    match u
    case Raw(b) => b != 34 && b != 92
    case Pair(letter, b) => StandsFor(letter, b)
    case Digits(digits, values) =>
      && DigitsAre(digits, values)
      && ((|values| == 4 && !IsSurrogate(FourDigits(values)))
          || (|values| == 8 && 0xD800 <= FourDigits(values[..4]) <= 0xDBFF && 0xDC00 <= FourDigits(values[4..]) <= 0xDFFF))
    case Broken(digits) =>
      && |digits| == 4 && (forall k :: 0 <= k < 4 ==> digits[k] != 34 && digits[k] != 92)
      && exists k :: 0 <= k < 4 && NoDigit(digits[k])
  }

  ghost predicate AllValid(units: seq<Unit>) {
    forall k :: 0 <= k < |units| ==> ValidUnit(units[k])
  }

  function Spell(u: Unit): seq<byte> {
    match u
    case Raw(b) => [b]
    case Pair(letter, _) => [92, letter]
    case Digits(digits, _) =>
      if |digits| == 8 then [92, 117] + digits[..4] + ([92, 117] + digits[4..]) else [92, 117] + digits
    case Broken(digits) => [92, 117] + digits
  }

  /** What a unit stands for: code points in UTF-8, and U+0000 for digits that are none. */
  function Stands(u: Unit): seq<byte>
    requires ValidUnit(u)
  {
    match u
    case Raw(b) => [b]
    case Pair(_, b) => [b]
    case Digits(_, values) => CodePointInRange(values); Utf8(CodePoint(values))
    case Broken(_) => [0]
  }

  lemma CodePointInRange(values: seq<nat>)
    requires |values| == 4 || |values| == 8
    requires forall k :: 0 <= k < |values| ==> values[k] < 16
    requires |values| == 4 ==> !IsSurrogate(FourDigits(values))
    requires |values| == 8 ==>
               0xD800 <= FourDigits(values[..4]) <= 0xDBFF && 0xDC00 <= FourDigits(values[4..]) <= 0xDFFF
    ensures 0 <= CodePoint(values) <= 0x10_FFFF && IsScalar(CodePoint(values))
    ensures |values| == 8 ==> CodePoint(values) >= 0x1_0000
  {
  }

  function SpellAll(units: seq<Unit>): seq<byte> {
    if units == [] then [] else Spell(units[0]) + SpellAll(units[1..])
  }

  function StandsAll(units: seq<Unit>): seq<byte>
    requires AllValid(units)
  {
    if units == [] then [] else Stands(units[0]) + StandsAll(units[1..])
  }

  // ----- One unit -----

  lemma DigitValue(d: byte, v: nat)
    requires DigitIs(d, v)
    ensures HexValue(d) == v < 16 && d != 34 && d != 92
  {
  }

  lemma NoDigitValue(d: byte)
    requires NoDigit(d)
    ensures HexValue(d) == -1
  {
    assert !DigitIs(d, if d < 48 then 0 else d - 48);
    assert !DigitIs(d, if d < 55 then 0 else d - 55);
    assert !DigitIs(d, if d < 87 then 0 else d - 87);
  }

  /** Four digits of either case, read as a number. */
  lemma Hex4IsFourDigits(c: seq<byte>, q: nat, values: seq<nat>)
    requires q + 4 <= |c| && DigitsAre(c[q..q + 4], values)
    ensures Hex4(c, q) == FourDigits(values) < 0x1_0000
  {
    hide HexValue;
    var d := c[q..q + 4];
    assert d[0] == c[q] && d[1] == c[q + 1] && d[2] == c[q + 2] && d[3] == c[q + 3];
    DigitValue(d[0], values[0]);
    DigitValue(d[1], values[1]);
    DigitValue(d[2], values[2]);
    DigitValue(d[3], values[3]);
  }

  lemma Hex4OfBroken(c: seq<byte>, q: nat, k: nat)
    requires q + 4 <= |c| && k < 4 && NoDigit(c[q + k])
    ensures Hex4(c, q) == 0
  {
    NoDigitValue(c[q + k]);
  }

  /** Stepping over bytes that are neither quotes nor backslashes. */
  lemma {:induction false} ScanPlain(c: seq<byte>, p: nat, q: nat)
    requires p <= q <= |c| && forall k :: p <= k < q ==> c[k] != 34 && c[k] != 92
    ensures ScanString(c, p) == ScanString(c, q)
    decreases q - p
  {
    if p < q {
      ScanPlain(c, p + 1, q);
    }
  }

  /** Both scans find the same closing quote, or neither finds one. */
  predicate SameEnd(c: seq<byte>, p: nat, q: nat) {
    var r, t := ScanString(c, p), ScanString(c, q);
    r.Some? == t.Some? && (r.Some? ==> r.value.0 == t.value.0 && q <= t.value.0)
  }

  lemma ScanEscape(c: seq<byte>, p: nat, q: nat)
    requires p + 2 <= q <= |c| && c[p] == 92 && forall k :: p + 2 <= k < q ==> c[k] != 34 && c[k] != 92
    ensures SameEnd(c, p, q)
  {
    ScanPlain(c, p + 2, q);
  }

  lemma FourAt(c: seq<byte>, p: nat, d: seq<byte>)
    requires |d| == 4 && At(c, p, [92, 117] + d)
    ensures p + 6 <= |c| && c[p] == 92 && c[p + 1] == 117 && c[p + 2..p + 6] == d
    ensures forall k :: p + 2 <= k < p + 6 ==> c[k] == d[k - (p + 2)]
  {
    AtSplit(c, p, [92, 117], d);
    AtByte(c, p, [92, 117], 0);
    AtByte(c, p, [92, 117], 1);
    forall k | p + 2 <= k < p + 6 ensures c[k] == d[k - (p + 2)] {
      AtByte(c, p + 2, d, k - (p + 2));
    }
  }

  lemma PlainDigits(digits: seq<byte>, values: seq<nat>)
    requires DigitsAre(digits, values)
    ensures forall k :: 0 <= k < |digits| ==> digits[k] != 34 && digits[k] != 92 && values[k] < 16
  {
    forall k | 0 <= k < |digits| ensures digits[k] != 34 && digits[k] != 92 && values[k] < 16 {
      DigitValue(digits[k], values[k]);
    }
  }

  lemma ScanUnit(c: seq<byte>, p: nat, u: Unit)
    requires ValidUnit(u) && At(c, p, Spell(u))
    ensures SameEnd(c, p, p + |Spell(u)|)
  {
    match u
    case Raw(b) =>
      AtByte(c, p, [b], 0);
    case Pair(letter, b) =>
      AtByte(c, p, [92, letter], 0);
      AtByte(c, p, [92, letter], 1);
      ScanEscape(c, p, p + 2);
    case Digits(digits, values) =>
      PlainDigits(digits, values);
      if |digits| == 8 {
        AtSplit(c, p, [92, 117] + digits[..4], [92, 117] + digits[4..]);
        ScanFour(c, p, digits[..4]);
        ScanFour(c, p + 6, digits[4..]);
      } else {
        ScanFour(c, p, digits);
      }
    case Broken(digits) =>
      ScanFour(c, p, digits);
  }

  lemma ScanFour(c: seq<byte>, p: nat, d: seq<byte>)
    requires |d| == 4 && At(c, p, [92, 117] + d) && forall k :: 0 <= k < 4 ==> d[k] != 34 && d[k] != 92
    ensures SameEnd(c, p, p + 6)
  {
    hide At, SameEnd;
    FourAt(c, p, d);
    ScanEscape(c, p, p + 6);
  }

  /** Unescaping reads a unit as what it stands for. */
  lemma UnescapeUnit(c: seq<byte>, p: nat, end: nat, u: Unit)
    requires ValidUnit(u) && At(c, p, Spell(u)) && p + |Spell(u)| <= end < |c|
    ensures Unescape(c, p, end) == Prepend(Stands(u), Unescape(c, p + |Spell(u)|, end))
  {
    hide Hex4, Utf8, At, DigitIs, Utf16Literal;
    match u
    case Raw(b) =>
      AtByte(c, p, [b], 0);
    case Pair(letter, b) =>
      AtByte(c, p, [92, letter], 0);
      AtByte(c, p, [92, letter], 1);
    case Digits(digits, values) =>
      DigitsUnit(c, p, end, digits, values);
    case Broken(digits) =>
      BrokenUnit(c, p, end, digits);
  }

  lemma BrokenUnit(c: seq<byte>, p: nat, end: nat, digits: seq<byte>)
    requires var u := Broken(digits); ValidUnit(u) && At(c, p, Spell(u)) && p + |Spell(u)| <= end < |c|
    ensures var u := Broken(digits);
            Unescape(c, p, end) == Prepend(Stands(u), Unescape(c, p + |Spell(u)|, end))
  {
    hide Hex4, Utf8, At, DigitIs;
    FourAt(c, p, digits);
    var k :| 0 <= k < 4 && NoDigit(digits[k]);
    assert c[p + 2 + k] == digits[k];
    Hex4OfBroken(c, p + 2, k);
    Utf8OfZero();
    assert Utf16Literal(c, p, end) == Some((6, [0]));
  }

  lemma Utf8OfZero()
    ensures Utf8(0) == [0]
  {
  }

  lemma DigitsUnit(c: seq<byte>, p: nat, end: nat, digits: seq<byte>, values: seq<nat>)
    requires var u := Digits(digits, values); ValidUnit(u) && At(c, p, Spell(u)) && p + |Spell(u)| <= end < |c|
    ensures var u := Digits(digits, values);
            Unescape(c, p, end) == Prepend(Stands(u), Unescape(c, p + |Spell(u)|, end))
  {
    hide Hex4, Utf8, DigitIs;
    PlainDigits(digits, values);
    CodePointInRange(values);
    if |digits| == 8 {
      AtSplit(c, p, [92, 117] + digits[..4], [92, 117] + digits[4..]);
      FourAt(c, p, digits[..4]);
      FourAt(c, p + 6, digits[4..]);
      Hex4IsFourDigits(c, p + 2, values[..4]);
      Hex4IsFourDigits(c, p + 8, values[4..]);
      assert Utf16Literal(c, p, end) == Some((12, Utf8(CodePoint(values))));
    } else {
      FourAt(c, p, digits);
      Hex4IsFourDigits(c, p + 2, values);
      assert Utf16Literal(c, p, end) == Some((6, Utf8(CodePoint(values))));
    }
  }

  // ----- Whole strings -----

  lemma {:induction false} ScanUnits(c: seq<byte>, p: nat, units: seq<Unit>)
    requires AllValid(units) && At(c, p, SpellAll(units))
    ensures SameEnd(c, p, p + |SpellAll(units)|) || units == []
    decreases |units|
  {
    hide At, Spell, ValidUnit, ScanString;
    if units != [] {
      var u, rest := units[0], units[1..];
      AtSplit(c, p, Spell(u), SpellAll(rest));
      ScanUnit(c, p, u);
      ScanUnits(c, p + |Spell(u)|, rest);
    }
  }

  lemma {:induction false} UnescapeUnits(c: seq<byte>, p: nat, end: nat, units: seq<Unit>)
    requires AllValid(units) && At(c, p, SpellAll(units)) && p + |SpellAll(units)| <= end < |c|
    ensures Unescape(c, p, end) == Prepend(StandsAll(units), Unescape(c, p + |SpellAll(units)|, end))
    decreases |units|
  {
    hide At, Spell, Stands, ValidUnit, Unescape, Prepend;
    if units == [] {
      CjsonParse.PrependNothing(Unescape(c, p, end));
    } else {
      var u, rest := units[0], units[1..];
      AtSplit(c, p, Spell(u), SpellAll(rest));
      UnescapeUnit(c, p, end, u);
      UnescapeUnits(c, p + |Spell(u)|, end, rest);
      CjsonParse.PrependTwo(Stands(u), StandsAll(rest), Unescape(c, p + |SpellAll(units)|, end));
    }
  }

  /** However a text is spelled, the parser reads that text. */
  lemma SpelledIsParsed(c: seq<byte>, i: nat, units: seq<Unit>)
    requires AllValid(units) && At(c, i, [34] + SpellAll(units) + [34])
    ensures ParseString(c, i) == Some((StandsAll(units), i + 2 + |SpellAll(units)|))
  {
    hide At, SpellAll, StandsAll, Unescape, AllValid, Prepend;
    AtSplit3(c, i, [34], SpellAll(units), [34]);
    AtByte(c, i, [34], 0);
    var end := i + 1 + |SpellAll(units)|;
    AtByte(c, end, [34], 0);
    ScanUnits(c, i + 1, units);
    NothingSpelled();
    UnescapeUnits(c, i + 1, end, units);
    UnescapeAtEnd(c, end);
    CjsonParse.PrependEnd(StandsAll(units));
  }

  lemma NothingSpelled()
    ensures SpellAll([]) == []
  {
  }

  lemma UnescapeAtEnd(c: seq<byte>, end: nat)
    requires end < |c|
    ensures Unescape(c, end, end) == Some([])
  {
  }

  // ----- What is refused -----

  /** An escape that stands for nothing: no such letter, too few digits, or half of a surrogate pair. */
  ghost predicate NoEscape(t: seq<byte>, values: seq<nat>) {
    || (|t| == 2 && t[0] == 92 && t[1] != 117 && forall b: byte :: !StandsFor(t[1], b))
    || (3 <= |t| <= 6 && t[..2] == [92, 117] && t[|t| - 1] == 34
        && forall k :: 2 <= k < |t| - 1 ==> t[k] != 34 && t[k] != 92)
    || (|t| == 7 && |values| == 4 && t[..2] == [92, 117] && DigitsAre(t[2..6], values)
        && (0xDC00 <= FourDigits(values) <= 0xDFFF || (0xD800 <= FourDigits(values) <= 0xDBFF && t[6] != 92)))
    || (|t| == 8 && |values| == 4 && t[..2] == [92, 117] && DigitsAre(t[2..6], values)
        && 0xD800 <= FourDigits(values) <= 0xDBFF && t[7] != 117)
    || (|t| == 12 && |values| == 8 && t[..2] == [92, 117] && DigitsAre(t[2..6], values[..4])
        && DigitsAre(t[8..], values[4..])
        && 0xD800 <= FourDigits(values[..4]) <= 0xDBFF && !(0xDC00 <= FourDigits(values[4..]) <= 0xDFFF))
  }

  lemma NoSuchLetter(b: byte)
    requires b != 117 && forall x: byte :: !StandsFor(b, x)
    ensures SimpleEscape(b) == None
  {
    assert !StandsFor(b, 34) && !StandsFor(b, 92) && !StandsFor(b, 47) && !StandsFor(b, 8);
    assert !StandsFor(b, 12) && !StandsFor(b, 10) && !StandsFor(b, 13) && !StandsFor(b, 9);
  }

  lemma AtSlice(c: seq<byte>, p: nat, t: seq<byte>, a: nat, b: nat)
    requires At(c, p, t) && a <= b <= |t|
    ensures c[p + a..p + b] == t[a..b]
  {
    forall k | a <= k < b ensures c[p + k] == t[k] {
      AtByte(c, p, t, k);
    }
  }

  lemma TooFewDigits(c: seq<byte>, p: nat, t: seq<byte>)
    requires 3 <= |t| <= 6 && t[..2] == [92, 117] && t[|t| - 1] == 34 && At(c, p, t)
    requires forall k :: 2 <= k < |t| - 1 ==> t[k] != 34 && t[k] != 92
    ensures ScanString(c, p).Some? && ScanString(c, p).value.0 < p + 6 && c[p] == 92 && c[p + 1] == 117
  {
    var q := p + |t| - 1;
    assert t[..2][0] == t[0] && t[..2][1] == t[1];
    AtByte(c, p, t, 0);
    AtByte(c, p, t, 1);
    AtByte(c, p, t, |t| - 1);
    forall k | p + 2 <= k < q ensures c[k] != 34 && c[k] != 92 {
      AtByte(c, p, t, k - p);
    }
    ScanEscape(c, p, q);
  }

  lemma NoEscapeIsNone(c: seq<byte>, p: nat, end: nat, t: seq<byte>, values: seq<nat>)
    requires NoEscape(t, values) && At(c, p, t) && p < end < |c|
    requires ScanString(c, p).Some? && ScanString(c, p).value.0 == end
    ensures Unescape(c, p, end) == None
  {
    hide Hex4, Utf8;
    AtByte(c, p, t, 0);
    AtByte(c, p, t, 1);
    if |t| == 2 {
      NoSuchLetter(t[1]);
    } else if |t| <= 6 {
      TooFewDigits(c, p, t);
    } else {
      assert t[..2][0] == t[0] && t[..2][1] == t[1];
      AtSlice(c, p, t, 2, 6);
      AtByte(c, p, t, 6);
      Hex4IsFourDigits(c, p + 2, values[..4]);
      assert |values| == 4 ==> values[..4] == values;
      if |t| == 8 {
        AtByte(c, p, t, 7);
      } else if |t| == 12 {
        AtSlice(c, p, t, 8, 12);
        Hex4IsFourDigits(c, p + 8, values[4..]);
      }
      assert Utf16Literal(c, p, end) == None;
    }
  }

  /** After any spelling, an escape that stands for nothing makes the string none. */
  lemma BadEscapeIsRefused(c: seq<byte>, i: nat, units: seq<Unit>, t: seq<byte>, values: seq<nat>)
    requires AllValid(units) && NoEscape(t, values) && At(c, i, [34] + SpellAll(units) + t)
    ensures ParseString(c, i) == None
  {
    hide SpellAll, StandsAll, Unescape, AllValid, NoEscape;
    AtSplit3(c, i, [34], SpellAll(units), t);
    AtByte(c, i, [34], 0);
    var p := i + 1 + |SpellAll(units)|;
    StartsWithBackslash(t, values);
    AtByte(c, p, t, 0);
    ScanUnits(c, i + 1, units);
    NothingSpelled();
    if ScanString(c, i + 1).Some? {
      var end := ScanString(c, i + 1).value.0;
      UnescapeUnits(c, i + 1, end, units);
      NoEscapeIsNone(c, p, end, t, values);
    }
  }

  lemma StartsWithBackslash(t: seq<byte>, values: seq<nat>)
    requires NoEscape(t, values)
    ensures |t| >= 2 && t[0] == 92
  {
    assert |t| > 2 ==> t[..2][0] == t[0];
  }

  /** A string that the text does not close is none. */
  lemma UnclosedIsRefused(c: seq<byte>, i: nat, units: seq<Unit>)
    requires AllValid(units) && At(c, i, [34] + SpellAll(units)) && i + 1 + |SpellAll(units)| == |c|
    ensures ParseString(c, i) == None
  {
    hide SpellAll, AllValid;
    AtSplit(c, i, [34], SpellAll(units));
    ScanUnits(c, i + 1, units);
    NothingSpelled();
  }
}
