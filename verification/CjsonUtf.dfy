// Unicode escapes: UTF-16 literals of JSON (section 7 of RFC 8259) and UTF-8 (section 3 of RFC 3629).
module CjsonUtf {

  import opened CjsonText

  predicate IsScalar(cp: nat) {
    cp < 0xD800 || 0xE000 <= cp <= 0x10_FFFF
  }

  predicate IsTail(b: byte) {
    0x80 <= b < 0xC0
  }

  /** The scalar value that a UTF-8 sequence stands for; overlong forms and surrogates stand for none. */
  function DecodeUtf8(s: seq<byte>): Option<nat> {
    if |s| == 1 && s[0] < 0x80 then Some(s[0])
    else if |s| == 2 && 0xC2 <= s[0] < 0xE0 && IsTail(s[1]) then Some((s[0] as int - 0xC0) * 64 + (s[1] as int - 0x80))
    else if |s| == 3 && 0xE0 <= s[0] < 0xF0 && IsTail(s[1]) && IsTail(s[2]) then
      var cp := (s[0] as int - 0xE0) * 4096 + (s[1] as int - 0x80) * 64 + (s[2] as int - 0x80);
      if cp < 0x800 || !IsScalar(cp) then None else Some(cp)
    else if |s| == 4 && 0xF0 <= s[0] < 0xF5 && IsTail(s[1]) && IsTail(s[2]) && IsTail(s[3]) then
      var cp := (s[0] as int - 0xF0) * 0x4_0000 + (s[1] as int - 0x80) * 4096 + (s[2] as int - 0x80) * 64 + (s[3] as int - 0x80);
      if cp < 0x1_0000 || !IsScalar(cp) then None else Some(cp)
    else None
  }

  /** The digits of a number to the base 64. */
  lemma SixBitGroups(cp: nat)
    ensures cp == cp / 64 * 64 + cp % 64
    ensures cp / 64 == cp / 4096 * 64 + cp / 64 % 64
    ensures cp / 4096 == cp / 0x4_0000 * 64 + cp / 4096 % 64
  {
  }

  lemma DecodeOne(a: nat)
    requires a < 0x80
    ensures DecodeUtf8([a]) == Some(a)
  {
  }

  lemma DecodeTwo(a: nat, b: nat)
    requires 2 <= a < 32 && b < 64
    ensures DecodeUtf8([0xC0 + a, 0x80 + b]) == Some(a * 64 + b)
  {
  }

  lemma DecodeThree(a: nat, b: nat, d: nat)
    requires a < 16 && b < 64 && d < 64 && 0x800 <= a * 4096 + b * 64 + d
    ensures DecodeUtf8([0xE0 + a, 0x80 + b, 0x80 + d])
         == if IsScalar(a * 4096 + b * 64 + d) then Some(a * 4096 + b * 64 + d) else None
  {
  }

  lemma DecodeFour(a: nat, b: nat, d: nat, e: nat)
    requires a < 5 && b < 64 && d < 64 && e < 64
    requires 0x1_0000 <= a * 0x4_0000 + b * 4096 + d * 64 + e <= 0x10_FFFF
    ensures DecodeUtf8([0xF0 + a, 0x80 + b, 0x80 + d, 0x80 + e]) == Some(a * 0x4_0000 + b * 4096 + d * 64 + e)
  {
  }

  /** UTF-8 loses nothing, and only surrogates have an encoding that is not valid. */
  lemma DecodeOfUtf8(cp: nat)
    requires cp <= 0x10_FFFF
    ensures DecodeUtf8(Utf8(cp)) == if IsScalar(cp) then Some(cp) else None
  {
    hide DecodeUtf8;
    SixBitGroups(cp);
    if cp < 0x80 {
      DecodeOne(cp);
    } else if cp < 0x800 {
      DecodeTwo(cp / 64, cp % 64);
    } else if cp < 0x1_0000 {
      DecodeThree(cp / 4096, cp / 64 % 64, cp % 64);
    } else {
      DecodeFour(cp / 0x4_0000, cp / 4096 % 64, cp / 64 % 64, cp % 64);
    }
  }

  /** The other way round: what decodes is the encoding of a scalar value, and no other bytes do. */
  lemma Utf8OfDecoded(s: seq<byte>)
    requires DecodeUtf8(s).Some?
    ensures IsScalar(DecodeUtf8(s).value) && Utf8(DecodeUtf8(s).value) == s
  {
    if |s| == 2 {
      assert s == [s[0], s[1]];
    } else if |s| == 3 {
      assert s == [s[0], s[1], s[2]];
      GroupsOfThree(s[0] - 0xE0, s[1] - 0x80, s[2] - 0x80);
    } else if |s| == 4 {
      assert s == [s[0], s[1], s[2], s[3]];
      GroupsOfFour(s[0] - 0xF0, s[1] - 0x80, s[2] - 0x80, s[3] - 0x80);
    }
  }

  lemma GroupsOfThree(a: nat, b: nat, d: nat)
    requires b < 64 && d < 64
    ensures var cp := a * 4096 + b * 64 + d; cp / 4096 == a && cp / 64 % 64 == b && cp % 64 == d
  {
    assert (a * 4096 + b * 64 + d) / 64 == a * 64 + b;
  }

  lemma GroupsOfFour(a: nat, b: nat, d: nat, e: nat)
    requires b < 64 && d < 64 && e < 64
    ensures var cp := a * 0x4_0000 + b * 4096 + d * 64 + e;
            cp / 0x4_0000 == a && cp / 4096 % 64 == b && cp / 64 % 64 == d && cp % 64 == e
  {
    var cp := a * 0x4_0000 + b * 4096 + d * 64 + e;
    assert cp / 64 == a * 4096 + b * 64 + d;
    GroupsOfThree(a, b, d);
    assert cp / 64 / 64 == cp / 4096 && cp / 4096 / 64 == cp / 0x4_0000;
    assert cp / 4096 == a * 64 + b;
  }

  /** A \u escape in lower-case digits. */
  function UnitLiteral(n: nat): seq<byte>
    requires n < 0x1_0000
  {
    [BACKSLASH, LETTER_U, HexDigit(n / 4096), HexDigit(n / 256 % 16), HexDigit(n / 16 % 16), HexDigit(n % 16)]
  }

  /** The JSON escape of a scalar value: one unit, or a surrogate pair. */
  function ScalarLiteral(cp: nat): seq<byte>
    requires IsScalar(cp)
  {
    if cp < 0x1_0000 then UnitLiteral(cp)
    else UnitLiteral(0xD800 + (cp - 0x1_0000) / 1024) + UnitLiteral(0xDC00 + (cp - 0x1_0000) % 1024)
  }

  lemma HexOfDigit(n: nat)
    requires n < 16
    ensures HexValue(HexDigit(n)) == n
  {
  }

  /** The digits of a number to the base 16. */
  lemma HexDigits(n: nat)
    requires n < 0x1_0000
    ensures ((n / 4096 * 16 + n / 256 % 16) * 16 + n / 16 % 16) * 16 + n % 16 == n
  {
    assert n / 16 == n / 256 * 16 + n / 16 % 16;
    assert n / 256 == n / 4096 * 16 + n / 256 % 16;
  }

  lemma Hex4OfDigits(c: seq<byte>, q: nat, a: nat, b: nat, d: nat, e: nat)
    requires q + 4 <= |c| && a < 16 && b < 16 && d < 16 && e < 16
    requires c[q] == HexDigit(a) && c[q + 1] == HexDigit(b) && c[q + 2] == HexDigit(d) && c[q + 3] == HexDigit(e)
    ensures Hex4(c, q) == ((a * 16 + b) * 16 + d) * 16 + e
  {
    hide HexDigit, HexValue;
    HexOfDigit(a);
    HexOfDigit(b);
    HexOfDigit(d);
    HexOfDigit(e);
  }

  lemma Hex4OfUnit(c: seq<byte>, p: nat, n: nat)
    requires n < 0x1_0000 && p + 6 <= |c| && c[p..p + 6] == UnitLiteral(n)
    ensures Hex4(c, p + 2) == n && c[p] == BACKSLASH && c[p + 1] == LETTER_U
  {
    hide Hex4, HexDigit;
    var u := c[p..p + 6];
    assert u[0] == c[p] && u[1] == c[p + 1] && u[2] == c[p + 2] && u[3] == c[p + 3] && u[4] == c[p + 4] && u[5] == c[p + 5];
    Hex4OfDigits(c, p + 2, n / 4096, n / 256 % 16, n / 16 % 16, n % 16);
    HexDigits(n);
  }

  /** The escape of every scalar value, wherever it stands in a text, gives that value in UTF-8. */
  lemma LiteralOfScalar(c: seq<byte>, p: nat, end: nat, cp: nat)
    requires IsScalar(cp) && p + |ScalarLiteral(cp)| <= end <= |c|
    requires c[p..p + |ScalarLiteral(cp)|] == ScalarLiteral(cp)
    ensures Utf16Literal(c, p, end) == Some((|ScalarLiteral(cp)|, Utf8(cp)))
    ensures DecodeUtf8(Utf16Literal(c, p, end).value.1) == Some(cp)
  {
    hide Hex4, UnitLiteral, Utf8, DecodeUtf8;
    DecodeOfUtf8(cp);
    if cp < 0x1_0000 {
      UnitLength(cp);
      Hex4OfUnit(c, p, cp);
    } else {
      var high, low := 0xD800 + (cp - 0x1_0000) / 1024, 0xDC00 + (cp - 0x1_0000) % 1024;
      UnitLength(high);
      UnitLength(low);
      assert c[p..p + 6] == ScalarLiteral(cp)[..6] == UnitLiteral(high);
      assert c[p + 6..p + 12] == ScalarLiteral(cp)[6..] == UnitLiteral(low);
      Hex4OfUnit(c, p, high);
      Hex4OfUnit(c, p + 6, low);
    }
  }

  lemma UnitLength(n: nat)
    requires n < 0x1_0000
    ensures |UnitLiteral(n)| == 6
  {
  }

  /** Whatever the digits are, the literal stands for valid UTF-8. */
  lemma LiteralIsUtf8(c: seq<byte>, p: nat, end: nat)
    requires p <= end <= |c| && Utf16Literal(c, p, end).Some?
    ensures DecodeUtf8(Utf16Literal(c, p, end).value.1).Some?
  {
    hide Hex4, Utf8, DecodeUtf8;
    var first := Hex4(c, p + 2);
    if 0xD800 <= first <= 0xDBFF {
      DecodeOfUtf8(0x1_0000 + (first - 0xD800) * 1024 + (Hex4(c, p + 8) - 0xDC00));
    } else {
      DecodeOfUtf8(first);
    }
  }

  function Shift6(cp: nat, k: nat): nat
    requires k < 4
  {
    if k == 0 then cp else if k == 1 then cp / 64 else if k == 2 then cp / 4096 else cp / 0x4_0000
  }

  lemma Shift6Step(cp: nat, k: nat)
    requires k < 3
    ensures Shift6(cp, k) / 64 == Shift6(cp, k + 1)
  {
  }

  /** What the number of bytes puts into the first one. */
  function FirstByteMark(length: nat): nat {
    if length == 2 then 0xC0 else if length == 3 then 0xE0 else if length == 4 then 0xF0 else 0
  }

  lemma Utf8Byte(cp: nat, j: nat)
    requires cp <= 0x10_FFFF && j < |Utf8(cp)|
    ensures Utf8(cp)[j] == if j == 0 then FirstByteMark(|Utf8(cp)|) + Shift6(cp, |Utf8(cp)| - 1)
                           else 0x80 + Shift6(cp, |Utf8(cp)| - 1 - j) % 64
  {
  }

  lemma Utf8Length(cp: nat)
    requires cp <= 0x10_FFFF
    ensures |Utf8(cp)| == if cp < 0x80 then 1 else if cp < 0x800 then 2 else if cp < 0x1_0000 then 3 else 4
    ensures Shift6(cp, 0) == cp
  {
  }

  /** Writes the UTF-8 form of `cp` at `at`, last byte first. */
  method WriteUtf8(cp: nat, output: array<byte>, at: nat) returns (next: nat)
    requires cp <= 0x10_FFFF && at + |Utf8(cp)| <= output.Length
    modifies output
    ensures next == at + |Utf8(cp)| && output[at..next] == Utf8(cp)
    ensures output[..at] == old(output[..at])
  {
    hide Utf8, Shift6;
    Utf8Length(cp);
    var length, firstByteMark := 1, 0;
    if cp < 0x80 {
    } else if cp < 0x800 {
      length, firstByteMark := 2, 0xC0;
    } else if cp < 0x1_0000 {
      length, firstByteMark := 3, 0xE0;
    } else {
      length, firstByteMark := 4, 0xF0;
    }
    assert length == |Utf8(cp)| && firstByteMark == FirstByteMark(length);
    hide FirstByteMark;
    var position, rest := length - 1, cp;
    while position > 0
      invariant 0 <= position < length
      invariant rest == Shift6(cp, length - 1 - position)
      invariant forall k :: at + position < k < at + length ==> output[k] == Utf8(cp)[k - at]
      invariant forall k :: 0 <= k < at ==> output[k] == old(output[k])
    {
      Utf8Byte(cp, position);
      Shift6Step(cp, length - 1 - position);
      output[at + position] := 0x80 + rest % 64;
      rest := rest / 64;
      position := position - 1;
    }
    Utf8Byte(cp, 0);
    output[at] := firstByteMark + rest;
    next := at + length;
  }
}
