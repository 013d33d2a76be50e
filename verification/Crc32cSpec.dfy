// CRC-32C (section 12.1 of RFC 3720) one bit at a time, and its algebra over GF(2).
module Crc32cSpec {

  /** The CRC-32C polynomial in reversed bit order. */
  const POLY: bv32 := 0x82f63b78

  // The machine operations; the algebra below goes through them, never through bit patterns.
  function Xor32(a: bv32, b: bv32): bv32 { a ^ b }
  function Xor8(a: bv8, b: bv8): bv8 { a ^ b }
  function Low32(b: bv32): bv8 { (b & 0xff) as bv8 }
  function High32(b: bv32): bv32 { b & 0xffff_ff00 }
  function Wide8(b: bv8): bv32 { b as bv32 }
  function Shr1(b: bv32): bv32 { b >> 1 }
  function Shl1(b: bv32): bv32 { b << 1 }
  function Shr8(b: bv32): bv32 { b >> 8 }

  /** A 32-bit register, read as a polynomial over GF(2). */
  datatype Register = Register(bits: bv32) {
    function Xor(r: Register): Register { Register(Xor32(bits, r.bits)) }
    function Half(): Register { Register(Shr1(bits)) }
    function Double(): Register { Register(Shl1(bits)) }
    function Shift8(): Register { Register(Shr8(bits)) }
    function Low(): Octet { Octet(Low32(bits)) }
    predicate Odd() { bits & 1 == 1 }
  }

  /** A byte of a message. */
  datatype Octet = Octet(bits: bv8) {
    function Xor(o: Octet): Octet { Octet(Xor8(bits, o.bits)) }
  }

  const ZERO := Register(0)

  function OfByte(b: Octet): Register { Register(Wide8(b.bits)) }

  // ----- Definition -----

  /** One bit of the CRC. */
  function Step(c: Register): Register {
    if c.Odd() then c.Half().Xor(Register(POLY)) else c.Half()
  }

  function Steps(n: nat, c: Register): Register {
    if n == 0 then c else Steps(n - 1, Step(c))
  }

  /** One byte of the CRC: the meaning of the crc32b instruction. */
  function Update(c: Register, b: Octet): Register {
    Steps(8, c.Xor(OfByte(b)))
  }

  /** All bytes of a message; on eight bytes, the meaning of the crc32q instruction. */
  function Crc(c: Register, s: seq<Octet>): Register
    decreases |s|
  {
    if s == [] then c else Crc(Update(c, s[0]), s[1..])
  }

  /** CRC-32C with the pre- and post-conditioning of the standard, continuing from `crc`. */
  function Crc32c(crc: Register, s: seq<Octet>): Register {
    Crc(crc.Xor(Register(0xffff_ffff)), s).Xor(Register(0xffff_ffff))
  }

  // ----- Exclusive or -----

  lemma XorAssocBits(a: bv32, b: bv32, c: bv32)
    ensures Xor32(Xor32(a, b), c) == Xor32(a, Xor32(b, c))
  {
  }

  lemma XorCommBits(a: bv32, b: bv32)
    ensures Xor32(a, b) == Xor32(b, a)
  {
  }

  lemma XorTwiceBits(a: bv32, b: bv32)
    ensures Xor32(Xor32(a, b), b) == a
  {
  }

  lemma XorZeroBits(a: bv32)
    ensures Xor32(a, 0) == a && Xor32(0, a) == a
  {
  }

  lemma ShiftXorBits(a: bv32, b: bv32)
    ensures Shr1(Xor32(a, b)) == Xor32(Shr1(a), Shr1(b))
    ensures Shl1(Xor32(a, b)) == Xor32(Shl1(a), Shl1(b))
    ensures Xor32(a, b) & 1 == 1 <==> (a & 1 == 1) != (b & 1 == 1)
  {
  }

  lemma OddXor(a: Register, b: Register)
    ensures a.Xor(b).Odd() <==> a.Odd() != b.Odd()
  {
    hide Xor32;
    ShiftXorBits(a.bits, b.bits);
  }

  lemma HalfXor(a: Register, b: Register)
    ensures a.Xor(b).Half() == a.Half().Xor(b.Half())
  {
    hide Xor32, Shr1;
    ShiftXorBits(a.bits, b.bits);
  }

  lemma DoubleXor(a: Register, b: Register)
    ensures a.Xor(b).Double() == a.Double().Xor(b.Double())
  {
    hide Xor32, Shl1;
    ShiftXorBits(a.bits, b.bits);
  }

  lemma XorAssoc(a: Register, b: Register, c: Register)
    ensures a.Xor(b).Xor(c) == a.Xor(b.Xor(c))
  {
    hide Xor32;
    XorAssocBits(a.bits, b.bits, c.bits);
  }

  lemma XorComm(a: Register, b: Register)
    ensures a.Xor(b) == b.Xor(a)
  {
    hide Xor32;
    XorCommBits(a.bits, b.bits);
  }

  lemma XorTwice(a: Register, b: Register)
    ensures a.Xor(b).Xor(b) == a
  {
    hide Xor32;
    XorTwiceBits(a.bits, b.bits);
  }

  lemma XorZero(a: Register)
    ensures a.Xor(ZERO) == a && ZERO.Xor(a) == a
  {
    hide Xor32;
    XorZeroBits(a.bits);
  }

  lemma XorExchange(a: Register, b: Register, c: Register, d: Register)
    ensures a.Xor(b).Xor(c.Xor(d)) == a.Xor(c).Xor(b.Xor(d))
  {
    hide Register.Xor;
    XorAssoc(a, b, c.Xor(d));
    XorAssoc(b, c, d);
    XorComm(b, c);
    XorAssoc(c, b, d);
    XorAssoc(a, c, b.Xor(d));
  }

  // ----- Linearity -----

  lemma StepLinear(a: Register, b: Register)
    ensures Step(a.Xor(b)) == Step(a).Xor(Step(b))
  {
    hide Register.Xor, Register.Odd, Register.Half;
    OddXor(a, b);
    HalfXor(a, b);
    var x, y, g := a.Half(), b.Half(), Register(POLY);
    XorExchange(x, g, y, g);
    XorComm(y, g);
    XorAssoc(x, y, g);
    XorAssoc(x, g, y);
    XorTwice(x.Xor(y), g);
    XorAssoc(x.Xor(y), g, g);
  }

  /** Feeding zero bits is linear in the register. */
  lemma {:induction false} StepsLinear(n: nat, a: Register, b: Register)
    ensures Steps(n, a.Xor(b)) == Steps(n, a).Xor(Steps(n, b))
    decreases n
  {
    hide Register.Xor, Step;
    if n > 0 {
      StepLinear(a, b);
      StepsLinear(n - 1, Step(a), Step(b));
    }
  }

  lemma {:induction false} StepsAdd(m: nat, n: nat, c: Register)
    ensures Steps(m + n, c) == Steps(n, Steps(m, c))
    decreases m
  {
    hide Step;
    if m > 0 {
      StepsAdd(m - 1, n, Step(c));
    }
  }

  lemma {:induction false} StepsZero(n: nat)
    ensures Steps(n, ZERO) == ZERO
  {
    if n > 0 {
      assert Step(ZERO) == ZERO;
      StepsZero(n - 1);
    }
  }

  lemma UpdateLinear(a: Register, d: Register, b: Octet)
    ensures Update(a.Xor(d), b) == Update(a, b).Xor(Steps(8, d))
  {
    hide Register.Xor, Steps, OfByte;
    XorAssoc(a, d, OfByte(b));
    XorComm(d, OfByte(b));
    XorAssoc(a, OfByte(b), d);
    StepsLinear(8, a.Xor(OfByte(b)), d);
  }

  /** The initial register contributes separately: the basis for splitting a message. */
  lemma {:induction false} CrcLinear(a: Register, d: Register, s: seq<Octet>)
    ensures Crc(a.Xor(d), s) == Crc(a, s).Xor(Steps(8 * |s|, d))
    decreases |s|
  {
    hide Register.Xor, Step, Update;
    if s == [] {
    } else {
      UpdateLinear(a, d, s[0]);
      CrcLinear(Update(a, s[0]), Steps(8, d), s[1..]);
      StepsAdd(8, 8 * |s[1..]|, d);
    }
  }

  /** The CRC of a concatenation is the CRC of the second part started from that of the first. */
  lemma {:induction false} CrcConcat(c: Register, s: seq<Octet>, t: seq<Octet>)
    ensures Crc(c, s + t) == Crc(Crc(c, s), t)
    decreases |s|
  {
    hide Update;
    if s == [] {
      assert s + t == t;
    } else {
      assert (s + t)[1..] == s[1..] + t;
      CrcConcat(Update(c, s[0]), s[1..], t);
    }
  }

  lemma Crc32cConcat(crc: Register, s: seq<Octet>, t: seq<Octet>)
    ensures Crc32c(crc, s + t) == Crc32c(Crc32c(crc, s), t)
  {
    hide Register.Xor, Crc;
    var ones := Register(0xffff_ffff);
    CrcConcat(crc.Xor(ones), s, t);
    XorTwice(Crc(crc.Xor(ones), s), ones);
  }

  /** Two halves computed independently: advance the first over zeros, then add the second. */
  lemma CrcCombine(c: Register, s: seq<Octet>, t: seq<Octet>)
    ensures Crc(c, s + t) == Steps(8 * |t|, Crc(c, s)).Xor(Crc(ZERO, t))
  {
    hide Register.Xor, Crc, Steps;
    CrcConcat(c, s, t);
    XorZero(Crc(c, s));
    CrcLinear(ZERO, Crc(c, s), t);
    XorComm(Steps(8 * |t|, Crc(c, s)), Crc(ZERO, t));
  }

  // ----- Bytes of a register -----

  function High(c: Register): Register {
    Register(High32(c.bits))
  }

  lemma ByteSplitBits(c: bv32)
    ensures c == Xor32(High32(c), Wide8(Low32(c)))
    ensures Shr8(High32(c)) == Shr8(c)
  {
  }

  lemma ByteSplit(c: Register)
    ensures c == High(c).Xor(OfByte(c.Low()))
    ensures High(c).Shift8() == c.Shift8()
  {
    hide Shr8, Xor32, High32, Wide8, Low32;
    ByteSplitBits(c.bits);
  }

  lemma {:induction false} StepsOfEven(n: nat, c: Register)
    requires LowZero(n, c)
    ensures Steps(n, c) == Halves(n, c)
    decreases n
  {
    if n > 0 {
      StepsOfEven(n - 1, c.Half());
    }
  }

  predicate LowZero(n: nat, c: Register) {
    n == 0 || (!c.Odd() && LowZero(n - 1, c.Half()))
  }

  function Halves(n: nat, c: Register): Register {
    if n == 0 then c else Halves(n - 1, c.Half())
  }

  lemma ShiftsByOne(h: bv32)
    ensures Shr1(Shr1(Shr1(Shr1(Shr1(Shr1(Shr1(Shr1(h)))))))) == Shr8(h)
  {
  }

  lemma HalvesUnfolded(c: Register)
    ensures Halves(8, c) == c.Half().Half().Half().Half().Half().Half().Half().Half()
  {
    hide Register.Half;
    HalvesFour(c);
    HalvesAdd(4, 4, c);
    HalvesFour(c.Half().Half().Half().Half());
  }

  lemma HalvesFour(c: Register)
    ensures Halves(4, c) == c.Half().Half().Half().Half()
  {
    hide Register.Half;
    assert Halves(1, c.Half().Half().Half()) == c.Half().Half().Half().Half();
    assert Halves(2, c.Half().Half()) == Halves(1, c.Half().Half().Half());
    assert Halves(3, c.Half()) == Halves(2, c.Half().Half());
  }

  lemma HalvesEight(c: Register)
    ensures Halves(8, c) == c.Shift8()
  {
    hide Halves, Shr1, Shr8;
    HalvesUnfolded(c);
    ShiftsByOne(c.bits);
  }

  lemma {:induction false} HalvesAdd(m: nat, n: nat, c: Register)
    ensures Halves(m + n, c) == Halves(n, Halves(m, c))
    decreases m
  {
    hide Register.Half;
    if m > 0 {
      HalvesAdd(m - 1, n, c.Half());
    }
  }

  lemma LowBitsClear(h: bv32)
    ensures var a := High32(h);
            && a & 1 == 0
            && Shr1(a) & 1 == 0
            && Shr1(Shr1(a)) & 1 == 0
            && Shr1(Shr1(Shr1(a))) & 1 == 0
            && Shr1(Shr1(Shr1(Shr1(a)))) & 1 == 0
            && Shr1(Shr1(Shr1(Shr1(Shr1(a))))) & 1 == 0
            && Shr1(Shr1(Shr1(Shr1(Shr1(Shr1(a)))))) & 1 == 0
            && Shr1(Shr1(Shr1(Shr1(Shr1(Shr1(Shr1(a))))))) & 1 == 0
  {
  }

  lemma LowZeroUnfolded(c: Register)
    requires !c.Odd() && !c.Half().Odd() && !c.Half().Half().Odd() && !c.Half().Half().Half().Odd()
    requires var d := c.Half().Half().Half().Half();
             !d.Odd() && !d.Half().Odd() && !d.Half().Half().Odd() && !d.Half().Half().Half().Odd()
    ensures LowZero(8, c)
  {
    hide Register.Half, Register.Odd;
    var d := c.Half().Half().Half().Half();
    assert LowZero(1, d.Half().Half().Half());
    assert LowZero(3, d.Half());
    assert LowZero(4, d);
    assert LowZero(6, c.Half().Half());
  }

  lemma HighLowZero(c: Register)
    ensures LowZero(8, High(c))
  {
    hide LowZero, Shr1, High32;
    LowBitsClear(c.bits);
    LowZeroUnfolded(High(c));
  }

  /** Eight zero bits: the low byte through the table, the rest shifted. */
  lemma EightSteps(c: Register)
    ensures Steps(8, c) == Steps(8, OfByte(c.Low())).Xor(c.Shift8())
  {
    hide Register.Xor, Register.Low, Register.Shift8, High, OfByte, Steps;
    ByteSplit(c);
    StepsLinear(8, High(c), OfByte(c.Low()));
    HighLowZero(c);
    StepsOfEven(8, High(c));
    HalvesEight(High(c));
    XorComm(c.Shift8(), Steps(8, OfByte(c.Low())));
  }

  // ----- An anchor -----

  lemma FirstDigits()
    ensures Update(Register(0xffff_ffff), Octet(0x31)) == Register(0x6f0a_661c)
    ensures Update(Register(0x6f0a_661c), Octet(0x32)) == Register(0x8caa_3b9f)
    ensures Update(Register(0x8caa_3b9f), Octet(0x33)) == Register(0xef84_d04d)
  {
  }

  lemma MiddleDigits()
    ensures Update(Register(0xef84_d04d), Octet(0x34)) == Register(0x09c5_0b11)
    ensures Update(Register(0x09c5_0b11), Octet(0x35)) == Register(0xe72e_dcca)
    ensures Update(Register(0xe72e_dcca), Octet(0x36)) == Register(0xbeca_8e79)
  {
  }

  lemma LastDigits()
    ensures Update(Register(0xbeca_8e79), Octet(0x37)) == Register(0xedbd_6815)
    ensures Update(Register(0xedbd_6815), Octet(0x38)) == Register(0x9f78_7f65)
    ensures Update(Register(0x9f78_7f65), Octet(0x39)) == Register(0x1cf9_6d7c)
  {
  }

  lemma CrcOfThree(c: Register, a: Octet, b: Octet, d: Octet, rest: seq<Octet>)
    ensures Crc(c, [a, b, d] + rest) == Crc(Update(Update(Update(c, a), b), d), rest)
  {
    hide Update;
    var two, one := [b, d] + rest, [d] + rest;
    assert ([a, b, d] + rest)[1..] == two && two[1..] == one && one[1..] == rest;
    assert Crc(c, [a, b, d] + rest) == Crc(Update(c, a), two);
    assert Crc(Update(c, a), two) == Crc(Update(Update(c, a), b), one);
  }

  lemma CheckValueSteps()
    ensures Crc(Register(0xffff_ffff), [Octet(0x31), Octet(0x32), Octet(0x33), Octet(0x34), Octet(0x35),
                                        Octet(0x36), Octet(0x37), Octet(0x38), Octet(0x39)]) == Register(0x1cf9_6d7c)
  {
    hide Update;
    FirstDigits();
    MiddleDigits();
    LastDigits();
    var middle, last := [Octet(0x34), Octet(0x35), Octet(0x36)], [Octet(0x37), Octet(0x38), Octet(0x39)];
    CrcOfThree(Register(0xffff_ffff), Octet(0x31), Octet(0x32), Octet(0x33), middle + last);
    CrcOfThree(Register(0xef84_d04d), Octet(0x34), Octet(0x35), Octet(0x36), last);
    CrcOfThree(Register(0xbeca_8e79), Octet(0x37), Octet(0x38), Octet(0x39), []);
    assert last + [] == last;
    assert [Octet(0x31), Octet(0x32), Octet(0x33)] + (middle + last)
        == [Octet(0x31), Octet(0x32), Octet(0x33), Octet(0x34), Octet(0x35), Octet(0x36), Octet(0x37), Octet(0x38), Octet(0x39)];
  }

  /** The published check value of CRC-32C, for the nine digits "123456789". */
  lemma CheckValue()
    ensures Crc32c(ZERO, [Octet(0x31), Octet(0x32), Octet(0x33), Octet(0x34), Octet(0x35),
                          Octet(0x36), Octet(0x37), Octet(0x38), Octet(0x39)]) == Register(0xe306_9283)
  {
    CheckValueSteps();
  }
}
