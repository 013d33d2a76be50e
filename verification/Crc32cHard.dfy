// CRC-32C with the crc32 instructions: three interleaved streams, recombined by an operator that
// appends zero bytes, which is built as a matrix over GF(2).
module Crc32cHard {
  import opened Crc32cSpec
  import opened Crc32cSoft

  const LONG := 8192
  const SHORT := 256

  // ----- Matrices over GF(2) -----

  /** The monomial of degree `i`. */
  function Bit(i: nat): Register {
    if i == 0 then Register(1) else Bit(i - 1).Double()
  }

  function ShiftUp(v: Register, i: nat): Register
    decreases i
  {
    if i == 0 then v else ShiftUp(v.Double(), i - 1)
  }

  /** Column `i` of the matrix is what `n` zero bits make of the monomial of degree `i`. */
  ghost predicate Represents(mat: seq<Register>, n: nat) {
    |mat| == 32 && forall i :: 0 <= i < 32 ==> mat[i] == Steps(n, Bit(i))
  }

  /** At most `k` bits of `v` are in use. */
  predicate FitsIn(v: Register, k: nat)
    decreases k
  {
    if k == 0 then v == ZERO else FitsIn(v.Half(), k - 1)
  }

  /** The product of a matrix and a vector, from column `i` on: the sum of the columns whose bit is set. */
  function TimesFrom(mat: seq<Register>, v: Register, i: nat): Register
    requires |mat| == 32 && i <= 32
    decreases 32 - i
  {
    if i == 32 then ZERO else (if v.Odd() then mat[i] else ZERO).Xor(TimesFrom(mat, v.Half(), i + 1))
  }

  lemma ShiftAgain(h: bv32)
    ensures Shr8(Shr8(Shr8(Shr8(h)))) == 0
  {
  }

  lemma {:induction false} HalvesFit(v: Register, k: nat)
    requires Halves(k, v) == ZERO
    ensures FitsIn(v, k)
    decreases k
  {
    hide Register.Half;
    if k > 0 {
      HalvesFit(v.Half(), k - 1);
    }
  }

  lemma AllFit(v: Register)
    ensures FitsIn(v, 32)
  {
    hide Register.Half, Halves, FitsIn, Shr8;
    var a := v.Shift8();
    var b := a.Shift8();
    var c := b.Shift8();
    HalvesEight(v);
    HalvesEight(a);
    HalvesEight(b);
    HalvesEight(c);
    HalvesAdd(8, 8, v);
    HalvesAdd(16, 8, v);
    HalvesAdd(24, 8, v);
    ShiftAgain(v.bits);
    HalvesFit(v, 32);
  }

  lemma DoubleHalfBits(v: bv32)
    ensures v == Xor32(Shl1(Shr1(v)), v & 1)
    ensures v & 1 == 0 || v & 1 == 1
  {
  }

  lemma DoubleHalf(v: Register)
    ensures v == v.Half().Double().Xor(if v.Odd() then Register(1) else ZERO)
  {
    hide Xor32, Shl1, Shr1;
    DoubleHalfBits(v.bits);
  }

  lemma {:induction false} ShiftUpLinear(a: Register, b: Register, i: nat)
    ensures ShiftUp(a.Xor(b), i) == ShiftUp(a, i).Xor(ShiftUp(b, i))
    decreases i
  {
    hide Register.Xor, Register.Double;
    if i > 0 {
      DoubleXor(a, b);
      ShiftUpLinear(a.Double(), b.Double(), i - 1);
    }
  }

  lemma ZeroDoubles()
    ensures ZERO.Double() == ZERO && ZERO.Half() == ZERO
  {
  }

  lemma {:induction false} ShiftUpZero(i: nat)
    ensures ShiftUp(ZERO, i) == ZERO
  {
    hide Register.Double;
    ZeroDoubles();
    if i > 0 {
      ShiftUpZero(i - 1);
    }
  }

  lemma {:induction false} ShiftUpDouble(v: Register, i: nat)
    ensures ShiftUp(v.Double(), i) == ShiftUp(v, i).Double()
    decreases i
  {
    hide Register.Double;
    if i > 0 {
      ShiftUpDouble(v.Double(), i - 1);
    }
  }

  lemma {:induction false} ShiftUpOne(i: nat)
    ensures ShiftUp(Register(1), i) == Bit(i)
  {
    hide Register.Double;
    if i > 0 {
      ShiftUpDouble(Register(1), i - 1);
      ShiftUpOne(i - 1);
    }
  }

  /** A matrix that represents `n` zero bits, times a vector, feeds `n` zero bits to the vector. */
  lemma {:induction false} TimesIsSteps(mat: seq<Register>, n: nat, v: Register, i: nat)
    requires Represents(mat, n) && i <= 32 && FitsIn(v, 32 - i)
    ensures TimesFrom(mat, v, i) == Steps(n, ShiftUp(v, i))
    decreases 32 - i
  {
    hide Register.Xor, Register.Half, Register.Odd, Register.Double, Steps, Bit;
    if i == 32 {
      ShiftUpZero(i);
      StepsZero(n);
    } else {
      var half, one := v.Half(), if v.Odd() then Register(1) else ZERO;
      TimesIsSteps(mat, n, half, i + 1);
      DoubleHalf(v);
      ShiftUpLinear(half.Double(), one, i);
      StepsLinear(n, ShiftUp(half.Double(), i), ShiftUp(one, i));
      ShiftUpOne(i);
      ShiftUpZero(i);
      StepsZero(n);
      XorComm(Steps(n, ShiftUp(half.Double(), i)), Steps(n, ShiftUp(one, i)));
    }
  }

  /** The product is linear in the vector. */
  lemma {:induction false} TimesLinear(mat: seq<Register>, v: Register, w: Register, i: nat)
    requires |mat| == 32 && i <= 32
    ensures TimesFrom(mat, v.Xor(w), i) == TimesFrom(mat, v, i).Xor(TimesFrom(mat, w, i))
    decreases 32 - i
  {
    hide Register.Xor, Register.Half, Register.Odd;
    if i == 32 {
      XorZero(ZERO);
    } else {
      OddXor(v, w);
      HalfXor(v, w);
      TimesLinear(mat, v.Half(), w.Half(), i + 1);
      var a, b := if v.Odd() then mat[i] else ZERO, if w.Odd() then mat[i] else ZERO;
      XorExchange(a, TimesFrom(mat, v.Half(), i + 1), b, TimesFrom(mat, w.Half(), i + 1));
      XorZero(mat[i]);
      XorTwice(ZERO, mat[i]);
      XorZero(ZERO);
    }
  }

  /** The product with a monomial is a column. */
  lemma {:induction false} TimesColumn(mat: seq<Register>, j: nat, i: nat)
    requires |mat| == 32 && i + j < 32
    ensures TimesFrom(mat, Bit(j), i) == mat[i + j]
    decreases j
  {
    hide Register.Xor, Register.Half, Register.Odd, Bit;
    if j == 0 {
      HalfOfOne();
      TimesZero(mat, i + 1);
      XorZero(mat[i]);
    } else {
      HalfOfBit(j);
      TimesColumn(mat, j - 1, i + 1);
      XorZero(mat[i + j]);
    }
  }

  lemma HalfOfOne()
    ensures Bit(0).Odd() && Bit(0).Half() == ZERO
  {
  }

  lemma HalfOfBit(j: nat)
    requires 0 < j < 32
    ensures !Bit(j).Odd() && Bit(j).Half() == Bit(j - 1)
  {
    BitBelowTop(j - 1);
    DoubleHalves(Bit(j - 1).bits);
  }

  lemma {:induction false} TimesZero(mat: seq<Register>, i: nat)
    requires |mat| == 32 && i <= 32
    ensures TimesFrom(mat, ZERO, i) == ZERO
    decreases 32 - i
  {
    hide Register.Xor, Register.Half;
    ZeroDoubles();
    XorZero(ZERO);
    if i < 32 {
      TimesZero(mat, i + 1);
    }
  }

  lemma TimesAnything(mat: seq<Register>, n: nat)
    requires Represents(mat, n)
    ensures |mat| == 32 && forall v :: TimesFrom(mat, v, 0) == Steps(n, v)
  {
    hide Steps, FitsIn;
    forall v ensures TimesFrom(mat, v, 0) == Steps(n, v) {
      AllFit(v);
      TimesIsSteps(mat, n, v, 0);
    }
  }

  /** gf2_matrix_times, of any matrix. */
  method MatrixTimes(mat: array<Register>, vec0: Register) returns (sum: Register)
    requires mat.Length == 32
    ensures sum == TimesFrom(mat[..], vec0, 0)
  {
    hide Register.Xor, Register.Half, Register.Odd, FitsIn;
    AllFit(vec0);
    ghost var total := TimesFrom(mat[..], vec0, 0);
    sum := ZERO;
    var vec, i := vec0, 0;
    XorZero(total);
    while vec != ZERO
      invariant 0 <= i <= 32 && FitsIn(vec, 32 - i)
      invariant sum.Xor(TimesFrom(mat[..], vec, i)) == total
      decreases 32 - i, if vec == ZERO then 0 else 1
    {
      TimesStep(mat[..], vec, i, sum);
      if vec.Odd() {
        sum := sum.Xor(mat[i]);
      }
      vec, i := vec.Half(), i + 1;
    }
    TimesZero(mat[..], i);
    XorZero(sum);
  }

  lemma TimesStep(mat: seq<Register>, v: Register, i: nat, sum: Register)
    requires |mat| == 32 && i <= 32 && FitsIn(v, 32 - i) && v != ZERO
    ensures i < 32 && FitsIn(v.Half(), 31 - i)
    ensures sum.Xor(TimesFrom(mat, v, i)) == (if v.Odd() then sum.Xor(mat[i]) else sum).Xor(TimesFrom(mat, v.Half(), i + 1))
  {
    hide Register.Xor, Register.Half, Register.Odd;
    var rest := TimesFrom(mat, v.Half(), i + 1);
    XorZero(rest);
    XorAssoc(sum, mat[i], rest);
  }

  /** gf2_matrix_square: squaring an operator applies it twice. */
  method MatrixSquare(square: array<Register>, mat: array<Register>, ghost n: nat)
    requires square != mat && square.Length == 32 && Represents(mat[..], n)
    modifies square
    ensures Represents(square[..], 2 * n)
  {
    hide Steps, Bit, TimesFrom;
    TimesAnything(mat[..], n);
    ghost var operator := mat[..];
    for k := 0 to 32
      invariant mat[..] == operator
      invariant forall i :: 0 <= i < k ==> square[i] == Steps(2 * n, Bit(i))
    {
      square[k] := MatrixTimes(mat, mat[k]);
      assert mat[..][k] == Steps(n, Bit(k));
      StepsAdd(n, n, Bit(k));
    }
  }

  // ----- Appending zeros -----

  /** The largest power of two not above `len`, and one for zero. */
  function PowerBelow(len: nat): (p: nat)
    ensures p >= 1
  {
    if len <= 1 then 1 else 2 * PowerBelow(len / 2)
  }

  predicate IsPowerOfTwo(len: nat) {
    len == 1 || (len > 1 && len % 2 == 0 && IsPowerOfTwo(len / 2))
  }

  lemma {:induction false} PowerBelowExact(len: nat)
    requires IsPowerOfTwo(len)
    ensures PowerBelow(len) == len
  {
    if len > 1 {
      PowerBelowExact(len / 2);
    }
  }

  lemma {:induction false} PowerBelowIsPower(len: nat)
    ensures IsPowerOfTwo(PowerBelow(len))
    ensures len > 0 ==> PowerBelow(len) <= len < 2 * PowerBelow(len)
  {
    if len > 1 {
      PowerBelowIsPower(len / 2);
    }
  }

  lemma DoubleHalves(b: bv32)
    requires b & 0x8000_0000 == 0
    ensures Shr1(Shl1(b)) == b && Shl1(b) & 1 == 0
  {
  }

  /** The operator for one zero bit: x^i becomes x^(i-1), and 1 becomes the polynomial. */
  lemma {:induction false} OneZeroBit(i: nat)
    requires 0 < i < 32
    ensures Steps(1, Bit(i)) == Bit(i - 1)
  {
    BitBelowTop(i - 1);
    DoubleHalves(Bit(i - 1).bits);
  }

  /** `v` can be doubled `k` times without losing its top bit. */
  predicate Room(v: bv32, k: nat)
    decreases k
  {
    k == 0 || (v & 0x8000_0000 == 0 && Room(Shl1(v), k - 1))
  }

  lemma OneHasRoom()
    ensures Room(1, 31)
  {
    assert Room(0x1000_0000, 3);
    assert Room(0x0200_0000, 6);
    assert Room(0x0040_0000, 9);
    assert Room(0x0008_0000, 12);
    assert Room(0x0001_0000, 15);
    assert Room(0x2000, 18);
    assert Room(0x0400, 21);
    assert Room(0x0080, 24);
    assert Room(0x0010, 27);
    assert Room(0x0002, 30);
  }

  lemma {:induction false} BitHasRoom(i: nat)
    requires i <= 31
    ensures Room(Bit(i).bits, 31 - i)
  {
    hide Shl1;
    if i == 0 {
      OneHasRoom();
    } else {
      BitHasRoom(i - 1);
    }
  }

  lemma BitBelowTop(i: nat)
    requires i < 31
    ensures Bit(i).bits & 0x8000_0000 == 0
  {
    hide Shl1;
    BitHasRoom(i);
  }

  lemma PolynomialStep()
    ensures Steps(1, Bit(0)) == Register(POLY)
  {
  }

  /** crc32c_zeros_op: the operator that appends `len` zero bytes, for a power of two; for any other
      length, as many zero bytes as the largest power of two below it. */
  method ZerosOp(even: array<Register>, len0: nat)
    requires even.Length == 32
    modifies even
    ensures Represents(even[..], 8 * PowerBelow(len0))
  {
    hide Represents, Steps, Bit, Scale, PowerBelow;
    ScaleOne(len0);
    var odd := new Register[32](_ => ZERO);
    OneBitOperator(odd);
    MatrixSquare(even, odd, 1);
    MatrixSquare(odd, even, 2);
    var len := len0;
    ghost var w := 1;
    while true
      invariant fresh(odd) && odd.Length == 32
      invariant w >= 1 && Represents(odd[..], 4 * w)
      invariant Scale(w, len, len0)
      decreases len
    {
      MatrixSquare(even, odd, 4 * w);
      Halving(w, len, len0);
      len := len / 2;
      if len == 0 {
        assert 2 * (4 * w) == 8 * PowerBelow(len0);
        return;
      }
      MatrixSquare(odd, even, 8 * w);
      Halving(2 * w, len, len0);
      len := len / 2;
      if len == 0 {
        assert 2 * (8 * w) == 8 * PowerBelow(len0);
        break;
      }
      w := 4 * w;
    }
    ghost var answer := odd[..];
    forall n | 0 <= n < 32 {
      even[n] := odd[n];
    }
    assert even[..] == answer;
  }

  /** Halving the length `len` has doubled the scale `w` as often as it takes. */
  ghost predicate Scale(w: nat, len: nat, len0: nat) {
    w * PowerBelow(len) == PowerBelow(len0)
  }

  lemma ScaleOne(len0: nat)
    ensures Scale(1, len0, len0)
  {
  }

  lemma Halving(w: nat, len: nat, len0: nat)
    requires Scale(w, len, len0)
    ensures if len / 2 == 0 then w == PowerBelow(len0) else Scale(2 * w, len / 2, len0)
  {
    Twice(w, PowerBelow(len / 2));
  }

  lemma Twice(w: nat, x: nat)
    ensures w * (2 * x) == (2 * w) * x
  {
  }

  lemma FirstBit()
    ensures Bit(0) == Register(1)
  {
  }

  lemma NextBit(n: nat)
    requires n > 0
    ensures Bit(n) == Bit(n - 1).Double()
  {
  }

  /** The rows of the operator for one zero bit. */
  method OneBitOperator(odd: array<Register>)
    requires odd.Length == 32
    modifies odd
    ensures Represents(odd[..], 1)
  {
    hide Register.Double, Steps, Bit;
    odd[0] := Register(POLY);
    PolynomialStep();
    FirstBit();
    var row := Register(1);
    for n := 1 to 32
      invariant row == Bit(n - 1)
      invariant forall i :: 0 <= i < n ==> odd[i] == Steps(1, Bit(i))
    {
      OneZeroBit(n);
      odd[n] := row;
      NextBit(n);
      row := row.Double();
    }
  }

  // ----- Tables for the zeros operator -----

  function Place0(b: bv8): bv32 { b as bv32 }
  function Place1(b: bv8): bv32 { (b as bv32) << 8 }
  function Place2(b: bv8): bv32 { (b as bv32) << 16 }
  function Place3(b: bv8): bv32 { (b as bv32) << 24 }
  function Lane32_1(c: bv32): bv8 { ((c >> 8) & 0xff) as bv8 }
  function Lane32_2(c: bv32): bv8 { ((c >> 16) & 0xff) as bv8 }
  function Lane32_3(c: bv32): bv8 { (c >> 24) as bv8 }

  /** Byte `b` at byte position `k` of a register. */
  function Placed(b: Octet, k: nat): Register {
    Register(if k == 0 then Place0(b.bits) else if k == 1 then Place1(b.bits) else if k == 2 then Place2(b.bits) else Place3(b.bits))
  }

  /** Byte `k` of a register. */
  function ByteOf(c: Register, k: nat): Octet {
    Octet(if k == 0 then Low32(c.bits) else if k == 1 then Lane32_1(c.bits) else if k == 2 then Lane32_2(c.bits) else Lane32_3(c.bits))
  }

  ghost predicate ZerosTable(zeros: array2<Register>, len: nat)
    reads zeros
  {
    && zeros.Length0 == 4 && zeros.Length1 == 256
    && forall k, n :: 0 <= k < 4 && 0 <= n < 256 ==> zeros[k, n] == Steps(8 * len, Placed(Entry(n), k))
  }

  /** crc32c_zeros: the operator, byte by byte of its operand. */
  method Zeros(zeros: array2<Register>, len: nat)
    requires zeros.Length0 == 4 && zeros.Length1 == 256
    modifies zeros
    ensures ZerosTable(zeros, PowerBelow(len))
  {
    hide Represents, Steps, Placed, Entry, TimesFrom;
    var op := new Register[32](_ => ZERO);
    ZerosOp(op, len);
    ghost var operator, bits := op[..], 8 * PowerBelow(len);
    TimesAnything(operator, bits);
    for n := 0 to 256
      invariant op[..] == operator
      invariant forall k, m :: 0 <= k < 4 && 0 <= m < n ==> zeros[k, m] == Steps(bits, Placed(Entry(m), k))
    {
      var z0 := MatrixTimes(op, Placed(Entry(n), 0));
      var z1 := MatrixTimes(op, Placed(Entry(n), 1));
      var z2 := MatrixTimes(op, Placed(Entry(n), 2));
      var z3 := MatrixTimes(op, Placed(Entry(n), 3));
      zeros[0, n], zeros[1, n], zeros[2, n], zeros[3, n] := z0, z1, z2, z3;
    }
  }

  lemma PlacesBits(c: bv32)
    ensures c == Xor32(Xor32(Xor32(Place0(Low32(c)), Place1(Lane32_1(c))), Place2(Lane32_2(c))), Place3(Lane32_3(c)))
  {
  }

  lemma Places(c: Register)
    ensures c == Placed(ByteOf(c, 0), 0).Xor(Placed(ByteOf(c, 1), 1)).Xor(Placed(ByteOf(c, 2), 2)).Xor(Placed(ByteOf(c, 3), 3))
  {
    hide Xor32, Place0, Place1, Place2, Place3, Low32, Lane32_1, Lane32_2, Lane32_3;
    PlacesBits(c.bits);
  }

  /** crc32c_shift: the whole operator from its four tables. */
  function Shift(zeros: array2<Register>, crc: Register, len: nat): (r: Register)
    requires ZerosTable(zeros, len)
    reads zeros
    ensures r == Steps(8 * len, crc)
  {
    ShiftIsSteps(zeros, crc, len);
    zeros[0, At(ByteOf(crc, 0))].Xor(zeros[1, At(ByteOf(crc, 1))]).Xor(zeros[2, At(ByteOf(crc, 2))]).Xor(zeros[3, At(ByteOf(crc, 3))])
  }

  lemma ShiftIsSteps(zeros: array2<Register>, crc: Register, len: nat)
    requires ZerosTable(zeros, len)
    ensures zeros[0, At(ByteOf(crc, 0))].Xor(zeros[1, At(ByteOf(crc, 1))]).Xor(zeros[2, At(ByteOf(crc, 2))]).Xor(zeros[3, At(ByteOf(crc, 3))])
         == Steps(8 * len, crc)
  {
    hide Register.Xor, Steps, Placed, ByteOf, Entry, At;
    var b0, b1, b2, b3 := ByteOf(crc, 0), ByteOf(crc, 1), ByteOf(crc, 2), ByteOf(crc, 3);
    Index(b0);
    Index(b1);
    Index(b2);
    Index(b3);
    Places(crc);
    var n := 8 * len;
    StepsLinear(n, Placed(b0, 0), Placed(b1, 1));
    StepsLinear(n, Placed(b0, 0).Xor(Placed(b1, 1)), Placed(b2, 2));
    StepsLinear(n, Placed(b0, 0).Xor(Placed(b1, 1)).Xor(Placed(b2, 2)), Placed(b3, 3));
  }

  /** crc32c_init_hw: both block lengths are powers of two, so the tables are exact. */
  method InitHw(long: array2<Register>, short: array2<Register>)
    requires long != short
    requires long.Length0 == 4 && long.Length1 == 256 && short.Length0 == 4 && short.Length1 == 256
    modifies long, short
    ensures ZerosTable(long, LONG) && ZerosTable(short, SHORT)
  {
    BlocksArePowers();
    hide Steps, Placed, Entry, PowerBelow;
    PowerBelowExact(LONG);
    PowerBelowExact(SHORT);
    Zeros(long, LONG);
    Zeros(short, SHORT);
  }

  lemma BlocksArePowers()
    ensures IsPowerOfTwo(LONG) && IsPowerOfTwo(SHORT)
  {
    assert IsPowerOfTwo(16);
    assert IsPowerOfTwo(256);
    assert IsPowerOfTwo(1024);
  }

  // ----- crc32c_hw -----

  /** The crc32q instruction on the eight bytes at `i`. */
  function Crc32q(c: Register, buf: seq<Octet>, i: nat): Register
    requires i + 8 <= |buf|
  {
    Crc(c, buf[i..i + 8])
  }

  lemma Crc32qContinues(c: Register, buf: seq<Octet>, from: nat, i: nat)
    requires from <= i && i + 8 <= |buf|
    ensures Crc32q(Crc(c, buf[from..i]), buf, i) == Crc(c, buf[from..i + 8])
  {
    assert buf[from..i + 8] == buf[from..i] + buf[i..i + 8];
    CrcConcat(c, buf[from..i], buf[i..i + 8]);
  }

  /** Bytes one at a time through crc32b. */
  method BytesHw(c: Register, buf: seq<Octet>, from: nat, n: nat) returns (crc: Register)
    requires from + n <= |buf|
    ensures crc == Crc(c, buf[from..from + n])
  {
    hide Crc, Update;
    crc := c;
    assert buf[from..from] == [];
    CrcEmpty(c);
    for i := 0 to n
      invariant crc == Crc(c, buf[from..from + i])
    {
      CrcSnoc(c, buf, from, from + i);
      crc := Update(crc, buf[from + i]);
    }
  }

  /** Leading bytes, up to an eight-byte boundary. */
  method AlignHw(c: Register, buf: seq<Octet>, address: nat) returns (crc: Register, next: nat)
    ensures next <= |buf| && (next == |buf| || (address + next) % 8 == 0)
    ensures crc == Crc(c, buf[..next])
  {
    hide Crc, Update;
    crc, next := c, 0;
    CrcEmpty(c);
    while next < |buf| && (address + next) % 8 != 0
      invariant next <= |buf|
      invariant crc == Crc(c, buf[..next])
    {
      CrcSnoc(c, buf, 0, next);
      assert buf[0..next] == buf[..next] && buf[0..next + 1] == buf[..next + 1];
      crc := Update(crc, buf[next]);
      next := next + 1;
    }
  }

  /** The loop over three blocks of `len` bytes at once. */
  method ThreeStreams(c: Register, buf: seq<Octet>, next0: nat, len: nat)
    returns (crc0: Register, crc1: Register, crc2: Register)
    requires len > 0 && len % 8 == 0 && next0 + 3 * len <= |buf|
    ensures crc0 == Crc(c, buf[next0..next0 + len])
    ensures crc1 == Crc(ZERO, buf[next0 + len..next0 + 2 * len])
    ensures crc2 == Crc(ZERO, buf[next0 + 2 * len..next0 + 3 * len])
  {
    hide Crc, Crc32q;
    crc0, crc1, crc2 := c, ZERO, ZERO;
    var next, end := next0, next0 + len;
    assert buf[next..next] == [] && buf[next + len..next + len] == [] && buf[next + 2 * len..next + 2 * len] == [];
    CrcEmpty(c);
    CrcEmpty(ZERO);
    while next < end
      invariant next0 <= next <= end && (next - next0) % 8 == 0
      invariant crc0 == Crc(c, buf[next0..next])
      invariant crc1 == Crc(ZERO, buf[next0 + len..next + len])
      invariant crc2 == Crc(ZERO, buf[next0 + 2 * len..next + 2 * len])
    {
      Crc32qContinues(c, buf, next0, next);
      Crc32qContinues(ZERO, buf, next0 + len, next + len);
      Crc32qContinues(ZERO, buf, next0 + 2 * len, next + 2 * len);
      crc0 := Crc32q(crc0, buf, next);
      crc1 := Crc32q(crc1, buf, next + len);
      crc2 := Crc32q(crc2, buf, next + 2 * len);
      next := next + 8;
    }
  }

  /** Three blocks, recombined by shifting over the length of a block. */
  method ThreeBlocks(zeros: array2<Register>, c: Register, buf: seq<Octet>, next0: nat, len: nat) returns (crc0: Register)
    requires ZerosTable(zeros, len) && len > 0 && len % 8 == 0 && next0 + 3 * len <= |buf|
    ensures crc0 == Crc(c, buf[next0..next0 + 3 * len])
  {
    hide Crc, Register.Xor, Steps;
    var crc1, crc2;
    crc0, crc1, crc2 := ThreeStreams(c, buf, next0, len);
    Recombine(c, buf, next0, next0 + len, next0 + 2 * len);
    Recombine(c, buf, next0, next0 + 2 * len, next0 + 3 * len);
    crc0 := Shift(zeros, crc0, len).Xor(crc1);
    crc0 := Shift(zeros, crc0, len).Xor(crc2);
  }

  lemma Recombine(c: Register, buf: seq<Octet>, from: nat, mid: nat, until: nat)
    requires from <= mid <= until <= |buf|
    ensures Crc(c, buf[from..until])
         == Steps(8 * (until - mid), Crc(c, buf[from..mid])).Xor(Crc(ZERO, buf[mid..until]))
  {
    assert buf[from..until] == buf[from..mid] + buf[mid..until];
    CrcCombine(c, buf[from..mid], buf[mid..until]);
  }

  /** All the blocks of one size that fit. */
  method Blocks(zeros: array2<Register>, c0: Register, buf: seq<Octet>, next0: nat, len: nat, ghost c: Register)
    returns (crc: Register, next: nat)
    requires ZerosTable(zeros, len) && len > 0 && len % 8 == 0 && next0 <= |buf|
    requires c0 == Crc(c, buf[..next0])
    ensures next0 <= next <= |buf| && |buf| - next < 3 * len
    ensures crc == Crc(c, buf[..next])
  {
    hide Crc, Steps;
    crc, next := c0, next0;
    while |buf| - next >= 3 * len
      invariant next0 <= next <= |buf|
      invariant crc == Crc(c, buf[..next])
    {
      assert buf[..next + 3 * len] == buf[..next] + buf[next..next + 3 * len];
      CrcConcat(c, buf[..next], buf[next..next + 3 * len]);
      crc := ThreeBlocks(zeros, crc, buf, next, len);
      next := next + 3 * len;
    }
  }

  /** Eight bytes at a time, and then the rest. */
  method WordsHw(crc: Register, buf: seq<Octet>, next0: nat, ghost c: Register) returns (crc0: Register)
    requires next0 <= |buf| && crc == Crc(c, buf[..next0])
    ensures crc0 == Crc(c, buf)
  {
    hide Crc, Crc32q;
    var next, len := next0, |buf| - next0;
    var end := next + (len - len % 8);
    crc0 := crc;
    while next < end
      invariant next0 <= next <= end && (end - next) % 8 == 0
      invariant crc0 == Crc(c, buf[..next])
    {
      Crc32qContinues(c, buf, 0, next);
      assert buf[0..next] == buf[..next] && buf[0..next + 8] == buf[..next + 8];
      crc0 := Crc32q(crc0, buf, next);
      next := next + 8;
    }
    crc0 := BytesHw(crc0, buf, next, |buf| - next);
    assert buf == buf[..next] + buf[next..next + (|buf| - next)];
    CrcConcat(c, buf[..next], buf[next..next + (|buf| - next)]);
  }

  /** crc32c_hw: whatever the initial value, the length and the alignment, the bit-at-a-time CRC-32C. */
  method CrcHw(long: array2<Register>, short: array2<Register>, crc: Register, buf: seq<Octet>, address: nat) returns (r: Register)
    requires ZerosTable(long, LONG) && ZerosTable(short, SHORT)
    ensures r == Crc32c(crc, buf)
  {
    hide Crc, Steps, Register.Xor;
    var c := crc.Xor(Register(0xffff_ffff));
    var crc0, next := AlignHw(c, buf, address);
    crc0, next := Blocks(long, crc0, buf, next, LONG, c);
    crc0, next := Blocks(short, crc0, buf, next, SHORT, c);
    crc0 := WordsHw(crc0, buf, next, c);
    r := crc0.Xor(Register(0xffff_ffff));
  }

  /** rd_crc32c: the answer does not depend on whether the instructions are available. */
  method RdCrc32c(sse42: bool, long: array2<Register>, short: array2<Register>, table: array2<Register>,
                  crc: Register, buf: seq<Octet>, address: nat) returns (r: Register)
    requires sse42 ==> ZerosTable(long, LONG) && ZerosTable(short, SHORT)
    requires !sse42 ==> TablesOk(table)
    ensures r == Crc32c(crc, buf)
  {
    if sse42 {
      r := CrcHw(long, short, crc, buf, address);
    } else {
      r := CrcSw(table, crc, buf, address);
    }
  }
}
