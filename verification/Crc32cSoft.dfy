// The table-driven CRC-32C: eight tables, eight bytes at a time.
module Crc32cSoft {
  import opened Crc32cSpec

  /** Table `k` at byte `b`: the effect of the byte followed by `k` zero bytes. */
  function T(k: nat, b: Octet): Register {
    Steps(8 * (k + 1), OfByte(b))
  }

  lemma TableNext(k: nat, b: Octet)
    ensures T(k + 1, b) == Steps(8, T(k, b))
  {
    StepsAdd(8 * (k + 1), 8, OfByte(b));
  }

  /** The update of one byte through table 0. */
  lemma UpdateByTable(c: Register, b: Octet)
    ensures Update(c, b) == T(0, c.Low().Xor(b)).Xor(c.Shift8())
  {
    hide Register.Low, Register.Xor, Register.Shift8, Octet.Xor, OfByte, Steps;
    EightSteps(c.Xor(OfByte(b)));
    XorByte(c, b);
  }

  lemma XorByteBits(c: bv32, b: bv8)
    ensures Low32(Xor32(c, Wide8(b))) == Xor8(Low32(c), b)
    ensures Shr8(Xor32(c, Wide8(b))) == Shr8(c)
  {
  }

  lemma XorByte(c: Register, b: Octet)
    ensures c.Xor(OfByte(b)).Low() == c.Low().Xor(b)
    ensures c.Xor(OfByte(b)).Shift8() == c.Shift8()
  {
    hide Shr8, Xor32, Wide8, Low32, Xor8;
    XorByteBits(c.bits, b.bits);
  }

  // ----- Tables -----

  ghost predicate TableRow(table: array2<Register>, k: nat)
    requires k < table.Length0 && table.Length1 == 256
    reads table
  {
    forall n :: 0 <= n < 256 ==> table[k, n] == T(k, Entry(n))
  }

  ghost predicate TablesOk(table: array2<Register>)
    reads table
  {
    table.Length0 == 8 && table.Length1 == 256 && forall k :: 0 <= k < 8 ==> TableRow(table, k)
  }

  /** The byte that a table entry stands for, and back. */
  function Entry(n: nat): Octet
    requires n < 256
  {
    Octet(n as bv8)
  }

  function At(b: Octet): (n: nat)
    ensures n < 256
  {
    b.bits as int
  }

  lemma Index(b: Octet)
    ensures Entry(At(b)) == b
  {
  }

  lemma Lookup(table: array2<Register>, k: nat, b: Octet)
    requires k < table.Length0 && table.Length1 == 256 && TableRow(table, k)
    ensures table[k, At(b)] == T(k, b)
  {
    hide T, Entry, At;
    Index(b);
  }

  /** crc32c_init_sw. */
  method InitSw(table: array2<Register>)
    requires table.Length0 == 8 && table.Length1 == 256
    modifies table
    ensures TablesOk(table)
  {
    hide T, Entry;
    for n := 0 to 256
      invariant forall m :: 0 <= m < n ==> table[0, m] == T(0, Entry(m))
    {
      var crc := OfByte(Entry(n));
      EightUnrolled(Entry(n));
      crc := Step(crc);
      crc := Step(crc);
      crc := Step(crc);
      crc := Step(crc);
      crc := Step(crc);
      crc := Step(crc);
      crc := Step(crc);
      crc := Step(crc);
      table[0, n] := crc;
    }
    for n := 0 to 256
      invariant TableRow(table, 0)
      invariant forall j, m :: 1 <= j < 8 && 0 <= m < n ==> table[j, m] == T(j, Entry(m))
    {
      FillColumn(table, n);
    }
  }

  lemma EightUnrolled(b: Octet)
    ensures T(0, b) == Step(Step(Step(Step(Step(Step(Step(Step(OfByte(b)))))))))
  {
    hide Step;
    var c := Step(Step(Step(Step(OfByte(b)))));
    StepsAdd(4, 4, OfByte(b));
    FourUnrolled(OfByte(b));
    FourUnrolled(c);
  }

  lemma FourUnrolled(c: Register)
    ensures Steps(4, c) == Step(Step(Step(Step(c))))
  {
    hide Step;
    assert Steps(1, Step(Step(Step(c)))) == Step(Step(Step(Step(c))));
    assert Steps(2, Step(Step(c))) == Steps(1, Step(Step(Step(c))));
    assert Steps(3, Step(c)) == Steps(2, Step(Step(c)));
  }

  /** The rows above the first, for one byte. */
  method FillColumn(table: array2<Register>, n: nat)
    requires table.Length0 == 8 && table.Length1 == 256 && n < 256
    requires TableRow(table, 0)
    modifies table
    ensures TableRow(table, 0)
    ensures forall j :: 1 <= j < 8 ==> table[j, n] == T(j, Entry(n))
    ensures forall j, m :: 0 <= j < 8 && 0 <= m < 256 && m != n ==> table[j, m] == old(table[j, m])
  {
    hide T, Entry, At;
    var crc := table[0, n];
    for k := 1 to 8
      invariant crc == T(k - 1, Entry(n))
      invariant TableRow(table, 0)
      invariant forall j :: 1 <= j < k ==> table[j, n] == T(j, Entry(n))
      invariant forall j, m :: 0 <= j < 8 && 0 <= m < 256 && m != n ==> table[j, m] == old(table[j, m])
    {
      Lookup(table, 0, crc.Low());
      TableNext(k - 1, Entry(n));
      NextByTable(crc);
      crc := table[0, At(crc.Low())].Xor(crc.Shift8());
      table[k, n] := crc;
    }
  }

  lemma NextByTable(c: Register)
    ensures Steps(8, c) == T(0, c.Low()).Xor(c.Shift8())
  {
    EightSteps(c);
  }

  // ----- Sums of tables -----

  /** Splitting off the first byte of a message that starts from zero. */
  lemma TableHead(acc: Register, b: Octet, rest: seq<Octet>)
    ensures acc.Xor(Crc(ZERO, [b] + rest)) == acc.Xor(T(|rest|, b)).Xor(Crc(ZERO, rest))
  {
    hide Register.Xor, OfByte, Steps, Crc;
    assert ([b] + rest)[1..] == rest;
    CrcHead(ZERO, b, rest);
    XorZero(OfByte(b));
    XorZero(Update(ZERO, b));
    CrcLinear(ZERO, Update(ZERO, b), rest);
    StepsAdd(8, 8 * |rest|, OfByte(b));
    XorComm(T(|rest|, b), Crc(ZERO, rest));
    XorAssoc(acc, T(|rest|, b), Crc(ZERO, rest));
  }

  lemma CrcHead(c: Register, b: Octet, rest: seq<Octet>)
    ensures Crc(c, [b] + rest) == Crc(Update(c, b), rest)
  {
    hide Update;
    assert ([b] + rest)[1..] == rest;
  }

  /** Part of the register can be moved from the start of a message into its first byte. */
  lemma Absorb(a: Register, c: Register, b: Octet, rest: seq<Octet>)
    ensures Crc(a.Xor(c), [b] + rest) == Crc(Update(a, b.Xor(c.Low())).Xor(c.Shift8()), rest)
  {
    hide Register.Xor, Register.Low, Register.Shift8, Octet.Xor, OfByte, Steps, Crc, High;
    CrcHead(a.Xor(c), b, rest);
    ByteSplit(c);
    var h, l := High(c), OfByte(c.Low());
    XorAssoc(a, c, OfByte(b));
    XorAssoc(h, l, OfByte(b));
    XorOfBytes(c.Low(), b);
    XorComm(h, OfByte(b.Xor(c.Low())));
    XorAssoc(a, OfByte(b.Xor(c.Low())), h);
    StepsLinear(8, a.Xor(OfByte(b.Xor(c.Low()))), h);
    HighLowZero(c);
    StepsOfEven(8, h);
    HalvesEight(h);
  }

  lemma XorOfBytesBits(x: bv8, y: bv8)
    ensures Xor32(Wide8(x), Wide8(y)) == Wide8(Xor8(y, x))
  {
  }

  lemma XorOfBytes(x: Octet, y: Octet)
    ensures OfByte(x).Xor(OfByte(y)) == OfByte(y.Xor(x))
  {
    hide Xor32, Wide8, Xor8;
    XorOfBytesBits(x.bits, y.bits);
  }

  lemma ShiftedOutBits(c: bv32)
    ensures Shr8(Shr8(Shr8(Shr8(c)))) == 0
  {
  }

  lemma ShiftedOut(c: Register)
    ensures c.Shift8().Shift8().Shift8().Shift8() == ZERO
  {
    hide Shr8;
    ShiftedOutBits(c.bits);
  }

  /** The register is absorbed by the first four bytes. */
  lemma AbsorbAll(c: Register, b0: Octet, b1: Octet, b2: Octet, b3: Octet, rest: seq<Octet>)
    ensures Crc(c, [b0, b1, b2, b3] + rest)
         == Crc(ZERO, [b0.Xor(c.Low()), b1.Xor(c.Shift8().Low()), b2.Xor(c.Shift8().Shift8().Low()),
                       b3.Xor(c.Shift8().Shift8().Shift8().Low())] + rest)
  {
    hide Register.Xor, Register.Low, Register.Shift8, Octet.Xor, Update, Crc;
    var c1, c2, c3 := c.Shift8(), c.Shift8().Shift8(), c.Shift8().Shift8().Shift8();
    var l0, l1, l2, l3 := b0.Xor(c.Low()), b1.Xor(c1.Low()), b2.Xor(c2.Low()), b3.Xor(c3.Low());
    var a0 := Update(ZERO, l0);
    var a1 := Update(a0, l1);
    var a2 := Update(a1, l2);
    var a3 := Update(a2, l3);
    assert [b0, b1, b2, b3] + rest == [b0] + ([b1, b2, b3] + rest);
    assert [b1, b2, b3] + rest == [b1] + ([b2, b3] + rest);
    assert [b2, b3] + rest == [b2] + ([b3] + rest);
    assert [l0, l1, l2, l3] + rest == [l0] + ([l1, l2, l3] + rest);
    assert [l1, l2, l3] + rest == [l1] + ([l2, l3] + rest);
    assert [l2, l3] + rest == [l2] + ([l3] + rest);
    XorZero(c);
    Absorb(ZERO, c, b0, [b1, b2, b3] + rest);
    Absorb(a0, c1, b1, [b2, b3] + rest);
    Absorb(a1, c2, b2, [b3] + rest);
    Absorb(a2, c3, b3, rest);
    ShiftedOut(c);
    XorZero(a3);
    CrcHead(ZERO, l0, [l1, l2, l3] + rest);
    CrcHead(a0, l1, [l2, l3] + rest);
    CrcHead(a1, l2, [l3] + rest);
    CrcHead(a2, l3, rest);
  }

  /** Eight bytes from zero are the sum of one entry of each table. */
  lemma TableSum(l0: Octet, l1: Octet, l2: Octet, l3: Octet, l4: Octet, l5: Octet, l6: Octet, l7: Octet)
    ensures Crc(ZERO, [l0, l1, l2, l3, l4, l5, l6, l7])
         == T(7, l0).Xor(T(6, l1)).Xor(T(5, l2)).Xor(T(4, l3)).Xor(T(3, l4)).Xor(T(2, l5)).Xor(T(1, l6)).Xor(T(0, l7))
  {
    hide Register.Xor, T, Crc;
    var all := [l0, l1, l2, l3, l4, l5, l6, l7];
    assert all[0..] == all;
    XorZero(Crc(ZERO, all));
    PeelFour(ZERO, all, 0);
    XorZero(T(7, l0));
    PeelFour(T(7, l0).Xor(T(6, l1)).Xor(T(5, l2)).Xor(T(4, l3)), all, 4);
    CrcNothing(all);
    XorZero(T(7, l0).Xor(T(6, l1)).Xor(T(5, l2)).Xor(T(4, l3)).Xor(T(3, l4)).Xor(T(2, l5)).Xor(T(1, l6)).Xor(T(0, l7)));
  }

  lemma PeelFour(acc: Register, s: seq<Octet>, i: nat)
    requires i + 4 <= |s|
    ensures acc.Xor(Crc(ZERO, s[i..]))
         == acc.Xor(T(|s| - i - 1, s[i])).Xor(T(|s| - i - 2, s[i + 1])).Xor(T(|s| - i - 3, s[i + 2])).Xor(T(|s| - i - 4, s[i + 3]))
            .Xor(Crc(ZERO, s[i + 4..]))
  {
    hide Register.Xor, T, Crc;
    var x1 := acc.Xor(T(|s| - i - 1, s[i]));
    var x2 := x1.Xor(T(|s| - i - 2, s[i + 1]));
    var x3 := x2.Xor(T(|s| - i - 3, s[i + 2]));
    Peel(acc, s, i);
    Peel(x1, s, i + 1);
    Peel(x2, s, i + 2);
    Peel(x3, s, i + 3);
  }

  lemma Peel(acc: Register, s: seq<Octet>, i: nat)
    requires i < |s|
    ensures acc.Xor(Crc(ZERO, s[i..])) == acc.Xor(T(|s| - i - 1, s[i])).Xor(Crc(ZERO, s[i + 1..]))
  {
    hide Register.Xor, T, Crc;
    assert s[i..] == [s[i]] + s[i + 1..];
    TableHead(acc, s[i], s[i + 1..]);
  }

  lemma CrcNothing(s: seq<Octet>)
    ensures Crc(ZERO, s[|s|..]) == ZERO
  {
  }

  // ----- The 64-bit register -----

  function Xor64(a: bv64, b: bv64): bv64 { a ^ b }
  function Extend64(b: bv32): bv64 { b as bv64 }
  function Byte64(b: bv8): bv64 { b as bv64 }
  function Trunc64(w: bv64): bv32 { (w & 0xffff_ffff) as bv32 }
  function Shr64(w: bv64): bv64 { w >> 8 }

  function Pack64(b0: bv8, b1: bv8, b2: bv8, b3: bv8, b4: bv8, b5: bv8, b6: bv8, b7: bv8): bv64 {
    (b0 as bv64) | ((b1 as bv64) << 8) | ((b2 as bv64) << 16) | ((b3 as bv64) << 24)
    | ((b4 as bv64) << 32) | ((b5 as bv64) << 40) | ((b6 as bv64) << 48) | ((b7 as bv64) << 56)
  }

  /** Byte `k` of a word, as the source shifts and masks it. */
  function LaneBits(w: bv64, k: nat): bv8 {
    if k == 0 then (w & 0xff) as bv8
    else if k == 1 then ((w >> 8) & 0xff) as bv8
    else if k == 2 then ((w >> 16) & 0xff) as bv8
    else if k == 3 then ((w >> 24) & 0xff) as bv8
    else if k == 4 then ((w >> 32) & 0xff) as bv8
    else if k == 5 then ((w >> 40) & 0xff) as bv8
    else if k == 6 then ((w >> 48) & 0xff) as bv8
    else (w >> 56) as bv8
  }

  /** The 64-bit variable of the source. */
  datatype Register64 = Register64(bits: bv64) {
    function Xor(r: Register64): Register64 { Register64(Xor64(bits, r.bits)) }
    function Shift8(): Register64 { Register64(Shr64(bits)) }
    function Lane(k: nat): Octet { Octet(LaneBits(bits, k)) }
    function Truncate(): Register { Register(Trunc64(bits)) }
  }

  function Extend(r: Register): Register64 { Register64(Extend64(r.bits)) }
  function ExtendByte(b: Octet): Register64 { Register64(Byte64(b.bits)) }

  /** le64toh of eight bytes read from memory. */
  function Load64(s: seq<Octet>, i: nat): Register64
    requires i + 8 <= |s|
  {
    Register64(Pack64(s[i].bits, s[i + 1].bits, s[i + 2].bits, s[i + 3].bits,
                      s[i + 4].bits, s[i + 5].bits, s[i + 6].bits, s[i + 7].bits))
  }

  lemma ExtendBits(c: bv32, d: bv32, b: bv8)
    ensures LaneBits(Xor64(Extend64(c), Byte64(b)), 0) == Xor8(Low32(c), b)
    ensures Shr64(Extend64(c)) == Extend64(Shr8(c))
    ensures Xor64(Extend64(c), Extend64(d)) == Extend64(Xor32(c, d))
    ensures Trunc64(Extend64(c)) == c
  {
  }

  lemma ByteStep64(c: Register, b: Octet, t: Register)
    ensures Extend(c).Xor(ExtendByte(b)).Lane(0) == c.Low().Xor(b)
    ensures Extend(t).Xor(Extend(c).Shift8()) == Extend(t.Xor(c.Shift8()))
    ensures Extend(c).Truncate() == c
  {
    hide Xor64, Extend64, Byte64, Trunc64, Shr64, LaneBits, Xor8, Low32, Shr8, Xor32;
    ExtendBits(c.bits, t.bits, b.bits);
    ExtendBits(t.bits, Shr8(c.bits), b.bits);
  }

  lemma Lane0Xor(u: bv64, v: bv64)
    ensures LaneBits(Xor64(u, v), 0) == Xor8(LaneBits(u, 0), LaneBits(v, 0))
  {
  }

  lemma Lane1Xor(u: bv64, v: bv64)
    ensures LaneBits(Xor64(u, v), 1) == Xor8(LaneBits(u, 1), LaneBits(v, 1))
  {
  }

  lemma Lane2Xor(u: bv64, v: bv64)
    ensures LaneBits(Xor64(u, v), 2) == Xor8(LaneBits(u, 2), LaneBits(v, 2))
  {
  }

  lemma Lane3Xor(u: bv64, v: bv64)
    ensures LaneBits(Xor64(u, v), 3) == Xor8(LaneBits(u, 3), LaneBits(v, 3))
  {
  }

  lemma Lane4Xor(u: bv64, v: bv64)
    ensures LaneBits(Xor64(u, v), 4) == Xor8(LaneBits(u, 4), LaneBits(v, 4))
  {
  }

  lemma Lane5Xor(u: bv64, v: bv64)
    ensures LaneBits(Xor64(u, v), 5) == Xor8(LaneBits(u, 5), LaneBits(v, 5))
  {
  }

  lemma Lane6Xor(u: bv64, v: bv64)
    ensures LaneBits(Xor64(u, v), 6) == Xor8(LaneBits(u, 6), LaneBits(v, 6))
  {
  }

  lemma Lane7Xor(u: bv64, v: bv64)
    ensures LaneBits(Xor64(u, v), 7) == Xor8(LaneBits(u, 7), LaneBits(v, 7))
  {
  }

  lemma LanePackBits(b0: bv8, b1: bv8, b2: bv8, b3: bv8, b4: bv8, b5: bv8, b6: bv8, b7: bv8)
    ensures var w := Pack64(b0, b1, b2, b3, b4, b5, b6, b7);
            && LaneBits(w, 0) == b0 && LaneBits(w, 1) == b1 && LaneBits(w, 2) == b2 && LaneBits(w, 3) == b3
            && LaneBits(w, 4) == b4 && LaneBits(w, 5) == b5 && LaneBits(w, 6) == b6 && LaneBits(w, 7) == b7
  {
  }

  lemma LaneExtendBits(c: bv32)
    ensures var w := Extend64(c);
            && LaneBits(w, 0) == Low32(c)
            && LaneBits(w, 1) == Low32(Shr8(c))
            && LaneBits(w, 2) == Low32(Shr8(Shr8(c)))
            && LaneBits(w, 3) == Low32(Shr8(Shr8(Shr8(c))))
            && LaneBits(w, 4) == 0 && LaneBits(w, 5) == 0 && LaneBits(w, 6) == 0 && LaneBits(w, 7) == 0
  {
  }

  lemma XorOctetBits(x: bv8, y: bv8)
    ensures Xor8(x, y) == Xor8(y, x) && Xor8(0, x) == x
  {
  }

  /** The lanes of a word mixed with the register: the register meets the first four bytes only. */
  lemma Lanes(c: Register, s: seq<Octet>, i: nat)
    requires i + 8 <= |s|
    ensures var w := Extend(c).Xor(Load64(s, i));
            && w.Lane(0) == s[i].Xor(c.Low())
            && w.Lane(1) == s[i + 1].Xor(c.Shift8().Low())
            && w.Lane(2) == s[i + 2].Xor(c.Shift8().Shift8().Low())
            && w.Lane(3) == s[i + 3].Xor(c.Shift8().Shift8().Shift8().Low())
            && w.Lane(4) == s[i + 4] && w.Lane(5) == s[i + 5] && w.Lane(6) == s[i + 6] && w.Lane(7) == s[i + 7]
  {
    hide Xor64, Extend64, Pack64, LaneBits, Xor8, Low32, Shr8;
    var load := Load64(s, i).bits;
    LanePackBits(s[i].bits, s[i + 1].bits, s[i + 2].bits, s[i + 3].bits,
                 s[i + 4].bits, s[i + 5].bits, s[i + 6].bits, s[i + 7].bits);
    LaneExtendBits(c.bits);
    var reg := Extend64(c.bits);
    Lane0Xor(reg, load);
    Lane1Xor(reg, load);
    Lane2Xor(reg, load);
    Lane3Xor(reg, load);
    Lane4Xor(reg, load);
    Lane5Xor(reg, load);
    Lane6Xor(reg, load);
    Lane7Xor(reg, load);
    XorOctetBits(s[i].bits, LaneBits(reg, 0));
    XorOctetBits(s[i + 1].bits, LaneBits(reg, 1));
    XorOctetBits(s[i + 2].bits, LaneBits(reg, 2));
    XorOctetBits(s[i + 3].bits, LaneBits(reg, 3));
    XorOctetBits(s[i + 4].bits, 0);
    XorOctetBits(s[i + 5].bits, 0);
    XorOctetBits(s[i + 6].bits, 0);
    XorOctetBits(s[i + 7].bits, 0);
  }

  /** One lookup in each table. */
  function TableOfLanes(w: Register64): Register {
    T(7, w.Lane(0)).Xor(T(6, w.Lane(1))).Xor(T(5, w.Lane(2))).Xor(T(4, w.Lane(3)))
      .Xor(T(3, w.Lane(4))).Xor(T(2, w.Lane(5))).Xor(T(1, w.Lane(6))).Xor(T(0, w.Lane(7)))
  }

  /** Slicing-by-8: one lookup in each table advances the register over eight bytes. */
  lemma EightBytes(c: Register, s: seq<Octet>, i: nat)
    requires i + 8 <= |s|
    ensures Crc(c, s[i..i + 8]) == TableOfLanes(Extend(c).Xor(Load64(s, i)))
  {
    hide Register.Xor, Register.Low, Register.Shift8, Octet.Xor, T, Crc, Extend, Load64, Register64.Xor, Register64.Lane;
    var w := Extend(c).Xor(Load64(s, i));
    Lanes(c, s, i);
    var rest := [s[i + 4], s[i + 5], s[i + 6], s[i + 7]];
    assert s[i..i + 8] == [s[i], s[i + 1], s[i + 2], s[i + 3]] + rest;
    AbsorbAll(c, s[i], s[i + 1], s[i + 2], s[i + 3], rest);
    assert [w.Lane(0), w.Lane(1), w.Lane(2), w.Lane(3)] + rest
        == [w.Lane(0), w.Lane(1), w.Lane(2), w.Lane(3), w.Lane(4), w.Lane(5), w.Lane(6), w.Lane(7)];
    TableSum(w.Lane(0), w.Lane(1), w.Lane(2), w.Lane(3), w.Lane(4), w.Lane(5), w.Lane(6), w.Lane(7));
  }

  // ----- crc32c_sw -----

  /** One byte through table 0. */
  method ByteSw(table: array2<Register>, crc0: Register64, b: Octet, ghost c: Register) returns (crc: Register64)
    requires TablesOk(table) && crc0 == Extend(c)
    ensures crc == Extend(Update(c, b))
  {
    hide Extend, T, Update, Register.Xor, Register.Low, Register.Shift8, Octet.Xor, At;
    hide Register64.Xor, Register64.Shift8, Register64.Lane, ExtendByte;
    var index := crc0.Xor(ExtendByte(b)).Lane(0);
    Lookup(table, 0, index);
    ByteStep64(c, b, table[0, At(index)]);
    UpdateByTable(c, b);
    crc := Extend(table[0, At(index)]).Xor(crc0.Shift8());
  }

  /** Single bytes up to an eight-byte boundary. */
  method AlignSw(table: array2<Register>, crc0: Register64, buf: seq<Octet>, address: nat, ghost c: Register)
    returns (crc: Register64, next: nat)
    requires TablesOk(table) && crc0 == Extend(c)
    ensures next <= |buf| && (next == |buf| || (address + next) % 8 == 0)
    ensures crc == Extend(Crc(c, buf[..next]))
  {
    hide Extend, Crc, T, Update;
    crc, next := crc0, 0;
    CrcEmpty(c);
    while next < |buf| && (address + next) % 8 != 0
      invariant next <= |buf|
      invariant crc == Extend(Crc(c, buf[..next]))
    {
      CrcSnoc(c, buf, 0, next);
      assert buf[0..next] == buf[..next] && buf[0..next + 1] == buf[..next + 1];
      crc := ByteSw(table, crc, buf[next], Crc(c, buf[..next]));
      next := next + 1;
    }
  }

  /** The bytes after the last full word. */
  method TailSw(table: array2<Register>, crc0: Register64, buf: seq<Octet>, from: nat, ghost c: Register)
    returns (crc: Register64)
    requires TablesOk(table) && from <= |buf| && crc0 == Extend(Crc(c, buf[..from]))
    ensures crc == Extend(Crc(c, buf))
  {
    hide Extend, Crc, T, Update;
    crc := crc0;
    var next := from;
    while next < |buf|
      invariant next <= |buf|
      invariant crc == Extend(Crc(c, buf[..next]))
    {
      CrcSnoc(c, buf, 0, next);
      assert buf[0..next] == buf[..next] && buf[0..next + 1] == buf[..next + 1];
      crc := ByteSw(table, crc, buf[next], Crc(c, buf[..next]));
      next := next + 1;
    }
    assert buf[..|buf|] == buf;
  }

  lemma CrcEmpty(c: Register)
    ensures Crc(c, []) == c
  {
  }

  lemma CrcSnoc(c: Register, buf: seq<Octet>, from: nat, until: nat)
    requires from <= until < |buf|
    ensures Crc(c, buf[from..until + 1]) == Update(Crc(c, buf[from..until]), buf[until])
  {
    hide Update;
    assert buf[from..until + 1] == buf[from..until] + [buf[until]];
    CrcConcat(c, buf[from..until], [buf[until]]);
  }

  method WordSw(table: array2<Register>, crc0: Register64, buf: seq<Octet>, i: nat, ghost c: Register) returns (crc: Register64)
    requires TablesOk(table) && i + 8 <= |buf| && crc0 == Extend(c)
    ensures crc == Extend(Crc(c, buf[i..i + 8]))
  {
    hide Crc, T, Register64.Xor, Register64.Lane, Register.Xor, Load64, Extend, At;
    var w := crc0.Xor(Load64(buf, i));
    Lookup(table, 7, w.Lane(0));
    Lookup(table, 6, w.Lane(1));
    Lookup(table, 5, w.Lane(2));
    Lookup(table, 4, w.Lane(3));
    Lookup(table, 3, w.Lane(4));
    Lookup(table, 2, w.Lane(5));
    Lookup(table, 1, w.Lane(6));
    Lookup(table, 0, w.Lane(7));
    EightBytes(c, buf, i);
    var sum := table[7, At(w.Lane(0))].Xor(table[6, At(w.Lane(1))]).Xor(table[5, At(w.Lane(2))]).Xor(table[4, At(w.Lane(3))])
                 .Xor(table[3, At(w.Lane(4))]).Xor(table[2, At(w.Lane(5))]).Xor(table[1, At(w.Lane(6))]).Xor(table[0, At(w.Lane(7))]);
    crc := Extend(sum);
  }

  /** crc32c_sw: head bytes up to alignment, words, tail bytes.  `address` is where the buffer lies. */
  method CrcSw(table: array2<Register>, crci: Register, buf: seq<Octet>, address: nat) returns (r: Register)
    requires TablesOk(table)
    ensures r == Crc32c(crci, buf)
  {
    hide Crc, T, Extend, Register.Xor, Register64.Truncate;
    ghost var c := crci.Xor(Register(0xffff_ffff));
    var crc := Extend(crci.Xor(Register(0xffff_ffff)));
    var next;
    crc, next := AlignSw(table, crc, buf, address, c);
    while |buf| - next >= 8
      invariant next <= |buf|
      invariant crc == Extend(Crc(c, buf[..next]))
    {
      crc := WordSw(table, crc, buf, next, Crc(c, buf[..next]));
      assert buf[..next + 8] == buf[..next] + buf[next..next + 8];
      CrcConcat(c, buf[..next], buf[next..next + 8]);
      next := next + 8;
    }
    crc := TailSw(table, crc, buf, next, c);
    ByteStep64(Crc(c, buf), Octet(0), ZERO);
    r := crc.Truncate().Xor(Register(0xffff_ffff));
  }
}
