// The match counter of the compressor: eight bytes at a time through machine words.
module Lz4Count {
  import opened Lz4Format

  // ----- Machine words -----

  /** A 64-bit machine word. */
  datatype Word = Word(bits: bv64) {
    predicate IsZero() { bits == 0 }
    predicate IsOctet() { bits < 0x100 }
    function Xor(w: Word): Word { Word(XorBits(bits, w.bits)) }
  }

  function XorBits(a: bv64, b: bv64): bv64 { a ^ b }
  function ShiftIn(a: bv64, b: bv64): bv64 { (a << 1) | b }
  function ShiftInByte(a: bv64, x: bv64): bv64 { a | (x << 8) }

  function PushBit(w: Word, odd: bool): Word {
    Word(ShiftIn(w.bits, if odd then 1 else 0))
  }

  /** A number of at most `width` bits as a word, bit by bit. */
  function Bits(x: nat, width: nat): Word {
    if width == 0 then Word(0) else PushBit(Bits(x / 2, width - 1), x % 2 == 1)
  }

  function Mask(width: nat): bv64 {
    if width == 0 then 0 else if width == 1 then 1 else if width == 2 then 3 else if width == 3 then 7
    else if width == 4 then 15 else if width == 5 then 31 else if width == 6 then 63 else if width == 7 then 127 else 255
  }

  predicate Fits(w: Word, width: nat) {
    FitsBits(w.bits, width)
  }

  predicate FitsBits(a: bv64, width: nat) {
    a <= Mask(width)
  }

  lemma PushBitFits(w: Word, odd: bool, width: nat)
    requires width < 8 && Fits(w, width)
    ensures Fits(PushBit(w, odd), width + 1)
  {
    hide FitsBits, ShiftIn;
    if odd {
      ShiftInFits(w.bits, 1, width);
    } else {
      ShiftInFits(w.bits, 0, width);
    }
  }

  lemma ShiftInFits(a: bv64, b: bv64, width: nat)
    requires width < 8 && FitsBits(a, width) && b <= 1
    ensures FitsBits(ShiftIn(a, b), width + 1)
  {
    hide Mask, ShiftIn;
    MaskDoubles(width);
    ShiftInBounded(a, Mask(width), b);
  }

  lemma MaskDoubles(width: nat)
    requires width < 8
    ensures Mask(width) <= 127 && Mask(width + 1) == ShiftIn(Mask(width), 1)
  {
  }

  lemma ShiftInBounded(a: bv64, m: bv64, b: bv64)
    requires a <= m <= 127 && b <= 1
    ensures ShiftIn(a, b) <= ShiftIn(m, 1)
  {
  }

  lemma PushBitInjective(v: Word, f: bool, w: Word, g: bool)
    requires v.IsOctet() && w.IsOctet() && PushBit(v, f) == PushBit(w, g)
    ensures v == w && f == g
  {
    hide ShiftIn;
    ShiftInInjective(v.bits, if f then 1 else 0, w.bits, if g then 1 else 0);
  }

  lemma ShiftInInjective(a: bv64, b: bv64, c: bv64, d: bv64)
    requires a < 0x100 && c < 0x100 && b <= 1 && d <= 1
    requires ShiftIn(a, b) == ShiftIn(c, d)
    ensures a == c && b == d
  {
  }

  lemma FitsOctet(w: Word, width: nat)
    requires Fits(w, width)
    ensures w.IsOctet()
  {
  }

  lemma ZeroFits()
    ensures Fits(Word(0), 0)
  {
  }

  lemma {:induction false} BitsFit(x: nat, width: nat)
    requires width <= 8
    ensures Fits(Bits(x, width), width)
    decreases width
  {
    hide Fits, PushBit;
    ZeroFits();
    if width > 0 {
      BitsFit(x / 2, width - 1);
      PushBitFits(Bits(x / 2, width - 1), x % 2 == 1, width - 1);
    }
  }

  lemma {:induction false} BitsInjective(x: nat, y: nat, width: nat)
    requires width <= 8 && x < Power(width) && y < Power(width)
    requires Bits(x, width) == Bits(y, width)
    ensures x == y
    decreases width
  {
    hide Fits, PushBit, Word.IsOctet;
    if width > 0 {
      BitsFit(x / 2, width - 1);
      BitsFit(y / 2, width - 1);
      FitsOctet(Bits(x / 2, width - 1), width - 1);
      FitsOctet(Bits(y / 2, width - 1), width - 1);
      PushBitInjective(Bits(x / 2, width - 1), x % 2 == 1, Bits(y / 2, width - 1), y % 2 == 1);
      BitsInjective(x / 2, y / 2, width - 1);
    }
  }

  function Power(width: nat): nat {
    if width == 0 then 1 else 2 * Power(width - 1)
  }

  lemma PowerTable()
    ensures Power(8) == 256
  {
    assert Power(4) == 16;
  }

  /** A byte as a word. */
  function Wide(x: byte): Word {
    Bits(x, 8)
  }

  lemma WideIsByte(x: byte)
    ensures Wide(x).IsOctet()
  {
    hide Bits, Fits, Word.IsOctet;
    BitsFit(x, 8);
    FitsOctet(Bits(x, 8), 8);
  }

  lemma WideInjective(x: byte, y: byte)
    ensures Wide(x) == Wide(y) ==> x == y
  {
    hide Bits;
    if Wide(x) == Wide(y) {
      PowerTable();
      BitsInjective(x, y, 8);
    }
  }

  /** `low` becomes the lowest byte, below those of `rest`. */
  function Under(low: Word, rest: Word): Word {
    Word(ShiftInByte(low.bits, rest.bits))
  }

  function Pack(b0: Word, b1: Word, b2: Word, b3: Word, b4: Word, b5: Word, b6: Word, b7: Word): Word {
    Under(b0, Under(b1, Under(b2, Under(b3, Under(b4, Under(b5, Under(b6, b7)))))))
  }

  /** An unaligned little-endian read of eight bytes. */
  function ReadArch(s: seq<byte>, i: nat): Word
    requires i + 8 <= |s|
  {
    Pack(Wide(s[i]), Wide(s[i + 1]), Wide(s[i + 2]), Wide(s[i + 3]),
         Wide(s[i + 4]), Wide(s[i + 5]), Wide(s[i + 6]), Wide(s[i + 7]))
  }

  // ----- Number of common bytes -----

  const LOW_BITS: bv64 := 0x0101_0101_0101_0101

  /** The multiplication trick: how many low bytes of a non-zero word are zero. */
  function NbCommonBytes(w: Word): (r: nat)
    ensures r <= 7
  {
    var val := w.bits;
    var n: bv64 := (((val ^ (val - 1)) & (LOW_BITS - 1)) * LOW_BITS) >> 56;
    if n == 1 then 1 else if n == 2 then 2 else if n == 3 then 3 else if n == 4 then 4
    else if n == 5 then 5 else if n == 6 then 6 else if n == 7 then 7 else 0
  }

  function FirstNonZero(d0: Word, d1: Word, d2: Word, d3: Word, d4: Word, d5: Word, d6: Word, d7: Word): nat {
    if !d0.IsZero() then 0 else if !d1.IsZero() then 1 else if !d2.IsZero() then 2 else if !d3.IsZero() then 3
    else if !d4.IsZero() then 4 else if !d5.IsZero() then 5 else if !d6.IsZero() then 6 else if !d7.IsZero() then 7 else 8
  }

  lemma NbCommonBytesOfMask(val: bv64, r: nat)
    requires r < 8
    requires (val ^ (val - 1)) & (LOW_BITS - 1)
          == if r == 0 then 0 else if r == 1 then 0x0100 else if r == 2 then 0x01_0100 else if r == 3 then 0x0101_0100
             else if r == 4 then 0x01_0101_0100 else if r == 5 then 0x0101_0101_0100
             else if r == 6 then 0x01_0101_0101_0100 else 0x0101_0101_0101_0100
    ensures NbCommonBytes(Word(val)) == r
  {
  }

  /** The trick finds the first non-zero byte of every non-zero word. */
  lemma NbCommonBytesOfPack(d0: Word, d1: Word, d2: Word, d3: Word, d4: Word, d5: Word, d6: Word, d7: Word)
    requires d0.IsOctet() && d1.IsOctet() && d2.IsOctet() && d3.IsOctet()
    requires d4.IsOctet() && d5.IsOctet() && d6.IsOctet() && d7.IsOctet()
    ensures Pack(d0, d1, d2, d3, d4, d5, d6, d7).IsZero() <==> FirstNonZero(d0, d1, d2, d3, d4, d5, d6, d7) == 8
    ensures FirstNonZero(d0, d1, d2, d3, d4, d5, d6, d7) < 8 ==>
      NbCommonBytes(Pack(d0, d1, d2, d3, d4, d5, d6, d7)) == FirstNonZero(d0, d1, d2, d3, d4, d5, d6, d7)
  {
    hide NbCommonBytes;
    var val := Pack(d0, d1, d2, d3, d4, d5, d6, d7).bits;
    if d0.bits != 0 { NbCommonBytesOfMask(val, 0); }
    else if d1.bits != 0 { NbCommonBytesOfMask(val, 1); }
    else if d2.bits != 0 { NbCommonBytesOfMask(val, 2); }
    else if d3.bits != 0 { NbCommonBytesOfMask(val, 3); }
    else if d4.bits != 0 { NbCommonBytesOfMask(val, 4); }
    else if d5.bits != 0 { NbCommonBytesOfMask(val, 5); }
    else if d6.bits != 0 { NbCommonBytesOfMask(val, 6); }
    else if d7.bits != 0 { NbCommonBytesOfMask(val, 7); }
  }

  lemma XorOfShifted(a: bv64, x: bv64, b: bv64, y: bv64)
    requires a < 0x100 && b < 0x100
    ensures XorBits(ShiftInByte(a, x), ShiftInByte(b, y)) == ShiftInByte(XorBits(a, b), XorBits(x, y))
  {
  }

  /** Exclusive or works byte by byte. */
  lemma XorUnder(a: Word, x: Word, b: Word, y: Word)
    requires a.IsOctet() && b.IsOctet()
    ensures Under(a, x).Xor(Under(b, y)) == Under(a.Xor(b), x.Xor(y))
  {
    hide XorBits, ShiftInByte;
    XorOfShifted(a.bits, x.bits, b.bits, y.bits);
  }

  lemma XorOfPack(a0: Word, a1: Word, a2: Word, a3: Word, a4: Word, a5: Word, a6: Word, a7: Word,
                  b0: Word, b1: Word, b2: Word, b3: Word, b4: Word, b5: Word, b6: Word, b7: Word)
    requires a0.IsOctet() && a1.IsOctet() && a2.IsOctet() && a3.IsOctet()
    requires a4.IsOctet() && a5.IsOctet() && a6.IsOctet() && a7.IsOctet()
    requires b0.IsOctet() && b1.IsOctet() && b2.IsOctet() && b3.IsOctet()
    requires b4.IsOctet() && b5.IsOctet() && b6.IsOctet() && b7.IsOctet()
    ensures Pack(a0, a1, a2, a3, a4, a5, a6, a7).Xor(Pack(b0, b1, b2, b3, b4, b5, b6, b7))
         == Pack(a0.Xor(b0), a1.Xor(b1), a2.Xor(b2), a3.Xor(b3), a4.Xor(b4), a5.Xor(b5), a6.Xor(b6), a7.Xor(b7))
  {
    hide Under, Word.Xor, Word.IsOctet;
    XorUnder(a6, a7, b6, b7);
    var rest6, other6 := Under(a6, a7), Under(b6, b7);
    XorUnder(a5, rest6, b5, other6);
    var rest5, other5 := Under(a5, rest6), Under(b5, other6);
    XorUnder(a4, rest5, b4, other5);
    var rest4, other4 := Under(a4, rest5), Under(b4, other5);
    XorUnder(a3, rest4, b3, other4);
    var rest3, other3 := Under(a3, rest4), Under(b3, other4);
    XorUnder(a2, rest3, b2, other3);
    var rest2, other2 := Under(a2, rest3), Under(b2, other3);
    XorUnder(a1, rest2, b1, other2);
    XorUnder(a0, Under(a1, rest2), b0, Under(b1, other2));
  }

  lemma XorZero(u: Word, v: Word)
    requires u.IsOctet() && v.IsOctet()
    ensures u.Xor(v).IsOctet()
    ensures u.Xor(v).IsZero() <==> u == v
  {
  }

  function Difference(x: byte, y: byte): Word {
    Wide(x).Xor(Wide(y))
  }

  lemma DifferenceZero(x: byte, y: byte)
    ensures Difference(x, y).IsOctet()
    ensures Difference(x, y).IsZero() <==> x == y
  {
    hide Wide, Word.IsOctet, Word.IsZero, Word.Xor;
    WideIsByte(x);
    WideIsByte(y);
    WideInjective(x, y);
    XorZero(Wide(x), Wide(y));
  }

  lemma DifferenceOfReads(s: seq<byte>, i: nat, j: nat)
    requires i + 8 <= |s| && j + 8 <= |s|
    ensures ReadArch(s, j).Xor(ReadArch(s, i))
         == Pack(Difference(s[j], s[i]), Difference(s[j + 1], s[i + 1]),
                 Difference(s[j + 2], s[i + 2]), Difference(s[j + 3], s[i + 3]),
                 Difference(s[j + 4], s[i + 4]), Difference(s[j + 5], s[i + 5]),
                 Difference(s[j + 6], s[i + 6]), Difference(s[j + 7], s[i + 7]))
  {
    hide Wide, Pack, Word.IsOctet, Word.IsZero, Word.Xor;
    WideIsByte(s[i]); WideIsByte(s[i + 1]); WideIsByte(s[i + 2]); WideIsByte(s[i + 3]);
    WideIsByte(s[i + 4]); WideIsByte(s[i + 5]); WideIsByte(s[i + 6]); WideIsByte(s[i + 7]);
    WideIsByte(s[j]); WideIsByte(s[j + 1]); WideIsByte(s[j + 2]); WideIsByte(s[j + 3]);
    WideIsByte(s[j + 4]); WideIsByte(s[j + 5]); WideIsByte(s[j + 6]); WideIsByte(s[j + 7]);
    XorOfPack(Wide(s[j]), Wide(s[j + 1]), Wide(s[j + 2]), Wide(s[j + 3]),
              Wide(s[j + 4]), Wide(s[j + 5]), Wide(s[j + 6]), Wide(s[j + 7]),
              Wide(s[i]), Wide(s[i + 1]), Wide(s[i + 2]), Wide(s[i + 3]),
              Wide(s[i + 4]), Wide(s[i + 5]), Wide(s[i + 6]), Wide(s[i + 7]));
  }

  /** What the difference of two words read from memory says about the bytes. */
  function WordRun(s: seq<byte>, i: nat, j: nat): nat
    requires i + 8 <= |s| && j + 8 <= |s|
  {
    var diff := ReadArch(s, j).Xor(ReadArch(s, i));
    if diff.IsZero() then 8 else NbCommonBytes(diff)
  }

  lemma EqualUpTo(s: seq<byte>, i: nat, j: nat, r: nat)
    requires i + 8 <= |s| && j + 8 <= |s| && r <= 8
    requires (0 < r ==> s[i] == s[j]) && (1 < r ==> s[i + 1] == s[j + 1]) && (2 < r ==> s[i + 2] == s[j + 2])
    requires (3 < r ==> s[i + 3] == s[j + 3]) && (4 < r ==> s[i + 4] == s[j + 4]) && (5 < r ==> s[i + 5] == s[j + 5])
    requires (6 < r ==> s[i + 6] == s[j + 6]) && (7 < r ==> s[i + 7] == s[j + 7])
    ensures s[i..i + r] == s[j..j + r]
  {
  }

  lemma WordRunCorrect(s: seq<byte>, i: nat, j: nat)
    requires i + 8 <= |s| && j + 8 <= |s|
    ensures WordRun(s, i, j) <= 8
    ensures s[i..i + WordRun(s, i, j)] == s[j..j + WordRun(s, i, j)]
    ensures WordRun(s, i, j) < 8 ==> s[i + WordRun(s, i, j)] != s[j + WordRun(s, i, j)]
  {
    hide ReadArch, Pack, Difference, NbCommonBytes, Word.IsOctet, Word.IsZero, Word.Xor;
    DifferenceOfReads(s, i, j);
    DifferenceZero(s[j], s[i]);
    DifferenceZero(s[j + 1], s[i + 1]);
    DifferenceZero(s[j + 2], s[i + 2]);
    DifferenceZero(s[j + 3], s[i + 3]);
    DifferenceZero(s[j + 4], s[i + 4]);
    DifferenceZero(s[j + 5], s[i + 5]);
    DifferenceZero(s[j + 6], s[i + 6]);
    DifferenceZero(s[j + 7], s[i + 7]);
    NbCommonBytesOfPack(Difference(s[j], s[i]), Difference(s[j + 1], s[i + 1]),
                        Difference(s[j + 2], s[i + 2]), Difference(s[j + 3], s[i + 3]),
                        Difference(s[j + 4], s[i + 4]), Difference(s[j + 5], s[i + 5]),
                        Difference(s[j + 6], s[i + 6]), Difference(s[j + 7], s[i + 7]));
    EqualUpTo(s, i, j, WordRun(s, i, j));
  }

  // ----- Counting -----

  /** Length of the longest run, stopping at `limit`, on which `s` agrees at `i` and at `j`. */
  function CommonRun(s: seq<byte>, i: nat, j: nat, limit: int): (r: nat)
    requires j <= i && limit <= |s|
    ensures i <= limit ==> i + r <= limit
    ensures i > limit ==> r == 0
    decreases limit - i
  {
    if i >= limit || s[i] != s[j] then 0 else 1 + CommonRun(s, i + 1, j + 1, limit)
  }

  /** The run agrees, and cannot be made longer. */
  lemma {:induction false} CommonRunLongest(s: seq<byte>, i: nat, j: nat, limit: int)
    requires j <= i <= limit <= |s|
    ensures var r := CommonRun(s, i, j, limit);
            s[i..i + r] == s[j..j + r] && (i + r < limit ==> s[i + r] != s[j + r])
    decreases limit - i
  {
    var r := CommonRun(s, i, j, limit);
    if r > 0 {
      CommonRunLongest(s, i + 1, j + 1, limit);
      OneByteMore(s, i, j, r);
    }
  }

  lemma OneByteMore(s: seq<byte>, i: nat, j: nat, r: nat)
    requires r > 0 && i + r <= |s| && j + r <= |s|
    requires s[i] == s[j] && s[i + 1..i + r] == s[j + 1..j + r]
    ensures s[i..i + r] == s[j..j + r]
  {
    var run, earlier := s[i..i + r], s[j..j + r];
    forall k | 0 <= k < r ensures run[k] == earlier[k] {
      if k > 0 {
        assert s[i + 1..i + r][k - 1] == s[j + 1..j + r][k - 1];
      }
    }
  }

  lemma {:induction false} CommonRunSkip(s: seq<byte>, i: nat, j: nat, limit: int, n: nat)
    requires j <= i && i + n <= limit <= |s|
    requires s[i..i + n] == s[j..j + n]
    ensures CommonRun(s, i, j, limit) == n + CommonRun(s, i + n, j + n, limit)
    decreases n
  {
    if n > 0 {
      assert s[i] == s[i..i + n][0] == s[j..j + n][0] == s[j];
      assert s[i + 1..i + n] == s[i..i + n][1..] == s[j..j + n][1..] == s[j + 1..j + n];
      CommonRunSkip(s, i + 1, j + 1, limit, n - 1);
    }
  }

  /** One word comparison either advances by eight bytes or finds the end of the run. */
  method CompareWords(s: seq<byte>, i: nat, j: nat, limit: nat) returns (n: nat)
    requires j <= i && i + 8 <= limit <= |s|
    ensures n <= 8
    ensures n == 8 ==> CommonRun(s, i, j, limit) == 8 + CommonRun(s, i + 8, j + 8, limit)
    ensures n < 8 ==> CommonRun(s, i, j, limit) == n
  {
    hide ReadArch, NbCommonBytes, Word.IsZero, Word.Xor;
    var diff := ReadArch(s, j).Xor(ReadArch(s, i));
    if diff.IsZero() {
      n := 8;
    } else {
      n := NbCommonBytes(diff);
    }
    assert n == WordRun(s, i, j);
    hide WordRun;
    WordRunCorrect(s, i, j);
    CommonRunSkip(s, i, j, limit, n);
  }

  method Count(s: seq<byte>, pStart: nat, pMatch0: nat, pInLimit: nat) returns (r: nat)
    requires pMatch0 <= pStart && pInLimit <= |s|
    ensures r == CommonRun(s, pStart, pMatch0, pInLimit)
  {
    hide CommonRun;
    var pIn, pMatch := pStart, pMatch0;
    while pIn < pInLimit - 7
      invariant pIn - pStart == pMatch - pMatch0 >= 0
      invariant CommonRun(s, pStart, pMatch0, pInLimit) == pIn - pStart + CommonRun(s, pIn, pMatch, pInLimit)
    {
      var n := CompareWords(s, pIn, pMatch, pInLimit);
      if n < 8 {
        return pIn + n - pStart;
      }
      pIn, pMatch := pIn + 8, pMatch + 8;
    }
    r := CountTail(s, pIn, pMatch, pInLimit);
    r := pIn + r - pStart;
  }

  /** The last seven bytes at most: a comparison of four, of two and of one byte. */
  method CountTail(s: seq<byte>, i: nat, j: nat, limit: nat) returns (r: nat)
    requires j <= i && limit <= |s| && i >= limit - 7
    ensures r == CommonRun(s, i, j, limit)
  {
    hide CommonRun;
    var pIn, pMatch := i, j;
    SliceRun(s, pIn, pMatch, limit, 4);
    if pIn < limit - 3 && s[pMatch..pMatch + 4] == s[pIn..pIn + 4] {
      pIn, pMatch := pIn + 4, pMatch + 4;
    }
    SliceRun(s, pIn, pMatch, limit, 2);
    if pIn < limit - 1 && s[pMatch..pMatch + 2] == s[pIn..pIn + 2] {
      pIn, pMatch := pIn + 2, pMatch + 2;
    }
    SliceRun(s, pIn, pMatch, limit, 1);
    if pIn < limit && s[pMatch..pMatch + 1] == s[pIn..pIn + 1] {
      pIn, pMatch := pIn + 1, pMatch + 1;
    }
    r := pIn - i;
  }

  lemma ShorterSlices(s: seq<byte>, i: nat, j: nat, r: nat, n: nat)
    requires i + r <= |s| && j + r <= |s|
    requires s[i..i + r] == s[j..j + r]
    ensures n <= r ==> s[i..i + n] == s[j..j + n]
  {
    if n <= r {
      assert s[i..i + n] == s[i..i + r][..n];
      assert s[j..j + n] == s[j..j + r][..n];
    }
  }

  /** Comparing `n` bytes at once says whether the run has at least `n`. */
  lemma SliceRun(s: seq<byte>, i: nat, j: nat, limit: nat, n: nat)
    requires n > 0 && j <= i && limit <= |s|
    ensures i + n > limit ==> CommonRun(s, i, j, limit) < n
    ensures i + n <= limit && s[j..j + n] != s[i..i + n] ==> CommonRun(s, i, j, limit) < n
    ensures i + n <= limit && s[j..j + n] == s[i..i + n] ==>
      CommonRun(s, i, j, limit) == n + CommonRun(s, i + n, j + n, limit)
  {
    hide CommonRun;
    if i + n <= limit {
      if s[j..j + n] == s[i..i + n] {
        CommonRunSkip(s, i, j, limit, n);
      } else {
        CommonRunLongest(s, i, j, limit);
        ShorterSlices(s, i, j, CommonRun(s, i, j, limit), n);
      }
    }
  }
}
