// The copy routines of the decoder.  They write in strides of 8, 16 or 32 bytes, past the end they
// are given, and are proved to leave exactly what a byte-by-byte forward copy would.
module Lz4Copy {
  import opened Lz4Format

  // ----- What a copy at a given distance leaves -----

  /** Every byte of `a[from..to]` repeats the byte `offset` positions before it. */
  ghost predicate Repeats(a: seq<byte>, from: nat, until: nat, offset: nat)
    requires offset <= from && until <= |a|
  {
    forall k :: from <= k < until ==> a[k] == if offset == 0 then 0 else a[k - offset]
  }

  lemma {:induction false} RepeatChain(a: seq<byte>, from: nat, until: nat, offset: nat, j: nat, i: nat)
    requires 0 < offset <= from && until <= |a|
    requires Repeats(a, from, until, offset)
    requires from <= j + offset && j + i * offset < until
    ensures a[j + i * offset] == a[j]
  {
    if i != 0 {
      assert j + i * offset == j + (i - 1) * offset + offset;
      RepeatChain(a, from, until, offset, j, i - 1);
      assert from <= j + i * offset;
    }
  }

  /** Copying at a multiple of the offset continues the repetition. */
  lemma {:induction false} RepeatsAtMultiple(a: seq<byte>, from: nat, mid: nat, until: nat, offset: nat, times: nat)
    requires 0 < offset <= from <= mid && until <= |a|
    requires 0 < times && times * offset <= mid - from + offset
    requires Repeats(a, from, if mid <= until then mid else until, offset)
    requires forall k :: mid <= k < until ==> a[k] == a[k - times * offset]
    ensures Repeats(a, from, until, offset)
    decreases until
  {
    if mid < until {
      var k := until - 1;
      RepeatsAtMultiple(a, from, mid, k, offset, times);
      var j := k - times * offset;
      assert j + (times - 1) * offset == k - offset;
      RepeatChain(a, from, k, offset, j, times - 1);
    }
  }

  lemma {:induction false} ZerosAtDistance(a: seq<byte>, from: nat, mid: nat, until: nat, distance: nat)
    requires from <= mid && until <= |a|
    requires 0 < distance <= mid - from
    requires Repeats(a, from, if mid <= until then mid else until, 0)
    requires forall k :: mid <= k < until ==> a[k] == a[k - distance]
    ensures Repeats(a, from, until, 0)
    decreases until
  {
    if mid < until {
      ZerosAtDistance(a, from, mid, until - 1, distance);
      var j := until - 1 - distance;
      assert from <= j < until - 1 && a[j] == 0;
    }
  }

  /** A repetition of a history is the match copy of the format. */
  lemma RepeatsIsCopyMatch(a: seq<byte>, start: nat, from: nat, until: nat, offset: nat)
    requires start <= from <= until <= |a|
    requires offset <= from - start
    requires Repeats(a, from, until, offset)
    ensures a[start..until] == CopyMatch(a[start..from], offset, until - from)
  {
    CopyMatchUnique(a[start..from], offset, until - from, a[start..until]);
  }

  // ----- Fixed-size copies -----

  /** All bytes outside `a[from..to]` are as in `was`. */
  ghost predicate SameOutside(was: seq<byte>, now: seq<byte>, from: int, until: int) {
    && |was| == |now|
    && forall k :: 0 <= k < |was| && !(from <= k < until) ==> now[k] == was[k]
  }

  /** memcpy inside one buffer, ranges not overlapping. */
  method CopyWithin(a: array<byte>, d: nat, s: nat, n: nat)
    requires s + n <= d && d + n <= a.Length
    modifies a
    ensures SameOutside(old(a[..]), a[..], d, d + n)
    ensures forall k :: d <= k < d + n ==> a[k] == a[k - (d - s)]
  {
    forall k | 0 <= k < n {
      a[d + k] := a[s + k];
    }
  }

  /** memcpy from another buffer. */
  method CopyFrom(a: array<byte>, d: nat, src: seq<byte>, s: nat, n: nat)
    requires d + n <= a.Length && s + n <= |src|
    modifies a
    ensures SameOutside(old(a[..]), a[..], d, d + n)
    ensures a[d..d + n] == src[s..s + n]
  {
    forall k | 0 <= k < n {
      a[d + k] := src[s + k];
    }
  }

  // ----- Wild copies -----

  /** Where a copy in strides of `stride` that must reach `e` stops: it always makes one stride. */
  function WildEnd(d: nat, e: int, stride: nat): (r: nat)
    requires stride > 0
    ensures r >= d + stride && r >= e
    ensures e > d ==> r < e + stride
    ensures e <= d ==> r == d + stride
    decreases e - d
  {
    if e <= d + stride then d + stride else WildEnd(d + stride, e, stride)
  }

  method WildCopy8Within(a: array<byte>, d0: nat, s0: nat, e: int)
    requires s0 + 8 <= d0
    requires WildEnd(d0, e, 8) <= a.Length
    modifies a
    ensures SameOutside(old(a[..]), a[..], d0, WildEnd(d0, e, 8))
    ensures forall k :: d0 <= k < WildEnd(d0, e, 8) ==> a[k] == a[k - (d0 - s0)]
  {
    var d, s := d0, s0;
    CopyWithin(a, d, s, 8);
    d, s := d + 8, s + 8;
    while d < e
      invariant d - s == d0 - s0 && d >= d0 + 8
      invariant d <= WildEnd(d0, e, 8)
      invariant d < e ==> WildEnd(d, e, 8) == WildEnd(d0, e, 8)
      invariant d >= e ==> d == WildEnd(d0, e, 8)
      invariant SameOutside(old(a[..]), a[..], d0, d)
      invariant forall k :: d0 <= k < d ==> a[k] == a[k - (d0 - s0)]
    {
      CopyWithin(a, d, s, 8);
      d, s := d + 8, s + 8;
    }
  }

  method WildCopy32Within(a: array<byte>, d0: nat, s0: nat, e: int)
    requires s0 + 16 <= d0
    requires WildEnd(d0, e, 32) <= a.Length
    modifies a
    ensures SameOutside(old(a[..]), a[..], d0, WildEnd(d0, e, 32))
    ensures forall k :: d0 <= k < WildEnd(d0, e, 32) ==> a[k] == a[k - (d0 - s0)]
  {
    var d, s := d0, s0;
    CopyWithin(a, d, s, 16);
    CopyWithin(a, d + 16, s + 16, 16);
    d, s := d + 32, s + 32;
    while d < e
      invariant d - s == d0 - s0 && d >= d0 + 32
      invariant d <= WildEnd(d0, e, 32)
      invariant d < e ==> WildEnd(d, e, 32) == WildEnd(d0, e, 32)
      invariant d >= e ==> d == WildEnd(d0, e, 32)
      invariant SameOutside(old(a[..]), a[..], d0, d)
      invariant forall k :: d0 <= k < d ==> a[k] == a[k - (d0 - s0)]
    {
      CopyWithin(a, d, s, 16);
      CopyWithin(a, d + 16, s + 16, 16);
      d, s := d + 32, s + 32;
    }
  }

  method WildCopy8From(a: array<byte>, d0: nat, src: seq<byte>, s0: nat, e: int)
    requires WildEnd(d0, e, 8) <= a.Length
    requires s0 + WildEnd(d0, e, 8) - d0 <= |src|
    modifies a
    ensures SameOutside(old(a[..]), a[..], d0, WildEnd(d0, e, 8))
    ensures forall k :: d0 <= k < WildEnd(d0, e, 8) ==> a[k] == src[s0 + k - d0]
  {
    var d, s := d0, s0;
    CopyFrom(a, d, src, s, 8);
    assert forall k :: d0 <= k < d0 + 8 ==> a[k] == a[d..d + 8][k - d];
    d, s := d + 8, s + 8;
    while d < e
      invariant d - s == d0 - s0 && d >= d0 + 8
      invariant d <= WildEnd(d0, e, 8)
      invariant d < e ==> WildEnd(d, e, 8) == WildEnd(d0, e, 8)
      invariant d >= e ==> d == WildEnd(d0, e, 8)
      invariant SameOutside(old(a[..]), a[..], d0, d)
      invariant forall k :: d0 <= k < d ==> a[k] == src[s0 + k - d0]
    {
      CopyFrom(a, d, src, s, 8);
      assert forall k :: d <= k < d + 8 ==> a[k] == a[d..d + 8][k - d];
      d, s := d + 8, s + 8;
    }
  }

  method WildCopy32From(a: array<byte>, d0: nat, src: seq<byte>, s0: nat, e: int)
    requires WildEnd(d0, e, 32) <= a.Length
    requires s0 + WildEnd(d0, e, 32) - d0 <= |src|
    modifies a
    ensures SameOutside(old(a[..]), a[..], d0, WildEnd(d0, e, 32))
    ensures forall k :: d0 <= k < WildEnd(d0, e, 32) ==> a[k] == src[s0 + k - d0]
  {
    var d, s := d0, s0;
    CopyFrom(a, d, src, s, 32);
    assert forall k :: d0 <= k < d0 + 32 ==> a[k] == a[d..d + 32][k - d];
    d, s := d + 32, s + 32;
    while d < e
      invariant d - s == d0 - s0 && d >= d0 + 32
      invariant d <= WildEnd(d0, e, 32)
      invariant d < e ==> WildEnd(d, e, 32) == WildEnd(d0, e, 32)
      invariant d >= e ==> d == WildEnd(d0, e, 32)
      invariant SameOutside(old(a[..]), a[..], d0, d)
      invariant forall k :: d0 <= k < d ==> a[k] == src[s0 + k - d0]
    {
      CopyFrom(a, d, src, s, 32);
      assert forall k :: d <= k < d + 32 ==> a[k] == a[d..d + 32][k - d];
      d, s := d + 32, s + 32;
    }
  }

  // ----- Overlapping matches -----

  const INC32_TABLE: seq<nat> := [0, 1, 2, 1, 0, 4, 4, 4]
  const DEC64_TABLE: seq<int> := [0, 0, 0, -1, -4, 1, 2, 3]

  /** How far back the source lies once the first eight bytes of a match have been copied. */
  function DistanceAfterEight(offset: nat): nat {
    if offset == 0 then 8 else if offset < 8 then 8 + offset - INC32_TABLE[offset] + DEC64_TABLE[offset] else offset
  }

  /** From then on strides of eight bytes never overlap, and keep the phase of the match. */
  lemma DistanceIsMultiple(offset: nat) returns (times: nat)
    ensures DistanceAfterEight(offset) >= 8
    ensures offset > 0 ==> times > 0 && DistanceAfterEight(offset) == times * offset <= 8 + offset
  {
    times := [0, 8, 4, 3, 2, 2, 2, 2][if offset < 8 then offset else 0];
    if offset >= 8 { times := 1; }
  }

  /** Four bytes at the offset, then four at the table's distance, repeat with the offset. */
  lemma EightByFour(a: seq<byte>, op: nat, offset: nat)
    requires offset < 8 && offset <= op && op + 8 <= |a|
    requires Repeats(a, op, op + 4, offset)
    requires forall k :: op + 4 <= k < op + 8 ==> a[k] == a[k - 4 - offset + INC32_TABLE[offset]]
    ensures Repeats(a, op, op + 8, offset)
  {
    assert a[op] == a[op + 1 - 1];
    assert a[op + 4] == a[op - offset + INC32_TABLE[offset]];
    assert a[op + 5] == a[op + 1 - offset + INC32_TABLE[offset]];
    assert a[op + 6] == a[op + 2 - offset + INC32_TABLE[offset]];
    assert a[op + 7] == a[op + 3 - offset + INC32_TABLE[offset]];
  }

  /** Four single-byte copies, after clearing the target for an offset of zero. */
  method CopyFourBytes(a: array<byte>, op: nat, m: nat)
    requires m <= op && op + 4 <= a.Length
    modifies a
    ensures SameOutside(old(a[..]), a[..], op, op + 4)
    ensures Repeats(a[..], op, op + 4, op - m)
  {
    a[op], a[op + 1], a[op + 2], a[op + 3] := 0, 0, 0, 0;
    a[op] := a[m];
    a[op + 1] := a[m + 1];
    a[op + 2] := a[m + 2];
    a[op + 3] := a[m + 3];
  }

  /** The first eight bytes of a match at any offset, through the two stride tables. */
  method CopyFirstEight(a: array<byte>, op: nat, offset: nat) returns (m: nat)
    requires offset <= op && op + 8 <= a.Length
    modifies a
    ensures SameOutside(old(a[..]), a[..], op, op + 8)
    ensures Repeats(a[..], op, op + 8, offset)
    ensures m == op + 8 - DistanceAfterEight(offset)
  {
    m := op - offset;
    if offset < 8 {
      CopyFourBytes(a, op, m);
      m := m + INC32_TABLE[offset];
      CopyWithin(a, op + 4, m, 4);
      EightByFour(a[..], op, offset);
      m := m - DEC64_TABLE[offset];
    } else {
      CopyWithin(a, op, m, 8);
      m := m + 8;
    }
  }

  /** Copies a match of any offset, reaching at least `e`. */
  method CopyUsingOffsetBase(a: array<byte>, op: nat, e: int, offset: nat)
    requires offset <= op && WildEnd(op + 8, e, 8) <= a.Length
    modifies a
    ensures SameOutside(old(a[..]), a[..], op, WildEnd(op + 8, e, 8))
    ensures Repeats(a[..], op, WildEnd(op + 8, e, 8), offset)
  {
    var m := CopyFirstEight(a, op, offset);
    ghost var first := a[..];
    var times := DistanceIsMultiple(offset);
    WildCopy8Within(a, op + 8, m, e);
    RepeatsContinued(first, a[..], op, WildEnd(op + 8, e, 8), WildEnd(op + 8, e, 8), offset);
  }

  lemma RepeatsContinued(first: seq<byte>, now: seq<byte>, op: nat, until: nat, wrote: nat, offset: nat)
    requires offset <= op && op + 8 <= until <= wrote <= |now|
    requires SameOutside(first, now, op + 8, wrote)
    requires Repeats(first, op, op + 8, offset)
    requires forall k :: op + 8 <= k < until ==> now[k] == now[k - DistanceAfterEight(offset)]
    ensures Repeats(now, op, until, offset)
  {
    var times := DistanceIsMultiple(offset);
    assert Repeats(now, op, op + 8, offset);
    if offset > 0 {
      RepeatsAtMultiple(now, op, op + 8, until, offset, times);
    } else {
      ZerosAtDistance(now, op, op + 8, until, 8);
    }
  }

  /** The eight-byte pattern `v`, over and over. */
  predicate Patterned(s: seq<byte>, op: nat, d: nat, v: seq<byte>)
    requires |v| == 8 && op <= d <= |s|
  {
    forall k :: op <= k < d ==> s[k] == v[(k - op) % 8]
  }

  lemma PatternedStep(was: seq<byte>, now: seq<byte>, op: nat, d: nat, v: seq<byte>)
    requires |v| == 8 && op <= d && d + 8 <= |now| == |was| && (d - op) % 8 == 0
    requires Patterned(was, op, d, v) && SameOutside(was, now, d, d + 8) && now[d..d + 8] == v
    ensures Patterned(now, op, d + 8, v)
  {
    forall k | op <= k < d + 8 ensures now[k] == v[(k - op) % 8] {
      if k < d {
        assert now[k] == was[k];
      } else {
        assert now[k] == now[d..d + 8][k - d];
        RestOfMultiple(d - op, k - d);
      }
    }
  }

  lemma RestOfMultiple(m: nat, i: nat)
    requires m % 8 == 0 && i < 8
    ensures (m + i) % 8 == i
  {
  }

  /** Writes an eight-byte pattern from `op` to at least `e`. */
  method FillPattern(a: array<byte>, op: nat, e: int, v: seq<byte>)
    requires |v| == 8 && WildEnd(op, e, 8) <= a.Length
    modifies a
    ensures SameOutside(old(a[..]), a[..], op, WildEnd(op, e, 8))
    ensures Patterned(a[..], op, WildEnd(op, e, 8), v)
  {
    var d := op;
    CopyFrom(a, d, v, 0, 8);
    PatternedStep(old(a[..]), a[..], op, d, v);
    hide Patterned;
    d := d + 8;
    while d < e
      invariant d >= op + 8 && (d - op) % 8 == 0
      invariant d <= WildEnd(op, e, 8)
      invariant d < e ==> WildEnd(d, e, 8) == WildEnd(op, e, 8)
      invariant d >= e ==> d == WildEnd(op, e, 8)
      invariant SameOutside(old(a[..]), a[..], op, d)
      invariant Patterned(a[..], op, d, v)
    {
      ghost var was := a[..];
      CopyFrom(a, d, v, 0, 8);
      PatternedStep(was, a[..], op, d, v);
      d := d + 8;
    }
  }

  /** Index into the last `offset` bytes that the eight-byte pattern holds at `i`. */
  function Phase(i: nat, offset: nat): nat {
    if offset == 1 then 0 else if offset == 2 then i % 2 else i % 4
  }

  lemma PhaseStep(j: nat, offset: nat)
    requires offset == 1 || offset == 2 || offset == 4
    ensures j < offset ==> Phase(j % 8, offset) == j
    ensures j >= offset ==> Phase(j % 8, offset) == Phase((j - offset) % 8, offset)
  {
  }

  lemma PatternRepeats(was: seq<byte>, now: seq<byte>, op: nat, e: nat, offset: nat, v: seq<byte>)
    requires offset == 1 || offset == 2 || offset == 4
    requires |v| == 8 && offset <= op <= e <= |now| == |was|
    requires forall i :: 0 <= i < 8 ==> 0 <= op - offset + Phase(i, offset) < |was| && v[i] == was[op - offset + Phase(i, offset)]
    requires forall k :: 0 <= k < op ==> now[k] == was[k]
    requires Patterned(now, op, e, v)
    ensures Repeats(now, op, e, offset)
  {
    hide Phase;
    forall k | op <= k < e ensures now[k] == now[k - offset] {
      PhaseStep(k - op, offset);
    }
  }

  /** The match copy of the fast loop for offsets below 16. */
  method CopyUsingOffset(a: array<byte>, op: nat, e: int, offset: nat)
    requires offset <= op && op + MIN_MATCH <= e
    requires e + 8 + 8 <= a.Length
    modifies a
    ensures SameOutside(old(a[..]), a[..], op, e + 16)
    ensures Repeats(a[..], op, e, offset)
  {
    var v: seq<byte>;
    var m := op - offset;
    if offset == 1 {
      v := [a[m], a[m], a[m], a[m], a[m], a[m], a[m], a[m]];
    } else if offset == 2 {
      v := [a[m], a[m + 1], a[m], a[m + 1], a[m], a[m + 1], a[m], a[m + 1]];
    } else if offset == 4 {
      v := [a[m], a[m + 1], a[m + 2], a[m + 3], a[m], a[m + 1], a[m + 2], a[m + 3]];
    } else {
      CopyUsingOffsetBase(a, op, e, offset);
      return;
    }
    ghost var was := a[..];
    FillPattern(a, op, e, v);
    PatternRepeats(was, a[..], op, e, offset, v);
  }
}
