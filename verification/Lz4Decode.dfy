// The optimised block decoder: a fast loop over wild copies, a two-stage shortcut and a safe loop.
module Lz4Decode {
  import opened Lz4Format
  import opened Lz4Copy
  import opened Lz4Accept

  /** Whether the bytes before the output are known to reach 64 KB back. */
  datatype DictMode = NoDict | WithPrefix64k

  /** Where a piece of the decoder leaves off: at the next token, at one of the two labels of the
      safe loop that the fast loop jumps to, at the end of the block, or at the error exit. */
  datatype Step =
    | Next(ip: nat, op: nat)
    | LiteralCopy(ip: nat, op: nat, token: byte, length: nat)
    | MatchCopy(ip: nat, op: nat, offset: nat, length: nat)
    | Finished(op: nat)
    | Failure(ip: nat)

  // ----- What each step must establish -----

  /** `lowPrefix` is where the decoder takes the history to begin; it really begins at `start`. */
  ghost predicate Window(dict: DictMode, lowPrefix: int, start: nat, op: nat) {
    match dict
    case NoDict => lowPrefix == start <= op
    case WithPrefix64k => lowPrefix <= op - DISTANCE_MAX && start <= op - DISTANCE_MAX
  }

  /** One whole sequence leads from position `i` and history `h` to position `j` and history `g`. */
  ghost predicate Sequenced(src: seq<byte>, i: nat, h: seq<byte>, j: nat, g: seq<byte>) {
    match HeadAt(src, i)
    case Full(p, ll, offset, ml, next) =>
      next == j && offset <= |h| + ll && g == CopyMatch(h + src[p..p + ll], offset, ml)
    case _ => false
  }

  /** The literals of the sequence at `i` have been appended to the history. */
  ghost predicate LiteralsDone(src: seq<byte>, i: nat, h: seq<byte>, ip: nat, g: seq<byte>) {
    match LiteralField(src, i)
    case Some((ll, p)) => ip == p + ll <= |src| && g == h + src[p..ip]
    case None => false
  }

  ghost predicate Ended(src: seq<byte>, i: nat, h: seq<byte>, g: seq<byte>) {
    LiteralsDone(src, i, h, |src|, g)
  }

  /** A step from position `i` with history `h`, in the fast loop or not; `after` is the loop that it leads to. */
  ghost predicate Reached(src: seq<byte>, i: nat, h: seq<byte>, dst: seq<byte>, start: nat, end: nat,
                          fast: bool, after: bool, step: Step)
    requires start <= end <= |dst|
  {
    match step
    case Next(ip, op) =>
      && ip < |src| && start <= op <= end && Sequenced(src, i, h, ip, dst[start..op])
      && Passes(src, i, |h|, end - start, fast) && StaysFast(src, i, |h|, end - start, fast) == after
    case LiteralCopy(ip, op, token, length) =>
      && i < |src| && token == src[i] && op == start + |h| <= end && dst[start..op] == h
      && LiteralField(src, i) == Some((length, ip)) && fast && !Striped(src, i, |h|, end - start)
    case MatchCopy(ip, op, offset, length) =>
      && ip < |src| && start <= op && op + MF_LIMIT <= end
      && fast && Striped(src, i, |h|, end - start) && !StaysFast(src, i, |h|, end - start, fast)
      && (src[i] % 16 == ML_MASK ==> ip + LAST_LITERALS <= |src| + 1)
      && (match HeadAt(src, i)
          case Full(p, ll, o, ml, next) => o == offset && ml == length && next == ip && dst[start..op] == h + src[p..p + ll]
          case _ => false)
    case Finished(op) => start <= op <= end && Ended(src, i, h, dst[start..op])
    case Failure(_) => !Accepts(src, i, |h|, end - start, fast)
  }

  lemma SequencedDecodes(src: seq<byte>, i: nat, h: seq<byte>, j: nat, g: seq<byte>, end: int, fast: bool)
    requires Sequenced(src, i, h, j, g) && Passes(src, i, |h|, end, fast)
    ensures i < j
    ensures DecodeFrom(src, i, h) == DecodeFrom(src, j, g)
    ensures Accepts(src, i, |h|, end, fast) == Accepts(src, j, |g|, end, StaysFast(src, i, |h|, end, fast))
  {
    hide HeadAt, CopyMatch, Passes, StaysFast;
  }

  lemma EndedDecodes(src: seq<byte>, i: nat, h: seq<byte>, g: seq<byte>)
    requires Ended(src, i, h, g)
    ensures DecodeFrom(src, i, h) == Some(g)
    ensures forall end: int, fast: bool :: |g| <= end ==> Accepts(src, i, |h|, end, fast)
  {
    hide ReadLength, LiteralField, MatchField, Passes, StaysFast;
    var (ll, p) := LiteralField(src, i).value;
    assert HeadAt(src, i) == Last(p, ll);
  }

  /** Appending literals to the output. */
  lemma LiteralsAppended(was: seq<byte>, now: seq<byte>, src: seq<byte>, start: nat, op: nat, p: nat, ll: nat, limit: nat)
    requires start <= op && op + ll <= limit <= |was| && p + ll <= |src|
    requires SameOutside(was, now, op, limit)
    requires forall k :: op <= k < op + ll ==> now[k] == src[p + k - op]
    ensures now[start..op + ll] == was[start..op] + src[p..p + ll]
  {
  }

  lemma LiteralsRead(was: seq<byte>, now: seq<byte>, src: seq<byte>, i: nat, start: nat, op: nat, p: nat, ll: nat, limit: nat)
    requires start <= op && op + ll <= limit <= |was| && p + ll <= |src|
    requires LiteralField(src, i) == Some((ll, p)) && SameOutside(was, now, op, limit)
    requires forall k :: op <= k < op + ll ==> now[k] == src[p + k - op]
    ensures LiteralsDone(src, i, was[start..op], p + ll, now[start..op + ll])
  {
    LiteralsAppended(was, now, src, start, op, p, ll, limit);
  }

  // ----- Variable-length counts -----

  function LengthPlus(n: nat, r: Option<(nat, nat)>): Option<(nat, nat)> {
    match r
    case None => None
    case Some((v, next)) => Some((n + v, next))
  }

  /** Reads a count; -1 stands for the error value. */
  method ReadVariableLength(src: seq<byte>, ip0: nat, ilimit: int, initialCheck: bool) returns (length: int, ip: nat)
    requires ilimit < |src|
    requires !initialCheck ==> ip0 < |src|
    ensures length >= 0 ==> ReadLength(src, ip0) == Some((length, ip)) && ip <= ilimit
    ensures length < 0 ==> ReadLength(src, ip0).None? || ReadLength(src, ip0).value.1 > ilimit
  {
    ip := ip0;
    if initialCheck && ip >= ilimit {
      return -1, ip;
    }
    var s := src[ip];
    ip := ip + 1;
    length := s;
    if ip > ilimit {
      return -1, ip;
    }
    while s == 255
      invariant ip0 < ip <= ilimit && length >= 0
      invariant s != 255 ==> ReadLength(src, ip0) == Some((length, ip))
      invariant s == 255 ==> ReadLength(src, ip0) == LengthPlus(length, ReadLength(src, ip))
      decreases |src| - ip, if s == 255 then 1 else 0
    {
      s := src[ip];
      ip := ip + 1;
      length := length + s;
      if ip > ilimit {
        return -1, ip;
      }
    }
  }

  /** Copies eighteen bytes as 8 + 8 + 2. */
  method CopyEighteen(dst: array<byte>, op: nat, offset: nat)
    requires 8 <= offset <= op && op + 18 <= dst.Length
    modifies dst
    ensures SameOutside(old(dst[..]), dst[..], op, op + 18)
    ensures Repeats(dst[..], op, op + 18, offset)
  {
    var m := op - offset;
    CopyWithin(dst, op, m, 8);
    CopyWithin(dst, op + 8, m + 8, 8);
    CopyWithin(dst, op + 16, m + 16, 2);
  }

  // ----- Fast loop -----

  /** The literals of one sequence in the fast loop. */
  method FastLiterals(src: seq<byte>, dst: array<byte>, i: nat, op0: nat, end: nat, ghost start: nat) returns (step: Step)
    requires i < |src| && start <= op0 && op0 + FASTLOOP_SAFE_DISTANCE <= end <= dst.Length
    modifies dst
    ensures SameOutside(old(dst[..]), dst[..], op0, end)
    ensures step.Next? || step.LiteralCopy? || step.Failure?
    ensures step.Next? ==> op0 <= step.op && step.op + 32 <= end && step.ip + 3 <= |src|
    ensures step.Next? ==> LiteralsDone(src, i, old(dst[start..op0]), step.ip, dst[start..step.op])
    ensures step.Next? ==> Striped(src, i, op0 - start, end - start)
    ensures step.LiteralCopy? ==> Reached(src, i, old(dst[start..op0]), dst[..], start, end, true, true, step)
    ensures step.Failure? ==> HeadAt(src, i) == Bad
  {
    hide LiteralsDone;
    ghost var was := dst[..];
    var token := src[i];
    var ip := i + 1;
    var length := token / 16;
    if length == RUN_MASK {
      var addl, ip' := ReadVariableLength(src, ip, |src| - RUN_MASK, true);
      if addl < 0 {
        return Failure(ip');
      }
      ip := ip';
      length := length + addl;
      var cpy := op0 + length;
      if cpy > end - 32 || ip + length > |src| - 32 {
        return LiteralCopy(ip, op0, token, length);
      }
      WildCopy32From(dst, op0, src, ip, cpy);
    } else {
      if ip > |src| - 17 {
        return LiteralCopy(ip, op0, token, length);
      }
      CopyFrom(dst, op0, src, ip, 16);
      assert forall k :: op0 <= k < op0 + 16 ==> dst[k] == dst[op0..op0 + 16][k - op0];
    }
    assert LiteralField(src, i) == Some((length, ip));
    LiteralsRead(was, dst[..], src, i, start, op0, ip, length, end);
    return Next(ip + length, op0 + length);
  }

  /** The match of one sequence in the fast loop. */
  method FastMatch(src: seq<byte>, dst: array<byte>, token: byte, q: nat, op: nat, end: nat,
                   dict: DictMode, lowPrefix: int, ghost start: nat) returns (step: Step)
    requires q + 3 <= |src| && start <= op && op + 32 <= end <= dst.Length
    requires Window(dict, lowPrefix, start, op)
    modifies dst
    ensures SameOutside(old(dst[..]), dst[..], op, end)
    ensures step.Next? || step.MatchCopy? || step.Failure?
    ensures step.Next? ==>
      && ReadLE16(src, q) <= op - start
      && op <= step.op && step.op + FASTLOOP_SAFE_DISTANCE < end && step.ip < |src|
      && (token % 16 == ML_MASK ==> step.ip + LAST_LITERALS <= |src| + 1)
      && MatchField(src, token, q + 2) == Some((step.op - op, step.ip))
      && Repeats(dst[..], op, step.op, ReadLE16(src, q))
    ensures step.MatchCopy? ==>
      && dst[..] == old(dst[..])
      && step.op == op && step.offset == ReadLE16(src, q) && step.ip < |src|
      && op + step.length + FASTLOOP_SAFE_DISTANCE >= end
      && (token % 16 == ML_MASK ==> step.ip + LAST_LITERALS <= |src| + 1)
      && MatchField(src, token, q + 2) == Some((step.length, step.ip))
    ensures step.Failure? ==>
      || ReadLE16(src, q) > op - start
      || MatchField(src, token, q + 2).None?
      || (token % 16 == ML_MASK && MatchField(src, token, q + 2).value.1 + LAST_LITERALS > |src| + 1)
  {
    var offset := ReadLE16(src, q);
    var ip := q + 2;
    var m := op - offset;
    var length := token % 16;
    if length == ML_MASK {
      var addl, ip' := ReadVariableLength(src, ip, |src| - LAST_LITERALS + 1, false);
      if addl < 0 {
        return Failure(ip');
      }
      ip := ip';
      length := length + addl + MIN_MATCH;
      if m < lowPrefix {
        return Failure(ip);
      }
      if op + length >= end - FASTLOOP_SAFE_DISTANCE {
        return MatchCopy(ip, op, offset, length);
      }
    } else {
      length := length + MIN_MATCH;
      if op + length >= end - FASTLOOP_SAFE_DISTANCE {
        return MatchCopy(ip, op, offset, length);
      }
      if (dict == WithPrefix64k || m >= lowPrefix) && offset >= 8 {
        CopyEighteen(dst, op, offset);
        return Next(ip, op + length);
      }
    }
    if m < lowPrefix {
      return Failure(ip);
    }
    FastMatchCopy(dst, op, offset, op + length, end);
    return Next(ip, op + length);
  }

  method FastMatchCopy(dst: array<byte>, op: nat, offset: nat, cpy: nat, end: nat)
    requires offset <= op && op + MIN_MATCH <= cpy && cpy + FASTLOOP_SAFE_DISTANCE < end <= dst.Length
    modifies dst
    ensures SameOutside(old(dst[..]), dst[..], op, end)
    ensures Repeats(dst[..], op, cpy, offset)
  {
    if offset < 16 {
      CopyUsingOffset(dst, op, cpy, offset);
    } else {
      WildCopy32Within(dst, op, op - offset, cpy);
    }
  }

  /** A fast-loop iteration: one whole sequence, or a jump into the safe loop. */
  method FastSequence(src: seq<byte>, dst: array<byte>, i: nat, op: nat, end: nat,
                      dict: DictMode, lowPrefix: int, ghost start: nat) returns (step: Step)
    requires i < |src| && start <= op && op + FASTLOOP_SAFE_DISTANCE <= end <= dst.Length
    requires Window(dict, lowPrefix, start, op)
    modifies dst
    ensures SameOutside(old(dst[..]), dst[..], op, end)
    ensures !step.Finished?
    ensures Reached(src, i, old(dst[start..op]), dst[..], start, end, true, true, step)
    ensures step.Next? ==> op <= step.op && step.op + FASTLOOP_SAFE_DISTANCE <= end
    ensures step.MatchCopy? ==> op <= step.op
  {
    ghost var h := dst[start..op];
    step := FastLiterals(src, dst, i, op, end, start);
    if !step.Next? {
      return;
    }
    var q, op1 := step.ip, step.op;
    ghost var was := dst[..];
    step := FastMatch(src, dst, src[i], q, op1, end, dict, lowPrefix, start);
    MatchReached(src, i, h, q, op1, was, dst[..], start, end, true, true, step);
  }

  /** The literals of the sequence at `i`, which end at position `q` and output `op`, were let through. */
  ghost predicate LiteralsLet(src: seq<byte>, i: nat, n: nat, end: int, fast: bool, q: nat, op: int) {
    (fast && Striped(src, i, n, end)) || (!fast && Shortcut(src, i, n, end)) || (op + MF_LIMIT <= end && q + 8 <= |src|)
  }

  /** The shortcut copies the match of the sequence at `i` as well. */
  ghost predicate MatchCut(src: seq<byte>, i: nat, n: nat, end: int, fast: bool, offset: nat)
    requires i < |src|
  {
    !fast && Shortcut(src, i, n, end) && src[i] % 16 != ML_MASK && offset >= 8
  }

  /** The outcome of the match half, put together with the literal half. */
  lemma MatchReached(src: seq<byte>, i: nat, h: seq<byte>, q: nat, op: nat, was: seq<byte>, now: seq<byte>,
                     start: nat, end: nat, fast: bool, after: bool, step: Step)
    requires start <= op && op + MF_LIMIT <= end <= |now| && i < |src| && q + 2 < |src|
    requires SameOutside(was, now, op, end)
    requires LiteralsDone(src, i, h, q, was[start..op])
    requires LiteralsLet(src, i, |h|, end - start, fast, q, op - start)
    requires step.Next? || step.MatchCopy? || step.Failure?
    requires step.Next? ==>
      && ReadLE16(src, q) <= op - start
      && op <= step.op <= end && step.ip < |src|
      && (src[i] % 16 == ML_MASK ==> step.ip + LAST_LITERALS <= |src| + 1)
      && (step.op + LAST_LITERALS <= end || MatchCut(src, i, |h|, end - start, fast, ReadLE16(src, q)))
      && after == (fast && Striped(src, i, |h|, end - start) && step.op + FASTLOOP_SAFE_DISTANCE < end)
      && MatchField(src, src[i], q + 2) == Some((step.op - op, step.ip))
      && Repeats(now, op, step.op, ReadLE16(src, q))
    requires step.MatchCopy? ==>
      && step.op == op && step.offset == ReadLE16(src, q) && step.ip < |src|
      && fast && Striped(src, i, |h|, end - start) && op + step.length + FASTLOOP_SAFE_DISTANCE >= end
      && (src[i] % 16 == ML_MASK ==> step.ip + LAST_LITERALS <= |src| + 1)
      && MatchField(src, src[i], q + 2) == Some((step.length, step.ip))
    requires step.Failure? ==>
      || ReadLE16(src, q) > op - start
      || MatchField(src, src[i], q + 2).None?
      || (src[i] % 16 == ML_MASK && MatchField(src, src[i], q + 2).value.1 + LAST_LITERALS > |src| + 1)
      || (op + MatchField(src, src[i], q + 2).value.0 + LAST_LITERALS > end
          && !MatchCut(src, i, |h|, end - start, fast, ReadLE16(src, q)))
    ensures Reached(src, i, h, now, start, end, fast, after, step)
  {
    hide ReadLength, LiteralField, MatchField, Striped, Shortcut, CopyMatch;
    var (ll, p) := LiteralField(src, i).value;
    assert now[start..op] == was[start..op] == h + src[p..p + ll];
    if step.Next? {
      RepeatsIsCopyMatch(now, start, op, step.op, ReadLE16(src, q));
    }
  }

  // ----- Safe loop -----

  /** Neither loop copies the literals of the sequence at `i` ahead of the checks. */
  ghost predicate Plain(src: seq<byte>, i: nat, n: nat, end: int, fast: bool) {
    if fast then !Striped(src, i, n, end) else !Shortcut(src, i, n, end)
  }

  /** From label safe_literal_copy: the literals, and whether the block ends with them. */
  method SafeLiterals(src: seq<byte>, dst: array<byte>, ip: nat, op: nat, length: nat, end: nat,
                      ghost start: nat, ghost i: nat, ghost fast: bool) returns (step: Step)
    requires i < |src| && start <= op <= end <= dst.Length
    requires LiteralField(src, i) == Some((length, ip))
    requires Plain(src, i, op - start, end - start, fast)
    modifies dst
    ensures SameOutside(old(dst[..]), dst[..], op, end)
    ensures step.Next? || step.Finished? || step.Failure?
    ensures step.Next? ==> op <= step.op && step.op + MF_LIMIT <= end && step.ip + 8 <= |src|
    ensures step.Next? ==> LiteralsDone(src, i, old(dst[start..op]), step.ip, dst[start..step.op])
    ensures !step.Next? ==> Reached(src, i, old(dst[start..op]), dst[..], start, end, fast, false, step)
    ensures step.Finished? ==> op <= step.op
  {
    hide ReadLength, LiteralField, MatchField, Striped, Shortcut;
    ghost var was := dst[..];
    var cpy := op + length;
    if cpy > end - MF_LIMIT || ip + length > |src| - (2 + 1 + LAST_LITERALS) {
      if ip + length != |src| || cpy > end {
        return Failure(ip);
      }
      CopyFrom(dst, op, src, ip, length);
      assert forall k :: op <= k < cpy ==> dst[k] == dst[op..cpy][k - op];
      LiteralsAppended(was, dst[..], src, start, op, ip, length, end);
      return Finished(cpy);
    }
    WildCopy8From(dst, op, src, ip, cpy);
    LiteralsAppended(was, dst[..], src, start, op, ip, length, end);
    return Next(ip + length, cpy);
  }

  /** From label safe_match_copy: the match, close to the end of the output or not. */
  method SafeMatchCopy(dst: array<byte>, op0: nat, offset: nat, length: nat, end: nat,
                       dict: DictMode, lowPrefix: int, ghost start: nat) returns (ok: bool)
    requires start <= op0 && op0 + MF_LIMIT <= end <= dst.Length && length >= MIN_MATCH && offset <= DISTANCE_MAX
    requires Window(dict, lowPrefix, start, op0)
    modifies dst
    ensures SameOutside(old(dst[..]), dst[..], op0, end)
    ensures ok <==> offset <= op0 - start && op0 + length + LAST_LITERALS <= end
    ensures ok ==> Repeats(dst[..], op0, op0 + length, offset)
  {
    if op0 - offset < lowPrefix {
      return false;
    }
    var cpy := op0 + length;
    var m := CopyFirstEight(dst, op0, offset);
    ghost var first := dst[..];
    var times := DistanceIsMultiple(offset);
    var op := op0 + 8;
    if cpy > end - MATCH_SAFEGUARD_DISTANCE {
      if cpy > end - LAST_LITERALS {
        return false;
      }
      MatchNearEnd(dst, op, m, cpy, end);
      RepeatsContinuedShort(first, dst[..], op0, cpy, end, offset);
    } else {
      MatchAwayFromEnd(dst, op, m, cpy, length, end);
      RepeatsContinuedShort(first, dst[..], op0, cpy, end, offset);
    }
    return true;
  }

  lemma RepeatsContinuedShort(first: seq<byte>, now: seq<byte>, op: nat, cpy: nat, wrote: nat, offset: nat)
    requires offset <= op <= cpy <= wrote <= |now| && op + 8 <= wrote
    requires SameOutside(first, now, op + 8, wrote)
    requires Repeats(first, op, op + 8, offset)
    requires forall k :: op + 8 <= k < cpy ==> now[k] == now[k - DistanceAfterEight(offset)]
    ensures Repeats(now, op, cpy, offset)
  {
    if cpy >= op + 8 {
      RepeatsContinued(first, now, op, cpy, wrote, offset);
    }
  }

  /** Strides of eight up to the last seven bytes of the output, then byte by byte. */
  method MatchNearEnd(dst: array<byte>, op0: nat, m0: nat, cpy: nat, end: nat)
    requires m0 + 8 <= op0 <= end <= dst.Length && cpy <= end
    modifies dst
    ensures SameOutside(old(dst[..]), dst[..], op0, end)
    ensures forall k :: op0 <= k < cpy ==> dst[k] == dst[k - (op0 - m0)]
  {
    var op, m := op0, m0;
    var oCopyLimit := end - (WILD_COPY_LENGTH - 1);
    if op < oCopyLimit {
      WildCopy8Within(dst, op, m, oCopyLimit);
      m := m + (oCopyLimit - op);
      op := oCopyLimit;
    }
    while op < cpy
      invariant op0 <= op <= end && op - m == op0 - m0
      invariant SameOutside(old(dst[..]), dst[..], op0, end)
      invariant forall k :: op0 <= k < op ==> dst[k] == dst[k - (op0 - m0)]
    {
      dst[op] := dst[m];
      op, m := op + 1, m + 1;
    }
  }

  method MatchAwayFromEnd(dst: array<byte>, op: nat, m: nat, cpy: nat, length: nat, end: nat)
    requires m + 8 <= op && cpy + MATCH_SAFEGUARD_DISTANCE <= end <= dst.Length
    requires length >= MIN_MATCH && cpy + 8 == op + length
    modifies dst
    ensures SameOutside(old(dst[..]), dst[..], op, end)
    ensures forall k :: op <= k < cpy ==> dst[k] == dst[k - (op - m)]
  {
    CopyWithin(dst, op, m, 8);
    if length > 16 {
      WildCopy8Within(dst, op + 8, m + 8, cpy);
    }
  }

  /** From label _copy_match: the match length, then the match. */
  method SafeMatch(src: seq<byte>, dst: array<byte>, token: byte, q: nat, op: nat, end: nat,
                   dict: DictMode, lowPrefix: int, ghost start: nat) returns (step: Step)
    requires q + 3 <= |src| && start <= op && op + MF_LIMIT <= end <= dst.Length
    requires Window(dict, lowPrefix, start, op)
    modifies dst
    ensures SameOutside(old(dst[..]), dst[..], op, end)
    ensures step.Next? || step.Failure?
    ensures step.Next? ==>
      && ReadLE16(src, q) <= op - start
      && op <= step.op && step.op + LAST_LITERALS <= end && step.ip < |src|
      && (token % 16 == ML_MASK ==> step.ip + LAST_LITERALS <= |src| + 1)
      && MatchField(src, token, q + 2) == Some((step.op - op, step.ip))
      && Repeats(dst[..], op, step.op, ReadLE16(src, q))
    ensures step.Failure? ==>
      || ReadLE16(src, q) > op - start
      || MatchField(src, token, q + 2).None?
      || (token % 16 == ML_MASK && MatchField(src, token, q + 2).value.1 + LAST_LITERALS > |src| + 1)
      || op + MatchField(src, token, q + 2).value.0 + LAST_LITERALS > end
  {
    var offset := ReadLE16(src, q);
    var ip := q + 2;
    var length := token % 16;
    if length == ML_MASK {
      var addl, ip' := ReadVariableLength(src, ip, |src| - LAST_LITERALS + 1, false);
      if addl < 0 {
        return Failure(ip');
      }
      ip := ip';
      length := length + addl;
    }
    length := length + MIN_MATCH;
    hide ReadLength;
    var ok := SafeMatchCopy(dst, op, offset, length, end, dict, lowPrefix, start);
    return if ok then Next(ip, op + length) else Failure(ip);
  }

  /** The shortcut of the safe loop: sixteen bytes on behalf of the literals. */
  method ShortcutLiterals(src: seq<byte>, dst: array<byte>, i: nat, op: nat, end: nat, ghost start: nat)
    requires i < |src| && start <= op && op + 32 <= end <= dst.Length
    requires src[i] / 16 != RUN_MASK && i + 1 < |src| - 16
    modifies dst
    ensures SameOutside(old(dst[..]), dst[..], op, end)
    ensures LiteralsDone(src, i, old(dst[start..op]), i + 1 + src[i] / 16, dst[start..op + src[i] / 16])
  {
    ghost var was := dst[..];
    CopyFrom(dst, op, src, i + 1, 16);
    assert forall k :: op <= k < op + 16 ==> dst[k] == dst[op..op + 16][k - op];
    LiteralsAppended(was, dst[..], src, start, op, i + 1, src[i] / 16, end);
  }

  /** The two-stage shortcut: short literals, then a short match without overlap or the general copy. */
  method ShortcutSequence(src: seq<byte>, dst: array<byte>, i: nat, op: nat, end: nat,
                          dict: DictMode, lowPrefix: int, ghost start: nat) returns (step: Step)
    requires i < |src| && start <= op && op + 32 <= end <= dst.Length
    requires src[i] / 16 != RUN_MASK && i + 1 < |src| - 16
    requires Window(dict, lowPrefix, start, op)
    modifies dst
    ensures SameOutside(old(dst[..]), dst[..], op, end)
    ensures step.Next? || step.Failure?
    ensures Reached(src, i, old(dst[start..op]), dst[..], start, end, false, false, step)
    ensures step.Next? ==> op <= step.op
  {
    ghost var h := dst[start..op];
    var length := src[i] / 16;
    ShortcutLiterals(src, dst, i, op, end, start);
    hide LiteralsDone, ReadLength;
    var q, op1 := i + 1 + length, op + length;
    var offset := ReadLE16(src, q);
    var ml := src[i] % 16;
    ghost var was := dst[..];
    if ml != ML_MASK && offset >= 8 && (dict == WithPrefix64k || op1 - offset >= lowPrefix) {
      CopyEighteen(dst, op1, offset);
      step := Next(q + 2, op1 + ml + MIN_MATCH);
    } else {
      step := SafeMatch(src, dst, src[i], q, op1, end, dict, lowPrefix, start);
    }
    MatchReached(src, i, h, q, op1, was, dst[..], start, end, false, false, step);
  }

  /** A safe-loop iteration. */
  method SafeSequence(src: seq<byte>, dst: array<byte>, i: nat, op: nat, end: nat,
                      dict: DictMode, lowPrefix: int, ghost start: nat) returns (step: Step)
    requires i < |src| && start <= op <= end <= dst.Length
    requires Window(dict, lowPrefix, start, op)
    modifies dst
    ensures SameOutside(old(dst[..]), dst[..], op, end)
    ensures step.Next? || step.Finished? || step.Failure?
    ensures Reached(src, i, old(dst[start..op]), dst[..], start, end, false, false, step)
    ensures !step.Failure? ==> op <= step.op
  {
    var token := src[i];
    var ip := i + 1;
    var length := token / 16;
    if length != RUN_MASK && ip < |src| - 16 && op <= end - 32 {
      step := ShortcutSequence(src, dst, i, op, end, dict, lowPrefix, start);
      return;
    }
    if length == RUN_MASK {
      var addl, ip' := ReadVariableLength(src, ip, |src| - RUN_MASK, true);
      if addl < 0 {
        return Failure(ip');
      }
      ip := ip';
      length := length + addl;
    }
    step := SafeFromLiterals(src, dst, token, ip, op, length, end, dict, lowPrefix, start, i, false);
  }

  /** The rest of a safe-loop iteration, from label safe_literal_copy on. */
  method SafeFromLiterals(src: seq<byte>, dst: array<byte>, token: byte, ip: nat, op: nat, length: nat, end: nat,
                          dict: DictMode, lowPrefix: int, ghost start: nat, ghost i: nat, ghost fast: bool)
    returns (step: Step)
    requires i < |src| && token == src[i] && start <= op <= end <= dst.Length
    requires LiteralField(src, i) == Some((length, ip))
    requires Plain(src, i, op - start, end - start, fast)
    requires Window(dict, lowPrefix, start, op)
    modifies dst
    ensures SameOutside(old(dst[..]), dst[..], op, end)
    ensures step.Next? || step.Finished? || step.Failure?
    ensures Reached(src, i, old(dst[start..op]), dst[..], start, end, fast, false, step)
    ensures !step.Failure? ==> op <= step.op
  {
    hide ReadLength, LiteralField, MatchField, Striped, Shortcut, Accepts, Passes, StaysFast, Sequenced;
    ghost var h := dst[start..op];
    step := SafeLiterals(src, dst, ip, op, length, end, start, i, fast);
    if !step.Next? {
      return;
    }
    var q, op1 := step.ip, step.op;
    ghost var was := dst[..];
    step := SafeMatch(src, dst, token, q, op1, end, dict, lowPrefix, start);
    MatchReached(src, i, h, q, op1, was, dst[..], start, end, fast, false, step);
  }

  // ----- The whole decoder -----

  /** What remains to be decoded at `ip`, in the fast loop or not, decides the whole block. */
  ghost predicate OnCourse(src: seq<byte>, h0: seq<byte>, fast0: bool, ip: nat, h: seq<byte>, end: int, fast: bool) {
    && DecodeFrom(src, 0, h0) == DecodeFrom(src, ip, h)
    && Accepts(src, 0, |h0|, end, fast0) == Accepts(src, ip, |h|, end, fast)
  }

  ghost predicate Outcome(src: seq<byte>, h0: seq<byte>, fast0: bool, dst: seq<byte>, start: nat, end: nat,
                          fast: bool, step: Step)
    requires start <= end <= |dst|
  {
    match step
    case Next(ip, op) =>
      ip < |src| && start <= op <= end && OnCourse(src, h0, fast0, ip, dst[start..op], end - start, fast)
    case Finished(op) =>
      start <= op <= end && DecodeFrom(src, 0, h0) == Some(dst[start..op]) && Accepts(src, 0, |h0|, end - start, fast0)
    case Failure(_) => !Accepts(src, 0, |h0|, end - start, fast0)
    case _ => true
  }

  lemma OutcomeAfter(src: seq<byte>, h0: seq<byte>, fast0: bool, i: nat, h: seq<byte>, dst: seq<byte>,
                     start: nat, end: nat, fast: bool, after: bool, step: Step)
    requires start <= end <= |dst|
    requires OnCourse(src, h0, fast0, i, h, end - start, fast)
    requires Reached(src, i, h, dst, start, end, fast, after, step)
    ensures Outcome(src, h0, fast0, dst, start, end, after, step)
    ensures step.Next? ==> i < step.ip
  {
    hide HeadAt, DecodeFrom, Accepts, Passes, StaysFast, Striped;
    match step
    case Next(ip, op) => SequencedDecodes(src, i, h, ip, dst[start..op], end - start, fast);
    case Finished(op) => EndedDecodes(src, i, h, dst[start..op]);
    case _ =>
  }

  /** The fast loop, then the rest of the sequence on which it gave up. */
  method FastLoop(src: seq<byte>, dst: array<byte>, dstStart: nat, end: nat,
                  dict: DictMode, lowPrefix: int, ghost start: nat) returns (step: Step)
    requires |src| > 0 && start <= dstStart && dstStart + FASTLOOP_SAFE_DISTANCE <= end <= dst.Length
    requires Window(dict, lowPrefix, start, dstStart)
    modifies dst
    ensures SameOutside(old(dst[..]), dst[..], dstStart, end)
    ensures step.Next? || step.Finished? || step.Failure?
    ensures Outcome(src, old(dst[start..dstStart]), true, dst[..], start, end, false, step)
    ensures !step.Failure? ==> dstStart <= step.op
  {
    hide DecodeFrom, Accepts, HeadAt, OnCourse, Reached;
    ghost var h0 := dst[start..dstStart];
    step := Next(0, dstStart);
    ghost var i: nat := 0;
    ghost var h := h0;
    OnCourseAtStart(src, h0, true, end - start);
    while step.Next?
      invariant SameOutside(old(dst[..]), dst[..], dstStart, end)
      invariant !step.Finished?
      invariant Outcome(src, h0, true, dst[..], start, end, true, step)
      invariant step.Next? ==> dstStart <= step.op && step.op + FASTLOOP_SAFE_DISTANCE <= end
      invariant !step.Next? ==> start + |h| >= dstStart && OnCourse(src, h0, true, i, h, end - start, true) && i < |src|
      invariant !step.Next? ==> Reached(src, i, h, dst[..], start, end, true, true, step)
      invariant step.MatchCopy? ==> dstStart <= step.op
      decreases if step.Next? then |src| - step.ip else -1
    {
      i, h := step.ip, dst[start..step.op];
      step := FastSequence(src, dst, step.ip, step.op, end, dict, lowPrefix, start);
      OutcomeAfter(src, h0, true, i, h, dst[..], start, end, true, true, step);
    }
    step := ResumeSafe(src, dst, step, dstStart, end, dict, lowPrefix, start, i, h);
    OutcomeAfter(src, h0, true, i, h, dst[..], start, end, true, false, step);
  }

  lemma OnCourseAtStart(src: seq<byte>, h0: seq<byte>, fast: bool, end: int)
    ensures OnCourse(src, h0, fast, 0, h0, end, fast)
  {
  }

  lemma MatchCopyReached(src: seq<byte>, i: nat, h: seq<byte>, was: seq<byte>, now: seq<byte>,
                         start: nat, end: nat, jump: Step, step: Step)
    requires start <= end <= |now| == |was| && jump.MatchCopy?
    requires Reached(src, i, h, was, start, end, true, true, jump)
    requires SameOutside(was, now, jump.op, end)
    requires step.Next? || step.Failure?
    requires step.Next? ==>
      && step.ip == jump.ip && step.op == jump.op + jump.length && jump.offset <= jump.op - start
      && step.op + LAST_LITERALS <= end
      && Repeats(now, jump.op, step.op, jump.offset)
    requires step.Failure? ==> jump.offset > jump.op - start || jump.op + jump.length + LAST_LITERALS > end
    ensures Reached(src, i, h, now, start, end, true, false, step)
  {
    hide ReadLength, LiteralField, MatchField, HeadAt, Striped, CopyMatch;
    assert now[start..jump.op] == was[start..jump.op];
    if step.Next? {
      RepeatsIsCopyMatch(now, start, jump.op, step.op, jump.offset);
    }
  }

  /** The jumps from the fast loop into the safe loop. */
  method ResumeSafe(src: seq<byte>, dst: array<byte>, jump: Step, dstStart: nat, end: nat,
                    dict: DictMode, lowPrefix: int, ghost start: nat, ghost i: nat, ghost h: seq<byte>) returns (step: Step)
    requires start <= dstStart <= end <= dst.Length && i < |src|
    requires Window(dict, lowPrefix, start, dstStart)
    requires !jump.Next? && !jump.Finished?
    requires start + |h| >= dstStart
    requires Reached(src, i, h, dst[..], start, end, true, true, jump)
    requires jump.MatchCopy? ==> dstStart <= jump.op
    modifies dst
    ensures SameOutside(old(dst[..]), dst[..], dstStart, end)
    ensures step.Next? || step.Finished? || step.Failure?
    ensures Reached(src, i, h, dst[..], start, end, true, false, step)
    ensures !step.Failure? ==> dstStart <= step.op
  {
    match jump
    case LiteralCopy(ip, op, token, length) =>
      step := SafeFromLiterals(src, dst, token, ip, op, length, end, dict, lowPrefix, start, i, true);
    case MatchCopy(ip, op, offset, length) =>
      ghost var was := dst[..];
      var ok := SafeMatchCopy(dst, op, offset, length, end, dict, lowPrefix, start);
      step := if ok then Next(ip, op + length) else Failure(ip);
      MatchCopyReached(src, i, h, was, dst[..], start, end, jump, step);
    case _ =>
      step := jump;
  }

  /** LZ4_decompress_generic on a full block.  The output goes to `dst[dstStart..dstStart + outputSize]`
      and nothing else is written, although the copies overshoot.  A result that is not negative is the
      length of exactly what the block stands for; which blocks are accepted, all conforming ones among
      them, is decided before anything is written. */
  method DecompressGeneric(src: seq<byte>, dst: array<byte>, dstStart: nat, outputSize: int,
                           dict: DictMode, lowPrefix: int, ghost start: nat) returns (result: int)
    requires start <= dstStart && dstStart + outputSize <= dst.Length
    requires dstStart <= dst.Length
    requires Window(dict, lowPrefix, start, dstStart)
    modifies dst
    ensures SameOutside(old(dst[..]), dst[..], dstStart, dstStart + outputSize)
    ensures result >= 0 ==>
      && result <= outputSize
      && DecodeFrom(src, 0, old(dst[start..dstStart])) == Some(dst[start..dstStart + result])
    ensures result >= 0 <==> AcceptsBlock(src, dstStart - start, outputSize)
    ensures outputSize > 0 && Conforms(src, 0, dstStart - start, dstStart + outputSize - start) ==> result >= 0
  {
    hide DecodeFrom, Conforms, Accepts, OnCourse, Reached;
    if outputSize < 0 {
      return -1;
    }
    var end := dstStart + outputSize;
    if outputSize == 0 {
      EmptyBlock(dst[start..dstStart]);
      if |src| == 1 && src[0] == 0 {
        assert src == [0];
        return 0;
      }
      return -1;
    }
    if |src| == 0 {
      NothingConforms(src, dstStart - start, end - start);
      return -1;
    }
    ghost var h0, fast := dst[start..dstStart], outputSize >= FASTLOOP_SAFE_DISTANCE;
    if Conforms(src, 0, |h0|, end - start) {
      ConformingBlockAccepted(src, 0, |h0|, end - start, fast);
    }
    var step := Next(0, dstStart);
    if end - dstStart >= FASTLOOP_SAFE_DISTANCE {
      step := FastLoop(src, dst, dstStart, end, dict, lowPrefix, start);
    } else {
      OnCourseAtStart(src, h0, false, end - start);
    }
    step := SafeLoop(src, dst, step, dstStart, end, dict, lowPrefix, start, h0, fast);
    match step
    case Finished(op) => return op - dstStart;
    case Failure(ip) => return -(ip as int) - 1;
  }

  lemma EmptyBlock(h: seq<byte>)
    ensures DecodeFrom([0], 0, h) == Some(h)
  {
    assert HeadAt([0], 0) == Last(1, 0);
    var s: seq<byte> := [0];
    assert h + s[1..1] == h;
  }

  lemma NothingConforms(src: seq<byte>, n: nat, end: int)
    requires src == []
    ensures !Conforms(src, 0, n, end)
  {
  }

  method SafeLoop(src: seq<byte>, dst: array<byte>, step0: Step, dstStart: nat, end: nat,
                  dict: DictMode, lowPrefix: int, ghost start: nat, ghost h0: seq<byte>, ghost fast0: bool)
    returns (step: Step)
    requires start <= dstStart <= end <= dst.Length
    requires Window(dict, lowPrefix, start, dstStart)
    requires step0.Next? || step0.Finished? || step0.Failure?
    requires Outcome(src, h0, fast0, dst[..], start, end, false, step0)
    requires !step0.Failure? ==> dstStart <= step0.op
    modifies dst
    ensures SameOutside(old(dst[..]), dst[..], dstStart, end)
    ensures step.Finished? || step.Failure?
    ensures Outcome(src, h0, fast0, dst[..], start, end, false, step)
    ensures step.Finished? ==> dstStart <= step.op
  {
    hide DecodeFrom, Accepts, HeadAt, OnCourse, Reached;
    step := step0;
    while step.Next?
      invariant SameOutside(old(dst[..]), dst[..], dstStart, end)
      invariant step.Next? || step.Finished? || step.Failure?
      invariant Outcome(src, h0, fast0, dst[..], start, end, false, step)
      invariant !step.Failure? ==> dstStart <= step.op
      decreases if step.Next? then |src| - step.ip else -1
    {
      ghost var i, h := step.ip, dst[start..step.op];
      step := SafeSequence(src, dst, step.ip, step.op, end, dict, lowPrefix, start);
      OutcomeAfter(src, h0, fast0, i, h, dst[..], start, end, false, false, step);
    }
  }
}
