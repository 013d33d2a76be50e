// Which blocks the optimised decoder accepts: the end-of-block rules, less what its fast paths skip.
module Lz4Accept {
  import opened Lz4Format

  /** The fast loop copies the literals of the sequence at `i` in stripes. */
  predicate Striped(s: seq<byte>, i: nat, n: nat, end: int) {
    match LiteralField(s, i)
    case None => false
    case Some((ll, p)) =>
      if s[i] / 16 == 15 then n + ll + 32 <= end && p + ll + 32 <= |s| else p + 17 <= |s|
  }

  /** The safe loop copies the literals of the sequence at `i` by its shortcut. */
  predicate Shortcut(s: seq<byte>, i: nat, n: nat, end: int) {
    i < |s| && s[i] / 16 != 15 && i + 1 < |s| - 16 && n + 32 <= end
  }

  /** The literals come before the end of input and output, or are copied without a look at it. */
  predicate LiteralsPass(s: seq<byte>, i: nat, n: nat, end: int, fast: bool) {
    match HeadAt(s, i)
    case Full(p, ll, _, _, _) =>
      (fast && Striped(s, i, n, end)) || (!fast && Shortcut(s, i, n, end))
      || (n + ll + 12 <= end && p + ll + 8 <= |s|)
    case _ => false
  }

  /** The match is in the window and ends early enough, or is copied without a look at the end. */
  predicate MatchPass(s: seq<byte>, i: nat, n: nat, end: int, fast: bool) {
    match HeadAt(s, i)
    case Full(p, ll, offset, ml, next) =>
      offset <= n + ll && (s[i] % 16 == 15 ==> next + 5 <= |s| + 1)
      && (n + ll + ml + 5 <= end
          || (!fast && Shortcut(s, i, n, end) && s[i] % 16 != 15 && offset >= 8))
    case _ => false
  }

  /** The fast loop goes on after the sequence at `i`. */
  predicate StaysFast(s: seq<byte>, i: nat, n: nat, end: int, fast: bool) {
    match HeadAt(s, i)
    case Full(p, ll, _, ml, _) => fast && Striped(s, i, n, end) && n + ll + ml + 64 < end
    case _ => false
  }

  /** The sequence at `i` leads on to another. */
  predicate Passes(s: seq<byte>, i: nat, n: nat, end: int, fast: bool) {
    LiteralsPass(s, i, n, end, fast) && MatchPass(s, i, n, end, fast)
  }

  /** The decoder, in the fast loop or the safe loop, accepts what follows position `i`, for a history
      of `n` bytes and output ending at `end`. */
  predicate Accepts(s: seq<byte>, i: nat, n: nat, end: int, fast: bool)
    decreases |s| - i
  {
    match HeadAt(s, i)
    case Bad => false
    case Last(p, ll) => n + ll <= end
    case Full(p, ll, offset, ml, next) =>
      Passes(s, i, n, end, fast) && Accepts(s, next, n + ll + ml, end, StaysFast(s, i, n, end, fast))
  }

  /** Whole blocks: an empty output asks for the token zero, and 64 bytes of room for the fast loop. */
  predicate AcceptsBlock(s: seq<byte>, n: nat, size: int) {
    if size <= 0 then size == 0 && s == [0]
    else s != [] && Accepts(s, 0, n, n + size, size >= 64)
  }

  /** Every conforming block is accepted, from either loop. */
  lemma {:induction false} ConformingBlockAccepted(s: seq<byte>, i: nat, n: nat, end: int, fast: bool)
    requires Conforms(s, i, n, end)
    ensures Accepts(s, i, n, end, fast)
    decreases |s| - i
  {
    hide LiteralField, MatchField, HeadAt, Striped, Shortcut;
    match HeadAt(s, i)
    case Full(p, ll, offset, ml, next) =>
      ConformingBlockAccepted(s, next, n + ll + ml, end, StaysFast(s, i, n, end, fast));
    case _ =>
  }
}
