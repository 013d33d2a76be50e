// The block compressor: greedy sequences until the search runs out, then the final literals.
module Lz4Compress {
  import opened Lz4Format
  import opened Lz4Copy
  import opened Lz4Count
  import opened Lz4Encode
  import opened Lz4Greedy
  import opened Lz4Search
  import opened Lz4Track

  datatype Directive = NotLimited | LimitedOutput | FillOutput

  /** The output area: block at `start`, nothing written from `cap` on.  `olimit` is the end the caller
      gave, which only the checked directives look at. */
  datatype Target = Target(start: nat, cap: nat, olimit: int, directive: Directive) {
    ghost predicate Fits(inputSize: nat) {
      && start <= cap
      && (directive == NotLimited ==> start + CompressBound(inputSize) <= cap)
      && (directive != NotLimited ==> olimit <= cap)
    }

    /** What is left from `op` on, when the output is to be filled. */
    function Room(op: nat): Option<int> {
      if directive == FillOutput then Some(olimit - op) else None
    }

    /** The only targets on which compression may give up. */
    predicate TooTight(inputSize: nat) {
      directive == LimitedOutput && olimit < start + CompressBound(inputSize)
    }
  }

  /** How a stage ends: go on, output budget exceeded, or write the final literals. */
  datatype Status = Proceed | TooSmall | LastLiterals

  // ----- Invariants -----

  /** `dest[..op]` encodes sequences that replay to the source up to `anchor`. */
  ghost predicate Encoded(c: Call, dest: seq<byte>, start: nat, op: nat, anchor: nat, sequences: seq<Sequence>) {
    && c.Valid() && start <= op <= |dest| && c.source <= anchor <= c.Iend()
    && AllEncodable(sequences)
    && dest[start..op] == EncodeSequences(sequences)
    && Replay(c.src[c.lowLimit..c.source], sequences) == Some(c.src[c.lowLimit..anchor])
  }

  /** The last match leaves what the end-of-block rules ask for. */
  ghost predicate LeavesEnd(c: Call, t: Target, op: nat, anchor: nat, sequences: seq<Sequence>) {
    sequences != [] ==>
      var ml := sequences[|sequences| - 1].matchLength;
      && anchor + LAST_LITERALS <= c.Iend()
      && anchor - ml + MF_LIMIT <= c.Iend()
      && (t.directive != NotLimited ==> op + 1 + LAST_LITERALS <= t.olimit)
      && (t.directive == FillOutput ==> op + 9 <= t.olimit || ml >= 19)
  }

  /** Token and literals of the next sequence are written, its match is not. */
  ghost predicate Pending(c: Call, dest: seq<byte>, start: nat, token: nat, op: nat, anchor: nat, ip: nat,
                          sequences: seq<Sequence>) {
    && Encoded(c, dest, start, token, anchor, sequences)
    && token < op <= |dest| && anchor <= ip <= c.Iend()
    && dest[token] == Nibble(ip - anchor) * 16
    && dest[token + 1..op] == Extension(ip - anchor) + c.src[anchor..ip]
  }

  lemma EncodedSize(c: Call, dest: seq<byte>, start: nat, op: nat, anchor: nat, sequences: seq<Sequence>)
    requires Encoded(c, dest, start, op, anchor, sequences)
    ensures op - start <= (anchor - c.source) + (anchor - c.source) / 255
  {
    hide EncodeSequences, Replay, Covered;
    EncodeSequencesSize(sequences);
    ReplaySize(c.src[c.lowLimit..c.source], sequences);
  }

  lemma EncodedKept(c: Call, was: seq<byte>, now: seq<byte>, start: nat, op: nat, anchor: nat, sequences: seq<Sequence>)
    requires Encoded(c, was, start, op, anchor, sequences)
    requires SameOutside(was, now, op, |was|)
    ensures Encoded(c, now, start, op, anchor, sequences)
  {
    assert now[start..op] == was[start..op];
  }

  // ----- Literals -----

  /** "Encode Literals" of the source, with its two capacity checks. */
  method EmitLiterals(c: Call, t: Target, dest: array<byte>, token: nat, anchor: nat, ip: nat, ghost sequences: seq<Sequence>)
    returns (status: Status, op: nat)
    requires t.Fits(c.inputSize) && t.cap <= dest.Length
    requires Encoded(c, dest[..], t.start, token, anchor, sequences)
    requires anchor <= ip && ip + MF_LIMIT <= c.Iend()
    modifies dest
    ensures SameOutside(old(dest[..]), dest[..], t.start, t.cap)
    ensures Encoded(c, dest[..], t.start, token, anchor, sequences)
    ensures status == TooSmall ==> t.TooTight(c.inputSize)
    ensures status == LastLiterals ==> t.directive == FillOutput
    ensures status == Proceed ==> Pending(c, dest[..], t.start, token, op, anchor, ip, sequences)
    ensures status == Proceed && t.directive != NotLimited ==> op + 2 <= t.olimit
    ensures var lit := ip - anchor;
            && (status == TooSmall <==> t.directive == LimitedOutput && token + 1 + lit + (2 + 1 + 5) + lit / 255 > t.olimit)
            && (status == LastLiterals <==> Short(t.Room(token), 1 + |Extension(lit)| + lit + 11))
  {
    hide EncodeSequences, Replay, Extension;
    var litLength := ip - anchor;
    ShareOfRun(litLength);
    op := token + 1;
    EncodedSize(c, dest[..], t.start, token, anchor, sequences);
    if t.directive == LimitedOutput && op + litLength + (2 + 1 + LAST_LITERALS) + litLength / 255 > t.olimit {
      return TooSmall, op;
    }
    if t.directive == FillOutput
       && op + (litLength + 240) / 255 + litLength + 2 + 1 + MF_LIMIT - MIN_MATCH > t.olimit {
      return LastLiterals, op;
    }
    ghost var was := dest[..];
    op := EncodeLiterals(dest, token, c.src, anchor, litLength, t.cap);
    EncodedKept(c, was, dest[..], t.start, token, anchor, sequences);
    return Proceed, op;
  }

  // ----- Match -----

  /** A pending sequence, completed by its match, becomes one more sequence. */
  lemma SequenceCompleted(c: Call, was: seq<byte>, now: seq<byte>, start: nat, token: nat, op: nat, op': nat,
                          anchor: nat, ip: nat, m: nat, mc: nat, sequences: seq<Sequence>)
    requires Pending(c, was, start, token, op, anchor, ip, sequences)
    requires c.MatchAt(m, ip, MIN_MATCH + mc) && ip + MIN_MATCH + mc <= c.Iend()
    requires |was| == |now| && op' == op + 2 + |Extension(mc)| <= |now|
    requires forall k :: 0 <= k < op && k != token ==> now[k] == was[k]
    requires now[token] == was[token] + Nibble(mc)
    requires now[op] == (ip - m) % 256 && now[op + 1] == (ip - m) / 256
    requires now[op + 2..op'] == Extension(mc)
    ensures Encoded(c, now, start, op', ip + MIN_MATCH + mc,
                    sequences + [Sequence(c.src[anchor..ip], ip - m, MIN_MATCH + mc)])
  {
    hide Extension, EncodeSequences, Replay;
    var q := Sequence(c.src[anchor..ip], ip - m, MIN_MATCH + mc);
    var all := sequences + [q];
    assert all[..|all| - 1] == sequences;
    assert now[start..token] == was[start..token];
    assert now[token + 1..op] == was[token + 1..op];
    SequenceBytes(now, token, op, op', q);
    assert now[start..op'] == now[start..token] + now[token..op'];
    EncodeSnoc(sequences, q);
    ReplaySnoc(c, anchor, ip, m, mc, sequences);
  }

  lemma SequenceBytes(now: seq<byte>, token: nat, op: nat, op': nat, q: Sequence)
    requires Encodable(q) && token < op && op + 2 <= op' <= |now|
    requires now[token] == Token(q)
    requires now[token + 1..op] == Extension(|q.literals|) + q.literals
    requires now[op] == q.offset % 256 && now[op + 1] == q.offset / 256
    requires now[op + 2..op'] == Extension(q.matchLength - MIN_MATCH)
    ensures now[token..op'] == EncodeSequence(q)
  {
    hide Extension;
    assert now[token..op] == [now[token]] + now[token + 1..op];
    assert now[op..op'] == [now[op], now[op + 1]] + now[op + 2..op'];
    assert now[token..op'] == now[token..op] + now[op..op'];
    Regrouped([Token(q)], Extension(|q.literals|), q.literals, [q.offset % 256, q.offset / 256],
              Extension(q.matchLength - MIN_MATCH));
  }

  lemma Regrouped(a: seq<byte>, b: seq<byte>, c: seq<byte>, d: seq<byte>, e: seq<byte>)
    ensures a + (b + c) + (d + e) == a + b + c + d + e
  {
  }

  lemma EncodeSnoc(sequences: seq<Sequence>, q: Sequence)
    requires AllEncodable(sequences) && Encodable(q)
    ensures AllEncodable(sequences + [q])
    ensures EncodeSequences(sequences + [q]) == EncodeSequences(sequences) + EncodeSequence(q)
  {
    assert (sequences + [q])[..|sequences|] == sequences;
  }

  lemma ReplaySnoc(c: Call, anchor: nat, ip: nat, m: nat, mc: nat, sequences: seq<Sequence>)
    requires c.Valid() && c.source <= anchor <= ip && c.MatchAt(m, ip, MIN_MATCH + mc)
    requires Replay(c.src[c.lowLimit..c.source], sequences) == Some(c.src[c.lowLimit..anchor])
    ensures Replay(c.src[c.lowLimit..c.source], sequences + [Sequence(c.src[anchor..ip], ip - m, MIN_MATCH + mc)])
         == Some(c.src[c.lowLimit..ip + MIN_MATCH + mc])
  {
    hide Replay, CopyMatch;
    var q := Sequence(c.src[anchor..ip], ip - m, MIN_MATCH + mc);
    ReplayOneMore(c.src[c.lowLimit..c.source], sequences, q);
    assert c.src[c.lowLimit..anchor] + c.src[anchor..ip] == c.src[c.lowLimit..ip];
    MatchReplays(c.src, c.lowLimit, m, ip, MIN_MATCH + mc);
  }

  lemma ReplayOneMore(h: seq<byte>, sequences: seq<Sequence>, q: Sequence)
    requires Replay(h, sequences).Some? && q.offset <= |Replay(h, sequences).value + q.literals|
    ensures Replay(h, sequences + [q]) == Some(CopyMatch(Replay(h, sequences).value + q.literals, q.offset, q.matchLength))
  {
    hide CopyMatch;
    assert (sequences + [q])[..|sequences|] == sequences;
  }

  function Later(ip: nat, filledIp: nat): nat {
    if filledIp < ip then ip else filledIp
  }

  /** In fillOutput mode, a target too full for another match. */
  predicate Full(t: Target, op: nat) {
    t.directive == FillOutput && op + 2 + 1 + MF_LIMIT - MIN_MATCH > t.olimit
  }

  /** The match code that still fits the budget of fillOutput. */
  function ReducedMatchCode(op: nat, olimit: int): int {
    15 - 1 + (olimit - op - 1 - LAST_LITERALS) * 255
  }

  lemma ReducedSize(n: int)
    requires n >= 1
    ensures (14 + n * 255 + 240) / 255 == n
  {
  }

  lemma MatchShortened(c: Call, m: nat, ip: nat, n: nat, k: nat)
    requires c.MatchAt(m, ip, n) && k <= n
    ensures c.MatchAt(m, ip, k) && m < ip && ip + n <= |c.src|
  {
    EqualSlicesSplit(c.src, m, ip, n, k);
  }

  /** Counts the match, checks the budget, and in fillOutput mode cuts the match to fit. */
  method ChooseMatchCode(c: Call, t: Target, table: array<nat>, op: nat, ip: nat, m: nat, filledIp: nat, ghost known: nat)
    returns (fits: bool, matchCode: nat)
    requires c.Valid() && c.source <= ip && op - t.start <= (ip - c.source) + (ip - c.source) / 255 + 4
    requires c.MatchAt(m, ip, known) && known >= MIN_MATCH && ip + known + 8 <= c.Iend()
    requires filledIp + MIN_MATCH <= ip + known
    requires c.TableOk(table[..], c.Index(Later(ip, filledIp)) + 1)
    requires t.directive == FillOutput ==> c.EntrySafe(0) && op + 9 <= t.olimit
    modifies table
    ensures !fits ==> t.TooTight(c.inputSize) && c.TableOk(table[..], c.Index(c.Iend()))
    ensures fits ==>
      && c.MatchAt(m, ip, MIN_MATCH + matchCode) && ip + MIN_MATCH + matchCode <= c.MatchLimit()
      && c.TableOk(table[..], c.Index(ip + MIN_MATCH + matchCode))
      && (t.directive != NotLimited ==> op + (1 + LAST_LITERALS) + (matchCode + 240) / 255 <= t.olimit)
      && (filledIp < ip + MIN_MATCH + matchCode
          || (t.directive == FillOutput && matchCode >= ML_MASK
              && op + (1 + LAST_LITERALS) + (matchCode + 240) / 255 == t.olimit))
    ensures var mc := CommonRun(c.src, ip + 4, m + 4, c.MatchLimit());
            var over := op + 6 + (mc + 240) / 255 > t.olimit;
            && (!fits <==> t.directive == LimitedOutput && over)
            && (t.directive == FillOutput && over ==>
                  matchCode == 14 + (t.olimit - op - 6) * 255 && op + 6 + (matchCode + 240) / 255 == t.olimit)
            && (fits && !(t.directive == FillOutput && over) ==> matchCode == mc && table[..] == old(table[..]))
  {
    hide CommonRun, Call.MatchAt, Call.TableOk;
    ghost var last := c.Index(Later(ip, filledIp)) + 1;
    MatchShortened(c, m, ip, known, MIN_MATCH);
    matchCode := Count(c.src, ip + MIN_MATCH, m + MIN_MATCH, c.MatchLimit());
    MatchExtends(c, m, ip, known, matchCode);
    if t.directive != NotLimited && op + (1 + LAST_LITERALS) + (matchCode + 240) / 255 > t.olimit {
      if t.directive == LimitedOutput {
        TableLimitGrows(c, table[..], last, c.Index(c.Iend()));
        return false, matchCode;
      }
      var newMatchCode := ReducedMatchCode(op, t.olimit);
      ReducedSize(t.olimit - op - 1 - LAST_LITERALS);
      MatchShortened(c, m, ip, MIN_MATCH + matchCode, MIN_MATCH + newMatchCode);
      ClearAfterCut(c, table, ip + MIN_MATCH + newMatchCode, ip, filledIp);
      return true, newMatchCode;
    }
    TableLimitGrows(c, table[..], last, c.Index(ip + MIN_MATCH + matchCode));
    return true, matchCode;
  }

  /** The bytes ahead of the match length stay inside the target. */
  lemma RoomForMatch(c: Call, t: Target, op: nat, ip: nat, matchCode: nat)
    requires t.Fits(c.inputSize) && c.source <= ip && ip + MIN_MATCH + matchCode + LAST_LITERALS <= c.Iend()
    requires op - t.start <= (ip - c.source) + (ip - c.source) / 255 + 2
    requires t.directive != NotLimited ==> op + 2 + (1 + LAST_LITERALS) + (matchCode + 240) / 255 <= t.olimit
    ensures op + 2 + (if matchCode >= ML_MASK then (matchCode - 15) / 255 + 4 else 0) <= t.cap
  {
  }

  /** Whether the match at `ip` must be cut short to fit what is left from `op` on. */
  ghost predicate Cuts(c: Call, t: Target, ip: nat, m: nat, op: nat)
    requires m < ip && c.MatchLimit() <= |c.src|
  {
    Short(t.Room(op), 8 + |Extension(CommonRun(c.src, ip + 4, m + 4, c.MatchLimit()))|)
  }

  /** What becomes of a match: left out for want of room, refused for want of budget, or the next sequence, as
      long as it can be unless it is cut short. */
  ghost predicate Emitted(c: Call, t: Target, status: Status, anchor: nat, ip0: nat, m: nat, op0: nat, ip: nat, op: nat,
                          done: seq<Sequence>, done': seq<Sequence>, was: seq<nat>, now: seq<nat>)
  {
    && c.lowLimit <= m < ip0 && anchor <= ip0 && ip0 + 4 <= |c.src| && c.MatchLimit() <= |c.src|
    && var mc := CommonRun(c.src, ip0 + 4, m + 4, c.MatchLimit());
    && (status == LastLiterals <==> Short(t.Room(op0), 11))
    && (status == TooSmall <==> t.directive == LimitedOutput && op0 + 8 + |Extension(mc)| > t.olimit)
    && (status == Proceed ==>
          var code := if Cuts(c, t, ip0, m, op0) then 14 + (t.Room(op0).value - 8) * 255 else mc;
          && code >= 0 && ip == ip0 + 4 + code && op == op0 + 2 + |Extension(code)|
          && done' == done + [Sequence(c.src[anchor..ip0], ip0 - m, 4 + code)]
          && (if Cuts(c, t, ip0, m, op0) then Full(t, op + 1) else now == was))
  }

  lemma NotEmitted(c: Call, t: Target, status: Status, anchor: nat, ip0: nat, m: nat, op0: nat, ip: nat, op: nat,
                   done: seq<Sequence>, was: seq<nat>, now: seq<nat>)
    requires c.lowLimit <= m < ip0 && anchor <= ip0 && ip0 + 4 <= |c.src| && c.MatchLimit() <= |c.src|
    requires status != Proceed
    requires status == LastLiterals ==> Full(t, op0)
    requires status == TooSmall ==>
               t.directive == LimitedOutput
               && op0 + 8 + (CommonRun(c.src, ip0 + 4, m + 4, c.MatchLimit()) + 240) / 255 > t.olimit
    ensures Emitted(c, t, status, anchor, ip0, m, op0, ip, op, done, done, was, now)
  {
    hide CommonRun, Extension;
    ShareOfRun(CommonRun(c.src, ip0 + 4, m + 4, c.MatchLimit()));
  }

  lemma EmittedNow(c: Call, t: Target, anchor: nat, ip0: nat, m: nat, op0: nat, code: nat, op: nat, done: seq<Sequence>,
                   was: seq<nat>, now: seq<nat>)
    requires c.lowLimit <= m < ip0 && anchor <= ip0 && ip0 + 4 <= |c.src| && c.MatchLimit() <= |c.src|
    requires !Full(t, op0) && op == op0 + 2 + |Extension(code)|
    requires var mc := CommonRun(c.src, ip0 + 4, m + 4, c.MatchLimit());
             var over := op0 + 8 + (mc + 240) / 255 > t.olimit;
             && !(t.directive == LimitedOutput && over)
             && (if t.directive == FillOutput && over then
                   code == 14 + (t.olimit - op0 - 8) * 255 && op0 + 8 + (code + 240) / 255 == t.olimit
                 else code == mc && now == was)
    ensures Emitted(c, t, Proceed, anchor, ip0, m, op0, ip0 + 4 + code, op, done,
                    done + [Sequence(c.src[anchor..ip0], ip0 - m, 4 + code)], was, now)
  {
    hide CommonRun, Extension;
    ShareOfRun(CommonRun(c.src, ip0 + 4, m + 4, c.MatchLimit()));
    ShareOfRun(code);
  }

  /** "Encode Offset" and "Encode MatchLength" of the source. */
  method EmitMatch(c: Call, t: Target, dest: array<byte>, table: array<nat>, token: nat, op0: nat, anchor: nat,
                   ip0: nat, m: nat, filledIp: nat, ghost known: nat, ghost sequences: seq<Sequence>)
    returns (status: Status, op: nat, ip: nat, ghost sequences': seq<Sequence>)
    requires t.Fits(c.inputSize) && t.cap <= dest.Length
    requires Pending(c, dest[..], t.start, token, op0, anchor, ip0, sequences)
    requires c.MatchAt(m, ip0, known) && known >= MIN_MATCH && ip0 + known + 8 <= c.Iend()
    requires filledIp + MIN_MATCH <= ip0 + known || Full(t, op0)
    requires c.TableOk(table[..], c.Index(Later(ip0, filledIp)) + 1) && filledIp < c.MfLimitPlusOne()
    requires t.directive != NotLimited ==> op0 + 2 <= t.olimit
    requires t.directive == FillOutput ==> c.EntrySafe(0)
    modifies dest, table
    ensures SameOutside(old(dest[..]), dest[..], t.start, t.cap)
    ensures status == TooSmall ==> t.TooTight(c.inputSize) && c.TableOk(table[..], c.Index(c.Iend()))
    ensures status == LastLiterals ==>
      && t.directive == FillOutput && op == token && sequences' == sequences
      && Encoded(c, dest[..], t.start, token, anchor, sequences) && c.TableOk(table[..], c.Index(c.Iend()))
    ensures status == Proceed ==>
      && Encoded(c, dest[..], t.start, op, ip, sequences') && LeavesEnd(c, t, op, ip, sequences')
      && ip >= ip0 + MIN_MATCH && ip >= c.source + MIN_MATCH && c.TableOk(table[..], c.Index(ip))
      && (t.directive != NotLimited ==> op + 1 + LAST_LITERALS <= t.olimit)
      && (filledIp < ip || Full(t, op + 1))
    ensures Emitted(c, t, status, anchor, ip0, m, op0, ip, op, sequences, sequences', old(table[..]), table[..])
  {
    hide CommonRun, Emitted;
    hide Extension, Call.MatchAt, Call.TableOk, Encoded, Pending, LeavesEnd;
    op, ip, sequences' := op0, ip0, sequences;
    ghost var was := dest[..];
    PendingSize(c, was, t.start, token, op0, anchor, ip0, sequences);
    MatchBounds(c, m, ip0, known);
    if Full(t, op) {
      TableLimitGrows(c, table[..], c.Index(Later(ip0, filledIp)) + 1, c.Index(c.Iend()));
      NotEmitted(c, t, LastLiterals, anchor, ip0, m, op0, ip, token, sequences, table[..], table[..]);
      return LastLiterals, token, ip, sequences;
    }
    var offset := MatchOffset(c, m, ip0, known);
    WriteLE16(dest, op0, offset);
    ghost var entries := table[..];
    var fits, matchCode := ChooseMatchCode(c, t, table, op0 + 2, ip0, m, filledIp, known);
    if !fits {
      NotEmitted(c, t, TooSmall, anchor, ip0, m, op0, ip, op, sequences, entries, table[..]);
      return TooSmall, op, ip, sequences;
    }
    RoomForMatch(c, t, op0, ip0, matchCode);
    op := EncodeMatchLength(dest, token, op0 + 2, matchCode, t.cap);
    ip := ip0 + MIN_MATCH + matchCode;
    sequences' := sequences + [Sequence(c.src[anchor..ip0], ip0 - m, MIN_MATCH + matchCode)];
    SequenceCompleted(c, was, dest[..], t.start, token, op0, op, anchor, ip0, m, matchCode, sequences);
    EndLeft(c, t, op0, op, ip0, matchCode, sequences');
    EmittedNow(c, t, anchor, ip0, m, op0, matchCode, op, sequences, entries, table[..]);
    return Proceed, op, ip, sequences';
  }

  lemma EndLeft(c: Call, t: Target, op0: nat, op: nat, ip0: nat, matchCode: nat, sequences: seq<Sequence>)
    requires sequences != [] && sequences[|sequences| - 1].matchLength == MIN_MATCH + matchCode
    requires ip0 + MF_LIMIT <= c.Iend() && ip0 + MIN_MATCH + matchCode <= c.MatchLimit()
    requires !Full(t, op0) && op == op0 + 2 + |Extension(matchCode)|
    requires t.directive != NotLimited ==> op0 + 2 + (1 + LAST_LITERALS) + (matchCode + 240) / 255 <= t.olimit
    ensures LeavesEnd(c, t, op, ip0 + MIN_MATCH + matchCode, sequences)
    ensures t.directive != NotLimited ==> op + 1 + LAST_LITERALS <= t.olimit
    ensures (t.directive == FillOutput && matchCode >= ML_MASK
             && op0 + 2 + (1 + LAST_LITERALS) + (matchCode + 240) / 255 == t.olimit) ==> Full(t, op + 1)
  {
  }

  method MatchOffset(c: Call, m: nat, ip: nat, ghost known: nat) returns (offset: nat)
    requires c.MatchAt(m, ip, known)
    ensures offset == ip - m && 1 <= offset <= DISTANCE_MAX
  {
    offset := ip - m;
  }

  lemma PendingSize(c: Call, dest: seq<byte>, start: nat, token: nat, op: nat, anchor: nat, ip: nat, sequences: seq<Sequence>)
    requires Pending(c, dest, start, token, op, anchor, ip, sequences)
    ensures op - start <= (ip - c.source) + (ip - c.source) / 255 + 2
    ensures op == token + 1 + |Extension(ip - anchor)| + (ip - anchor)
    ensures c.Valid() && c.source <= anchor <= ip && start <= token < op <= |dest| && dest[token] % 16 == 0
    ensures Encoded(c, dest, start, token, anchor, sequences)
  {
    hide EncodeSequences, Replay;
    EncodedSize(c, dest, start, token, anchor, sequences);
    assert |dest[token + 1..op]| == |Extension(ip - anchor)| + (ip - anchor);
  }

  /** After a match is cut short, positions beyond it leave the table. */
  method ClearAfterCut(c: Call, table: array<nat>, ip: nat, ip0: nat, filledIp: nat)
    requires c.Valid() && c.source <= ip0 < ip && filledIp + 8 <= c.Iend()
    requires c.TableOk(table[..], c.Index(Later(ip0, filledIp)) + 1)
    requires c.EntrySafe(0)
    modifies table
    ensures c.TableOk(table[..], c.Index(ip))
  {
    if ip <= filledIp {
      ClearHashes(c, table, ip, filledIp);
    } else {
      TableLimitGrows(c, table[..], c.Index(Later(ip0, filledIp)) + 1, c.Index(ip));
    }
  }

  // ----- Chains of matches -----

  /** LZ4_putPosition. */
  method PutPosition(c: Call, table: array<nat>, position: nat, ghost limit: int)
    requires c.Valid() && c.source <= position && position + MF_LIMIT <= c.Iend()
    requires c.TableOk(table[..], limit) && c.Index(position) < limit
    modifies table
    ensures c.TableOk(table[..], limit) && table[..] == Put(c, old(table[..]), position)
  {
    PutIndexOnHash(c, table, position, c.HashPosition(position), limit);
  }

  /** "Test next position": whether the position right after a match starts another one. */
  method TestNext(c: Call, table: array<nat>, ip: nat) returns (found: bool, m: nat)
    requires c.Valid() && c.source < ip - 1 && ip < c.MfLimitPlusOne()
    requires c.TableOk(table[..], c.Index(ip))
    modifies table
    ensures c.TableOk(table[..], c.Index(ip) + 1)
    ensures found ==> c.MatchAt(m, ip, MIN_MATCH)
    ensures c.HashesInto(table.Length) && c.HashPosition(ip) < table.Length
    ensures var second := Put(c, old(table[..]), ip - 2);
            && table[..] == Put(c, second, ip)
            && (found <==> Matches(c, second[c.HashPosition(ip)], ip))
            && (found ==> m == c.Position(second[c.HashPosition(ip)]))
  {
    TableHashes(c, table[..], c.Index(ip));
    PutPosition(c, table, ip - 2, c.Index(ip));
    found, m := TestCandidate(c, table, ip, c.HashPosition(ip));
  }

  // ----- On the greedy parse -----

  /** The compressor is where the parse goes on with a search, or, in fillOutput mode, has no room for another sequence. */
  ghost predicate Track(whole: Parse, c: Call, acceleration: nat, t: Target, done: seq<Sequence>, table: seq<nat>, ip: nat,
                        anchor: nat, op: nat)
  {
    OnTrack(whole, c, acceleration, done, table, ip, anchor, t.Room(op)) || (Settled(whole, done, anchor) && Full(t, op + 1))
  }

  lemma NothingFound(whole: Parse, c: Call, acceleration: nat, t: Target, done: seq<Sequence>, was: seq<nat>, now: seq<nat>,
                     ip: nat, anchor: nat, op: nat, filledIp: nat, m: nat, k: nat)
    requires Track(whole, c, acceleration, t, done, was, ip, anchor, op)
    requires Hunted(c, was, now, ip, acceleration, false, filledIp, m, k)
    ensures Settled(whole, done, anchor) && (t.directive != FillOutput ==> whole.table == now)
  {
    hide OnTrack, Settled, Search, Puts, EntryAt, Matches, NoneMatches;
    if OnTrack(whole, c, acceleration, done, was, ip, anchor, t.Room(op)) {
      TrackExhausted(whole, c, acceleration, done, was, ip, anchor, t.Room(op), k);
    }
  }

  lemma SomethingFound(whole: Parse, c: Call, acceleration: nat, t: Target, done: seq<Sequence>, was: seq<nat>,
                       now: seq<nat>, ip0: nat, anchor: nat, op: nat, filledIp: nat, m0: nat, ip: nat, m: nat, k: nat)
    requires Track(whole, c, acceleration, t, done, was, ip0, anchor, op)
    requires Hunted(c, was, now, ip0, acceleration, true, filledIp, m0, k)
    requires m0 <= filledIp <= |c.src| && anchor <= ip && filledIp - ip == m0 - m == Back(c, filledIp, m0, anchor)
    ensures var used := 1 + |Extension(ip - anchor)| + (ip - anchor);
            if Short(t.Room(op), used + 11) then Settled(whole, done, anchor)
            else OnChain(whole, c, acceleration, done, now, ip, m, anchor, t.Room(op + used))
  {
    hide OnTrack, OnChain, Settled, Search, Puts, EntryAt, Matches, NoneMatches, Back, Probe;
    if OnTrack(whole, c, acceleration, done, was, ip0, anchor, t.Room(op)) {
      TrackFound(whole, c, acceleration, done, was, ip0, anchor, t.Room(op), k, filledIp, m0);
    }
  }

  lemma LiteralsTracked(whole: Parse, c: Call, acceleration: nat, t: Target, dest: seq<byte>, done: seq<Sequence>,
                        was: seq<nat>, now: seq<nat>, ip0: nat, anchor: nat, op: nat, filledIp: nat, m0: nat, ip: nat, m: nat,
                        k: nat, status: Status)
    requires Track(whole, c, acceleration, t, done, was, ip0, anchor, op)
    requires Hunted(c, was, now, ip0, acceleration, true, filledIp, m0, k)
    requires m0 <= filledIp <= |c.src| && anchor <= ip && filledIp - ip == m0 - m == Back(c, filledIp, m0, anchor)
    requires Encoded(c, dest, t.start, op, anchor, done)
    requires var lit := ip - anchor;
             && (status == TooSmall <==> t.directive == LimitedOutput && op + 1 + lit + (2 + 1 + 5) + lit / 255 > t.olimit)
             && (status == LastLiterals <==> Short(t.Room(op), 1 + |Extension(lit)| + lit + 11))
    ensures status == TooSmall ==> TooBig(whole, c, t.olimit - t.start)
    ensures status == LastLiterals ==> Settled(whole, done, anchor) && t.directive == FillOutput
    ensures status == Proceed ==>
              OnChain(whole, c, acceleration, done, now, ip, m, anchor, t.Room(op + 1 + |Extension(ip - anchor)| + (ip - anchor)))
  {
    hide OnChain, Settled, TooBig, Track, Hunted, Back, Encoded, Extension;
    SomethingFound(whole, c, acceleration, t, done, was, now, ip0, anchor, op, filledIp, m0, ip, m, k);
    if status == TooSmall {
      RunTooBig(whole, c, acceleration, t, dest, op, op + 1 + |Extension(ip - anchor)| + (ip - anchor), done, now, ip, m, anchor);
    }
  }

  lemma MatchTooBig(whole: Parse, c: Call, acceleration: nat, t: Target, dest: seq<byte>, token: nat, op: nat,
                    done: seq<Sequence>, table: seq<nat>, ip: nat, m: nat, anchor: nat)
    requires t.directive == LimitedOutput && Pending(c, dest, t.start, token, op, anchor, ip, done)
    requires OnChain(whole, c, acceleration, done, table, ip, m, anchor, t.Room(op))
    requires op + 8 + |Extension(CommonRun(c.src, ip + 4, m + 4, c.MatchLimit()))| > t.olimit
    ensures TooBig(whole, c, t.olimit - t.start)
  {
    hide OnChain, TooBig, EncodeSequences, Replay, CommonRun, Extension;
    OnChainBounds(whole, c, acceleration, done, table, ip, m, anchor, t.Room(op));
    assert |dest[token + 1..op]| == |Extension(ip - anchor)| + (ip - anchor);
    assert |dest[t.start..token]| == token - t.start;
    ChainSize(whole, c, acceleration, done, table, ip, m, anchor, CommonRun(c.src, ip + 4, m + 4, c.MatchLimit()),
              t.olimit - t.start);
  }

  lemma RunTooBig(whole: Parse, c: Call, acceleration: nat, t: Target, dest: seq<byte>, token: nat, op: nat,
                  done: seq<Sequence>, table: seq<nat>, ip: nat, m: nat, anchor: nat)
    requires t.directive == LimitedOutput && Encoded(c, dest, t.start, token, anchor, done)
    requires OnChain(whole, c, acceleration, done, table, ip, m, anchor, t.Room(op))
    requires token + 1 + (ip - anchor) + (2 + 1 + 5) + (ip - anchor) / 255 > t.olimit
    ensures TooBig(whole, c, t.olimit - t.start)
  {
    hide OnChain, TooBig, EncodeSequences, Replay;
    assert |dest[t.start..token]| == token - t.start;
    LiteralsTooBig(whole, c, acceleration, done, table, ip, m, anchor, t.olimit - t.start);
  }

  /** Where the parse is after a match: `settled` when the match was cut short. */
  ghost predicate AfterMatch(whole: Parse, c: Call, acceleration: nat, t: Target, done: seq<Sequence>, table: seq<nat>, ip: nat,
                             op: nat, settled: bool)
  {
    if settled then Settled(whole, done, ip) && Full(t, op + 1)
    else
      && c.Searchable(table, acceleration) && c.source + 2 <= ip
      && if ip >= c.MfLimitPlusOne() then Settled(whole, done, ip) && whole.table == table
         else
           var second := Put(c, table, ip - 2);
           var entry := second[c.HashPosition(ip)];
           var third := Put(c, second, ip);
           if Matches(c, entry, ip) then
             c.Position(entry) >= 0
             && OnChain(whole, c, acceleration, done, third, ip, c.Position(entry), ip, t.Room(op + 1))
           else OnTrack(whole, c, acceleration, done, third, ip + 1, ip, t.Room(op))
  }

  /** Where the parse is while a match is pending. */
  ghost predicate AtMatch(whole: Parse, c: Call, acceleration: nat, t: Target, done: seq<Sequence>, table: seq<nat>, ip: nat,
                          m: nat, anchor: nat, op: nat, settled: bool)
  {
    if settled then Settled(whole, done, anchor) && Full(t, op)
    else OnChain(whole, c, acceleration, done, table, ip, m, anchor, t.Room(op))
  }

  lemma NotEmittedTracked(whole: Parse, c: Call, acceleration: nat, t: Target, dest: seq<byte>, token: nat, done: seq<Sequence>,
                          was: seq<nat>, ip0: nat, m: nat, anchor: nat, op0: nat, settled: bool, status: Status, ip: nat, op: nat,
                          done': seq<Sequence>, now: seq<nat>)
    requires AtMatch(whole, c, acceleration, t, done, was, ip0, m, anchor, op0, settled)
    requires Pending(c, dest, t.start, token, op0, anchor, ip0, done)
    requires Emitted(c, t, status, anchor, ip0, m, op0, ip, op, done, done', was, now) && status != Proceed
    ensures status == TooSmall ==> TooBig(whole, c, t.olimit - t.start)
    ensures status == LastLiterals ==> Settled(whole, done, anchor) && t.directive == FillOutput
  {
    hide OnChain, Settled, CommonRun, Extension, Pending, TooBig;
    if status == TooSmall {
      MatchTooBig(whole, c, acceleration, t, dest, token, op0, done, was, ip0, m, anchor);
    } else if !settled {
      ChainFull(whole, c, acceleration, done, was, ip0, m, anchor, t.Room(op0));
    }
  }

  lemma EmittedTracked(whole: Parse, c: Call, acceleration: nat, t: Target, done: seq<Sequence>, was: seq<nat>, ip0: nat, m: nat,
                       anchor: nat, op0: nat, settled: bool, ip: nat, op: nat, done': seq<Sequence>, now: seq<nat>)
    requires AtMatch(whole, c, acceleration, t, done, was, ip0, m, anchor, op0, settled)
    requires Emitted(c, t, Proceed, anchor, ip0, m, op0, ip, op, done, done', was, now)
    ensures m < ip0 && c.MatchLimit() <= |c.src|
    ensures AfterMatch(whole, c, acceleration, t, done', now, ip, op, Cuts(c, t, ip0, m, op0))
  {
    hide OnTrack, Settled, CommonRun, Extension, Put, Matches, Chain, Greedy;
    var mc := CommonRun(c.src, ip0 + 4, m + 4, c.MatchLimit());
    assert !settled;
    if Cuts(c, t, ip0, m, op0) {
      ChainCut(whole, c, acceleration, done, was, ip0, m, anchor, t.Room(op0), mc);
    } else {
      ChainGoesOn(whole, c, acceleration, done, was, ip0, m, anchor, t.Room(op0), mc);
    }
  }

  lemma AtFirstMatch(whole: Parse, c: Call, acceleration: nat, t: Target, done: seq<Sequence>, table: seq<nat>, ip: nat, m: nat,
                     anchor: nat, op: nat)
    requires OnChain(whole, c, acceleration, done, table, ip, m, anchor, t.Room(op))
    ensures AtMatch(whole, c, acceleration, t, done, table, ip, m, anchor, op, false)
  {
    hide OnChain;
  }

  lemma ParseEnds(whole: Parse, c: Call, acceleration: nat, t: Target, done: seq<Sequence>, table: seq<nat>, ip: nat, op: nat,
                  settled: bool)
    requires AfterMatch(whole, c, acceleration, t, done, table, ip, op, settled) && ip >= c.MfLimitPlusOne()
    ensures Settled(whole, done, ip) && (t.directive != FillOutput ==> whole.table == table)
  {
    hide Settled;
  }

  lemma NextTested(whole: Parse, c: Call, acceleration: nat, t: Target, done: seq<Sequence>, was: seq<nat>, now: seq<nat>,
                   ip: nat, op: nat, found: bool, m: nat, settled: bool)
    requires AfterMatch(whole, c, acceleration, t, done, was, ip, op, settled)
    requires c.Valid() && c.source + 2 <= ip < c.MfLimitPlusOne() && c.HashesInto(|was|)
    requires var second := Put(c, was, ip - 2);
             && now == Put(c, second, ip)
             && (found <==> Matches(c, second[c.HashPosition(ip)], ip))
             && (found ==> m == c.Position(second[c.HashPosition(ip)]))
    ensures if found then AtMatch(whole, c, acceleration, t, done, now, ip, m, ip, op + 1, settled)
            else Track(whole, c, acceleration, t, done, now, ip + 1, ip, op)
  {
    hide OnTrack, OnChain, Settled, Put, Matches;
  }

  // ----- Chains of matches, continued -----

  /** From label _next_match: matches that follow each other without literals. */
  method MatchChain(c: Call, t: Target, dest: array<byte>, table: array<nat>, token0: nat, op0: nat, anchor0: nat,
                    ip0: nat, m0: nat, filledIp: nat, ghost sequences0: seq<Sequence>, ghost acceleration: nat,
                    ghost whole: Parse)
    returns (status: Status, op: nat, anchor: nat, ghost sequences: seq<Sequence>)
    requires OnChain(whole, c, acceleration, sequences0, table[..], ip0, m0, anchor0, t.Room(op0))
    requires t.Fits(c.inputSize) && t.cap <= dest.Length
    requires Pending(c, dest[..], t.start, token0, op0, anchor0, ip0, sequences0)
    requires LeavesEnd(c, t, token0, anchor0, sequences0)
    requires ip0 <= filledIp < c.MfLimitPlusOne() && c.MatchAt(m0, ip0, MIN_MATCH + (filledIp - ip0))
    requires c.TableOk(table[..], c.Index(filledIp) + 1)
    requires t.directive != NotLimited ==> op0 + 2 <= t.olimit
    requires t.directive == FillOutput ==> c.EntrySafe(0)
    modifies dest, table
    ensures SameOutside(old(dest[..]), dest[..], t.start, t.cap)
    ensures status == TooSmall ==> t.TooTight(c.inputSize) && c.TableOk(table[..], c.Index(c.Iend()))
    ensures status == LastLiterals ==>
      && Encoded(c, dest[..], t.start, op, anchor, sequences) && LeavesEnd(c, t, op, anchor, sequences)
      && c.TableOk(table[..], c.Index(c.Iend()))
    ensures status == Proceed ==>
      && Encoded(c, dest[..], t.start, op, anchor, sequences) && LeavesEnd(c, t, op, anchor, sequences)
      && c.source < anchor && ip0 < anchor < c.MfLimitPlusOne() && c.TableOk(table[..], c.Index(anchor) + 1)
    ensures status == TooSmall ==> TooBig(whole, c, t.olimit - t.start)
    ensures status == LastLiterals ==>
      Settled(whole, sequences, anchor) && (t.directive != FillOutput ==> whole.table == table[..])
    ensures status == Proceed ==> Track(whole, c, acceleration, t, sequences, table[..], anchor + 1, anchor, op)
  {
    hide EncodeSequences, Replay, Extension, Call.TableOk, Call.MatchAt, Encoded, Pending, LeavesEnd;
    hide OnChain, Settled, TooBig, Track, AtMatch, AfterMatch, Emitted, CommonRun, Put, Matches;
    AtFirstMatch(whole, c, acceleration, t, sequences0, table[..], ip0, m0, anchor0, op0);
    var token, ip, m := token0, ip0, m0;
    ghost var known := MIN_MATCH + (filledIp - ip0);
    ghost var settled := false;
    op, anchor, sequences := op0, anchor0, sequences0;
    while true
      invariant AtMatch(whole, c, acceleration, t, sequences, table[..], ip, m, anchor, op, settled)
      invariant SameOutside(old(dest[..]), dest[..], t.start, t.cap)
      invariant Pending(c, dest[..], t.start, token, op, anchor, ip, sequences)
      invariant LeavesEnd(c, t, token, anchor, sequences)
      invariant known >= MIN_MATCH && c.MatchAt(m, ip, known) && ip + known + 8 <= c.Iend()
      invariant filledIp + MIN_MATCH <= ip + known || Full(t, op)
      invariant c.TableOk(table[..], c.Index(Later(ip, filledIp)) + 1)
      invariant t.directive != NotLimited ==> op + 2 <= t.olimit
      invariant ip0 <= ip
      decreases c.Iend() - ip
    {
      ghost var before, done, was, start, from, reached := dest[..], sequences, table[..], ip, anchor, op;
      status, op, ip, sequences := EmitMatch(c, t, dest, table, token, op, anchor, ip, m, filledIp, known, sequences);
      if status != Proceed {
        NotEmittedTracked(whole, c, acceleration, t, before, token, done, was, start, m, from, reached, settled, status, ip, op,
                          sequences, table[..]);
        return;
      }
      EmittedTracked(whole, c, acceleration, t, done, was, start, m, from, reached, settled, ip, op, sequences, table[..]);
      settled := Cuts(c, t, start, m, reached);
      anchor := ip;
      EncodedBounds(c, dest[..], t.start, op, anchor, sequences);
      if ip >= c.MfLimitPlusOne() {
        TableLimitGrows(c, table[..], c.Index(ip), c.Index(c.Iend()));
        ParseEnds(whole, c, acceleration, t, sequences, table[..], ip, op, settled);
        return LastLiterals, op, anchor, sequences;
      }
      ghost var filled := table[..];
      var found;
      found, m := TestNext(c, table, ip);
      NextTested(whole, c, acceleration, t, sequences, filled, table[..], ip, op, found, m, settled);
      if !found {
        return Proceed, op, anchor, sequences;
      }
      TableLimitGrows(c, table[..], c.Index(ip) + 1, c.Index(Later(ip, filledIp)) + 1);
      token := op;
      op := EmptyToken(c, t, dest, token, ip, sequences);
      known := MIN_MATCH;
    }
  }

  /** The token of a sequence without literals. */
  method EmptyToken(c: Call, t: Target, dest: array<byte>, token: nat, ip: nat, ghost sequences: seq<Sequence>) returns (op: nat)
    requires t.Fits(c.inputSize) && t.cap <= dest.Length
    requires Encoded(c, dest[..], t.start, token, ip, sequences) && ip + MF_LIMIT <= c.Iend()
    requires t.directive != NotLimited ==> token + 1 + LAST_LITERALS <= t.olimit
    modifies dest
    ensures op == token + 1 && SameOutside(old(dest[..]), dest[..], t.start, t.cap)
    ensures Pending(c, dest[..], t.start, token, op, ip, ip, sequences)
  {
    hide EncodeSequences, Replay;
    EncodedSize(c, dest[..], t.start, token, ip, sequences);
    ghost var was := dest[..];
    dest[token] := 0;
    EncodedKept(c, was, dest[..], t.start, token, ip, sequences);
    assert c.src[ip..ip] == [];
    return token + 1;
  }

  lemma EncodedBounds(c: Call, dest: seq<byte>, start: nat, op: nat, anchor: nat, sequences: seq<Sequence>)
    requires Encoded(c, dest, start, op, anchor, sequences)
    ensures start <= op <= |dest| && c.source <= anchor <= c.Iend() && c.Valid()
  {
  }

  // ----- The whole block -----

  /** One turn of the main loop: a search, the literals before the match, and the matches from there on. */
  method Turn(c: Call, t: Target, dest: array<byte>, table: array<nat>, ip0: nat, forwardH: nat, op0: nat, anchor0: nat,
              acceleration: nat, ghost sequences0: seq<Sequence>, ghost whole: Parse)
    returns (status: Status, op: nat, anchor: nat, ghost sequences: seq<Sequence>)
    requires t.Fits(c.inputSize) && t.cap <= dest.Length && c.inputSize >= MIN_LENGTH && acceleration >= 1
    requires t.directive == FillOutput ==> c.EntrySafe(0)
    requires c.source < ip0 <= c.MfLimitPlusOne() && anchor0 <= ip0
    requires Encoded(c, dest[..], t.start, op0, anchor0, sequences0) && LeavesEnd(c, t, op0, anchor0, sequences0)
    requires c.TableOk(table[..], c.Index(ip0)) && forwardH == c.HashPosition(ip0)
    requires Track(whole, c, acceleration, t, sequences0, table[..], ip0, anchor0, op0)
    modifies dest, table
    ensures SameOutside(old(dest[..]), dest[..], t.start, t.cap)
    ensures status == TooSmall ==>
      && t.TooTight(c.inputSize) && c.TableOk(table[..], c.Index(c.Iend()))
      && t.directive == LimitedOutput && TooBig(whole, c, t.olimit - t.start)
    ensures status != TooSmall ==> Encoded(c, dest[..], t.start, op, anchor, sequences) && LeavesEnd(c, t, op, anchor, sequences)
    ensures status == LastLiterals ==>
      && c.TableOk(table[..], c.Index(c.Iend()))
      && Settled(whole, sequences, anchor) && (t.directive != FillOutput ==> whole.table == table[..])
    ensures status == Proceed ==>
      && c.source < anchor && anchor0 < anchor < c.MfLimitPlusOne() && c.TableOk(table[..], c.Index(anchor) + 1)
      && Track(whole, c, acceleration, t, sequences, table[..], anchor + 1, anchor, op)
  {
    hide Call.TableOk, Call.MatchAt, Pending, Encoded, LeavesEnd, Replay, EncodeSequences, Extension;
    hide OnTrack, OnChain, Settled, TooBig, Track, Hunted, Put, Back;
    op, anchor, sequences := op0, anchor0, sequences0;
    EncodedBounds(c, dest[..], t.start, op, anchor, sequences);
    ghost var was, before := table[..], dest[..];
    var found, filledIp, m0, k := FindMatch(c, table, ip0, forwardH, acceleration);
    if !found {
      NothingFound(whole, c, acceleration, t, sequences, was, table[..], ip0, anchor, op, filledIp, m0, k);
      return LastLiterals, op, anchor, sequences;
    }
    MatchBounds(c, m0, filledIp, MIN_MATCH);
    var ip, m := CatchUp(c, filledIp, m0, anchor);
    var op1;
    status, op1 := EmitLiterals(c, t, dest, op, anchor, ip, sequences);
    LiteralsTracked(whole, c, acceleration, t, before, sequences, was, table[..], ip0, anchor, op, filledIp, m0, ip, m, k, status);
    if status != Proceed {
      TableLimitGrows(c, table[..], c.Index(filledIp) + 1, c.Index(c.Iend()));
      return status, op, anchor, sequences;
    }
    PendingSize(c, dest[..], t.start, op, op1, anchor, ip, sequences);
    status, op, anchor, sequences := MatchChain(c, t, dest, table, op, op1, anchor, ip, m, filledIp, sequences, acceleration, whole);
  }

  /** The main loop: sequences until the search or the output budget runs out. */
  method Sequences(c: Call, t: Target, dest: array<byte>, table: array<nat>, acceleration: nat)
    returns (status: Status, op: nat, anchor: nat, ghost sequences: seq<Sequence>)
    requires c.Valid() && t.Fits(c.inputSize) && t.cap <= dest.Length
    requires c.TableOk(table[..], c.startIndex + 1)
    requires t.directive == FillOutput ==> c.EntrySafe(0)
    requires acceleration >= 1
    modifies dest, table
    ensures SameOutside(old(dest[..]), dest[..], t.start, t.cap)
    ensures status != Proceed
    ensures status == TooSmall ==> t.TooTight(c.inputSize)
    ensures status == LastLiterals ==>
      Encoded(c, dest[..], t.start, op, anchor, sequences) && LeavesEnd(c, t, op, anchor, sequences)
    ensures c.inputSize < MIN_LENGTH ==> c.TableOk(table[..], c.startIndex + 1)
    ensures c.inputSize >= MIN_LENGTH ==> c.TableOk(table[..], c.Index(c.Iend()))
    ensures c.HashesInto(table.Length)
    ensures var whole := WholeParse(c, acceleration, old(table[..]), t.Room(t.start));
            && (status == LastLiterals ==>
                  Settled(whole, sequences, anchor) && (t.directive != FillOutput ==> whole.table == table[..]))
            && (status == TooSmall ==> t.directive == LimitedOutput && TooBig(whole, c, t.olimit - t.start))
  {
    TableHashes(c, table[..], c.startIndex + 1);
    ghost var whole := WholeParse(c, acceleration, table[..], t.Room(t.start));
    ghost var table0 := table[..];
    hide Call.TableOk, Pending, Encoded, LeavesEnd, Replay, EncodeSequences;
    hide OnTrack, OnChain, Settled, TooBig, Track, Put, WholeParse, Call.HashesInto;
    op, anchor, sequences := t.start, c.source, [];
    ShortInput(c, acceleration, table0, t.Room(t.start));
    NothingEncoded(c, t, dest[..]);
    if c.inputSize < MIN_LENGTH {
      return LastLiterals, op, anchor, sequences;
    }
    PutPosition(c, table, c.source, c.startIndex + 1);
    TrackBegins(c, acceleration, table0, t);
    status, op, anchor, sequences := Turns(c, t, dest, table, acceleration, whole);
  }

  /** The turns of the main loop, from the second position on. */
  method Turns(c: Call, t: Target, dest: array<byte>, table: array<nat>, acceleration: nat, ghost whole: Parse)
    returns (status: Status, op: nat, anchor: nat, ghost sequences: seq<Sequence>)
    requires c.Valid() && t.Fits(c.inputSize) && t.cap <= dest.Length && c.inputSize >= MIN_LENGTH && acceleration >= 1
    requires c.TableOk(table[..], c.startIndex + 1)
    requires t.directive == FillOutput ==> c.EntrySafe(0)
    requires Track(whole, c, acceleration, t, [], table[..], c.source + 1, c.source, t.start)
    modifies dest, table
    ensures SameOutside(old(dest[..]), dest[..], t.start, t.cap)
    ensures status != Proceed && c.TableOk(table[..], c.Index(c.Iend()))
    ensures status == TooSmall ==>
      t.TooTight(c.inputSize) && t.directive == LimitedOutput && TooBig(whole, c, t.olimit - t.start)
    ensures status == LastLiterals ==>
      && Encoded(c, dest[..], t.start, op, anchor, sequences) && LeavesEnd(c, t, op, anchor, sequences)
      && Settled(whole, sequences, anchor) && (t.directive != FillOutput ==> whole.table == table[..])
  {
    hide Call.TableOk, Encoded, LeavesEnd, Replay, EncodeSequences, Settled, TooBig, Track, Target.TooTight;
    op, anchor, sequences := t.start, c.source, [];
    NothingEncoded(c, t, dest[..]);
    var ip: nat := c.source + 1;
    var forwardH := c.HashPosition(ip);
    while true
      invariant c.source < ip <= c.MfLimitPlusOne() && anchor <= ip && anchor <= c.Iend()
      invariant SameOutside(old(dest[..]), dest[..], t.start, t.cap)
      invariant Encoded(c, dest[..], t.start, op, anchor, sequences) && LeavesEnd(c, t, op, anchor, sequences)
      invariant c.TableOk(table[..], c.Index(ip)) && forwardH == c.HashPosition(ip)
      invariant Track(whole, c, acceleration, t, sequences, table[..], ip, anchor, op)
      decreases c.Iend() - anchor
    {
      status, op, anchor, sequences := Turn(c, t, dest, table, ip, forwardH, op, anchor, acceleration, sequences, whole);
      if status != Proceed {
        return status, op, anchor, sequences;
      }
      ip := anchor + 1;
      forwardH := c.HashPosition(ip);
    }
  }

  lemma ShortInput(c: Call, acceleration: nat, table: seq<nat>, room: Option<int>)
    requires c.Valid() && acceleration >= 1 && c.HashesInto(|table|)
    ensures c.inputSize < 13 ==>
              var whole := WholeParse(c, acceleration, table, room); Settled(whole, [], c.source) && whole.table == table
  {
  }

  lemma TrackBegins(c: Call, acceleration: nat, table: seq<nat>, t: Target)
    requires c.Valid() && acceleration >= 1 && c.HashesInto(|table|) && c.inputSize >= 13
    ensures Track(WholeParse(c, acceleration, table, t.Room(t.start)), c, acceleration, t, [], Put(c, table, c.source),
                  c.source + 1, c.source, t.start)
  {
    hide OnTrack, WholeParse, Put;
    TrackStarts(c, acceleration, table, t.Room(t.start));
  }

  lemma NothingEncoded(c: Call, t: Target, dest: seq<byte>)
    requires c.Valid() && t.start <= |dest|
    ensures Encoded(c, dest, t.start, t.start, c.source, [])
    ensures LeavesEnd(c, t, t.start, c.source, [])
  {
  }

  /** How many of `r + 1` bytes of output are literals when the run length takes its share. */
  function FillRun(r: nat): (n: nat)
    ensures n <= r && r - 1 <= n + |Extension(n)| <= r
    ensures r >= 5 ==> n >= 5
    ensures r >= 8 ==> n >= 8
  {
    r - (r + 256 - RUN_MASK) / 256
  }

  /** "Encode Last Literals" of the source. */
  method EmitLast(c: Call, t: Target, dest: array<byte>, op0: nat, anchor: nat, ghost sequences: seq<Sequence>)
    returns (ok: bool, op: nat, lastRun: nat)
    requires t.Fits(c.inputSize) && t.cap <= dest.Length
    requires Encoded(c, dest[..], t.start, op0, anchor, sequences) && LeavesEnd(c, t, op0, anchor, sequences)
    requires t.directive == FillOutput ==> t.start < t.olimit
    modifies dest
    ensures SameOutside(old(dest[..]), dest[..], t.start, t.cap)
    ensures !ok ==> t.TooTight(c.inputSize)
    ensures ok ==>
      && t.start < op <= t.cap && anchor + lastRun <= c.Iend()
      && (t.directive != FillOutput ==> anchor + lastRun == c.Iend())
      && (anchor + lastRun == c.Iend() || op + 1 >= t.olimit)
      && AllEncodable(sequences)
      && var b := Block(sequences, c.src[anchor..anchor + lastRun]);
         && EndsWell(b)
         && dest[t.start..op] == EncodeBlock(b)
         && Meaning(c.src[c.lowLimit..c.source], b) == Some(c.src[c.lowLimit..anchor + lastRun])
    ensures anchor <= c.Iend()
    ensures var rest := c.Iend() - anchor;
            && (!ok <==> t.directive == LimitedOutput && op0 + 1 + |Extension(rest)| + rest > t.olimit)
            && (ok ==> lastRun == LastRun(rest, t.Room(op0)))
  {
    hide EncodeSequences, Replay, Extension, LeavesEnd;
    ok, lastRun := ChooseLastRun(c, t, op0, anchor, dest[..], sequences);
    op := op0;
    if !ok {
      return;
    }
    ghost var was := dest[..];
    op := EncodeToken(dest, op0, lastRun);
    ghost var mid := dest[..];
    CopyFrom(dest, op, c.src, anchor, lastRun);
    op := op + lastRun;
    LastWritten(c, was, mid, dest[..], t, op0, op, anchor, lastRun, sequences);
  }

  /** The capacity check before the last literals; in fillOutput mode the run is cut to fit. */
  method ChooseLastRun(c: Call, t: Target, op0: nat, anchor: nat, ghost dest: seq<byte>, ghost sequences: seq<Sequence>)
    returns (ok: bool, lastRun: nat)
    requires t.Fits(c.inputSize)
    requires Encoded(c, dest, t.start, op0, anchor, sequences) && LeavesEnd(c, t, op0, anchor, sequences)
    requires t.directive == FillOutput ==> t.start < t.olimit
    ensures !ok ==> t.TooTight(c.inputSize)
    ensures ok ==> op0 + 1 + |Extension(lastRun)| + lastRun <= t.cap && anchor + lastRun <= c.Iend()
    ensures ok ==>
      || anchor + lastRun == c.Iend()
      || (t.directive == FillOutput && op0 < t.olimit && lastRun == FillRun(t.olimit - op0 - 1))
    ensures var rest := c.Iend() - anchor;
            && (!ok <==> t.directive == LimitedOutput && op0 + 1 + |Extension(rest)| + rest > t.olimit)
            && (ok ==> lastRun == LastRun(rest, t.Room(op0)))
  {
    hide EncodeSequences, Replay, Extension;
    ShareOfRun(c.Iend() - anchor);
    EncodedSize(c, dest, t.start, op0, anchor, sequences);
    FillStart(c, dest, t, op0, anchor, sequences);
    lastRun := c.Iend() - anchor;
    if t.directive != NotLimited && op0 + lastRun + 1 + (lastRun + 255 - RUN_MASK) / 255 > t.olimit {
      if t.directive == LimitedOutput {
        return false, lastRun;
      }
      lastRun := FillRun(t.olimit - op0 - 1);
    }
    return true, lastRun;
  }

  /** Before the first sequence the output position is the start of the target. */
  lemma FillStart(c: Call, dest: seq<byte>, t: Target, op: nat, anchor: nat, sequences: seq<Sequence>)
    requires Encoded(c, dest, t.start, op, anchor, sequences)
    ensures sequences == [] ==> op == t.start
  {
  }

  lemma FourPieces(s: seq<byte>, a: nat, b: nat, c: nat, d: nat)
    requires a <= b < c <= d <= |s|
    ensures s[a..d] == s[a..b] + ([s[b]] + s[b + 1..c] + s[c..d])
  {
  }

  lemma LastWritten(c: Call, was: seq<byte>, mid: seq<byte>, now: seq<byte>, t: Target, op0: nat, op: nat,
                    anchor: nat, lastRun: nat, sequences: seq<Sequence>)
    requires Encoded(c, was, t.start, op0, anchor, sequences) && LeavesEnd(c, t, op0, anchor, sequences)
    requires op == op0 + 1 + |Extension(lastRun)| + lastRun <= |now| && anchor + lastRun <= c.Iend()
    requires |was| == |mid| == |now|
    requires SameOutside(was, mid, op0, op - lastRun) && SameOutside(mid, now, op - lastRun, op)
    requires mid[op0] == Nibble(lastRun) * 16 && mid[op0 + 1..op - lastRun] == Extension(lastRun)
    requires now[op - lastRun..op] == c.src[anchor..anchor + lastRun]
    requires anchor + lastRun == c.Iend()
          || (t.directive == FillOutput && op0 < t.olimit && lastRun == FillRun(t.olimit - op0 - 1))
    ensures var b := Block(sequences, c.src[anchor..anchor + lastRun]);
            && EndsWell(b)
            && now[t.start..op] == EncodeBlock(b)
            && Meaning(c.src[c.lowLimit..c.source], b) == Some(c.src[c.lowLimit..anchor + lastRun])
  {
    hide EncodeSequences, Replay, Extension, EndsWell, LeavesEnd, EncodeBlock;
    var last := c.src[anchor..anchor + lastRun];
    SliceUnchanged(was, now, t.start, op0);
    SliceUnchanged(mid, now, op0 + 1, op - lastRun);
    BlockBytes(now, t.start, op0, op, sequences, last);
    LeftEndsWell(c, t, op0, anchor, lastRun, sequences);
    assert c.src[c.lowLimit..anchor] + last == c.src[c.lowLimit..anchor + lastRun];
  }

  lemma BlockBytes(now: seq<byte>, start: nat, op0: nat, op: nat, sequences: seq<Sequence>, last: seq<byte>)
    requires start <= op0 && op == op0 + 1 + |Extension(|last|)| + |last| <= |now| && AllEncodable(sequences)
    requires now[start..op0] == EncodeSequences(sequences) && now[op0] == Nibble(|last|) * 16
    requires now[op0 + 1..op - |last|] == Extension(|last|) && now[op - |last|..op] == last
    ensures now[start..op] == EncodeBlock(Block(sequences, last))
  {
    hide EncodeSequences, Extension;
    FourPieces(now, start, op0, op - |last|, op);
  }

  lemma SliceUnchanged(was: seq<byte>, now: seq<byte>, from: nat, until: nat)
    requires from <= until <= |was| == |now| && forall k :: from <= k < until ==> now[k] == was[k]
    ensures now[from..until] == was[from..until]
  {
  }

  lemma LeftEndsWell(c: Call, t: Target, op0: nat, anchor: nat, lastRun: nat, sequences: seq<Sequence>)
    requires LeavesEnd(c, t, op0, anchor, sequences) && anchor + lastRun <= c.Iend() <= |c.src| && AllEncodable(sequences)
    requires anchor + lastRun == c.Iend()
          || (t.directive == FillOutput && op0 < t.olimit && lastRun == FillRun(t.olimit - op0 - 1))
    ensures EndsWell(Block(sequences, c.src[anchor..anchor + lastRun]))
  {
  }

  /** `out` is a block that stands for `g` after the history `h` and ends by the rules. */
  ghost predicate Compressed(out: seq<byte>, h: seq<byte>, g: seq<byte>) {
    && DecodeFrom(out, 0, h) == Some(g)
    && Conforms(out, 0, |h|, |g|)
  }

  lemma BlockCompressed(b: Block, h: seq<byte>)
    requires AllEncodable(b.sequences) && Meaning(h, b).Some? && EndsWell(b)
    ensures Compressed(EncodeBlock(b), h, Meaning(h, b).value)
  {
    DecodeOfEncode(b, h);
    EncodeConforms(b, h, |Meaning(h, b).value|);
  }

  /** What compression comes to: the block of the greedy parse, unless the budget is smaller than that block. */
  ghost predicate GreedilyDone(c: Call, directive: Directive, budget: int, acceleration: nat, was: seq<nat>, now: seq<nat>,
                               dest: seq<byte>, start: nat, result: nat, inputConsumed: nat)
    requires c.Valid() && acceleration >= 1 && c.HashesInto(|was|)
  {
    var room := if directive == FillOutput then Some(budget) else None;
    var b := GreedyBlock(c, acceleration, was, room);
    && (result == 0 <==> directive == LimitedOutput && |EncodeBlock(b)| > budget)
    && (result > 0 ==>
          && start + result <= |dest| && dest[start..start + result] == EncodeBlock(b)
          && inputConsumed == Covered(b.sequences) + |b.last|
          && (directive != FillOutput ==> now == WholeParse(c, acceleration, was, None).table))
  }

  lemma RefusedEarly(c: Call, t: Target, acceleration: nat, was: seq<nat>, now: seq<nat>, dest: seq<byte>)
    requires c.Valid() && acceleration >= 1 && c.HashesInto(|was|) && t.directive == LimitedOutput
    requires TooBig(WholeParse(c, acceleration, was, t.Room(t.start)), c, t.olimit - t.start)
    ensures GreedilyDone(c, t.directive, t.olimit - t.start, acceleration, was, now, dest, t.start, 0, 0)
  {
    hide WholeParse, EncodeBlock;
  }

  lemma BlockDone(c: Call, t: Target, acceleration: nat, was: seq<nat>, now: seq<nat>, before: seq<byte>, dest: seq<byte>,
                  sequences: seq<Sequence>, op0: nat, anchor: nat, ok: bool, op: nat, lastRun: nat)
    requires c.Valid() && acceleration >= 1 && c.HashesInto(|was|)
    requires Encoded(c, before, t.start, op0, anchor, sequences)
    requires var whole := WholeParse(c, acceleration, was, t.Room(t.start));
             Settled(whole, sequences, anchor) && (t.directive != FillOutput ==> whole.table == now)
    requires var rest := c.Iend() - anchor;
             && (!ok <==> t.directive == LimitedOutput && op0 + 1 + |Extension(rest)| + rest > t.olimit)
             && (ok ==>
                   && lastRun == LastRun(rest, t.Room(op0)) && t.start < op <= |dest|
                   && dest[t.start..op] == EncodeBlock(Block(sequences, c.src[anchor..anchor + lastRun])))
    ensures GreedilyDone(c, t.directive, t.olimit - t.start, acceleration, was, now, dest, t.start,
                         if ok then op - t.start else 0, if ok then anchor + lastRun - c.source else 0)
  {
    hide WholeParse, GreedyBlock, EncodeBlock, EncodeSequences, Replay, Extension, Encoded;
    WrittenSize(c, before, t.start, op0, anchor, sequences);
    var room := t.Room(t.start);
    var b := GreedyBlock(c, acceleration, was, room);
    GreedyBlockIs(c, acceleration, was, room);
    assert Less(room, |EncodeSequences(sequences)|) == t.Room(op0);
    BlockSize(b);
  }

  lemma WrittenSize(c: Call, dest: seq<byte>, start: nat, op: nat, anchor: nat, sequences: seq<Sequence>)
    requires Encoded(c, dest, start, op, anchor, sequences)
    ensures AllEncodable(sequences) && |EncodeSequences(sequences)| == op - start && Covered(sequences) == anchor - c.source
    ensures c.source <= anchor <= c.Iend() <= |c.src|
  {
    hide EncodeSequences, Replay;
    ReplaySize(c.src[c.lowLimit..c.source], sequences);
    assert |dest[start..op]| == op - start;
  }

  lemma GreedyBlockIs(c: Call, acceleration: nat, table: seq<nat>, room: Option<int>)
    requires c.Valid() && acceleration >= 1 && c.HashesInto(|table|)
    ensures var p := WholeParse(c, acceleration, table, room);
            && AllEncodable(p.sequences) && c.source <= p.anchor <= c.Iend()
            && var n := LastRun(c.Iend() - p.anchor, Less(room, |EncodeSequences(p.sequences)|));
               GreedyBlock(c, acceleration, table, room) == Block(p.sequences, c.src[p.anchor..p.anchor + n])
  {
    hide WholeParse, EncodeSequences;
    WholeShape(c, acceleration, table, room);
  }

  lemma BlockSize(b: Block)
    requires AllEncodable(b.sequences)
    ensures |EncodeBlock(b)| == |EncodeSequences(b.sequences)| + 1 + |Extension(|b.last|)| + |b.last|
  {
    hide EncodeSequences, EncodeLast;
    EncodeLastExact(b.last);
  }

  lemma EncodeLastExact(last: seq<byte>)
    ensures |EncodeLast(last)| == 1 + |Extension(|last|)| + |last|
  {
  }

  /** The block compressor on a prepared table.  A zero result is the source's failure value. */
  method CompressBlock(c: Call, t: Target, dest: array<byte>, table: array<nat>, acceleration: nat)
    returns (result: nat, inputConsumed: nat)
    requires c.Valid() && t.Fits(c.inputSize) && t.cap <= dest.Length
    requires c.TableOk(table[..], c.startIndex + 1)
    requires t.directive == FillOutput ==> c.EntrySafe(0) && t.start < t.olimit
    requires acceleration >= 1
    modifies dest, table
    ensures SameOutside(old(dest[..]), dest[..], t.start, t.cap)
    ensures result == 0 ==> t.TooTight(c.inputSize)
    ensures inputConsumed <= c.inputSize && t.start + result <= t.cap
    ensures result > 0 ==>
      && (t.directive != FillOutput ==> inputConsumed == c.inputSize)
      && (inputConsumed == c.inputSize || t.start + result + 1 >= t.olimit)
      && result <= CompressBound(inputConsumed)
      && Compressed(dest[t.start..t.start + result], c.src[c.lowLimit..c.source], c.src[c.lowLimit..c.source + inputConsumed])
    ensures c.inputSize < MIN_LENGTH ==> c.TableOk(table[..], c.startIndex + 1)
    ensures c.inputSize >= MIN_LENGTH ==> c.TableOk(table[..], c.Index(c.Iend()))
    ensures c.HashesInto(table.Length)
    ensures GreedilyDone(c, t.directive, t.olimit - t.start, acceleration, old(table[..]), table[..], dest[..], t.start, result,
                         inputConsumed)
  {
    hide Call.TableOk, Call.HashesInto, Encoded, LeavesEnd, EncodeBlock, Meaning, EndsWell, Compressed, GreedilyDone;
    hide WholeParse, Settled, TooBig;
    ghost var was := table[..];
    var status, op, anchor;
    ghost var sequences;
    status, op, anchor, sequences := Sequences(c, t, dest, table, acceleration);
    if status == TooSmall {
      RefusedEarly(c, t, acceleration, was, table[..], dest[..]);
      return 0, 0;
    }
    EncodedBounds(c, dest[..], t.start, op, anchor, sequences);
    ghost var written, op0 := dest[..], op;
    var ok, lastRun;
    ok, op, lastRun := EmitLast(c, t, dest, op, anchor, sequences);
    BlockDone(c, t, acceleration, was, table[..], written, dest[..], sequences, op0, anchor, ok, op, lastRun);
    if !ok {
      return 0, 0;
    }
    ghost var b := Block(sequences, c.src[anchor..anchor + lastRun]);
    ghost var h := c.src[c.lowLimit..c.source];
    BlockCompressed(b, h);
    EncodeBlockSize(b, h);
    return op - t.start, anchor + lastRun - c.source;
  }
}
