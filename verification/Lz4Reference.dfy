// The byte-by-byte decoder that knows the output size but not the input size, and the theorem that
// the optimised decoder refines it.
module Lz4Reference {
  import opened Lz4Format
  import opened Lz4Copy

  /** Outcome of the reference decoder: the position after the block and the output, the error value,
      or a read past the input it was given (which the source leaves to its callers to exclude). */
  datatype Result = Accepted(consumed: nat, output: seq<byte>) | Rejected | RanOut

  /** Forward copy of `n` bytes; at offset zero the output buffer keeps what it held, `junk`. */
  function CopyOverJunk(h: seq<byte>, junk: seq<byte>, offset: nat, n: nat): (r: seq<byte>)
    requires offset <= |h| && |h| + n <= |junk|
    ensures |r| == |h| + n && r[..|h|] == h
  {
    if n == 0 then h
    else
      var g := CopyOverJunk(h, junk, offset, n - 1);
      g + [if offset == 0 then junk[|g|] else g[|g| - offset]]
  }

  /** `junk` is the output buffer, history included, as it was before the call. */
  function RefDecode(s: seq<byte>, i: nat, h: seq<byte>, junk: seq<byte>): (r: Result)
    requires |h| <= |junk|
    ensures r.Accepted? ==> i < r.consumed <= |s| && |r.output| == |junk|
    decreases |s| - i
  {
    var end := |junk|;
    match LiteralField(s, i)
    case None => RanOut
    case Some((ll, p)) =>
      if ll > end - |h| then Rejected
      else if p + ll > |s| then RanOut
      else
        var g := h + s[p..p + ll];
        if end - |g| < 12 then if |g| == end then Accepted(p + ll, g) else Rejected
        else if p + ll + 2 > |s| then RanOut
        else
          var offset := ReadLE16(s, p + ll);
          match MatchField(s, s[i], p + ll + 2)
          case None => RanOut
          case Some((ml, next)) =>
            if ml > end - |g| then Rejected
            else if offset > |g| then Rejected
            else if end - (|g| + ml) < 5 then Rejected
            else RefDecode(s, next, CopyOverJunk(g, junk, offset, ml), junk)
  }

  lemma RefDecodeUnfold(s: seq<byte>, i: nat, h: seq<byte>, junk: seq<byte>)
    requires |h| <= |junk| && LiteralField(s, i).Some? && RefDecode(s, i, h, junk) != RanOut
    ensures var (ll, p) := LiteralField(s, i).value;
            if ll > |junk| - |h| then RefDecode(s, i, h, junk) == Rejected
            else
              p + ll <= |s|
              && var g := h + s[p..p + ll];
              if |junk| - |g| < MF_LIMIT then
                RefDecode(s, i, h, junk) == if |g| == |junk| then Accepted(p + ll, g) else Rejected
              else
                p + ll + 2 <= |s| && MatchField(s, s[i], p + ll + 2).Some?
                && var (ml, next) := MatchField(s, s[i], p + ll + 2).value;
                var offset := ReadLE16(s, p + ll);
                if ml > |junk| - |g| || offset > |g| || |junk| - (|g| + ml) < LAST_LITERALS
                then RefDecode(s, i, h, junk) == Rejected
                else RefDecode(s, i, h, junk) == RefDecode(s, next, CopyOverJunk(g, junk, offset, ml), junk)
  {
    hide LiteralField, MatchField, CopyOverJunk, ReadLE16;
  }

  lemma RefDecodeReads(s: seq<byte>, i: nat, h: seq<byte>, junk: seq<byte>)
    requires |h| <= |junk| && RefDecode(s, i, h, junk) != RanOut
    ensures LiteralField(s, i).Some?
  {
    hide LiteralField, MatchField, CopyOverJunk, ReadLE16;
  }

  /** Literals and matches that do not fit the output are refused, however much of the input is there. */
  lemma TooLongIsRejected(s: seq<byte>, i: nat, h: seq<byte>, junk: seq<byte>)
    requires |h| <= |junk| && LiteralField(s, i).Some?
    ensures var (ll, p) := LiteralField(s, i).value;
            var room := |junk| - |h| - ll;
            && (room < 0 ==> RefDecode(s, i, h, junk) == Rejected)
            && (room >= 12 && p + ll + 2 <= |s| && MatchField(s, s[i], p + ll + 2).Some? ==>
                  var (ml, next) := MatchField(s, s[i], p + ll + 2).value;
                  ml + 5 > room || ReadLE16(s, p + ll) > |h| + ll ==> RefDecode(s, i, h, junk) == Rejected)
  {
    hide LiteralField, MatchField, CopyOverJunk, ReadLE16;
  }

  /** Wherever the block at `i` carries an offset of zero, the output buffer held zeros. */
  predicate ZeroJunk(s: seq<byte>, i: nat, n: nat, junk: seq<byte>)
    decreases |s| - i
  {
    match HeadAt(s, i)
    case Full(p, ll, offset, ml, next) =>
      && (offset == 0 ==> forall k :: n + ll <= k < n + ll + ml && k < |junk| ==> junk[k] == 0)
      && ZeroJunk(s, next, n + ll + ml, junk)
    case _ => true
  }

  /** The two copies agree on equal histories, and at offset zero only over zeros. */
  lemma {:induction false} CopiesAgree(g: seq<byte>, h: seq<byte>, junk: seq<byte>, offset: nat, n: nat)
    requires offset <= |h| && |g| == |h| && |h| + n <= |junk|
    ensures CopyMatch(g, offset, n) == CopyOverJunk(h, junk, offset, n)
            <==> g == h && (offset == 0 ==> forall k :: |h| <= k < |h| + n ==> junk[k] == 0)
  {
    if n > 0 {
      CopiesAgree(g, h, junk, offset, n - 1);
      var a, b := CopyMatch(g, offset, n - 1), CopyOverJunk(h, junk, offset, n - 1);
      var x := if offset == 0 then 0 else a[|a| - offset];
      var y := if offset == 0 then junk[|b|] else b[|b| - offset];
      assert a + [x] == b + [y] <==> a == b && x == y by {
        assert (a + [x])[..|a|] == a && (b + [y])[..|b|] == b;
        assert (a + [x])[|a|] == x && (b + [y])[|b|] == y;
      }
    }
  }

  /** How long the decoded bytes of the block at `i` are, with `n` bytes of history. */
  function SizeFrom(s: seq<byte>, i: nat, n: nat): Option<nat>
    decreases |s| - i
  {
    match HeadAt(s, i)
    case Bad => None
    case Last(p, ll) => Some(n + ll)
    case Full(p, ll, offset, ml, next) => if offset > n + ll then None else SizeFrom(s, next, n + ll + ml)
  }

  lemma {:induction false} SizeOfDecode(s: seq<byte>, i: nat, h: seq<byte>)
    ensures SizeFrom(s, i, |h|) == if DecodeFrom(s, i, h).Some? then Some(|DecodeFrom(s, i, h).value|) else None
    decreases |s| - i
  {
    hide HeadAt, CopyMatch;
    match HeadAt(s, i)
    case Full(p, ll, offset, ml, next) =>
      if offset <= |h| + ll {
        SizeOfDecode(s, next, CopyMatch(h + s[p..p + ll], offset, ml));
      }
    case _ =>
  }

  // ----- Fields read from a prefix of the input -----

  lemma {:induction false} ReadLengthPrefix(s: seq<byte>, i: nat, cut: nat)
    requires cut <= |s|
    ensures ReadLength(s, i).Some? && ReadLength(s, i).value.1 <= cut ==> ReadLength(s[..cut], i) == ReadLength(s, i)
    decreases |s| - i
  {
    if i < cut && s[i] == 255 {
      ReadLengthPrefix(s, i + 1, cut);
    }
  }

  lemma LiteralFieldPrefix(s: seq<byte>, i: nat, cut: nat)
    requires cut <= |s|
    ensures LiteralField(s, i).Some? && LiteralField(s, i).value.1 <= cut ==> LiteralField(s[..cut], i) == LiteralField(s, i)
  {
    ReadLengthPrefix(s, i + 1, cut);
  }

  lemma MatchFieldPrefix(s: seq<byte>, token: byte, q: nat, cut: nat)
    requires q <= cut <= |s|
    ensures MatchField(s, token, q).Some? && MatchField(s, token, q).value.1 <= cut ==>
      MatchField(s[..cut], token, q) == MatchField(s, token, q)
  {
    ReadLengthPrefix(s, q, cut);
  }

  // ----- Refinement -----

  /** After a match the reference consumes a token and five literals at least. */
  lemma {:induction false} ConsumesLastLiterals(s: seq<byte>, i: nat, h: seq<byte>, junk: seq<byte>)
    requires |h| + LAST_LITERALS <= |junk|
    requires RefDecode(s, i, h, junk).Accepted?
    ensures RefDecode(s, i, h, junk).consumed >= i + 1 + LAST_LITERALS
    decreases |s| - i
  {
    hide ReadLength, CopyOverJunk, ReadLE16;
    var (ll, p) := LiteralField(s, i).value;
    var g := h + s[p..p + ll];
    if |junk| - |g| >= MF_LIMIT {
      var (ml, next) := MatchField(s, s[i], p + ll + 2).value;
      ConsumesLastLiterals(s, next, CopyOverJunk(g, junk, ReadLE16(s, p + ll), ml), junk);
    }
  }

  /** The head of an accepted block is the same in the input cut to the bytes consumed. */
  lemma HeadOfAccepted(s: seq<byte>, i: nat, h: seq<byte>, junk: seq<byte>)
    requires |h| <= |junk|
    requires RefDecode(s, i, h, junk).Accepted?
    ensures var t := s[..RefDecode(s, i, h, junk).consumed];
            var (ll, p) := LiteralField(s, i).value;
            if |junk| - (|h| + ll) < MF_LIMIT
            then HeadAt(t, i) == Last(p, ll)
            else
              var (ml, next) := MatchField(s, s[i], p + ll + 2).value;
              next + 1 + LAST_LITERALS <= |t| && HeadAt(t, i) == Full(p, ll, ReadLE16(s, p + ll), ml, next)
  {
    hide ReadLength, LiteralField, MatchField, CopyOverJunk, CopyMatch, ReadLE16;
    var cut := RefDecode(s, i, h, junk).consumed;
    var (ll, p) := LiteralField(s, i).value;
    var g := h + s[p..p + ll];
    LiteralFieldPrefix(s, i, cut);
    if |junk| - |g| >= MF_LIMIT {
      var offset := ReadLE16(s, p + ll);
      var (ml, next) := MatchField(s, s[i], p + ll + 2).value;
      ConsumesLastLiterals(s, next, CopyOverJunk(g, junk, offset, ml), junk);
      MatchFieldPrefix(s, s[i], p + ll + 2, cut);
      SameOffset(s, p + ll, cut);
    }
  }

  /** Every block the reference accepts, cut to the bytes it consumed, conforms to the format and is
      decoded to as many bytes as the reference wrote. */
  lemma {:induction false} AcceptedConforms(s: seq<byte>, i: nat, h: seq<byte>, junk: seq<byte>)
    requires |h| <= |junk|
    requires RefDecode(s, i, h, junk).Accepted?
    ensures Conforms(s[..RefDecode(s, i, h, junk).consumed], i, |h|, |junk|)
    ensures SizeFrom(s[..RefDecode(s, i, h, junk).consumed], i, |h|) == Some(|junk|)
    decreases |s| - i
  {
    hide ReadLength, LiteralField, MatchField, CopyOverJunk, ReadLE16, HeadAt;
    var (ll, p) := LiteralField(s, i).value;
    var g := h + s[p..p + ll];
    HeadOfAccepted(s, i, h, junk);
    if |junk| - |g| >= MF_LIMIT {
      var offset := ReadLE16(s, p + ll);
      var (ml, next) := MatchField(s, s[i], p + ll + 2).value;
      AcceptedConforms(s, next, CopyOverJunk(g, junk, offset, ml), junk);
    }
  }

  /** Every conforming block that fills the output is accepted, and consumed whole. */
  lemma {:induction false} ConformingAccepted(s: seq<byte>, i: nat, h: seq<byte>, junk: seq<byte>)
    requires |h| <= |junk|
    requires Conforms(s, i, |h|, |junk|) && SizeFrom(s, i, |h|) == Some(|junk|)
    ensures RefDecode(s, i, h, junk).Accepted? && RefDecode(s, i, h, junk).consumed == |s|
    decreases |s| - i
  {
    hide ReadLength, LiteralField, MatchField, CopyOverJunk, ReadLE16;
    match HeadAt(s, i)
    case Last(p, ll) =>
    case Full(p, ll, offset, ml, next) =>
      ConformingAccepted(s, next, CopyOverJunk(h + s[p..p + ll], junk, offset, ml), junk);
  }

  /** The reference accepts an input as a whole exactly when it conforms and fills the output. */
  lemma AcceptsWhole(s: seq<byte>, h: seq<byte>, junk: seq<byte>)
    requires |h| <= |junk|
    ensures RefDecode(s, 0, h, junk).Accepted? && RefDecode(s, 0, h, junk).consumed == |s|
            <==> Conforms(s, 0, |h|, |junk|) && SizeFrom(s, 0, |h|) == Some(|junk|)
  {
    hide RefDecode, Conforms, SizeFrom;
    if RefDecode(s, 0, h, junk).Accepted? && RefDecode(s, 0, h, junk).consumed == |s| {
      AcceptedConforms(s, 0, h, junk);
      assert s[..|s|] == s;
    } else if Conforms(s, 0, |h|, |junk|) && SizeFrom(s, 0, |h|) == Some(|junk|) {
      ConformingAccepted(s, 0, h, junk);
    }
  }

  /** From histories `h` and `g` of one length, the reference and the format give the same bytes exactly when the
      histories agree and every offset of zero falls on zeros. */
  lemma {:induction false} AcceptedOutput(s: seq<byte>, i: nat, h: seq<byte>, g: seq<byte>, junk: seq<byte>)
    requires |h| == |g| <= |junk| && RefDecode(s, i, h, junk).Accepted?
    ensures var r := RefDecode(s, i, h, junk); var t := s[..r.consumed];
            DecodeFrom(t, i, g).Some? && (DecodeFrom(t, i, g).value == r.output <==> g == h && ZeroJunk(t, i, |h|, junk))
    decreases |s| - i
  {
    hide ReadLength, LiteralField, MatchField, CopyOverJunk, CopyMatch, ReadLE16, HeadAt, RefDecode, DecodeFrom, ZeroJunk;
    RefDecodeReads(s, i, h, junk);
    RefDecodeUnfold(s, i, h, junk);
    var cut := RefDecode(s, i, h, junk).consumed;
    var t := s[..cut];
    var (ll, p) := LiteralField(s, i).value;
    var lits := s[p..p + ll];
    HeadOfAccepted(s, i, h, junk);
    DecodeByHead(t, i, g);
    ZeroJunkByHead(t, i, |h|, junk);
    SameSuffix(g, h, lits);
    if |junk| - (|h| + ll) < MF_LIMIT {
      assert t[p..p + ll] == lits;
    } else {
      var offset := ReadLE16(s, p + ll);
      var (ml, next) := MatchField(s, s[i], p + ll + 2).value;
      AcceptedOutput(s, next, CopyOverJunk(h + lits, junk, offset, ml), CopyMatch(g + lits, offset, ml), junk);
      assert t[p..p + ll] == lits;
      CopiesAgree(g + lits, h + lits, junk, offset, ml);
    }
  }

  lemma DecodeByHead(s: seq<byte>, i: nat, h: seq<byte>)
    ensures match HeadAt(s, i)
            case Bad => true
            case Last(p, ll) => DecodeFrom(s, i, h) == Some(h + s[p..p + ll])
            case Full(p, ll, offset, ml, next) =>
              offset <= |h| + ll ==> DecodeFrom(s, i, h) == DecodeFrom(s, next, CopyMatch(h + s[p..p + ll], offset, ml))
  {
    hide HeadAt, CopyMatch;
  }

  lemma ZeroJunkByHead(s: seq<byte>, i: nat, n: nat, junk: seq<byte>)
    ensures match HeadAt(s, i)
            case Full(p, ll, offset, ml, next) =>
              ZeroJunk(s, i, n, junk)
              <==> (offset == 0 ==> forall k :: n + ll <= k < n + ll + ml && k < |junk| ==> junk[k] == 0)
                   && ZeroJunk(s, next, n + ll + ml, junk)
            case _ => ZeroJunk(s, i, n, junk)
  {
    hide HeadAt;
  }

  lemma SameSuffix(g: seq<byte>, h: seq<byte>, lits: seq<byte>)
    requires |g| == |h|
    ensures g + lits == h + lits <==> g == h
  {
    assert (g + lits)[..|g|] == g && (h + lits)[..|h|] == h;
  }

  /** The bytes that the reference consumed are accepted alone, with the same result. */
  lemma {:induction false} AcceptedAlone(s: seq<byte>, i: nat, h: seq<byte>, junk: seq<byte>)
    requires |h| <= |junk| && RefDecode(s, i, h, junk).Accepted?
    ensures RefDecode(s[..RefDecode(s, i, h, junk).consumed], i, h, junk) == RefDecode(s, i, h, junk)
    decreases |s| - i
  {
    hide ReadLength, LiteralField, MatchField, CopyOverJunk, ReadLE16;
    var cut := RefDecode(s, i, h, junk).consumed;
    var t := s[..cut];
    var (ll, p) := LiteralField(s, i).value;
    var g := h + s[p..p + ll];
    if |junk| - |g| < MF_LIMIT {
      LiteralFieldPrefix(s, i, cut);
    } else {
      var offset := ReadLE16(s, p + ll);
      var (ml, next) := MatchField(s, s[i], p + ll + 2).value;
      var after := CopyOverJunk(g, junk, offset, ml);
      AcceptedAlone(s, next, after, junk);
      ConsumesLastLiterals(s, next, after, junk);
      LiteralFieldPrefix(s, i, cut);
      MatchFieldPrefix(s, s[i], p + ll + 2, cut);
      SameOffset(s, p + ll, cut);
    }
    assert t[p..p + ll] == s[p..p + ll];
  }

  lemma SameOffset(s: seq<byte>, q: nat, cut: nat)
    requires q + 2 <= cut <= |s|
    ensures ReadLE16(s[..cut], q) == ReadLE16(s, q)
  {
  }

  // ----- LZ4_decompress_unsafe_generic -----

  method ReadLongLengthNoCheck(s: seq<byte>, ip0: nat) returns (l: nat, ip: nat)
    requires ReadLength(s, ip0).Some?
    ensures ReadLength(s, ip0) == Some((l, ip))
  {
    ip, l := ip0, 0;
    var b := 255;
    while b == 255
      invariant ip0 <= ip <= |s|
      invariant b != 255 ==> ReadLength(s, ip0) == Some((l, ip))
      invariant b == 255 ==> ReadLength(s, ip).Some? && ReadLength(s, ip0).value == (l + ReadLength(s, ip).value.0, ReadLength(s, ip).value.1)
      decreases |s| - ip, if b == 255 then 1 else 0
    {
      b := s[ip];
      ip := ip + 1;
      l := l + b;
    }
  }

  /** The slow match copy, one byte at a time; an offset of zero rewrites what is there. */
  lemma CopyOverJunkEnds(h: seq<byte>, junk: seq<byte>, offset: nat, n: nat)
    requires offset <= |h| && |h| + n <= |junk|
    ensures CopyOverJunk(h, junk, offset, 0) == h
    ensures n > 0 ==>
              var g := CopyOverJunk(h, junk, offset, n - 1);
              CopyOverJunk(h, junk, offset, n) == g + [if offset == 0 then junk[|g|] else g[|g| - offset]]
  {
  }

  method CopyByBytes(dst: array<byte>, op: nat, offset: nat, ml: nat, ghost start: nat, ghost junk: seq<byte>)
    requires start + offset <= op && op + ml <= dst.Length && start + |junk| <= dst.Length && op + ml <= start + |junk|
    requires forall k :: op <= k < op + ml ==> dst[k] == junk[k - start]
    modifies dst
    ensures SameOutside(old(dst[..]), dst[..], op, op + ml)
    ensures dst[start..op + ml] == CopyOverJunk(old(dst[start..op]), junk, offset, ml)
  {
    hide CopyOverJunk;
    ghost var h := dst[start..op];
    var m := op - offset;
    CopyOverJunkEnds(h, junk, offset, 0);
    for u := 0 to ml
      invariant SameOutside(old(dst[..]), dst[..], op, op + u)
      invariant dst[start..op + u] == CopyOverJunk(h, junk, offset, u)
    {
      ghost var before := dst[start..op + u];
      CopyOverJunkEnds(h, junk, offset, u + 1);
      assert offset > 0 ==> before[|before| - offset] == dst[m + u];
      dst[op + u] := dst[m + u];
      assert dst[start..op + u + 1] == before + [dst[op + u]];
    }
  }

  /** The rest of the output buffer is as it was. */
  ghost predicate JunkKept(dst: seq<byte>, op: nat, start: nat, junk: seq<byte>) {
    start + |junk| <= |dst| && forall k :: op <= k < start + |junk| ==> start <= k && dst[k] == junk[k - start]
  }

  method UnsafeLiterals(s: seq<byte>, dst: array<byte>, i: nat, op0: nat, oend: nat, ghost start: nat, ghost junk: seq<byte>)
    returns (fits: bool, ip: nat, op: nat)
    requires start <= op0 <= oend <= dst.Length && start + |junk| == oend
    requires LiteralField(s, i).Some?
    requires var (ll, p) := LiteralField(s, i).value; op0 + ll <= oend ==> p + ll <= |s|
    requires JunkKept(dst[..], op0, start, junk)
    modifies dst
    ensures SameOutside(old(dst[..]), dst[..], op0, oend)
    ensures var (ll, p) := LiteralField(s, i).value;
            && (fits <==> op0 + ll <= oend)
            && (fits ==>
                  && ip == p + ll && op == op0 + ll && JunkKept(dst[..], op, start, junk)
                  && dst[start..op] == old(dst[start..op0]) + s[p..ip])
  {
    ghost var was := dst[..];
    ip, op := i + 1, op0;
    var ll: nat := s[i] / 16;
    if ll == 15 {
      var l, ip' := ReadLongLengthNoCheck(s, ip);
      ll, ip := ll + l, ip';
    }
    if oend - op < ll {
      return false, ip, op;
    }
    CopyFrom(dst, op, s, ip, ll);
    assert dst[start..op + ll] == was[start..op] + s[ip..ip + ll];
    return true, ip + ll, op + ll;
  }

  method DecompressUnsafeGeneric(s: seq<byte>, dst: array<byte>, ostart: nat, decompressedSize: nat, start: nat)
    returns (result: int)
    requires start <= ostart && ostart + decompressedSize <= dst.Length
    requires RefDecode(s, 0, dst[start..ostart], dst[start..ostart + decompressedSize]) != RanOut
    modifies dst
    ensures SameOutside(old(dst[..]), dst[..], ostart, ostart + decompressedSize)
    ensures match RefDecode(s, 0, old(dst[start..ostart]), old(dst[start..ostart + decompressedSize]))
            case Accepted(consumed, output) => result == consumed && dst[start..ostart + decompressedSize] == output
            case Rejected => result == -1
            case RanOut => false
  {
    hide ReadLength, LiteralField, MatchField, CopyOverJunk, ReadLE16, RefDecode;
    ghost var junk := dst[start..ostart + decompressedSize];
    ghost var whole := RefDecode(s, 0, dst[start..ostart], junk);
    var ip, op := 0, ostart;
    var oend := ostart + decompressedSize;
    while true
      invariant ostart <= op <= oend
      invariant SameOutside(old(dst[..]), dst[..], ostart, oend)
      invariant JunkKept(dst[..], op, start, junk)
      invariant RefDecode(s, ip, dst[start..op], junk) == whole
      decreases |s| - ip
    {
      RefDecodeReads(s, ip, dst[start..op], junk);
      RefDecodeUnfold(s, ip, dst[start..op], junk);
      var token := s[ip];
      var fits;
      fits, ip, op := UnsafeLiterals(s, dst, ip, op, oend, start, junk);
      if !fits {
        return -1;
      }
      if oend - op < MF_LIMIT {
        if op == oend {
          return ip;
        }
        return -1;
      }
      var done;
      done, ip, op := UnsafeMatch(s, dst, token, ip, op, oend, start, junk);
      if !done {
        return -1;
      }
    }
  }

  method UnsafeMatch(s: seq<byte>, dst: array<byte>, token: byte, q: nat, op0: nat, oend: nat,
                     start: nat, ghost junk: seq<byte>) returns (done: bool, ip: nat, op: nat)
    requires start <= op0 <= oend <= dst.Length && start + |junk| == oend
    requires q + 2 <= |s| && MatchField(s, token, q + 2).Some?
    requires JunkKept(dst[..], op0, start, junk)
    modifies dst
    ensures SameOutside(old(dst[..]), dst[..], op0, oend)
    ensures var (ml, next) := MatchField(s, token, q + 2).value;
            && (done <==> ml <= oend - op0 && ReadLE16(s, q) <= op0 - start && oend - (op0 + ml) >= LAST_LITERALS)
            && (done ==>
                  && ip == next && op == op0 + ml && JunkKept(dst[..], op, start, junk)
                  && dst[start..op] == CopyOverJunk(old(dst[start..op0]), junk, ReadLE16(s, q), ml))
  {
    ip, op := q, op0;
    var ml := token % 16;
    var offset := ReadLE16(s, ip);
    ip := ip + 2;
    if ml == 15 {
      var l, ip' := ReadLongLengthNoCheck(s, ip);
      ml, ip := ml + l, ip';
    }
    ml := ml + MIN_MATCH;
    if oend - op < ml || offset > op - start {
      return false, ip, op;
    }
    CopyByBytes(dst, op, offset, ml, start, junk);
    op := op + ml;
    if oend - op < LAST_LITERALS {
      return false, ip, op;
    }
    return true, ip, op;
  }
}
