// The LZ4 block format as a pure specification: what a block of bytes means, independently of
// the optimised encoder and decoder that are proved against it.
module Lz4Format {

  type byte = x: int | 0 <= x < 256

  const MIN_MATCH := 4
  const WILD_COPY_LENGTH := 8
  const LAST_LITERALS := 5
  const MF_LIMIT := 12
  const MATCH_SAFEGUARD_DISTANCE := 2 * WILD_COPY_LENGTH - MIN_MATCH
  const FASTLOOP_SAFE_DISTANCE := 64
  const MIN_LENGTH := MF_LIMIT + 1
  const KB := 1024
  const DISTANCE_MAX := 65535
  const MAX_INPUT_SIZE := 0x7E00_0000
  const RUN_MASK := 15
  const ML_MASK := 15
  const LIMIT_64K := 64 * KB + (MF_LIMIT - 1)

  function CompressBound(n: nat): nat {
    n + n / 255 + 16
  }

  datatype Option<+T> = None | Some(value: T)

  /** One sequence of a block: a literal run, then a back reference. */
  datatype Sequence = Sequence(literals: seq<byte>, offset: nat, matchLength: nat)

  /** A block: sequences, then a final literal run. */
  datatype Block = Block(sequences: seq<Sequence>, last: seq<byte>)

  // ----- Meaning of a block -----

  /** Byte-by-byte forward copy of `n` bytes found `offset` bytes back.  The decoder that is
      modelled reads an offset of zero as a run of zero bytes. */
  function CopyMatch(h: seq<byte>, offset: nat, n: nat): (r: seq<byte>)
    requires offset <= |h|
    ensures |r| == |h| + n
    ensures r[..|h|] == h
  {
    if n == 0 then h
    else
      var g := CopyMatch(h, offset, n - 1);
      g + [if offset == 0 then 0 else g[|g| - offset]]
  }

  /** The copy is the only sequence that extends `h` and repeats with period `offset`. */
  lemma {:induction false} CopyMatchUnique(h: seq<byte>, offset: nat, n: nat, g: seq<byte>)
    requires offset <= |h| && |g| == |h| + n
    requires g[..|h|] == h
    requires forall k :: |h| <= k < |g| ==> g[k] == if offset == 0 then 0 else g[k - offset]
    ensures CopyMatch(h, offset, n) == g
  {
    if n == 0 {
    } else {
      var g' := g[..|g| - 1];
      CopyMatchUnique(h, offset, n - 1, g');
      assert g == g' + [g[|g| - 1]];
    }
  }

  function Replay(h: seq<byte>, sequences: seq<Sequence>): (r: Option<seq<byte>>)
    ensures r.Some? ==> |h| <= |r.value| && r.value[..|h|] == h
  {
    if sequences == [] then Some(h)
    else
      var front := Replay(h, sequences[..|sequences| - 1]);
      if front.None? then None
      else
        var s := sequences[|sequences| - 1];
        var g := front.value + s.literals;
        if s.offset > |g| then None
        else Some(CopyMatch(g, s.offset, s.matchLength))
  }

  /** The bytes that a block stands for, appended to the history `h`. */
  function Meaning(h: seq<byte>, b: Block): Option<seq<byte>> {
    match Replay(h, b.sequences)
    case None => None
    case Some(g) => Some(g + b.last)
  }

  // ----- Encoding -----

  function LengthBytes(n: nat): (r: seq<byte>)
    ensures |r| == n / 255 + 1
  {
    if n >= 255 then [255] + LengthBytes(n - 255) else [n]
  }

  function Extension(n: nat): (r: seq<byte>)
    ensures |r| == if n >= 15 then (n - 15) / 255 + 1 else 0
  {
    if n >= 15 then LengthBytes(n - 15) else []
  }

  function Nibble(n: nat): (r: nat)
    ensures r <= 15
  {
    if n >= 15 then 15 else n
  }

  predicate Encodable(s: Sequence) {
    s.matchLength >= MIN_MATCH && 1 <= s.offset <= DISTANCE_MAX
  }

  predicate AllEncodable(sequences: seq<Sequence>) {
    forall k :: 0 <= k < |sequences| ==> Encodable(sequences[k])
  }

  function Token(s: Sequence): byte
    requires Encodable(s)
  {
    Nibble(|s.literals|) * 16 + Nibble(s.matchLength - MIN_MATCH)
  }

  function EncodeSequence(s: Sequence): seq<byte>
    requires Encodable(s)
  {
    [Token(s)] + Extension(|s.literals|) + s.literals
    + [s.offset % 256, s.offset / 256] + Extension(s.matchLength - MIN_MATCH)
  }

  function EncodeSequences(sequences: seq<Sequence>): seq<byte>
    requires AllEncodable(sequences)
  {
    if sequences == [] then []
    else EncodeSequences(sequences[..|sequences| - 1]) + EncodeSequence(sequences[|sequences| - 1])
  }

  function EncodeLast(last: seq<byte>): seq<byte> {
    [(Nibble(|last|) * 16) as byte] + Extension(|last|) + last
  }

  function EncodeBlock(b: Block): seq<byte>
    requires AllEncodable(b.sequences)
  {
    EncodeSequences(b.sequences) + EncodeLast(b.last)
  }

  // ----- Decoding -----

  /** A variable-length count at `i`: its value and the position after it. */
  function ReadLength(s: seq<byte>, i: nat): (r: Option<(nat, nat)>)
    ensures r.Some? ==> i < r.value.1 <= |s|
    decreases |s| - i
  {
    if i >= |s| then None
    else if s[i] == 255 then
      match ReadLength(s, i + 1)
      case None => None
      case Some((v, next)) => Some((255 + v, next))
    else Some((s[i], i + 1))
  }

  /** The literal length announced by the token at `i`, and the position of the literals. */
  function LiteralField(s: seq<byte>, i: nat): (r: Option<(nat, nat)>)
    ensures r.Some? ==> i < r.value.1 <= |s|
  {
    if i >= |s| then None
    else if s[i] / 16 == RUN_MASK then
      match ReadLength(s, i + 1)
      case None => None
      case Some((v, next)) => Some((15 + v, next))
    else Some((s[i] / 16, i + 1))
  }

  /** The match length for the token `token`, whose extension if any lies at `q`. */
  function MatchField(s: seq<byte>, token: byte, q: nat): (r: Option<(nat, nat)>)
    requires q <= |s|
    ensures r.Some? ==> q <= r.value.1 <= |s| && r.value.0 >= MIN_MATCH
  {
    if token % 16 == ML_MASK then
      match ReadLength(s, q)
      case None => None
      case Some((v, next)) => Some((15 + v + MIN_MATCH, next))
    else Some((token % 16 + MIN_MATCH, q))
  }

  function ReadLE16(s: seq<byte>, q: nat): (r: nat)
    requires q + 2 <= |s|
    ensures r <= DISTANCE_MAX
  {
    s[q] as int + 256 * s[q + 1] as int
  }

  /** What stands at a token: the final literals, a whole sequence, or nothing decodable. */
  datatype Head =
    | Bad
    | Last(literalsAt: nat, literalLength: nat)
    | Full(literalsAt: nat, literalLength: nat, offset: nat, matchLength: nat, next: nat)

  function HeadAt(s: seq<byte>, i: nat): (r: Head)
    ensures r.Last? ==> i < r.literalsAt && r.literalsAt + r.literalLength == |s|
    ensures r.Full? ==> i < r.literalsAt && r.literalsAt + r.literalLength + 2 <= r.next <= |s|
    ensures r.Full? ==> r.matchLength >= MIN_MATCH && r.offset <= DISTANCE_MAX
  {
    match LiteralField(s, i)
    case None => Bad
    case Some((ll, p)) =>
      if p + ll > |s| then Bad
      else if p + ll == |s| then Last(p, ll)
      else if p + ll + 2 > |s| then Bad
      else
        match MatchField(s, s[i], p + ll + 2)
        case None => Bad
        case Some((ml, next)) => Full(p, ll, ReadLE16(s, p + ll), ml, next)
  }

  lemma PrefixKept(h: seq<byte>, g: seq<byte>, copied: seq<byte>, rest: Option<seq<byte>>)
    requires |h| <= |g| <= |copied| && g[..|h|] == h && copied[..|g|] == g
    requires rest.Some? ==> |copied| <= |rest.value| && rest.value[..|copied|] == copied
    ensures rest.Some? ==> rest.value[..|h|] == h
  {
    if rest.Some? {
      assert rest.value[..|h|] == rest.value[..|copied|][..|g|][..|h|];
    }
  }

  /** The bytes a decoder must produce from position `i` on, after the history `h`. */
  function DecodeFrom(s: seq<byte>, i: nat, h: seq<byte>): (r: Option<seq<byte>>)
    ensures r.Some? ==> |h| <= |r.value| && r.value[..|h|] == h
    decreases |s| - i
  {
    match HeadAt(s, i)
    case Bad => None
    case Last(p, ll) => Some(h + s[p..p + ll])
    case Full(p, ll, offset, ml, next) =>
      var g := h + s[p..p + ll];
      if offset > |g| then None
      else
        var copied := CopyMatch(g, offset, ml);
        var rest := DecodeFrom(s, next, copied);
        PrefixKept(h, g, copied, rest);
        rest
  }

  /** The format's end-of-block rules, for a history of `n` bytes and output ending at `end`: the last
      match starts at least 12 bytes before the end, the last five bytes are literals, and a further
      sequence follows every match. */
  predicate Conforms(s: seq<byte>, i: nat, n: nat, end: int)
    decreases |s| - i
  {
    match HeadAt(s, i)
    case Bad => false
    case Last(p, ll) => n + ll <= end
    case Full(p, ll, offset, ml, next) =>
      && next + 1 + 5 <= |s|
      && n + ll + 12 <= end
      && offset <= n + ll
      && n + ll + ml + 5 <= end
      && Conforms(s, next, n + ll + ml, end)
  }

  // ----- Encoding and decoding are inverse -----

  lemma {:induction false} ReadLengthOfBytes(s: seq<byte>, i: nat, n: nat)
    requires i + n / 255 + 1 <= |s|
    requires s[i..i + n / 255 + 1] == LengthBytes(n)
    ensures ReadLength(s, i) == Some((n, i + n / 255 + 1))
    decreases n
  {
    assert s[i] == LengthBytes(n)[0];
    if n >= 255 {
      assert s[i + 1..i + n / 255 + 1] == LengthBytes(n)[1..];
      ReadLengthOfBytes(s, i + 1, n - 255);
    }
  }

  lemma LiteralFieldOfToken(s: seq<byte>, i: nat, n: nat)
    requires i + 1 + |Extension(n)| <= |s|
    requires s[i] / 16 == Nibble(n)
    requires s[i + 1..i + 1 + |Extension(n)|] == Extension(n)
    ensures LiteralField(s, i) == Some((n, i + 1 + |Extension(n)|))
  {
    if n >= 15 {
      ReadLengthOfBytes(s, i + 1, n - 15);
    }
  }

  lemma MatchFieldOfToken(s: seq<byte>, token: byte, q: nat, n: nat)
    requires q + |Extension(n)| <= |s|
    requires token % 16 == Nibble(n)
    requires s[q..q + |Extension(n)|] == Extension(n)
    ensures MatchField(s, token, q) == Some((n + MIN_MATCH, q + |Extension(n)|))
  {
    if n >= 15 {
      ReadLengthOfBytes(s, q, n - 15);
    }
  }

  /** Where the fields of an encoded sequence lie. */
  predicate SequenceAt(s: seq<byte>, i: nat, q: Sequence)
    requires Encodable(q)
  {
    var p := i + 1 + |Extension(|q.literals|)|;
    var o := p + |q.literals|;
    var e := o + 2 + |Extension(q.matchLength - MIN_MATCH)|;
    && e <= |s|
    && s[i] == Token(q)
    && s[i + 1..p] == Extension(|q.literals|)
    && s[p..o] == q.literals
    && s[o] == q.offset % 256 && s[o + 1] == q.offset / 256
    && s[o + 2..e] == Extension(q.matchLength - MIN_MATCH)
  }

  lemma TakeFront(s: seq<byte>, i: nat, a: seq<byte>, rest: seq<byte>)
    requires i <= |s| && s[i..] == a + rest
    ensures i + |a| <= |s| && s[i..i + |a|] == a && s[i + |a|..] == rest
  {
    assert s[i..][..|a|] == a && s[i..][|a|..] == rest;
  }

  lemma Regrouped(a: seq<byte>, b: seq<byte>, c: seq<byte>, d: seq<byte>, e: seq<byte>, post: seq<byte>)
    ensures a + b + c + d + e + post == a + (b + (c + (d + (e + post))))
  {
  }

  /** The places of five fields that stand one after the other. */
  lemma FiveFields(s: seq<byte>, i: nat, a: seq<byte>, b: seq<byte>, c: seq<byte>, d: seq<byte>, e: seq<byte>, post: seq<byte>)
    requires i <= |s| && s[i..] == a + b + c + d + e + post
    ensures var j := i + |a|; var k := j + |b|; var l := k + |c|; var m := l + |d|;
            m + |e| <= |s| && s[i..j] == a && s[j..k] == b && s[k..l] == c && s[l..m] == d && s[m..m + |e|] == e
  {
    var rest3 := d + (e + post);
    var rest2 := c + rest3;
    var rest1 := b + rest2;
    Regrouped(a, b, c, d, e, post);
    TakeFront(s, i, a, rest1);
    TakeFront(s, i + |a|, b, rest2);
    TakeFront(s, i + |a| + |b|, c, rest3);
    TakeFront(s, i + |a| + |b| + |c|, d, e + post);
    TakeFront(s, i + |a| + |b| + |c| + |d|, e, post);
  }

  /** A byte, two fields, two bytes and a field. */
  lemma SixFields(s: seq<byte>, i: nat, a: byte, b: seq<byte>, c: seq<byte>, d: byte, e: byte, f: seq<byte>, post: seq<byte>)
    requires i <= |s| && s[i..] == [a] + b + c + [d, e] + f + post
    ensures var p := i + 1 + |b|; var o := p + |c|; var e' := o + 2 + |f|;
            e' <= |s| && s[i] == a && s[i + 1..p] == b && s[p..o] == c && s[o] == d && s[o + 1] == e && s[o + 2..e'] == f
  {
    FiveFields(s, i, [a], b, c, [d, e], f, post);
    FirstOf(s, i, [a]);
    FirstOf(s, i + 1 + |b| + |c|, [d, e]);
  }

  lemma FirstOf(s: seq<byte>, i: nat, t: seq<byte>)
    requires i + |t| <= |s| && s[i..i + |t|] == t
    ensures |t| > 0 ==> s[i] == t[0]
    ensures |t| > 1 ==> s[i + 1] == t[1]
  {
  }

  lemma SequenceAtFront(s: seq<byte>, i: nat, q: Sequence, post: seq<byte>)
    requires Encodable(q) && i <= |s| && s[i..] == EncodeSequence(q) + post
    ensures SequenceAt(s, i, q)
  {
    hide Extension, Token;
    var y := Extension(q.matchLength - MIN_MATCH);
    SixFields(s, i, Token(q), Extension(|q.literals|), q.literals, q.offset % 256, q.offset / 256, y, post);
  }

  lemma SequenceAtEncoded(pre: seq<byte>, q: Sequence, post: seq<byte>)
    requires Encodable(q)
    ensures SequenceAt(pre + EncodeSequence(q) + post, |pre|, q)
  {
    hide SequenceAt, EncodeSequence;
    var s := pre + EncodeSequence(q) + post;
    assert s[|pre|..] == EncodeSequence(q) + post;
    SequenceAtFront(s, |pre|, q, post);
  }

  lemma HeadOfSequence(s: seq<byte>, i: nat, q: Sequence)
    requires Encodable(q) && SequenceAt(s, i, q)
    ensures HeadAt(s, i) == Full(i + 1 + |Extension(|q.literals|)|, |q.literals|, q.offset, q.matchLength, i + |EncodeSequence(q)|)
    ensures var p := i + 1 + |Extension(|q.literals|)|; s[p..p + |q.literals|] == q.literals
  {
    hide Extension, LiteralField, MatchField;
    LiteralFieldOfToken(s, i, |q.literals|);
    var o := i + 1 + |Extension(|q.literals|)| + |q.literals|;
    MatchFieldOfToken(s, s[i], o + 2, q.matchLength - MIN_MATCH);
  }

  lemma HeadOfLast(pre: seq<byte>, last: seq<byte>)
    ensures HeadAt(pre + EncodeLast(last), |pre|) == Last(|pre| + 1 + |Extension(|last|)|, |last|)
    ensures (pre + EncodeLast(last))[|pre| + 1 + |Extension(|last|)|..] == last
  {
    hide Extension, LiteralField, MatchField;
    var s, x := pre + EncodeLast(last), Extension(|last|);
    var p := |pre| + 1 + |x|;
    assert s[|pre| + 1..p] == x && s[p..] == last;
    LiteralFieldOfToken(s, |pre|, |last|);
  }

  lemma DecodeOneSequence(s: seq<byte>, i: nat, q: Sequence, h: seq<byte>)
    requires Encodable(q) && SequenceAt(s, i, q)
    requires q.offset <= |h| + |q.literals|
    ensures DecodeFrom(s, i, h)
         == DecodeFrom(s, i + |EncodeSequence(q)|, CopyMatch(h + q.literals, q.offset, q.matchLength))
  {
    hide HeadAt, SequenceAt, EncodeSequence, CopyMatch, Extension;
    HeadOfSequence(s, i, q);
  }

  lemma {:induction false} DecodeSequencesPrefix(sequences: seq<Sequence>, post: seq<byte>, h: seq<byte>)
    requires AllEncodable(sequences)
    requires Replay(h, sequences).Some?
    ensures DecodeFrom(EncodeSequences(sequences) + post, 0, h)
         == DecodeFrom(EncodeSequences(sequences) + post, |EncodeSequences(sequences)|, Replay(h, sequences).value)
  {
    hide HeadAt, SequenceAt, EncodeSequence, CopyMatch, DecodeFrom;
    if sequences == [] {
    } else {
      var front, q := sequences[..|sequences| - 1], sequences[|sequences| - 1];
      var pre := EncodeSequences(front);
      DecodeSequencesPrefix(front, EncodeSequence(q) + post, h);
      var s := pre + EncodeSequence(q) + post;
      assert s == pre + (EncodeSequence(q) + post);
      SequenceAtEncoded(pre, q, post);
      DecodeOneSequence(s, |pre|, q, Replay(h, front).value);
    }
  }

  /** Decoding the encoding of a block gives what the block means. */
  lemma DecodeOfEncode(b: Block, h: seq<byte>)
    requires AllEncodable(b.sequences)
    requires Meaning(h, b).Some?
    ensures DecodeFrom(EncodeBlock(b), 0, h) == Meaning(h, b)
  {
    hide HeadAt, EncodeSequences, EncodeLast;
    var pre := EncodeSequences(b.sequences);
    DecodeSequencesPrefix(b.sequences, EncodeLast(b.last), h);
    HeadOfLast(pre, b.last);
    var s, p := EncodeBlock(b), |pre| + 1 + |Extension(|b.last|)|;
    assert s[p..p + |b.last|] == s[p..];
  }

  // ----- End-of-block rules and size of an encoded block -----

  /** What a block must leave after its last match. */
  predicate EndsWell(b: Block) {
    b.sequences == []
    || (|b.last| >= 5 && |b.last| + b.sequences[|b.sequences| - 1].matchLength >= 12)
  }

  lemma ConformsOneSequence(s: seq<byte>, i: nat, q: Sequence, n: nat, end: int)
    requires Encodable(q) && SequenceAt(s, i, q)
    requires q.offset <= n + |q.literals|
    requires i + |EncodeSequence(q)| + 1 + LAST_LITERALS <= |s|
    requires n + |q.literals| + MF_LIMIT <= end
    requires n + |q.literals| + q.matchLength + LAST_LITERALS <= end
    ensures Conforms(s, i, n, end)
         == Conforms(s, i + |EncodeSequence(q)|, n + |q.literals| + q.matchLength, end)
  {
    hide HeadAt, SequenceAt;
    HeadOfSequence(s, i, q);
  }

  lemma {:induction false} ConformsPrefix(sequences: seq<Sequence>, post: seq<byte>, h: seq<byte>, end: int)
    requires AllEncodable(sequences)
    requires Replay(h, sequences).Some?
    requires |post| >= 1 + LAST_LITERALS
    requires |Replay(h, sequences).value| + LAST_LITERALS <= end
    requires sequences != [] ==>
      |Replay(h, sequences).value| - sequences[|sequences| - 1].matchLength + MF_LIMIT <= end
    ensures Conforms(EncodeSequences(sequences) + post, 0, |h|, end)
         == Conforms(EncodeSequences(sequences) + post, |EncodeSequences(sequences)|, |Replay(h, sequences).value|, end)
  {
    hide HeadAt, SequenceAt, EncodeSequence, CopyMatch, Conforms;
    if sequences == [] {
    } else {
      var front, q := sequences[..|sequences| - 1], sequences[|sequences| - 1];
      var pre := EncodeSequences(front);
      assert Encodable(q);
      ConformsPrefix(front, EncodeSequence(q) + post, h, end);
      var s := pre + EncodeSequence(q) + post;
      assert s == pre + (EncodeSequence(q) + post);
      SequenceAtEncoded(pre, q, post);
      ConformsOneSequence(s, |pre|, q, |Replay(h, front).value|, end);
    }
  }

  /** A block that ends well obeys the end-of-block rules for every output limit it fits in. */
  lemma EncodeConforms(b: Block, h: seq<byte>, end: int)
    requires AllEncodable(b.sequences)
    requires Meaning(h, b).Some? && |Meaning(h, b).value| <= end
    requires EndsWell(b)
    ensures Conforms(EncodeBlock(b), 0, |h|, end)
  {
    hide HeadAt, EncodeSequences, EncodeLast, Replay;
    var pre := EncodeSequences(b.sequences);
    HeadOfLast(pre, b.last);
    if b.sequences != [] {
      EncodeLastSize(b.last);
      ConformsPrefix(b.sequences, EncodeLast(b.last), h, end);
    } else {
      EncodeNone();
      ReplayNone(h);
    }
  }

  lemma {:induction false} ConformsFront(sequences: seq<Sequence>, post: seq<byte>, h: seq<byte>, end: int)
    requires AllEncodable(sequences) && Replay(h, sequences).Some?
    requires Conforms(EncodeSequences(sequences) + post, 0, |h|, end)
    ensures Conforms(EncodeSequences(sequences) + post, |EncodeSequences(sequences)|, |Replay(h, sequences).value|, end)
    ensures sequences != [] ==>
              && |Replay(h, sequences).value| + 5 <= end
              && |Replay(h, sequences).value| - sequences[|sequences| - 1].matchLength + 12 <= end
  {
    hide HeadAt, SequenceAt, EncodeSequence, CopyMatch;
    if sequences != [] {
      var front, q := sequences[..|sequences| - 1], sequences[|sequences| - 1];
      var pre := EncodeSequences(front);
      assert Encodable(q);
      var s := pre + EncodeSequence(q) + post;
      assert s == pre + (EncodeSequence(q) + post);
      ConformsFront(front, EncodeSequence(q) + post, h, end);
      SequenceAtEncoded(pre, q, post);
      HeadOfSequence(s, |pre|, q);
    }
  }

  /** An encoded block obeys the end-of-block rules exactly when it has no sequence, or its last run has at
      least five literals and its last match starts at least 12 bytes before the end. */
  lemma EncodeConformsExactly(b: Block, h: seq<byte>)
    requires AllEncodable(b.sequences) && Meaning(h, b).Some?
    ensures Conforms(EncodeBlock(b), 0, |h|, |Meaning(h, b).value|)
            <==> b.sequences == []
                 || (|b.last| >= 5 && |b.last| + b.sequences[|b.sequences| - 1].matchLength >= 12)
  {
    hide EncodeSequences, EncodeLast, Conforms, Replay;
    var end := |Meaning(h, b).value|;
    if EndsWell(b) {
      EncodeConforms(b, h, end);
    } else if Conforms(EncodeBlock(b), 0, |h|, end) {
      ConformsFront(b.sequences, EncodeLast(b.last), h, end);
    }
  }

  lemma EncodeNone()
    ensures EncodeSequences([]) == []
  {
  }

  lemma ReplayNone(h: seq<byte>)
    ensures Replay(h, []) == Some(h)
  {
  }

  lemma EncodeLastSize(last: seq<byte>)
    ensures 1 + |last| <= |EncodeLast(last)| <= 2 + |last| + |last| / 255
  {
  }

  function Covered(sequences: seq<Sequence>): nat {
    if sequences == [] then 0
    else
      var q := sequences[|sequences| - 1];
      Covered(sequences[..|sequences| - 1]) + |q.literals| + q.matchLength
  }

  lemma EncodeSequenceSize(q: Sequence)
    requires Encodable(q)
    ensures |EncodeSequence(q)|
         == 3 + |Extension(|q.literals|)| + |q.literals| + |Extension(q.matchLength - MIN_MATCH)|
    ensures |EncodeSequence(q)| <= |q.literals| + q.matchLength + |q.literals| / 255
  {
  }

  lemma {:induction false} EncodeSequencesSize(sequences: seq<Sequence>)
    requires AllEncodable(sequences)
    ensures |EncodeSequences(sequences)| <= Covered(sequences) + Covered(sequences) / 255
  {
    hide EncodeSequence;
    if sequences != [] {
      EncodeSequencesSize(sequences[..|sequences| - 1]);
      assert Encodable(sequences[|sequences| - 1]);
      EncodeSequenceSize(sequences[|sequences| - 1]);
    }
  }

  lemma {:induction false} ReplaySize(h: seq<byte>, sequences: seq<Sequence>)
    requires Replay(h, sequences).Some?
    ensures |Replay(h, sequences).value| == |h| + Covered(sequences)
  {
    if sequences != [] {
      ReplaySize(h, sequences[..|sequences| - 1]);
    }
  }

  /** The encoding of a block is never larger than the bound callers size their buffers by. */
  lemma EncodeBlockSize(b: Block, h: seq<byte>)
    requires AllEncodable(b.sequences)
    requires Meaning(h, b).Some?
    ensures |EncodeBlock(b)| <= CompressBound(|Meaning(h, b).value| - |h|)
  {
    hide EncodeSequences, EncodeLast;
    EncodeSequencesSize(b.sequences);
    EncodeLastSize(b.last);
    ReplaySize(h, b.sequences);
  }
}
