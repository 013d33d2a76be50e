// The recursive-descent parser of cJSON over its parse buffer.
module CjsonParse {

  import opened CjsonText
  import opened CjsonUtf
  import opened CjsonList

  // ----- The two passes over a string -----

  /** Adds escapes that were already counted to the result of a scan. */
  function AddSkipped(r: Option<(nat, nat)>, skipped: nat): Option<(nat, nat)> {
    if r.None? then None else Some((r.value.0, r.value.1 + skipped))
  }

  /** How far the first pass is when it has reached `target`, and the escapes it met on the way. */
  ghost function ScanTo(c: seq<byte>, q: nat, target: nat): (r: (nat, nat))
    decreases target - q
  {
    if q >= target || q >= |c| then (q, 0)
    else if c[q] == BACKSLASH then
      var (p, n) := ScanTo(c, q + 2, target);
      (p, n + 1)
    else ScanTo(c, q + 1, target)
  }

  /** Between two points the first pass meets at most one escape every two bytes, and stays on course. */
  lemma {:induction false} ScanToBounds(c: seq<byte>, q: nat, target: nat, end: nat)
    requires target <= end && q <= target + 1 && ScanString(c, q).Some? && ScanString(c, q).value.0 == end
    ensures var (p, n) := ScanTo(c, q, target);
            target <= p <= target + 1 && p <= end && (q <= target ==> 2 * n <= target + 1 - q) && (q > target ==> n == 0)
            && AddSkipped(ScanString(c, p), n) == ScanString(c, q)
    decreases target + 1 - q
  {
    if q < target {
      ScanToBounds(c, if c[q] == BACKSLASH then q + 2 else q + 1, target, end);
    }
  }

  // ----- The element loops, one turn at a time -----

  lemma AppendToNothing<T>(rest: Option<(seq<T>, nat)>)
    ensures Append([], rest) == rest
  {
    assert rest.Some? ==> [] + rest.value.0 == rest.value.0;
  }

  lemma AppendNone<T>(done: seq<T>)
    ensures Append(done, None) == None
  {
  }

  lemma AppendOne<T>(done: seq<T>, x: T, rest: Option<(seq<T>, nat)>)
    ensures Append(done, Append([x], rest)) == Append(done + [x], rest)
  {
    assert rest.Some? ==> done + ([x] + rest.value.0) == done + [x] + rest.value.0;
  }

  /** What is left to parse after the last element: the closing byte. */
  function Ending<T>(c: seq<byte>, e: nat, close: byte): Option<(seq<T>, nat)> {
    if ByteAt(c, e, close) then Some(([], e + 1)) else None
  }

  lemma AppendToEnding<T>(x: T, c: seq<byte>, e: nat, close: byte)
    ensures Append([x], Ending(c, e, close)) == if ByteAt(c, e, close) then Some(([x], e + 1)) else None
  {
    assert [x] + [] == [x];
  }

  lemma AppendEnding<T>(done: seq<T>, c: seq<byte>, e: nat, close: byte)
    ensures Append(done, Ending(c, e, close)) == if ByteAt(c, e, close) then Some((done, e + 1)) else None
  {
    assert done + [] == done;
  }

  /** What the element loop is still to parse when it has come to `e`. */
  function ItemsAfter(c: seq<byte>, e: nat, depth: nat): Option<(seq<Item>, nat)> {
    if ByteAt(c, e, COMMA) then ParseItems(c, e, depth) else Ending(c, e, CLOSE_BRACKET)
  }

  function MembersAfter(c: seq<byte>, e: nat, depth: nat): Option<(seq<Member>, nat)> {
    if ByteAt(c, e, COMMA) then ParseMembers(c, e, depth) else Ending(c, e, CLOSE_BRACE)
  }

  lemma ItemsUnfold(c: seq<byte>, i: nat, depth: nat)
    ensures ParseItems(c, i, depth)
            == match ParseValue(c, SkipSpace(c, i + 1), depth)
               case None => None
               case Some((x, j)) => Append([x], ItemsAfter(c, SkipSpace(c, j), depth))
  {
    hide SkipSpace, ParseMembers, ParseString, Append, Ending;
    match ParseValue(c, SkipSpace(c, i + 1), depth)
    case None =>
    case Some((x, j)) => AppendToEnding(x, c, SkipSpace(c, j), CLOSE_BRACKET);
  }

  /** The elements after the opening bracket and the space behind it. */
  function ArrayBody(c: seq<byte>, s: nat, depth: nat): Option<(seq<Item>, nat)>
    requires s > 0
  {
    if ByteAt(c, s, CLOSE_BRACKET) then Some(([], s + 1))
    else if s >= |c| then None
    else ParseItems(c, s - 1, depth)
  }

  lemma ArrayUnfold(c: seq<byte>, i: nat, depth: nat)
    requires ByteAt(c, i, OPEN_BRACKET)
    ensures ParseValue(c, i, depth)
            == if depth >= NESTING_LIMIT then None
               else
                 match ArrayBody(c, SkipSpace(c, i + 1), depth + 1)
                 case None => None
                 case Some((items, j)) => Some((Array(items), j))
  {
    hide SkipSpace, ParseItems, ParseMembers, ParseString;
    NotAKeyword(c, i);
  }

  /** The members after the opening brace and the space behind it. */
  function ObjectBody(c: seq<byte>, s: nat, depth: nat): Option<(seq<Member>, nat)>
    requires s > 0
  {
    if ByteAt(c, s, CLOSE_BRACE) then Some(([], s + 1))
    else if s >= |c| then None
    else ParseMembers(c, s - 1, depth)
  }

  lemma ObjectUnfold(c: seq<byte>, i: nat, depth: nat)
    requires ByteAt(c, i, OPEN_BRACE)
    ensures ParseValue(c, i, depth)
            == if depth >= NESTING_LIMIT then None
               else
                 match ObjectBody(c, SkipSpace(c, i + 1), depth + 1)
                 case None => None
                 case Some((members, j)) => Some((Object(members), j))
  {
    hide SkipSpace, ParseItems, ParseMembers, ParseString;
    NotAKeyword(c, i);
  }

  /** A name, a colon and a value, from position `i` on. */
  function ParseMember(c: seq<byte>, i: nat, depth: nat): (r: Option<(Member, nat)>)
    ensures r.Some? ==> i < r.value.1 <= |c|
  {
    match ParseString(c, SkipSpace(c, i))
    case None => None
    case Some((name, j)) =>
      var colon := SkipSpace(c, j);
      if !ByteAt(c, colon, COLON) then None
      else
        match ParseValue(c, SkipSpace(c, colon + 1), depth)
        case None => None
        case Some((x, k)) => Some((Member(name, x), k))
  }

  lemma MembersUnfold(c: seq<byte>, i: nat, depth: nat)
    ensures ParseMembers(c, i, depth)
            == match ParseMember(c, i + 1, depth)
               case None => None
               case Some((m, k)) => Append([m], MembersAfter(c, SkipSpace(c, k), depth))
  {
    hide SkipSpace, ParseValue, Append, Ending;
    match ParseMember(c, i + 1, depth)
    case None =>
    case Some((m, k)) => AppendToEnding(m, c, SkipSpace(c, k), CLOSE_BRACE);
  }

  /** One more element read: what has been read and what is left still make up the whole. */
  lemma ItemsAfterTurn(c: seq<byte>, i: nat, depth: nat, done: seq<Item>, x: Item, e: nat)
    requires ParseItems(c, i, depth) == Append([x], ItemsAfter(c, e, depth))
    ensures Append(done, ParseItems(c, i, depth))
            == Append(done + [x], if ByteAt(c, e, COMMA) then ParseItems(c, e, depth) else Ending(c, e, CLOSE_BRACKET))
  {
    hide ParseItems, Append, Ending;
    AppendOne(done, x, ItemsAfter(c, e, depth));
  }

  lemma MembersAfterTurn(c: seq<byte>, i: nat, depth: nat, done: seq<Member>, m: Member, e: nat)
    requires ParseMembers(c, i, depth) == Append([m], MembersAfter(c, e, depth))
    ensures Append(done, ParseMembers(c, i, depth))
            == Append(done + [m], if ByteAt(c, e, COMMA) then ParseMembers(c, e, depth) else Ending(c, e, CLOSE_BRACE))
  {
    hide ParseMembers, Append, Ending;
    AppendOne(done, m, MembersAfter(c, e, depth));
  }

  twostate predicate Fresh(new s: seq<Node>) {
    forall i :: 0 <= i < |s| ==> fresh(s[i])
  }

  // ----- Unescaping, one step at a time -----

  lemma PrependNothing(rest: Option<seq<byte>>)
    ensures Prepend([], rest) == rest
  {
    assert rest.Some? ==> [] + rest.value == rest.value;
  }

  lemma PrependTwo(s: seq<byte>, t: seq<byte>, rest: Option<seq<byte>>)
    ensures Prepend(s, Prepend(t, rest)) == Prepend(s + t, rest)
  {
    assert rest.Some? ==> s + (t + rest.value) == s + t + rest.value;
  }

  lemma PrependEnd(s: seq<byte>)
    ensures Prepend(s, None) == None && Prepend(s, Some([])) == Some(s)
  {
    assert s + [] == s;
  }

  lemma UnescapeUnfold(c: seq<byte>, p: nat, end: nat)
    requires end < |c|
    ensures Unescape(c, p, end)
            == if p >= end then Some([])
               else if c[p] != BACKSLASH then Prepend([c[p]], Unescape(c, p + 1, end))
               else if c[p + 1] == LETTER_U then
                 var r := Utf16Literal(c, p, end);
                 if r.None? then None else Prepend(r.value.1, Unescape(c, p + r.value.0, end))
               else
                 var b := SimpleEscape(c[p + 1]);
                 if b.None? then None else Prepend([b.value], Unescape(c, p + 2, end))
  {
    hide Utf16Literal, SimpleEscape, Prepend;
  }

  class ParseBuffer {
    const content: seq<byte>
    var offset: nat
    var depth: nat

    constructor (content: seq<byte>)
      ensures this.content == content && offset == 0 && depth == 0
    {
      this.content := content;
      offset, depth := 0, 0;
    }

    method SkipWhitespace()
      modifies this`offset
      ensures offset == SkipSpace(content, old(offset))
    {
      if offset >= |content| {
        return;
      }
      while offset < |content| && content[offset] <= 32
        invariant old(offset) <= offset <= |content|
        invariant SpaceEnd(content, offset) == SpaceEnd(content, old(offset))
      {
        offset := offset + 1;
      }
      if offset == |content| {
        offset := offset - 1;
      }
    }

    method SkipUtf8Bom()
      requires offset == 0
      modifies this`offset
      ensures offset == if |content| > 4 && content[..3] == [0xEF, 0xBB, 0xBF] then 3 else 0
    {
      if 4 < |content| && content[..3] == [0xEF, 0xBB, 0xBF] {
        offset := 3;
      }
    }

    /** Converts the \u literal at `p`; `consumed` is 0 when it is not a valid one. */
    method Utf16ToUtf8(p: nat, end: nat, output: array<byte>, at: nat) returns (consumed: nat, next: nat)
      requires p <= end <= |content|
      requires var r := Utf16Literal(content, p, end); r.Some? ==> at + |r.value.1| <= output.Length
      modifies output
      ensures at <= output.Length ==> output[..at] == old(output[..at])
      ensures var r := Utf16Literal(content, p, end);
              match r
              case None => consumed == 0
              case Some((n, bytes)) => consumed == n && next == at + |bytes| && output[at..next] == bytes
    {
      hide Utf8, Hex4;
      consumed, next := 0, at;
      if end - p < 6 {
        return;
      }
      var first := Hex4(content, p + 2);
      if 0xDC00 <= first <= 0xDFFF {
        return;
      }
      var length, codepoint := 6, first;
      if 0xD800 <= first <= 0xDBFF {
        length := 12;
        if end - (p + 6) < 6 {
          return;
        }
        if content[p + 6] != BACKSLASH || content[p + 7] != LETTER_U {
          return;
        }
        var second := Hex4(content, p + 8);
        if second < 0xDC00 || second > 0xDFFF {
          return;
        }
        codepoint := 0x1_0000 + (first - 0xD800) * 1024 + (second - 0xDC00);
      }
      next := WriteUtf8(codepoint, output, at);
      consumed := length;
    }

    /** The first pass: where the closing quote is and how many escapes there are before it. */
    method FindStringEnd() returns (found: bool, end: nat, skipped: nat)
      requires offset < |content|
      ensures ScanString(content, offset + 1) == if found then Some((end, skipped)) else None
    {
      hide ScanString, AddSkipped;
      end, skipped := offset + 1, 0;
      ScanEnds(end, 0);
      while end < |content| && content[end] != QUOTE
        invariant offset + 1 <= end <= |content|
        invariant AddSkipped(ScanString(content, end), skipped) == ScanString(content, offset + 1)
      {
        ScanUnfold(end, skipped);
        if content[end] == BACKSLASH {
          if end + 1 >= |content| {
            return false, end, skipped;
          }
          skipped := skipped + 1;
          end := end + 1;
        }
        end := end + 1;
      }
      ScanEnds(end, skipped);
      found := end < |content|;
    }

    lemma ScanUnfold(q: nat, skipped: nat)
      requires q < |content| && content[q] != QUOTE
      ensures AddSkipped(ScanString(content, q), skipped)
              == if content[q] != BACKSLASH then AddSkipped(ScanString(content, q + 1), skipped)
                 else if q + 1 >= |content| then None
                 else AddSkipped(ScanString(content, q + 2), skipped + 1)
    {
    }

    lemma ScanEnds(q: nat, skipped: nat)
      ensures AddSkipped(ScanString(content, q), 0) == ScanString(content, q)
      ensures q >= |content| ==> AddSkipped(ScanString(content, q), skipped) == None
      ensures q < |content| && content[q] == QUOTE ==> AddSkipped(ScanString(content, q), skipped) == Some((q, skipped))
    {
    }

    /** Where the second pass may be: the first pass was at `q`, at `p` or one byte on, after `escapes` escapes. */
    ghost predicate Abreast(end: nat, skipped: nat, p: nat, q: nat, escapes: nat, length: nat)
      reads this`offset
    {
      if p > end then p == end + 1 && length + skipped <= end - (offset + 1)
      else
        p <= q <= p + 1 && q <= end && length + escapes + offset + 1 <= p
        && AddSkipped(ScanString(content, q), escapes) == Some((end, skipped))
    }

    /** Reading `n` bytes of an escape and writing at most half as many keeps the two passes abreast. */
    lemma AbreastAfterEscape(end: nat, skipped: nat, p: nat, q: nat, escapes: nat, length: nat, n: nat, written: nat)
      requires p < end < |content| && Abreast(end, skipped, p, q, escapes, length)
      requires content[p] == BACKSLASH && 2 * written <= n && (n == 2 || p + n <= end) && n % 2 == 0
      ensures var (r, m) := ScanTo(content, q, p + n);
              Abreast(end, skipped, p + n, r, escapes + m, length + written)
    {
      if p + n <= end {
        hide ScanString;
        ScanToBounds(content, q, p + n, end);
      }
    }

    lemma AbreastAfterByte(end: nat, skipped: nat, p: nat, q: nat, escapes: nat, length: nat)
      requires p < end < |content| && Abreast(end, skipped, p, q, escapes, length)
      requires content[p] != BACKSLASH
      ensures var (r, m) := ScanTo(content, q, p + 1); Abreast(end, skipped, p + 1, r, escapes + m, length + 1)
    {
      ScanToBounds(content, q, p + 1, end);
    }

    lemma AbreastAtStart(end: nat, skipped: nat)
      requires ScanString(content, offset + 1) == Some((end, skipped))
      ensures Abreast(end, skipped, offset + 1, offset + 1, 0, 0)
    {
    }

    lemma AbreastFits(end: nat, skipped: nat, p: nat, q: nat, escapes: nat, length: nat)
      requires offset < p && Abreast(end, skipped, p, q, escapes, length)
      ensures length + skipped <= end - (offset + 1)
    {
    }

    /** One turn of the second pass: a byte, or an escape and the bytes it stands for. */
    method UnescapeOne(end: nat, ghost skipped: nat, p: nat, ghost q: nat, ghost escapes: nat, output: array<byte>, length: nat)
      returns (ok: bool, next: nat, after: nat, ghost scan: nat, ghost met: nat)
      requires p < end < |content| && output.Length == end - offset - skipped + 1
      requires offset < p && Abreast(end, skipped, p, q, escapes, length)
      modifies output
      ensures length <= output.Length && output[..length] == old(output[..length])
      ensures !ok ==> Unescape(content, p, end) == None
      ensures ok ==> p < next && Abreast(end, skipped, next, scan, met, after) && length <= after <= output.Length
                     && Unescape(content, p, end) == Prepend(output[length..after], Unescape(content, next, end))
    {
      hide Utf16Literal, SimpleEscape, Unescape, Prepend, ScanTo, Abreast, ScanString;
      AbreastFits(end, skipped, p, q, escapes, length);
      UnescapeUnfold(content, p, end);
      ok, next, after, scan, met := true, p + 1, length + 1, q, escapes;
      if content[p] != BACKSLASH {
        output[length] := content[p];
        AbreastAfterByte(end, skipped, p, q, escapes, length);
        assert output[length..after] == [content[p]];
      } else if content[p + 1] == LETTER_U {
        ghost var r := Utf16Literal(content, p, end);
        if r.Some? {
          AbreastAfterEscape(end, skipped, p, q, escapes, length, r.value.0, |r.value.1|);
          var (q', m) := ScanTo(content, q, p + r.value.0);
          AbreastFits(end, skipped, p + r.value.0, q', escapes + m, length + |r.value.1|);
        }
        var consumed;
        consumed, after := Utf16ToUtf8(p, end, output, length);
        ok, next := consumed > 0, p + consumed;
      } else {
        var b := SimpleEscape(content[p + 1]);
        if b.None? {
          ok := false;
          return;
        }
        next := p + 2;
        output[length] := b.value;
        AbreastAfterEscape(end, skipped, p, q, escapes, length, 2, 1);
        assert output[length..after] == [b.value];
      }
      ghost var passed := ScanTo(content, q, next);
      scan, met := passed.0, escapes + passed.1;
      if ok {
        AbreastFits(end, skipped, next, scan, met, after);
      }
    }

    /** The second pass: everything it writes, and the terminator, fits the size that the first pass computed. */
    method UnescapeInto(end: nat, skipped: nat, output: array<byte>) returns (ok: bool, length: nat)
      requires ScanString(content, offset + 1) == Some((end, skipped))
      requires output.Length == end - offset - skipped + 1
      modifies output
      ensures ok ==> length < output.Length && output[length] == 0 && length + skipped <= end - (offset + 1)
      ensures ok ==> Unescape(content, offset + 1, end) == Some(output[..length])
      ensures !ok ==> Unescape(content, offset + 1, end) == None
    {
      AbreastAtStart(end, skipped);
      hide Unescape, Prepend, Abreast, ScanString;
      var begin := offset + 1;
      var p := begin;
      ghost var q: nat, escapes: nat := begin, 0;
      length := 0;
      PrependNothing(Unescape(content, begin, end));
      while p < end
        invariant begin <= p && Abreast(end, skipped, p, q, escapes, length) && length <= output.Length
        invariant Prepend(output[..length], Unescape(content, p, end)) == Unescape(content, begin, end)
        decreases end - p
      {
        ghost var text := output[..length];
        var next, after;
        ok, next, after, q, escapes := UnescapeOne(end, skipped, p, q, escapes, output, length);
        if !ok {
          PrependEnd(text);
          return;
        }
        PrependTwo(text, output[length..after], Unescape(content, next, end));
        assert output[..after] == output[..length] + output[length..after];
        length, p := after, next;
      }
      AbreastFits(end, skipped, p, q, escapes, length);
      EndOfUnescape(p, end);
      PrependEnd(output[..length]);
      output[length] := 0;
      ok := true;
    }

    lemma EndOfUnescape(p: nat, end: nat)
      requires end < |content| && p >= end
      ensures Unescape(content, p, end) == Some([])
    {
    }

    method ReadString() returns (ok: bool, text: seq<byte>)
      modifies this`offset
      ensures ParseString(content, old(offset)) == if ok then Some((text, offset)) else None
    {
      ok, text := false, [];
      if offset >= |content| || content[offset] != QUOTE {
        return;
      }
      var found, end, skipped := FindStringEnd();
      if !found {
        return;
      }
      var output := new byte[end - offset - skipped + 1];
      var length;
      ok, length := UnescapeInto(end, skipped, output);
      if ok {
        text := output[..length];
        offset := end + 1;
      }
    }

    // ----- Values -----

    predicate Reads(t: seq<byte>)
      reads this`offset
    {
      offset + |t| <= |content| && content[offset..offset + |t|] == t
    }

    /** Fills `item`, whose links are not touched; the children of an array or object become its list. */
    method ReadValue(item: Node) returns (ok: bool, ghost children: seq<Node>)
      modifies this, item`child, item`value
      ensures ok ==> ParseValue(content, old(offset), old(depth)) == Some((item.value, offset)) && depth == old(depth)
      ensures !ok ==> ParseValue(content, old(offset), old(depth)) == None
      ensures ok ==> Holds(item, children) && Fresh(children)
      decreases if offset < |content| then |content| - offset else 0, 4
    {
      hide ParseString, ParseItems, ParseMembers, SkipSpace, Children;
      ok, children := true, [];
      if Reads(TEXT_NULL) {
        item.value := Null;
        offset := offset + 4;
      } else if Reads(TEXT_FALSE) {
        item.value := False;
        offset := offset + 5;
      } else if Reads(TEXT_TRUE) {
        item.value := True;
        offset := offset + 4;
      } else if offset < |content| && content[offset] == QUOTE {
        var text;
        ok, text := ReadString();
        item.value := String(text);
      } else if offset < |content| && content[offset] == OPEN_BRACKET {
        ok, children := ReadArray(item);
      } else if offset < |content| && content[offset] == OPEN_BRACE {
        ok, children := ReadObject(item);
      } else {
        ok := false;
      }
    }

    method ReadArray(item: Node) returns (ok: bool, ghost children: seq<Node>)
      requires ByteAt(content, offset, OPEN_BRACKET)
      modifies this, item`child, item`value
      ensures ok ==> ParseValue(content, old(offset), old(depth)) == Some((item.value, offset)) && depth == old(depth)
      ensures !ok ==> ParseValue(content, old(offset), old(depth)) == None
      ensures ok ==> Holds(item, children) && Fresh(children)
      decreases if offset < |content| then |content| - offset else 0, 3
    {
      hide ParseValue, ArrayBody, SkipSpace, Chain.Valid, Holds, Values, Named;
      ArrayUnfold(content, offset, depth);
      ok, children := false, [];
      if depth >= NESTING_LIMIT {
        return;
      }
      depth := depth + 1;
      offset := offset + 1;
      SkipWhitespace();
      var chain := new Chain();
      var items;
      ok, items := ReadArrayBody(chain);
      if !ok {
        return;
      }
      children := chain.nodes;
      assert Fresh(children);
      depth := depth - 1;
      assert ParseValue(content, old(offset), old(depth)) == Some((Array(items), offset));
      chain.Close(item, Array(items));
    }

    method ReadArrayBody(chain: Chain) returns (ok: bool, items: seq<Item>)
      requires chain.Valid() && chain.nodes == [] && offset > 0
      modifies this, chain
      ensures ok ==> ArrayBody(content, old(offset), old(depth)) == Some((items, offset)) && depth == old(depth)
      ensures !ok ==> ArrayBody(content, old(offset), old(depth)) == None
      ensures ok ==> chain.Valid() && Fresh(chain.nodes) && Values(chain.nodes) == items
      decreases if offset <= |content| then |content| - offset + 1 else 0, 2
    {
      hide ParseItems, Chain.Valid;
      ok, items := true, [];
      if offset < |content| && content[offset] == CLOSE_BRACKET {
        offset := offset + 1;
      } else if offset >= |content| {
        ok := false;
      } else {
        offset := offset - 1;
        ok, items := ReadElements(chain);
      }
    }

    /** The loop over the elements, from the byte in front of the first one on. */
    method ReadElements(chain: Chain) returns (ok: bool, items: seq<Item>)
      requires offset < |content| && chain.Valid() && chain.nodes == []
      modifies this, chain
      ensures ok ==> ParseItems(content, old(offset), old(depth)) == Some((items, offset)) && depth == old(depth)
      ensures !ok ==> ParseItems(content, old(offset), old(depth)) == None
      ensures ok ==> chain.Valid() && Fresh(chain.nodes) && Values(chain.nodes) == items
      decreases |content| - offset, 1
    {
      hide ParseValue, ParseItems, ItemsAfter, SkipSpace, Append, Ending;
      ghost var start := offset;
      var more := true;
      ok, items := false, [];
      AppendToNothing(ParseItems(content, start, depth));
      while more
        invariant start <= offset <= |content| && depth == old(depth) && (more ==> offset < |content|)
        invariant Append(items, if more then ParseItems(content, offset, depth) else Ending(content, offset, CLOSE_BRACKET))
                  == ParseItems(content, start, depth)
        invariant chain.Valid() && Fresh(chain.nodes) && Values(chain.nodes) == items
        decreases |content| - offset, more
      {
        AppendNone(items);
        ghost var from := offset;
        var parsed := ReadElement(chain, items);
        if !parsed {
          return;
        }
        more := offset < |content| && content[offset] == COMMA;
        var x := chain.current.value;
        ItemsAfterTurn(content, from, depth, items, x, offset);
        items := items + [x];
      }
      AppendEnding(items, content, offset, CLOSE_BRACKET);
      if offset >= |content| || content[offset] != CLOSE_BRACKET {
        return;
      }
      offset := offset + 1;
      ok := true;
    }

    /** One turn: a new item at the end of the list, and its value. */
    method ReadElement(chain: Chain, ghost items: seq<Item>) returns (ok: bool)
      requires offset < |content| && chain.Valid() && Values(chain.nodes) == items
      modifies this, chain, chain.nodes
      ensures chain.current != null && fresh(chain.current) && chain.nodes == old(chain.nodes) + [chain.current]
      ensures !ok ==> ParseItems(content, old(offset), old(depth)) == None
      ensures ok ==>
                var x := chain.current.value;
                && ParseItems(content, old(offset), old(depth)) == Append([x], ItemsAfter(content, offset, old(depth)))
                && old(offset) < offset <= |content| && depth == old(depth)
                && chain.Valid() && Values(chain.nodes) == items + [x]
      decreases |content| - offset, 0
    {
      hide ParseValue, ParseItems, ItemsAfter, Append, SkipSpace, Values, Chain.Valid;
      ItemsUnfold(content, offset, depth);
      chain.Add();
      offset := offset + 1;
      SkipWhitespace();
      ok := ReadLast(chain);
    }

    method ReadObject(item: Node) returns (ok: bool, ghost children: seq<Node>)
      requires ByteAt(content, offset, OPEN_BRACE)
      modifies this, item`child, item`value
      ensures ok ==> ParseValue(content, old(offset), old(depth)) == Some((item.value, offset)) && depth == old(depth)
      ensures !ok ==> ParseValue(content, old(offset), old(depth)) == None
      ensures ok ==> Holds(item, children) && Fresh(children)
      decreases if offset < |content| then |content| - offset else 0, 3
    {
      hide ParseValue, ObjectBody, SkipSpace, Chain.Valid, Holds, Values, Named;
      ObjectUnfold(content, offset, depth);
      ok, children := false, [];
      if depth >= NESTING_LIMIT {
        return;
      }
      depth := depth + 1;
      offset := offset + 1;
      SkipWhitespace();
      var chain := new Chain();
      var members;
      ok, members := ReadObjectBody(chain);
      if !ok {
        return;
      }
      children := chain.nodes;
      assert Fresh(children);
      depth := depth - 1;
      assert ParseValue(content, old(offset), old(depth)) == Some((Object(members), offset));
      chain.Close(item, Object(members));
    }

    method ReadObjectBody(chain: Chain) returns (ok: bool, members: seq<Member>)
      requires chain.Valid() && chain.nodes == [] && offset > 0
      modifies this, chain
      ensures ok ==> ObjectBody(content, old(offset), old(depth)) == Some((members, offset)) && depth == old(depth)
      ensures !ok ==> ObjectBody(content, old(offset), old(depth)) == None
      ensures ok ==> chain.Valid() && Fresh(chain.nodes) && Named(chain.nodes) == members
      decreases if offset <= |content| then |content| - offset + 1 else 0, 2
    {
      hide ParseMembers, Chain.Valid;
      ok, members := true, [];
      if offset < |content| && content[offset] == CLOSE_BRACE {
        offset := offset + 1;
      } else if offset >= |content| {
        ok := false;
      } else {
        offset := offset - 1;
        ok, members := ReadMembers(chain);
      }
    }

    /** The loop over the members, from the byte in front of the first one on. */
    method ReadMembers(chain: Chain) returns (ok: bool, members: seq<Member>)
      requires offset < |content| && chain.Valid() && chain.nodes == []
      modifies this, chain
      ensures ok ==> ParseMembers(content, old(offset), old(depth)) == Some((members, offset)) && depth == old(depth)
      ensures !ok ==> ParseMembers(content, old(offset), old(depth)) == None
      ensures ok ==> chain.Valid() && Fresh(chain.nodes) && Named(chain.nodes) == members
      decreases |content| - offset, 1
    {
      hide ParseMember, ParseMembers, MembersAfter, SkipSpace, Append, Ending;
      ghost var start := offset;
      var more := true;
      ok, members := false, [];
      AppendToNothing(ParseMembers(content, start, depth));
      while more
        invariant start <= offset <= |content| && depth == old(depth) && (more ==> offset < |content|)
        invariant Append(members, if more then ParseMembers(content, offset, depth) else Ending(content, offset, CLOSE_BRACE))
                  == ParseMembers(content, start, depth)
        invariant chain.Valid() && Fresh(chain.nodes) && Named(chain.nodes) == members
        decreases |content| - offset, more
      {
        AppendNone(members);
        ghost var from := offset;
        var parsed := ReadMember(chain, members);
        if !parsed {
          return;
        }
        more := offset < |content| && content[offset] == COMMA;
        var m := Member(chain.current.name, chain.current.value);
        MembersAfterTurn(content, from, depth, members, m, offset);
        members := members + [m];
      }
      AppendEnding(members, content, offset, CLOSE_BRACE);
      if offset >= |content| || content[offset] != CLOSE_BRACE {
        return;
      }
      offset := offset + 1;
      ok := true;
    }

    /** One turn: a new item at the end of the list, its name and its value. */
    method ReadMember(chain: Chain, ghost members: seq<Member>) returns (ok: bool)
      requires offset < |content| && chain.Valid() && Named(chain.nodes) == members
      modifies this, chain, chain.nodes
      ensures chain.current != null && fresh(chain.current) && chain.nodes == old(chain.nodes) + [chain.current]
      ensures !ok ==> ParseMembers(content, old(offset), old(depth)) == None
      ensures ok ==>
                var m := Member(chain.current.name, chain.current.value);
                && ParseMembers(content, old(offset), old(depth)) == Append([m], MembersAfter(content, offset, old(depth)))
                && old(offset) < offset <= |content| && depth == old(depth)
                && chain.Valid() && Named(chain.nodes) == members + [m]
      decreases |content| - offset, 0
    {
      hide ParseValue, ParseString, ParseMembers, MembersAfter, Append, SkipSpace, Named, Chain.Valid;
      MembersUnfold(content, offset, depth);
      chain.Add();
      offset := offset + 1;
      ok := ReadName(chain);
      if ok {
        ok := ReadLast(chain);
      }
    }

    /** The value of the last item of the list, and the space behind it. */
    method ReadLast(chain: Chain) returns (ok: bool)
      requires chain.Valid() && chain.current != null
      modifies this, chain.current`child, chain.current`value
      ensures ok <==> ParseValue(content, old(offset), old(depth)).Some?
      ensures ok ==>
                var (x, k) := ParseValue(content, old(offset), old(depth)).value;
                offset == SkipSpace(content, k) && depth == old(depth) && chain.current.value == x
      ensures chain.Valid()
      decreases if offset < |content| then |content| - offset else 0, 5
    {
      hide ParseValue, SkipSpace, Holds, Fresh;
      ghost var children;
      ok, children := ReadValue(chain.current);
      if ok {
        SkipWhitespace();
      }
    }

    /** A name and the colon after it; the space behind the colon is skipped. */
    method ReadName(chain: Chain) returns (ok: bool)
      requires chain.Valid() && chain.current != null
      modifies this`offset, chain.current`name
      ensures chain.Valid()
      ensures var s := ParseString(content, SkipSpace(content, old(offset)));
              && (ok <==> s.Some? && ByteAt(content, SkipSpace(content, s.value.1), COLON))
              && (ok ==> chain.current.name == s.value.0
                         && offset == SkipSpace(content, SkipSpace(content, s.value.1) + 1) && old(offset) < offset)
    {
      hide ParseString, SkipSpace;
      SkipWhitespace();
      var named, name := ReadString();
      if !named {
        return false;
      }
      SkipWhitespace();
      chain.current.name := name;
      if offset >= |content| || content[offset] != COLON {
        return false;
      }
      offset := offset + 1;
      SkipWhitespace();
      ok := true;
    }
  }

  /** The parsed item, or null, and where parsing ended; after a failure that is a position in the text. */
  method ParseWithLengthOpts(value: seq<byte>, requireNullTerminated: bool)
    returns (item: Node?, parseEnd: nat, ghost children: seq<Node>)
    ensures item == null <==> ParseText(value, requireNullTerminated) == None
    ensures item != null ==>
              && fresh(item) && ParseText(value, requireNullTerminated) == Some((item.value, parseEnd))
              && Holds(item, children)
    ensures item == null ==> parseEnd < |value| || parseEnd == 0
  {
    hide ParseValue, SkipSpace, Holds;
    item, parseEnd, children := null, 0, [];
    if value == [] {
      return;
    }
    var buffer := new ParseBuffer(value);
    var root := new Node();
    buffer.SkipUtf8Bom();
    buffer.SkipWhitespace();
    var ok;
    ok, children := buffer.ReadValue(root);
    if ok && requireNullTerminated {
      buffer.SkipWhitespace();
      ok := buffer.offset < |value| && value[buffer.offset] == 0;
    }
    if ok {
      return root, buffer.offset, children;
    }
    parseEnd := if buffer.offset < |value| then buffer.offset else |value| - 1;
  }

  /** `value` is a C string; the parser also sees its terminator. */
  method ParseWithOpts(value: seq<byte>, requireNullTerminated: bool)
    returns (item: Node?, parseEnd: nat, ghost children: seq<Node>)
    requires NulFree(value)
    ensures item == null <==> ParseText(value + [0], requireNullTerminated) == None
    ensures item != null ==>
              && fresh(item) && ParseText(value + [0], requireNullTerminated) == Some((item.value, parseEnd))
              && Holds(item, children)
    ensures item == null ==> parseEnd <= |value|
  {
    hide ParseText, Holds;
    item, parseEnd, children := ParseWithLengthOpts(value + [0], requireNullTerminated);
  }
}
