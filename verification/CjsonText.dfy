// JSON trees and texts: what the printer of cJSON writes and what its parser reads, as functions.
module CjsonText {

  type byte = x: int | 0 <= x < 256

  datatype Option<+T> = None | Some(value: T)

  const NESTING_LIMIT := 1000

  /** A JSON value without numbers.  Children of arrays and objects are kept in list order. */
  datatype Item =
    | Null
    | False
    | True
    | String(text: seq<byte>)
    | Array(items: seq<Item>)
    | Object(members: seq<Member>)

  datatype Member = Member(name: seq<byte>, value: Item)

  const QUOTE: byte := 34
  const BACKSLASH: byte := 92
  const SLASH: byte := 47
  const COMMA: byte := 44
  const COLON: byte := 58
  const TAB: byte := 9
  const NEWLINE: byte := 10
  const OPEN_BRACKET: byte := 91
  const CLOSE_BRACKET: byte := 93
  const OPEN_BRACE: byte := 123
  const CLOSE_BRACE: byte := 125
  const LETTER_B: byte := 98
  const LETTER_F: byte := 102
  const LETTER_N: byte := 110
  const LETTER_R: byte := 114
  const LETTER_T: byte := 116
  const LETTER_U: byte := 117
  const TEXT_NULL: seq<byte> := [110, 117, 108, 108]
  const TEXT_FALSE: seq<byte> := [102, 97, 108, 115, 101]
  const TEXT_TRUE: seq<byte> := [116, 114, 117, 101]

  predicate NulFree(s: seq<byte>) {
    forall k :: 0 <= k < |s| ==> s[k] != 0
  }

  predicate Strings(x: Item) {
    match x
    case String(text) => NulFree(text)
    case Array(items) => forall k :: 0 <= k < |items| ==> Strings(items[k])
    case Object(members) => forall k :: 0 <= k < |members| ==> NulFree(members[k].name) && Strings(members[k].value)
    case _ => true
  }

  /** No array or object is nested more than `limit` deep. */
  predicate Nested(x: Item, limit: int) {
    match x
    case Array(items) => limit > 0 && forall k :: 0 <= k < |items| ==> Nested(items[k], limit - 1)
    case Object(members) => limit > 0 && forall k :: 0 <= k < |members| ==> Nested(members[k].value, limit - 1)
    case _ => true
  }

  // ----- Printing -----

  function HexDigit(n: nat): byte
    requires n < 16
  {
    if n < 10 then 48 + n else 87 + n
  }

  function EscapeByte(b: byte): (r: seq<byte>)
    ensures 1 <= |r| <= 6
  {
    if b > 31 && b != QUOTE && b != BACKSLASH then [b]
    else if b == BACKSLASH then [BACKSLASH, BACKSLASH]
    else if b == QUOTE then [BACKSLASH, QUOTE]
    else if b == 8 then [BACKSLASH, LETTER_B]
    else if b == 12 then [BACKSLASH, LETTER_F]
    else if b == 10 then [BACKSLASH, LETTER_N]
    else if b == 13 then [BACKSLASH, LETTER_R]
    else if b == 9 then [BACKSLASH, LETTER_T]
    else [BACKSLASH, LETTER_U, 48, 48, HexDigit(b / 16), HexDigit(b % 16)]
  }

  function Escape(s: seq<byte>): seq<byte> {
    if s == [] then [] else EscapeByte(s[0]) + Escape(s[1..])
  }

  function PrintString(s: seq<byte>): seq<byte> {
    [QUOTE] + Escape(s) + [QUOTE]
  }

  function Indent(n: nat, format: bool): (r: seq<byte>)
    ensures |r| == if format then n else 0
  {
    if format then seq(n, _ => TAB) else []
  }

  function OpenBrace(format: bool): (r: seq<byte>)
    ensures 1 <= |r| <= 2
  {
    if format then [OPEN_BRACE, NEWLINE] else [OPEN_BRACE]
  }

  function Colon(format: bool): seq<byte> {
    if format then [COLON, TAB] else [COLON]
  }

  function Print(x: Item, depth: nat, format: bool): seq<byte>
    decreases x, 1
  {
    match x
    case Null => TEXT_NULL
    case False => TEXT_FALSE
    case True => TEXT_TRUE
    case String(text) => PrintString(text)
    case Array(items) => [OPEN_BRACKET] + PrintItems(items, depth + 1, format)
    case Object(members) =>
      OpenBrace(format) + PrintMembers(members, depth + 1, format)
  }

  /** Elements with their separators, and the closing bracket. */
  function PrintItems(items: seq<Item>, depth: nat, format: bool): seq<byte>
    decreases items, 0
  {
    if items == [] then [CLOSE_BRACKET]
    else Print(items[0], depth, format) + ItemSeparator(|items| > 1, format) + PrintItems(items[1..], depth, format)
  }

  function ItemSeparator(more: bool, format: bool): seq<byte> {
    if !more then [] else if format then [COMMA, 32] else [COMMA]
  }

  function PrintMembers(members: seq<Member>, depth: nat, format: bool): seq<byte>
    requires depth > 0
    decreases members, 0
  {
    if members == [] then Indent(depth - 1, format) + [CLOSE_BRACE]
    else
      PrintMember(members[0], depth, format)
      + MemberSeparator(|members| > 1, format)
      + PrintMembers(members[1..], depth, format)
  }

  function PrintMember(m: Member, depth: nat, format: bool): seq<byte>
    decreases m, 0
  {
    Indent(depth, format) + PrintString(m.name) + Colon(format) + Print(m.value, depth, format)
  }

  function MemberSeparator(more: bool, format: bool): seq<byte> {
    (if more then [COMMA] else []) + (if format then [NEWLINE] else [])
  }

  // ----- Strings in a text -----

  function HexValue(b: byte): int {
    if 48 <= b <= 57 then b - 48
    else if 65 <= b <= 70 then 10 + b - 65
    else if 97 <= b <= 102 then 10 + b - 97
    else -1
  }

  /** Four hexadecimal digits; zero if any is not one. */
  function Hex4(c: seq<byte>, q: nat): (r: nat)
    requires q + 4 <= |c|
    ensures r < 0x1_0000
  {
    var a, b, d, e := HexValue(c[q]), HexValue(c[q + 1]), HexValue(c[q + 2]), HexValue(c[q + 3]);
    if a < 0 || b < 0 || d < 0 || e < 0 then 0 else ((a * 16 + b) * 16 + d) * 16 + e
  }

  /** UTF-8 (section 3 of RFC 3629) of a code point. */
  function Utf8(cp: nat): (r: seq<byte>)
    requires cp <= 0x10_FFFF
    ensures 1 <= |r| <= 4
    ensures cp < 0x80 ==> |r| == 1
    ensures cp < 0x1_0000 ==> |r| <= 3
  {
    if cp < 0x80 then [cp]
    else if cp < 0x800 then [0xC0 + cp / 64, 0x80 + cp % 64]
    else if cp < 0x1_0000 then [0xE0 + cp / 4096, 0x80 + cp / 64 % 64, 0x80 + cp % 64]
    else [0xF0 + cp / 0x4_0000, 0x80 + cp / 4096 % 64, 0x80 + cp / 64 % 64, 0x80 + cp % 64]
  }

  /** A \u escape, or two that make a surrogate pair: its length in the text and its bytes. */
  function Utf16Literal(c: seq<byte>, p: nat, end: nat): (r: Option<(nat, seq<byte>)>)
    requires p <= end <= |c|
    ensures r.Some? ==> (r.value.0 == 6 || r.value.0 == 12) && p + r.value.0 <= end && 2 * |r.value.1| <= r.value.0
  {
    if end - p < 6 then None
    else
      var first := Hex4(c, p + 2);
      if 0xDC00 <= first <= 0xDFFF then None
      else if 0xD800 <= first <= 0xDBFF then
        if end - (p + 6) < 6 then None
        else if c[p + 6] != BACKSLASH || c[p + 7] != LETTER_U then None
        else
          var second := Hex4(c, p + 8);
          if second < 0xDC00 || second > 0xDFFF then None
          else Some((12, Utf8(0x1_0000 + (first - 0xD800) * 1024 + (second - 0xDC00))))
      else Some((6, Utf8(first)))
  }

  /** The byte that a two-character escape stands for. */
  function SimpleEscape(b: byte): Option<byte> {
    if b == LETTER_B then Some(8)
    else if b == LETTER_F then Some(12)
    else if b == LETTER_N then Some(10)
    else if b == LETTER_R then Some(13)
    else if b == LETTER_T then Some(9)
    else if b == QUOTE || b == BACKSLASH || b == SLASH then Some(b)
    else None
  }

  /** First pass over a string: where its closing quote is, and how many escapes were stepped over. */
  function ScanString(c: seq<byte>, i: nat): (r: Option<(nat, nat)>)
    ensures r.Some? ==> i <= r.value.0 < |c| && c[r.value.0] == QUOTE && 2 * r.value.1 <= r.value.0 - i
    decreases |c| - i
  {
    if i >= |c| then None
    else if c[i] == QUOTE then Some((i, 0))
    else if c[i] == BACKSLASH then
      if i + 1 >= |c| then None
      else
        match ScanString(c, i + 2)
        case None => None
        case Some((end, skipped)) => Some((end, skipped + 1))
    else ScanString(c, i + 1)
  }

  /** Second pass: the bytes between `p` and `end` with escapes resolved. */
  function Unescape(c: seq<byte>, p: nat, end: nat): Option<seq<byte>>
    requires end < |c|
    decreases end - p
  {
    if p >= end then Some([])
    else if c[p] != BACKSLASH then Prepend([c[p]], Unescape(c, p + 1, end))
    else if c[p + 1] == LETTER_U then
      match Utf16Literal(c, p, end)
      case None => None
      case Some((n, bytes)) => Prepend(bytes, Unescape(c, p + n, end))
    else
      match SimpleEscape(c[p + 1])
      case None => None
      case Some(b) => Prepend([b], Unescape(c, p + 2, end))
  }

  function Prepend(bytes: seq<byte>, rest: Option<seq<byte>>): Option<seq<byte>> {
    if rest.None? then None else Some(bytes + rest.value)
  }

  /** A string at `i`, with the position after it. */
  function ParseString(c: seq<byte>, i: nat): (r: Option<(seq<byte>, nat)>)
    ensures r.Some? ==> i < r.value.1 <= |c|
  {
    if i >= |c| || c[i] != QUOTE then None
    else
      match ScanString(c, i + 1)
      case None => None
      case Some((end, _)) =>
        match Unescape(c, i + 1, end)
        case None => None
        case Some(text) => Some((text, end + 1))
  }

  // ----- Values in a text -----

  predicate At(c: seq<byte>, i: nat, t: seq<byte>) {
    i + |t| <= |c| && c[i..i + |t|] == t
  }

  lemma NotAt(c: seq<byte>, i: nat, t: seq<byte>)
    requires i < |c| && |t| > 0 && c[i] != t[0]
    ensures !At(c, i, t)
  {
    if i + |t| <= |c| {
      assert c[i..i + |t|][0] == c[i];
    }
  }

  lemma NotAKeyword(c: seq<byte>, i: nat)
    requires i < |c| && c[i] in {QUOTE, OPEN_BRACKET, OPEN_BRACE}
    ensures !At(c, i, TEXT_NULL) && !At(c, i, TEXT_FALSE) && !At(c, i, TEXT_TRUE)
  {
    NotAt(c, i, TEXT_NULL);
    NotAt(c, i, TEXT_FALSE);
    NotAt(c, i, TEXT_TRUE);
  }

  function SpaceEnd(c: seq<byte>, i: nat): (r: nat)
    requires i <= |c|
    ensures i <= r <= |c|
    decreases |c| - i
  {
    if i < |c| && c[i] <= 32 then SpaceEnd(c, i + 1) else i
  }

  /** Skips bytes up to 32, but stays on the last byte rather than leave the buffer. */
  function SkipSpace(c: seq<byte>, i: nat): (r: nat)
    ensures i <= r
    ensures i < |c| ==> r < |c|
    ensures i == |c| ==> r == |c|
  {
    if i >= |c| then i
    else
      var j := SpaceEnd(c, i);
      if j == |c| then j - 1 else j
  }

  predicate ByteAt(c: seq<byte>, i: nat, b: byte) {
    i < |c| && c[i] == b
  }

  /** Puts elements in front of what a parse found. */
  function Append<T>(done: seq<T>, rest: Option<(seq<T>, nat)>): Option<(seq<T>, nat)> {
    if rest.None? then None else Some((done + rest.value.0, rest.value.1))
  }

  /** The value at `i`, with the position after it; numbers are not part of this model. */
  function ParseValue(c: seq<byte>, i: nat, depth: nat): (r: Option<(Item, nat)>)
    ensures r.Some? ==> i < r.value.1 <= |c|
    decreases if i < |c| then |c| - i else 0, 2
  {
    if At(c, i, TEXT_NULL) then Some((Null, i + 4))
    else if At(c, i, TEXT_FALSE) then Some((False, i + 5))
    else if At(c, i, TEXT_TRUE) then Some((True, i + 4))
    else if ByteAt(c, i, QUOTE) then
      match ParseString(c, i)
      case None => None
      case Some((text, j)) => Some((String(text), j))
    else if ByteAt(c, i, OPEN_BRACKET) then
      if depth >= NESTING_LIMIT then None
      else
        var s := SkipSpace(c, i + 1);
        if ByteAt(c, s, CLOSE_BRACKET) then Some((Array([]), s + 1))
        else if s >= |c| then None
        else
          match ParseItems(c, s - 1, depth + 1)
          case None => None
          case Some((items, j)) => Some((Array(items), j))
    else if ByteAt(c, i, OPEN_BRACE) then
      if depth >= NESTING_LIMIT then None
      else
        var s := SkipSpace(c, i + 1);
        if ByteAt(c, s, CLOSE_BRACE) then Some((Object([]), s + 1))
        else if s >= |c| then None
        else
          match ParseMembers(c, s - 1, depth + 1)
          case None => None
          case Some((members, j)) => Some((Object(members), j))
    else None
  }

  /** Elements from the byte after `i` on, up to and including the closing bracket. */
  function ParseItems(c: seq<byte>, i: nat, depth: nat): (r: Option<(seq<Item>, nat)>)
    ensures r.Some? ==> i < r.value.1 <= |c|
    decreases if i < |c| then |c| - i else 0, 1
  {
    if i + 1 >= |c| then None
    else
      match ParseValue(c, SkipSpace(c, i + 1), depth)
      case None => None
      case Some((x, j)) =>
        var e := SkipSpace(c, j);
        if ByteAt(c, e, COMMA) then
          Append([x], ParseItems(c, e, depth))
        else if ByteAt(c, e, CLOSE_BRACKET) then Some(([x], e + 1))
        else None
  }

  function ParseMembers(c: seq<byte>, i: nat, depth: nat): (r: Option<(seq<Member>, nat)>)
    ensures r.Some? ==> i < r.value.1 <= |c|
    decreases if i < |c| then |c| - i else 0, 1
  {
    if i + 1 >= |c| then None
    else
      match ParseString(c, SkipSpace(c, i + 1))
      case None => None
      case Some((name, j)) =>
        var colon := SkipSpace(c, j);
        if !ByteAt(c, colon, COLON) then None
        else
          match ParseValue(c, SkipSpace(c, colon + 1), depth)
          case None => None
          case Some((x, k)) =>
            var e := SkipSpace(c, k);
            if ByteAt(c, e, COMMA) then
              Append([Member(name, x)], ParseMembers(c, e, depth))
            else if ByteAt(c, e, CLOSE_BRACE) then Some(([Member(name, x)], e + 1))
            else None
  }

  /** A whole text: byte order mark, leading space, one value and, when asked for, nothing but space before a NUL.
      The result is the value and the position up to which the text was read. */
  function ParseText(c: seq<byte>, requireNul: bool): Option<(Item, nat)> {
    if c == [] then None
    else
      var start := if |c| > 4 && c[..3] == [0xEF, 0xBB, 0xBF] then 3 else 0;
      match ParseValue(c, SkipSpace(c, start), 0)
      case None => None
      case Some((x, j)) =>
        var e := SkipSpace(c, j);
        if !requireNul then Some((x, j)) else if ByteAt(c, e, 0) then Some((x, e)) else None
  }
}
