// Parsing what was printed gives the tree back.
module CjsonRoundTrip {

  import opened CjsonText
  import CjsonList
  import CjsonParse
  import CjsonPrint

  // ----- Texts at a position -----

  lemma AtSplit(c: seq<byte>, i: nat, s: seq<byte>, t: seq<byte>)
    requires At(c, i, s + t)
    ensures At(c, i, s) && At(c, i + |s|, t)
  {
    assert s == (s + t)[..|s|];
    assert t == (s + t)[|s|..];
    assert c[i..i + |s|] == c[i..i + |s + t|][..|s|];
    assert c[i + |s|..i + |s| + |t|] == c[i..i + |s + t|][|s|..];
  }

  lemma AtSplit3(c: seq<byte>, i: nat, s: seq<byte>, t: seq<byte>, u: seq<byte>)
    requires At(c, i, s + t + u)
    ensures At(c, i, s) && At(c, i + |s|, t) && At(c, i + |s| + |t|, u)
  {
    hide At;
    AtSplit(c, i, s + t, u);
    AtSplit(c, i, s, t);
  }

  lemma AtSplit4(c: seq<byte>, i: nat, s: seq<byte>, t: seq<byte>, u: seq<byte>, v: seq<byte>)
    requires At(c, i, s + t + u + v)
    ensures At(c, i, s) && At(c, i + |s|, t) && At(c, i + |s| + |t|, u) && At(c, i + |s| + |t| + |u|, v)
  {
    hide At;
    AtSplit(c, i, s + t + u, v);
    AtSplit3(c, i, s, t, u);
  }

  lemma AtByte(c: seq<byte>, i: nat, t: seq<byte>, k: nat)
    requires At(c, i, t) && k < |t|
    ensures i + k < |c| && c[i + k] == t[k]
  {
    assert c[i..i + |t|][k] == c[i + k];
  }

  lemma {:induction false} SpaceEndAt(c: seq<byte>, i: nat, j: nat)
    requires i <= j < |c| && c[j] > 32
    requires forall k :: i <= k < j ==> c[k] <= 32
    ensures SpaceEnd(c, i) == j
    decreases j - i
  {
    if i < j {
      SpaceEndAt(c, i + 1, j);
    }
  }

  /** Skipping ends at the first byte above 32. */
  lemma SkipSpaceAt(c: seq<byte>, i: nat, j: nat)
    requires i <= j < |c| && c[j] > 32
    requires forall k :: i <= k < j ==> c[k] <= 32
    ensures SkipSpace(c, i) == j
  {
    SpaceEndAt(c, i, j);
  }

  // ----- Strings -----

  /** The scan steps over one escaped byte and finds the same closing quote. */
  lemma ScanEscapeByte(c: seq<byte>, p: nat, b: byte)
    requires At(c, p, EscapeByte(b))
    ensures var r, t := ScanString(c, p), ScanString(c, p + |EscapeByte(b)|);
            r.Some? == t.Some? && (r.Some? ==> r.value.0 == t.value.0)
  {
    var e := EscapeByte(b);
    AtByte(c, p, e, 0);
    if |e| >= 2 {
      AtByte(c, p, e, 1);
    }
    if |e| == 6 {
      AtByte(c, p, e, 2);
      AtByte(c, p, e, 3);
      AtByte(c, p, e, 4);
      AtByte(c, p, e, 5);
      assert ScanString(c, p + 2) == ScanString(c, p + 3) == ScanString(c, p + 4);
      assert ScanString(c, p + 4) == ScanString(c, p + 5) == ScanString(c, p + 6);
    }
  }

  /** Unescaping undoes the escaping of one byte. */
  lemma UnescapeEscapeByte(c: seq<byte>, p: nat, end: nat, b: byte)
    requires At(c, p, EscapeByte(b)) && p + |EscapeByte(b)| <= end < |c| && b != 0
    ensures Unescape(c, p, end) == Prepend([b], Unescape(c, p + |EscapeByte(b)|, end))
  {
    var e := EscapeByte(b);
    AtByte(c, p, e, 0);
    if |e| >= 2 {
      AtByte(c, p, e, 1);
    }
    if |e| == 6 {
      AtByte(c, p, e, 2);
      AtByte(c, p, e, 3);
      AtByte(c, p, e, 4);
      AtByte(c, p, e, 5);
      assert Hex4(c, p + 2) == b;
      assert Utf16Literal(c, p, end) == Some((6, [b]));
    }
  }

  lemma UnescapeNothing(c: seq<byte>, p: nat)
    requires ByteAt(c, p, QUOTE)
    ensures ScanString(c, p) == Some((p, 0)) && Unescape(c, p, p) == Some([])
  {
  }

  lemma {:induction false} UnescapeOfEscape(c: seq<byte>, p: nat, s: seq<byte>)
    requires At(c, p, Escape(s)) && ByteAt(c, p + |Escape(s)|, QUOTE) && NulFree(s)
    ensures ScanString(c, p).Some? && ScanString(c, p).value.0 == p + |Escape(s)|
    ensures Unescape(c, p, p + |Escape(s)|) == Some(s)
    decreases |s|
  {
    hide At, EscapeByte, ScanString, Unescape;
    if s == [] {
      UnescapeNothing(c, p);
    } else {
      var e, rest := EscapeByte(s[0]), s[1..];
      AtSplit(c, p, e, Escape(rest));
      UnescapeOfEscape(c, p + |e|, rest);
      ScanEscapeByte(c, p, s[0]);
      UnescapeEscapeByte(c, p, p + |Escape(s)|, s[0]);
      assert s == [s[0]] + rest;
    }
  }

  /** A printed string parses back to itself. */
  lemma ParseOfPrintString(c: seq<byte>, i: nat, s: seq<byte>)
    requires At(c, i, PrintString(s)) && NulFree(s)
    ensures ByteAt(c, i, QUOTE) && ParseString(c, i) == Some((s, i + |PrintString(s)|))
  {
    hide At, Escape, ScanString, Unescape, NulFree;
    AtSplit3(c, i, [QUOTE], Escape(s), [QUOTE]);
    AtByte(c, i, [QUOTE], 0);
    AtByte(c, i + 1 + |Escape(s)|, [QUOTE], 0);
    UnescapeOfEscape(c, i + 1, s);
  }

  // ----- Values -----

  lemma PrintStartsAboveSpace(x: Item, depth: nat, format: bool)
    ensures var t := Print(x, depth, format); |t| > 0 && 32 < t[0] < 128 && t[0] != CLOSE_BRACKET
  {
  }

  lemma {:induction false} ParseOfPrint(c: seq<byte>, i: nat, x: Item, depth: nat, level: nat, format: bool)
    requires At(c, i, Print(x, level, format))
    requires Strings(x) && depth <= NESTING_LIMIT && Nested(x, NESTING_LIMIT - depth)
    ensures ParseValue(c, i, depth) == Some((x, i + |Print(x, level, format)|))
    decreases x, 1
  {
    hide At, SkipSpace, ParseItems, ParseMembers, ParseString, PrintItems, PrintMembers, PrintString;
    PrintStartsAboveSpace(x, level, format);
    AtByte(c, i, Print(x, level, format), 0);
    match x
    case Null =>
    case False =>
      NotAt(c, i, TEXT_NULL);
    case True =>
      NotAt(c, i, TEXT_NULL);
      NotAt(c, i, TEXT_FALSE);
    case String(s) =>
      ParseOfPrintString(c, i, s);
      NotAKeyword(c, i);
    case Array(items) =>
      AtSplit(c, i, [OPEN_BRACKET], PrintItems(items, level + 1, format));
      ParseOfPrintArray(c, i, items, depth, level, format);
    case Object(members) =>
      AtSplit(c, i, OpenBrace(format), PrintMembers(members, level + 1, format));
      ParseOfPrintObject(c, i, members, depth, level, format);
  }

  lemma ItemsStartAboveSpace(items: seq<Item>, level: nat, format: bool)
    ensures var t := PrintItems(items, level, format);
            |t| > 0 && t[0] > 32 && (t[0] == CLOSE_BRACKET <==> items == [])
  {
    hide Print;
    if items != [] {
      PrintStartsAboveSpace(items[0], level, format);
    }
  }

  /** One turn of the element loop. */
  lemma ItemsStep(c: seq<byte>, before: nat, depth: nat, x: Item, j: nat)
    requires before + 1 < |c| && ParseValue(c, SkipSpace(c, before + 1), depth) == Some((x, j))
    ensures var e := SkipSpace(c, j);
            (ByteAt(c, e, CLOSE_BRACKET) ==> ParseItems(c, before, depth) == Some(([x], e + 1)))
            && (ByteAt(c, e, COMMA) && ParseItems(c, e, depth).Some? ==>
                  var (rest, k) := ParseItems(c, e, depth).value;
                  ParseItems(c, before, depth) == Some(([x] + rest, k)))
  {
    hide ParseValue, SkipSpace;
  }

  lemma {:induction false} ParseOfPrintArray(c: seq<byte>, i: nat, items: seq<Item>, depth: nat, level: nat,
                                             format: bool)
    requires At(c, i, [OPEN_BRACKET]) && At(c, i + 1, PrintItems(items, level + 1, format))
    requires depth < NESTING_LIMIT
    requires forall k :: 0 <= k < |items| ==> Strings(items[k]) && Nested(items[k], NESTING_LIMIT - (depth + 1))
    ensures ParseValue(c, i, depth) == Some((Array(items), i + 1 + |PrintItems(items, level + 1, format)|))
    decreases items, 1
  {
    hide At, SkipSpace, ParseItems, ParseMembers, ParseString, Print, Strings, Nested;
    AtByte(c, i, [OPEN_BRACKET], 0);
    NotAKeyword(c, i);
    ItemsStartAboveSpace(items, level + 1, format);
    AtByte(c, i + 1, PrintItems(items, level + 1, format), 0);
    SkipSpaceAt(c, i + 1, i + 1);
    if items != [] {
      ParseOfPrintItems(c, i + 1, i, items, depth + 1, level + 1, format);
    }
  }

  /** `before` is the position of the bracket or comma in front of the elements. */
  lemma {:induction false} ParseOfPrintItems(c: seq<byte>, i: nat, before: nat, items: seq<Item>, depth: nat,
                                             level: nat, format: bool)
    requires items != [] && At(c, i, PrintItems(items, level, format))
    requires before + 1 < |c| && SkipSpace(c, before + 1) == i
    requires depth <= NESTING_LIMIT
    requires forall k :: 0 <= k < |items| ==> Strings(items[k]) && Nested(items[k], NESTING_LIMIT - depth)
    ensures ParseItems(c, before, depth) == Some((items, i + |PrintItems(items, level, format)|))
    decreases items, 0
  {
    hide At, SkipSpace, ParseValue, ParseItems, Print, Strings, Nested, ItemSeparator;
    var x, rest := items[0], items[1..];
    var t, separator := Print(x, level, format), ItemSeparator(|items| > 1, format);
    AtSplit3(c, i, t, separator, PrintItems(rest, level, format));
    ParseOfPrint(c, i, x, depth, level, format);
    var e := i + |t|;
    ItemsStep(c, before, depth, x, e);
    SkipToNextItem(c, e, rest, level, format);
    if rest == [] {
      assert items == [x];
    } else {
      ParseOfPrintItems(c, e + |separator|, e, rest, depth, level, format);
      assert items == [x] + rest;
    }
  }

  /** What follows an element: a comma and the next element, or the closing bracket. */
  lemma SkipToNextItem(c: seq<byte>, e: nat, rest: seq<Item>, level: nat, format: bool)
    requires At(c, e, ItemSeparator(rest != [], format))
    requires At(c, e + |ItemSeparator(rest != [], format)|, PrintItems(rest, level, format))
    ensures SkipSpace(c, e) == e && ByteAt(c, e, if rest != [] then COMMA else CLOSE_BRACKET)
    ensures rest != [] ==>
              e + 1 < |c| && SkipSpace(c, e + 1) == e + |ItemSeparator(true, format)|
    ensures ItemSeparator(false, format) == []
  {
    hide At, SkipSpace, Print, PrintItems;
    assert rest == [] ==> PrintItems(rest, level, format)[0] == CLOSE_BRACKET by {
      ItemsStartAboveSpace(rest, level, format);
    }
    var separator, body := ItemSeparator(rest != [], format), PrintItems(rest, level, format);
    ItemsStartAboveSpace(rest, level, format);
    AtByte(c, e + |separator|, body, 0);
    if rest != [] {
      AtByte(c, e, separator, 0);
      AtByte(c, e, separator, |separator| - 1);
      SkipSpaceAt(c, e + 1, e + |separator|);
    }
    SkipSpaceAt(c, e, e);
  }

  function IndentWidth(level: nat, format: bool): nat {
    if format then level else 0
  }

  lemma IndentIsSpace(c: seq<byte>, i: nat, level: nat, format: bool)
    requires At(c, i, Indent(level, format))
    ensures forall k :: i <= k < i + IndentWidth(level, format) ==> c[k] <= 32
  {
    forall k | i <= k < i + IndentWidth(level, format) ensures c[k] <= 32 {
      AtByte(c, i, Indent(level, format), k - i);
    }
  }

  lemma ClosingBrace(c: seq<byte>, i: nat, level: nat, format: bool)
    requires level > 0 && At(c, i, PrintMembers([], level, format))
    ensures ByteAt(c, i + IndentWidth(level - 1, format), CLOSE_BRACE)
    ensures forall k :: i <= k < i + IndentWidth(level - 1, format) ==> c[k] <= 32
    ensures |PrintMembers([], level, format)| == IndentWidth(level - 1, format) + 1
  {
    hide At, Indent;
    AtSplit(c, i, Indent(level - 1, format), [CLOSE_BRACE]);
    AtByte(c, i + IndentWidth(level - 1, format), [CLOSE_BRACE], 0);
    IndentIsSpace(c, i, level - 1, format);
  }

  lemma FirstMember(c: seq<byte>, i: nat, members: seq<Member>, level: nat, format: bool)
    requires level > 0 && members != [] && At(c, i, PrintMembers(members, level, format))
    ensures var m := PrintMember(members[0], level, format); var s := MemberSeparator(|members| > 1, format);
            At(c, i, m) && At(c, i + |m|, s) && At(c, i + |m| + |s|, PrintMembers(members[1..], level, format))
            && |PrintMembers(members, level, format)| == |m| + |s| + |PrintMembers(members[1..], level, format)|
  {
    hide At, PrintMember, MemberSeparator;
    var m, s := PrintMember(members[0], level, format), MemberSeparator(|members| > 1, format);
    AtSplit3(c, i, m, s, PrintMembers(members[1..], level, format));
  }

  /** The name, the colon and the value of a printed member, and the space in front of them. */
  lemma MemberParts(c: seq<byte>, i: nat, m: Member, level: nat, format: bool)
    requires At(c, i, PrintMember(m, level, format))
    ensures var q := i + IndentWidth(level, format); var colon := q + |PrintString(m.name)|;
            var v := colon + |Colon(format)|;
            At(c, q, PrintString(m.name)) && At(c, colon, Colon(format)) && At(c, v, Print(m.value, level, format))
            && v + |Print(m.value, level, format)| == i + |PrintMember(m, level, format)|
    ensures forall k :: i <= k < i + IndentWidth(level, format) ==> c[k] <= 32
  {
    hide At, Print, PrintString, Indent, Colon;
    AtSplit4(c, i, Indent(level, format), PrintString(m.name), Colon(format), Print(m.value, level, format));
    IndentIsSpace(c, i, level, format);
  }

  /** Skipping the space in front of a member stops at its name. */
  lemma SkipToName(c: seq<byte>, start: nat, i: nat, m: Member, level: nat, format: bool)
    requires start <= i && At(c, i, PrintMember(m, level, format))
    requires forall k :: start <= k < i && k < |c| ==> c[k] <= 32
    ensures var q := i + IndentWidth(level, format); q < |c| && c[q] == QUOTE && SkipSpace(c, start) == q
  {
    hide At, SkipSpace, Indent, PrintMember, Escape;
    MemberParts(c, i, m, level, format);
    var q := i + IndentWidth(level, format);
    AtByte(c, q, PrintString(m.name), 0);
    SkipSpaceAt(c, start, q);
  }

  lemma {:induction false} ParseOfPrintObject(c: seq<byte>, i: nat, members: seq<Member>, depth: nat, level: nat,
                                              format: bool)
    requires At(c, i, OpenBrace(format)) && At(c, i + |OpenBrace(format)|, PrintMembers(members, level + 1, format))
    requires depth < NESTING_LIMIT
    requires forall k :: 0 <= k < |members| ==>
                           NulFree(members[k].name) && Strings(members[k].value)
                           && Nested(members[k].value, NESTING_LIMIT - (depth + 1))
    ensures ParseValue(c, i, depth)
            == Some((Object(members), i + |OpenBrace(format)| + |PrintMembers(members, level + 1, format)|))
    decreases members, 1
  {
    hide At, SkipSpace, ParseMembers, ParseItems, ParseString, PrintMember, PrintMembers, Strings, Nested, NulFree;
    AtByte(c, i, OpenBrace(format), 0);
    AtByte(c, i, OpenBrace(format), |OpenBrace(format)| - 1);
    NotAKeyword(c, i);
    var start := i + |OpenBrace(format)|;
    if members == [] {
      ClosingBrace(c, start, level + 1, format);
      SkipSpaceAt(c, i + 1, start + IndentWidth(level, format));
    } else {
      FirstMember(c, start, members, level + 1, format);
      SkipToName(c, i + 1, start, members[0], level + 1, format);
      var q := start + IndentWidth(level + 1, format);
      SkipSpaceAt(c, q, q);
      ParseOfPrintMembers(c, start, q - 1, members, depth + 1, level + 1, format);
    }
  }

  /** One turn of the member loop. */
  lemma MembersStep(c: seq<byte>, before: nat, depth: nat, m: Member, j: nat, k: nat)
    requires before + 1 < |c| && ParseString(c, SkipSpace(c, before + 1)) == Some((m.name, j))
    requires var colon := SkipSpace(c, j);
             ByteAt(c, colon, COLON) && ParseValue(c, SkipSpace(c, colon + 1), depth) == Some((m.value, k))
    ensures var e := SkipSpace(c, k);
            (ByteAt(c, e, CLOSE_BRACE) ==> ParseMembers(c, before, depth) == Some(([m], e + 1)))
            && (ByteAt(c, e, COMMA) && ParseMembers(c, e, depth).Some? ==>
                  var (rest, l) := ParseMembers(c, e, depth).value;
                  ParseMembers(c, before, depth) == Some(([m] + rest, l)))
  {
    hide ParseValue, ParseString, SkipSpace;
  }

  lemma {:induction false} ParseOfPrintMembers(c: seq<byte>, i: nat, before: nat, members: seq<Member>, depth: nat,
                                               level: nat, format: bool)
    requires level > 0 && members != [] && At(c, i, PrintMembers(members, level, format))
    requires before + 1 < |c| && SkipSpace(c, before + 1) == i + IndentWidth(level, format)
    requires depth <= NESTING_LIMIT
    requires forall k :: 0 <= k < |members| ==>
                           NulFree(members[k].name) && Strings(members[k].value)
                           && Nested(members[k].value, NESTING_LIMIT - depth)
    ensures ParseMembers(c, before, depth) == Some((members, i + |PrintMembers(members, level, format)|))
    decreases members, 0
  {
    hide At, SkipSpace, ParseValue, ParseMembers, ParseString, Print, PrintMember, PrintString;
    hide Strings, Nested, NulFree, Colon, Indent, IndentWidth;
    var m, rest := members[0], members[1..];
    var q, t := i + IndentWidth(level, format), Print(m.value, level, format);
    FirstMember(c, i, members, level, format);
    MemberParts(c, i, m, level, format);
    ParseOfPrintString(c, q, m.name);
    var colon := q + |PrintString(m.name)|;
    SkipToValue(c, colon, m.value, level, format);
    ParseOfPrint(c, colon + |Colon(format)|, m.value, depth, level, format);
    var e := i + |PrintMember(m, level, format)|;
    MembersStep(c, before, depth, m, colon, e);
    SkipToNext(c, e, rest, level, format);
    if rest == [] {
      assert members == [m];
    } else {
      ParseOfPrintMembers(c, e + |MemberSeparator(true, format)|, e, rest, depth, level, format);
      assert members == [m] + rest;
    }
  }

  lemma SkipToValue(c: seq<byte>, colon: nat, x: Item, level: nat, format: bool)
    requires At(c, colon, Colon(format)) && At(c, colon + |Colon(format)|, Print(x, level, format))
    ensures ByteAt(c, colon, COLON) && SkipSpace(c, colon) == colon
    ensures SkipSpace(c, colon + 1) == colon + |Colon(format)|
  {
    hide At, SkipSpace, Print;
    AtByte(c, colon, Colon(format), 0);
    AtByte(c, colon, Colon(format), |Colon(format)| - 1);
    SkipSpaceAt(c, colon, colon);
    PrintStartsAboveSpace(x, level, format);
    AtByte(c, colon + |Colon(format)|, Print(x, level, format), 0);
    SkipSpaceAt(c, colon + 1, colon + |Colon(format)|);
  }

  /** What follows a member: a comma and the next name, or the closing brace. */
  lemma SkipToNext(c: seq<byte>, e: nat, rest: seq<Member>, level: nat, format: bool)
    requires level > 0 && At(c, e, MemberSeparator(rest != [], format))
    requires At(c, e + |MemberSeparator(rest != [], format)|, PrintMembers(rest, level, format))
    ensures rest != [] ==>
              var next := e + |MemberSeparator(true, format)|;
              ByteAt(c, e, COMMA) && SkipSpace(c, e) == e && e + 1 < |c|
              && SkipSpace(c, e + 1) == next + IndentWidth(level, format)
    ensures rest == [] ==>
              var s := SkipSpace(c, e);
              ByteAt(c, s, CLOSE_BRACE)
              && s + 1 == e + |MemberSeparator(false, format)| + |PrintMembers([], level, format)|
  {
    hide At, SkipSpace, PrintMembers, PrintMember;
    var separator := MemberSeparator(rest != [], format);
    var next := e + |separator|;
    if separator != [] {
      AtByte(c, e, separator, 0);
      AtByte(c, e, separator, |separator| - 1);
    }
    if rest == [] {
      ClosingBrace(c, next, level, format);
      SkipSpaceAt(c, e, next + IndentWidth(level - 1, format));
    } else {
      SkipSpaceAt(c, e, e);
      FirstMember(c, next, rest, level, format);
      SkipToName(c, e + 1, next, rest[0], level, format);
    }
  }

  // ----- What is parsed is nested within the limit -----

  lemma {:induction false} ParsedValueIsNested(c: seq<byte>, i: nat, depth: nat)
    requires ParseValue(c, i, depth).Some? && depth <= NESTING_LIMIT
    ensures Nested(ParseValue(c, i, depth).value.0, NESTING_LIMIT - depth)
    decreases if i < |c| then |c| - i else 0, 2
  {
    hide ParseString, ParseItems, ParseMembers, SkipSpace;
    if ByteAt(c, i, OPEN_BRACKET) {
      CjsonParse.ArrayUnfold(c, i, depth);
      var s := SkipSpace(c, i + 1);
      if !ByteAt(c, s, CLOSE_BRACKET) {
        ParsedItemsAreNested(c, s - 1, depth + 1);
      }
    } else if ByteAt(c, i, OPEN_BRACE) {
      CjsonParse.ObjectUnfold(c, i, depth);
      var s := SkipSpace(c, i + 1);
      if !ByteAt(c, s, CLOSE_BRACE) {
        ParsedMembersAreNested(c, s - 1, depth + 1);
      }
    }
  }

  lemma {:induction false} ParsedItemsAreNested(c: seq<byte>, i: nat, depth: nat)
    requires ParseItems(c, i, depth).Some? && depth <= NESTING_LIMIT
    ensures var items := ParseItems(c, i, depth).value.0;
            forall k :: 0 <= k < |items| ==> Nested(items[k], NESTING_LIMIT - depth)
    decreases if i < |c| then |c| - i else 0, 1
  {
    hide ParseValue, SkipSpace, Nested;
    ParsedValueIsNested(c, SkipSpace(c, i + 1), depth);
    var (x, j) := ParseValue(c, SkipSpace(c, i + 1), depth).value;
    var e := SkipSpace(c, j);
    if ByteAt(c, e, COMMA) {
      ParsedItemsAreNested(c, e, depth);
    }
  }

  lemma {:induction false} ParsedMembersAreNested(c: seq<byte>, i: nat, depth: nat)
    requires ParseMembers(c, i, depth).Some? && depth <= NESTING_LIMIT
    ensures var members := ParseMembers(c, i, depth).value.0;
            forall k :: 0 <= k < |members| ==> Nested(members[k].value, NESTING_LIMIT - depth)
    decreases if i < |c| then |c| - i else 0, 1
  {
    hide ParseValue, ParseString, SkipSpace, Nested;
    CjsonParse.MembersUnfold(c, i, depth);
    var (name, j) := ParseString(c, SkipSpace(c, i + 1)).value;
    var v := SkipSpace(c, SkipSpace(c, j) + 1);
    ParsedValueIsNested(c, v, depth);
    var (x, k) := ParseValue(c, v, depth).value;
    var e := SkipSpace(c, k);
    if ByteAt(c, e, COMMA) {
      ParsedMembersAreNested(c, e, depth);
    }
  }

  // ----- Whole texts -----

  /** Printing, formatted or not, and parsing the text with its terminator gives an equal tree, and reads
      all of the text. */
  lemma ParseTextOfPrint(x: Item, format: bool, requireNul: bool)
    requires Strings(x) && Nested(x, 1000)
    ensures var t := Print(x, 0, format); ParseText(t + [0], requireNul) == Some((x, |t|))
  {
    hide Print, ParseValue, Strings, Nested;
    var t := Print(x, 0, format);
    var c := t + [0];
    PrintStartsAboveSpace(x, 0, format);
    assert c[0] == t[0] != 0xEF;
    SkipSpaceAt(c, 0, 0);
    ParseOfPrint(c, 0, x, 0, 0, format);
    assert SpaceEnd(c, |t|) == |c|;
  }

  /** A tree comes back exactly when it is nested within the limit. */
  lemma PrintedParsesBack(x: Item, format: bool, requireNul: bool)
    requires Strings(x)
    ensures var r := ParseText(Print(x, 0, format) + [0], requireNul);
            r.Some? && r.value.0 == x <==> Nested(x, 1000)
  {
    hide Print, ParseValue, Strings, Nested;
    var c := Print(x, 0, format) + [0];
    if Nested(x, 1000) {
      ParseTextOfPrint(x, format, requireNul);
    } else if ParseText(c, requireNul).Some? && ParseText(c, requireNul).value.0 == x {
      ParsedTextIsNested(c, requireNul);
    }
  }

  lemma ParsedTextIsNested(c: seq<byte>, requireNul: bool)
    requires ParseText(c, requireNul).Some?
    ensures Nested(ParseText(c, requireNul).value.0, 1000)
  {
    hide ParseValue, SkipSpace, Nested;
    ParsedValueIsNested(c, SkipSpace(c, if |c| > 4 && c[..3] == [0xEF, 0xBB, 0xBF] then 3 else 0), 0);
  }

  /** Whatever text a tree was parsed from, printing and parsing it again gives the same tree. */
  lemma Reprinted(c: seq<byte>, format: bool, requireNul: bool, requireNulAgain: bool)
    requires ParseText(c, requireNul).Some? && Strings(ParseText(c, requireNul).value.0)
    ensures var x := ParseText(c, requireNul).value.0; var t := Print(x, 0, format);
            ParseText(t + [0], requireNulAgain) == Some((x, |t|))
  {
    hide ParseText, Print, Strings, Nested;
    ParsedTextIsNested(c, requireNul);
    ParseTextOfPrint(ParseText(c, requireNul).value.0, format, requireNulAgain);
  }

  /** The printer and the parser themselves: printing fails only for size or memory, and otherwise the tree
      comes back exactly when it is nested within the limit. */
  method PrintThenParse(x: Item, format: bool, requireNullTerminated: bool)
    returns (parsed: CjsonList.Node?, ghost refused: bool)
    requires Strings(x)
    ensures parsed != null ==> fresh(parsed) && (parsed.value == x <==> Nested(x, 1000))
    ensures !refused && |Print(x, 0, format)| + 2 <= 0x7FFF_FFFF && Nested(x, 1000) ==> parsed != null
    ensures refused ==> parsed == null
  {
    hide Print, ParseText, Strings, Nested;
    var text;
    text, refused := CjsonPrint.PrintText(x, format);
    parsed := null;
    if text.Some? {
      CjsonPrint.PrintNulFree(x, 0, format);
      PrintedParsesBack(x, format, requireNullTerminated);
      var end;
      ghost var children;
      parsed, end, children := CjsonParse.ParseWithOpts(text.value, requireNullTerminated);
    }
  }
}
