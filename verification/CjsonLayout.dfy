// What the printer writes, token by token: the tokens of a tree, alone or with layout between them.
module CjsonLayout {

  import opened CjsonText
  import opened CjsonSpelling

  /** A token of a text: punctuation, one of the three names, a string value, or a member's name. */
  datatype Token = Mark(b: byte) | Name(text: seq<byte>) | Text(s: seq<byte>) | Key(s: seq<byte>)

  function Tokens(x: Item): seq<Token>
    decreases x, 1
  {
    match x
    case Null => [Name([110, 117, 108, 108])]
    case False => [Name([102, 97, 108, 115, 101])]
    case True => [Name([116, 114, 117, 101])]
    case String(s) => [Text(s)]
    case Array(items) => [Mark(91)] + ItemTokens(items) + [Mark(93)]
    case Object(members) => [Mark(123)] + MemberTokens(members) + [Mark(125)]
  }

  function ItemTokens(items: seq<Item>): seq<Token>
    decreases items, 0
  {
    if items == [] then []
    else Tokens(items[0]) + (if |items| > 1 then [Mark(44)] else []) + ItemTokens(items[1..])
  }

  function MemberTokens(members: seq<Member>): seq<Token>
    decreases members, 0
  {
    if members == [] then []
    else
      [Key(members[0].name), Mark(58)] + Tokens(members[0].value)
      + (if |members| > 1 then [Mark(44)] else []) + MemberTokens(members[1..])
  }

  function Bytes(t: Token): seq<byte> {
    match t
    case Mark(b) => [b]
    case Name(text) => text
    case Text(s) => [34] + Escape(s) + [34]
    case Key(s) => [34] + Escape(s) + [34]
  }

  lemma Assoc<T>(a: seq<T>, b: seq<T>, c: seq<T>)
    ensures a + (b + c) == a + b + c
  {
  }

  lemma AssocFour<T>(a: seq<T>, b: seq<T>, c: seq<T>, d: seq<T>)
    ensures a + (b + (c + d)) == a + b + c + d
  {
  }

  // ----- Strings -----

  /** A byte is written as it is, with the letter of its two-character escape, or in lower-case digits. */
  lemma EscapedForm(b: byte)
    ensures b >= 32 && b != 34 && b != 92 ==> EscapeByte(b) == [b]
    ensures forall letter: byte :: StandsFor(letter, b) && b != 47 ==> EscapeByte(b) == [92, letter]
    ensures b < 32 && (forall letter: byte :: !StandsFor(letter, b)) ==>
              var e := EscapeByte(b);
              && |e| == 6 && e[..5] == [92, 117, 48, 48, 48 + b / 16]
              && DigitIs(e[5], b % 16) && !(65 <= e[5] <= 70)
  {
    if b < 32 && (forall letter: byte :: !StandsFor(letter, b)) {
      assert !StandsFor(98, b) && !StandsFor(102, b) && !StandsFor(110, b) && !StandsFor(114, b) && !StandsFor(116, b);
    }
  }

  // ----- Without layout -----

  function Plain(tokens: seq<Token>): seq<byte> {
    if tokens == [] then [] else Bytes(tokens[0]) + Plain(tokens[1..])
  }

  lemma {:induction false} PlainConcat(s: seq<Token>, t: seq<Token>)
    ensures Plain(s + t) == Plain(s) + Plain(t)
    decreases |s|
  {
    if s == [] {
      assert s + t == t;
    } else {
      assert (s + t)[1..] == s[1..] + t;
      PlainConcat(s[1..], t);
    }
  }

  /** Unformatted text is the concatenation of the tokens. */
  lemma {:induction false} UnformattedIsPlain(x: Item, depth: nat)
    ensures Print(x, depth, false) == Plain(Tokens(x))
    decreases x, 1
  {
    hide Escape, ItemTokens, MemberTokens, PrintItems, PrintMembers;
    match x
    case Array(items) =>
      ItemsArePlain(items, depth + 1);
      PlainConcat([Mark(91)] + ItemTokens(items), [Mark(93)]);
      PlainConcat([Mark(91)], ItemTokens(items));
      Assoc([91], Plain(ItemTokens(items)), [93]);
    case Object(members) =>
      MembersArePlain(members, depth + 1);
      PlainConcat([Mark(123)] + MemberTokens(members), [Mark(125)]);
      PlainConcat([Mark(123)], MemberTokens(members));
      Assoc([123], Plain(MemberTokens(members)), [125]);
    case _ =>
  }

  lemma {:induction false} ItemsArePlain(items: seq<Item>, depth: nat)
    ensures PrintItems(items, depth, false) == Plain(ItemTokens(items)) + [93]
    decreases items, 0
  {
    hide Tokens, Print;
    if items != [] {
      var comma: seq<Token> := if |items| > 1 then [Mark(44)] else [];
      UnformattedIsPlain(items[0], depth);
      ItemsArePlain(items[1..], depth);
      PlainConcat(Tokens(items[0]) + comma, ItemTokens(items[1..]));
      PlainConcat(Tokens(items[0]), comma);
      Assoc(Plain(Tokens(items[0])) + Plain(comma), Plain(ItemTokens(items[1..])), [93]);
    }
  }

  lemma {:induction false} MemberIsPlain(m: Member, depth: nat)
    ensures PrintMember(m, depth, false) == Plain([Key(m.name), Mark(58)] + Tokens(m.value))
    decreases m, 0
  {
    hide Tokens, Print, PrintString, Plain, Indent;
    var key := [Key(m.name), Mark(58)];
    UnformattedIsPlain(m.value, depth);
    PlainConcat(key, Tokens(m.value));
    PlainKey(m.name);
    assert Indent(depth, false) + PrintString(m.name) == PrintString(m.name);
  }

  lemma PlainKey(s: seq<byte>)
    ensures Plain([Key(s), Mark(58)]) == PrintString(s) + [58]
  {
    hide Escape;
    assert [Key(s), Mark(58)][1..] == [Mark(58)];
    assert Plain([Mark(58)]) == [58];
  }

  lemma {:induction false} MembersArePlain(members: seq<Member>, depth: nat)
    requires depth > 0
    ensures PrintMembers(members, depth, false) == Plain(MemberTokens(members)) + [125]
    decreases members, 0
  {
    hide Tokens, PrintMember;
    if members != [] {
      var m := members[0];
      var comma: seq<Token> := if |members| > 1 then [Mark(44)] else [];
      MemberIsPlain(m, depth);
      MembersArePlain(members[1..], depth);
      PlainConcat([Key(m.name), Mark(58)] + Tokens(m.value) + comma, MemberTokens(members[1..]));
      PlainConcat([Key(m.name), Mark(58)] + Tokens(m.value), comma);
      Assoc(PrintMember(m, depth, false) + Plain(comma), Plain(MemberTokens(members[1..])), [125]);
    }
  }

  /** Tokens that are not strings have no byte up to 32. */
  predicate NoSpace(tokens: seq<Token>) {
    forall k :: 0 <= k < |tokens| && (tokens[k].Mark? || tokens[k].Name?) ==>
                  forall i :: 0 <= i < |Bytes(tokens[k])| ==> Bytes(tokens[k])[i] > 32
  }

  lemma {:induction false} TokensHaveNoSpace(x: Item)
    ensures NoSpace(Tokens(x))
    decreases x, 1
  {
    match x
    case Array(items) => ItemsHaveNoSpace(items);
    case Object(members) => MembersHaveNoSpace(members);
    case _ =>
  }

  lemma {:induction false} ItemsHaveNoSpace(items: seq<Item>)
    ensures NoSpace(ItemTokens(items))
    decreases items, 0
  {
    hide Tokens;
    if items != [] {
      TokensHaveNoSpace(items[0]);
      ItemsHaveNoSpace(items[1..]);
    }
  }

  lemma {:induction false} MembersHaveNoSpace(members: seq<Member>)
    ensures NoSpace(MemberTokens(members))
    decreases members, 0
  {
    hide Tokens;
    if members != [] {
      TokensHaveNoSpace(members[0].value);
      MembersHaveNoSpace(members[1..]);
    }
  }

  // ----- With layout -----

  function Tabs(n: nat): seq<byte> {
    seq(n, _ => 9)
  }

  function Pop(open: seq<bool>): seq<bool> {
    if open == [] then [] else open[..|open| - 1]
  }

  /** Layout as a matter of the tokens alone.  `open` tells of every array or object that is open whether it is an
      object, and `first` whether the last token was an opening brace: a newline after the opening brace and after
      every member, a tab for every level in front of a name or a closing brace, a tab after a colon, and a space
      after a comma of an array. */
  function Laid(tokens: seq<Token>, open: seq<bool>, first: bool): seq<byte>
    decreases |tokens|
  {
    if tokens == [] then []
    else
      var t, rest := tokens[0], tokens[1..];
      if t == Mark(123) then [123, 10] + Laid(rest, open + [true], true)
      else if t == Mark(125) then (if first then [] else [10]) + Tabs(|Pop(open)|) + [125] + Laid(rest, Pop(open), false)
      else if t == Mark(91) then [91] + Laid(rest, open + [false], false)
      else if t == Mark(93) then [93] + Laid(rest, Pop(open), false)
      else if t == Mark(44) then
        (if open != [] && open[|open| - 1] then [44, 10] else [44, 32]) + Laid(rest, open, false)
      else if t == Mark(58) then [58, 9] + Laid(rest, open, false)
      else if t.Key? then Tabs(|open|) + Bytes(t) + Laid(rest, open, false)
      else Bytes(t) + Laid(rest, open, false)
  }

  /** Formatted text is the tokens with that layout. */
  lemma FormattedIsLaid(x: Item)
    ensures Print(x, 0, true) == Laid(Tokens(x), [], false)
  {
    hide Tokens, Print, Laid;
    LaidValue(x, [], [], false);
    LaidNothing();
    assert Tokens(x) + [] == Tokens(x);
    assert Print(x, 0, true) + [] == Print(x, 0, true);
  }

  lemma LaidNothing()
    ensures Laid([], [], false) == []
  {
  }

  lemma LaidFirst(t: Token, rest: seq<Token>, open: seq<bool>, first: bool)
    ensures Laid([t] + rest, open, first)
            == if t == Mark(123) then [123, 10] + Laid(rest, open + [true], true)
               else if t == Mark(125) then
                 (if first then [] else [10]) + Tabs(|Pop(open)|) + [125] + Laid(rest, Pop(open), false)
               else if t == Mark(91) then [91] + Laid(rest, open + [false], false)
               else if t == Mark(93) then [93] + Laid(rest, Pop(open), false)
               else if t == Mark(44) then
                 (if open != [] && open[|open| - 1] then [44, 10] else [44, 32]) + Laid(rest, open, false)
               else if t == Mark(58) then [58, 9] + Laid(rest, open, false)
               else if t.Key? then Tabs(|open|) + Bytes(t) + Laid(rest, open, false)
               else Bytes(t) + Laid(rest, open, false)
  {
    hide Bytes;
    assert ([t] + rest)[1..] == rest;
  }

  lemma {:induction false} LaidValue(x: Item, rest: seq<Token>, open: seq<bool>, first: bool)
    ensures Laid(Tokens(x) + rest, open, first) == Print(x, |open|, true) + Laid(rest, open, false)
    decreases x, 1
  {
    hide Laid, Escape, Pop, ItemTokens, MemberTokens, PrintItems, PrintMembers;
    match x
    case Array(items) =>
      var inner := open + [false];
      PopLast(open, false);
      AssocFour([Mark(91)], ItemTokens(items), [Mark(93)], rest);
      LaidFirst(Mark(91), ItemTokens(items) + ([Mark(93)] + rest), open, first);
      LaidItems(items, rest, inner, false);
      Assoc([91], PrintItems(items, |open| + 1, true), Laid(rest, open, false));
    case Object(members) =>
      var inner := open + [true];
      PopLast(open, true);
      AssocFour([Mark(123)], MemberTokens(members), [Mark(125)], rest);
      LaidFirst(Mark(123), MemberTokens(members) + ([Mark(125)] + rest), open, first);
      LaidMembers(members, rest, inner, true);
      Assoc([123, 10], PrintMembers(members, |open| + 1, true), Laid(rest, open, false));
    case _ =>
      LaidFirst(Tokens(x)[0], rest, open, first);
  }

  lemma PopLast(open: seq<bool>, b: bool)
    ensures Pop(open + [b]) == open
  {
  }

  lemma {:induction false} LaidItems(items: seq<Item>, rest: seq<Token>, open: seq<bool>, first: bool)
    requires open != [] && !open[|open| - 1]
    ensures Laid(ItemTokens(items) + ([Mark(93)] + rest), open, first)
            == PrintItems(items, |open|, true) + Laid(rest, Pop(open), false)
    decreases items, 0
  {
    hide Laid, Tokens, Print, Pop;
    var close := [Mark(93)] + rest;
    if items == [] {
      assert ItemTokens(items) + close == close;
      LaidFirst(Mark(93), rest, open, first);
    } else {
      var x, others := items[0], ItemTokens(items[1..]);
      LaidItems(items[1..], rest, open, false);
      if |items| > 1 {
        AssocFour(Tokens(x), [Mark(44)], others, close);
        LaidValue(x, [Mark(44)] + (others + close), open, first);
        LaidFirst(Mark(44), others + close, open, false);
        AssocFour(Print(x, |open|, true), [44, 32], PrintItems(items[1..], |open|, true), Laid(rest, Pop(open), false));
      } else {
        assert ItemTokens(items) == Tokens(x) + others;
        Assoc(Tokens(x), others, close);
        LaidValue(x, others + close, open, first);
        Assoc(Print(x, |open|, true), PrintItems(items[1..], |open|, true), Laid(rest, Pop(open), false));
      }
    }
  }

  lemma {:induction false} LaidMember(m: Member, tail: seq<Token>, open: seq<bool>, first: bool)
    ensures Laid([Key(m.name), Mark(58)] + Tokens(m.value) + tail, open, first)
            == PrintMember(m, |open|, true) + Laid(tail, open, false)
    decreases m, 0
  {
    hide Laid, Tokens, Print, Escape;
    assert [Key(m.name), Mark(58)] + Tokens(m.value) + tail == [Key(m.name)] + ([Mark(58)] + (Tokens(m.value) + tail));
    LaidFirst(Key(m.name), [Mark(58)] + (Tokens(m.value) + tail), open, first);
    LaidFirst(Mark(58), Tokens(m.value) + tail, open, false);
    LaidValue(m.value, tail, open, false);
  }

  lemma MembersUnfold(members: seq<Member>, depth: nat)
    requires depth > 0
    ensures members == [] ==> MemberTokens(members) == [] && PrintMembers(members, depth, true) == Tabs(depth - 1) + [125]
    ensures members != [] ==>
              var m, more := members[0], |members| > 1;
              && MemberTokens(members) == [Key(m.name), Mark(58)] + Tokens(m.value) + (if more then [Mark(44)] else [])
                                          + MemberTokens(members[1..])
              && PrintMembers(members, depth, true)
                 == PrintMember(m, depth, true) + (if more then [44, 10] else [10]) + PrintMembers(members[1..], depth, true)
  {
    hide Tokens, PrintMember;
  }

  lemma PopSize(open: seq<bool>)
    requires open != []
    ensures |Pop(open)| == |open| - 1
  {
  }

  lemma {:induction false} LaidMembers(members: seq<Member>, rest: seq<Token>, open: seq<bool>, first: bool)
    requires open != [] && open[|open| - 1]
    ensures Laid(MemberTokens(members) + ([Mark(125)] + rest), open, first)
            == (if members == [] && !first then [10] else []) + PrintMembers(members, |open|, true)
               + Laid(rest, Pop(open), false)
    decreases members, 0
  {
    hide Laid, Tokens, PrintMember, MemberTokens, PrintMembers, Pop;
    var close := [Mark(125)] + rest;
    MembersUnfold(members, |open|);
    if members == [] {
      assert MemberTokens(members) + close == close;
      PopSize(open);
      LaidFirst(Mark(125), rest, open, first);
    } else {
      var m, others := members[0], MemberTokens(members[1..]);
      var own := [Key(m.name), Mark(58)] + Tokens(m.value);
      var text, after := PrintMembers(members[1..], |open|, true), Laid(rest, Pop(open), false);
      LaidMembers(members[1..], rest, open, false);
      if |members| > 1 {
        AssocFour(own, [Mark(44)], others, close);
        LaidMember(m, [Mark(44)] + (others + close), open, first);
        LaidFirst(Mark(44), others + close, open, false);
        AssocFour(PrintMember(m, |open|, true), [44, 10], text, after);
      } else {
        assert MemberTokens(members) == own + others;
        Assoc(own, others, close);
        LaidMember(m, others + close, open, first);
        AssocFour(PrintMember(m, |open|, true), [10], text, after);
        Assoc([10], text, after);
      }
    }
  }
}
