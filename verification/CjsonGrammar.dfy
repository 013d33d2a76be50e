// The texts of section 2 of RFC 8259, with any spelling of strings and any space between tokens, and the tree each stands for.
module CjsonGrammar {

  import opened CjsonText
  import opened CjsonSpelling
  import opened CjsonRoundTrip
  import CjsonParse

  /** A text as it is derived: names, spelled strings, and arrays and objects with the space in them. */
  datatype Doc =
    | Name(x: Item)
    | Quoted(units: seq<Unit>)
    | Listed(space: seq<byte>, elements: seq<Element>)
    | Keyed(space: seq<byte>, entries: seq<Entry>)

  /** An element and the space around it. */
  datatype Element = Element(before: seq<byte>, doc: Doc, after: seq<byte>)

  /** A member: its name, its value, and the space before, between and after them and the colon. */
  datatype Entry = Entry(before: seq<byte>, name: seq<Unit>, between: seq<byte>, middle: seq<byte>, doc: Doc, after: seq<byte>)

  predicate Space(s: seq<byte>) {
    forall k :: 0 <= k < |s| ==> s[k] <= 32
  }

  ghost predicate ValidDoc(d: Doc) {
    match d
    case Name(x) => x == Null || x == False || x == True
    case Quoted(units) => AllValid(units)
    case Listed(space, elements) =>
      && Space(space)
      && forall k :: 0 <= k < |elements| ==>
                       Space(elements[k].before) && Space(elements[k].after) && ValidDoc(elements[k].doc)
    case Keyed(space, entries) =>
      && Space(space)
      && forall k :: 0 <= k < |entries| ==> ValidEntry(entries[k])
  }

  ghost predicate ValidEntry(e: Entry) {
    Space(e.before) && Space(e.between) && Space(e.middle) && Space(e.after) && AllValid(e.name) && ValidDoc(e.doc)
  }

  function Render(d: Doc): seq<byte>
    decreases d, 1
  {
    match d
    case Name(x) => if x == Null then [110, 117, 108, 108] else if x == False then [102, 97, 108, 115, 101] else [116, 114, 117, 101]
    case Quoted(units) => [34] + SpellAll(units) + [34]
    case Listed(space, elements) =>
      [91] + (if elements == [] then space else elements[0].before + RenderElements(elements)) + [93]
    case Keyed(space, entries) =>
      [123] + (if entries == [] then space else entries[0].before + RenderEntries(entries)) + [125]
  }

  /** The elements from the first one itself on. */
  function RenderElements(elements: seq<Element>): seq<byte>
    requires elements != []
    decreases elements, 0
  {
    var e := elements[0];
    Render(e.doc) + e.after + (if |elements| > 1 then [44] + (elements[1].before + RenderElements(elements[1..])) else [])
  }

  function RenderEntries(entries: seq<Entry>): seq<byte>
    requires entries != []
    decreases entries, 0
  {
    var e := entries[0];
    RenderEntry(e) + (if |entries| > 1 then [44] + (entries[1].before + RenderEntries(entries[1..])) else [])
  }

  function RenderEntry(e: Entry): seq<byte>
    decreases e, 0
  {
    [34] + SpellAll(e.name) + [34] + (e.between + [58] + e.middle) + Render(e.doc) + e.after
  }

  /** The tree that a text stands for. */
  ghost function Tree(d: Doc): Item
    requires ValidDoc(d)
    decreases d, 1
  {
    match d
    case Name(x) => x
    case Quoted(units) => String(StandsAll(units))
    case Listed(_, elements) => Array(Trees(elements))
    case Keyed(_, entries) => Object(NamedTrees(entries))
  }

  ghost function Trees(elements: seq<Element>): seq<Item>
    requires forall k :: 0 <= k < |elements| ==> ValidDoc(elements[k].doc)
    decreases elements, 0
  {
    if elements == [] then [] else [Tree(elements[0].doc)] + Trees(elements[1..])
  }

  ghost function NamedTrees(entries: seq<Entry>): seq<Member>
    requires forall k :: 0 <= k < |entries| ==> ValidEntry(entries[k])
    decreases entries, 0
  {
    if entries == [] then []
    else
      assert ValidEntry(entries[0]);
      [Member(StandsAll(entries[0].name), Tree(entries[0].doc))] + NamedTrees(entries[1..])
  }

  /** How deeply arrays and objects are nested in a text. */
  ghost predicate DocNested(d: Doc, limit: int) {
    match d
    case Listed(_, elements) => limit > 0 && forall k :: 0 <= k < |elements| ==> DocNested(elements[k].doc, limit - 1)
    case Keyed(_, entries) => limit > 0 && forall k :: 0 <= k < |entries| ==> DocNested(entries[k].doc, limit - 1)
    case _ => true
  }

  // ----- Space -----

  lemma SpaceSkipped(c: seq<byte>, i: nat, s: seq<byte>)
    requires Space(s) && At(c, i, s) && i + |s| < |c| && c[i + |s|] > 32
    ensures SkipSpace(c, i) == i + |s| == SkipSpace(c, i + |s|)
  {
    forall k | i <= k < i + |s| ensures c[k] <= 32 {
      AtByte(c, i, s, k - i);
    }
    SkipSpaceAt(c, i, i + |s|);
    SkipSpaceAt(c, i + |s|, i + |s|);
  }

  lemma DocStart(d: Doc)
    requires ValidDoc(d)
    ensures |Render(d)| > 0 && 32 < Render(d)[0] < 128 && Render(d)[0] != 93 && Render(d)[0] != 125
  {
    hide SpellAll, RenderElements, RenderEntries;
  }

  // ----- Parsing -----

  lemma {:induction false} ParseOfDoc(c: seq<byte>, i: nat, d: Doc, depth: nat)
    requires ValidDoc(d) && At(c, i, Render(d)) && depth <= 1000 && DocNested(d, 1000 - depth)
    ensures ParseValue(c, i, depth) == Some((Tree(d), i + |Render(d)|))
    decreases d, 1
  {
    hide At, ParseValue, RenderElements, RenderEntries, Trees, NamedTrees, SpellAll, StandsAll, Space, ValidEntry, AllValid;
    match d
    case Name(x) => ParseOfName(c, i, d, depth);
    case Quoted(units) => ParseOfQuoted(c, i, units, depth);
    case Listed(space, elements) => ParseOfListed(c, i, d, depth);
    case Keyed(space, entries) => ParseOfKeyed(c, i, d, depth);
  }

  lemma ParseOfName(c: seq<byte>, i: nat, d: Doc, depth: nat)
    requires ValidDoc(d) && d.Name? && At(c, i, Render(d))
    ensures ParseValue(c, i, depth) == Some((d.x, i + |Render(d)|))
  {
    hide At;
    var t := Render(d);
    AtByte(c, i, t, 0);
    if d.x != Null {
      NotAt(c, i, TEXT_NULL);
    }
    if d.x == True {
      NotAt(c, i, TEXT_FALSE);
    }
  }

  lemma ParseOfQuoted(c: seq<byte>, i: nat, units: seq<Unit>, depth: nat)
    requires AllValid(units) && At(c, i, [34] + SpellAll(units) + [34])
    ensures ParseValue(c, i, depth) == Some((String(StandsAll(units)), i + 2 + |SpellAll(units)|))
  {
    hide At, SpellAll, StandsAll, ParseString, AllValid;
    SpelledIsParsed(c, i, units);
    AtSplit3(c, i, [34], SpellAll(units), [34]);
    AtByte(c, i, [34], 0);
    NotAKeyword(c, i);
  }

  lemma {:induction false} ParseOfListed(c: seq<byte>, i: nat, d: Doc, depth: nat)
    requires ValidDoc(d) && d.Listed? && At(c, i, Render(d)) && depth < 1000 && DocNested(d, 1000 - depth)
    ensures ParseValue(c, i, depth) == Some((Tree(d), i + |Render(d)|))
    decreases d, 0
  {
    hide At, SkipSpace, ParseValue, ParseItems, RenderElements, Space;
    var elements := d.elements;
    var inner := if elements == [] then d.space else elements[0].before + RenderElements(elements);
    AtSplit3(c, i, [91], inner, [93]);
    AtByte(c, i, [91], 0);
    AtByte(c, i + 1 + |inner|, [93], 0);
    CjsonParse.ArrayUnfold(c, i, depth);
    if elements == [] {
      SpaceSkipped(c, i + 1, inner);
    } else {
      var first := i + 1 + |elements[0].before|;
      AtSplit(c, i + 1, elements[0].before, RenderElements(elements));
      ElementsStart(c, first, elements);
      SpaceSkipped(c, i + 1, elements[0].before);
      ParseOfElements(c, first, first - 1, elements, depth + 1);
    }
  }

  lemma ElementsStart(c: seq<byte>, i: nat, elements: seq<Element>)
    requires elements != [] && ValidDoc(elements[0].doc) && At(c, i, RenderElements(elements))
    ensures i < |c| && c[i] > 32 && c[i] != 93
  {
    hide At, Render;
    DocStart(elements[0].doc);
    AtByte(c, i, RenderElements(elements), 0);
  }

  lemma NextElement(c: seq<byte>, k: nat, before: seq<byte>, rest: seq<Element>)
    requires rest != [] && ValidDoc(rest[0].doc) && Space(before) && At(c, k, [44] + (before + RenderElements(rest)))
    ensures var next := k + 1 + |before|;
            ByteAt(c, k, 44) && At(c, next, RenderElements(rest)) && next < |c| && SkipSpace(c, k + 1) == next
  {
    hide At, SkipSpace, RenderElements, Space, ValidDoc;
    AtSplit(c, k, [44], before + RenderElements(rest));
    AtByte(c, k, [44], 0);
    AtSplit(c, k + 1, before, RenderElements(rest));
    ElementsStart(c, k + 1 + |before|, rest);
    SpaceSkipped(c, k + 1, before);
  }

  /** `before` is the position of the bracket, the comma or the last space in front of the first element. */
  lemma {:induction false} ParseOfElements(c: seq<byte>, i: nat, before: nat, elements: seq<Element>, depth: nat)
    requires elements != [] && At(c, i, RenderElements(elements)) && ByteAt(c, i + |RenderElements(elements)|, 93)
    requires before + 1 < |c| && SkipSpace(c, before + 1) == i && depth <= 1000
    requires forall k :: 0 <= k < |elements| ==>
                           Space(elements[k].before) && Space(elements[k].after) && ValidDoc(elements[k].doc)
                           && DocNested(elements[k].doc, 1000 - depth)
    ensures ParseItems(c, before, depth) == Some((Trees(elements), i + |RenderElements(elements)| + 1))
    decreases elements, 0
  {
    hide At, SkipSpace, ParseValue, ParseItems, Render, Tree, Space, ValidDoc, DocNested;
    var e, rest := elements[0], elements[1..];
    var text := Render(e.doc);
    var tail: seq<byte> := if |elements| > 1 then [44] + (elements[1].before + RenderElements(rest)) else [];
    AtSplit3(c, i, text, e.after, tail);
    ParseOfDoc(c, i, e.doc, depth);
    var j := i + |text|;
    var k := j + |e.after|;
    ItemsStep(c, before, depth, Tree(e.doc), j);
    if |elements| > 1 {
      var next := k + 1 + |elements[1].before|;
      assert ValidDoc(rest[0].doc) && Space(elements[1].before);
      NextElement(c, k, elements[1].before, rest);
      SpaceSkipped(c, j, e.after);
      assert forall n :: 0 <= n < |rest| ==> rest[n] == elements[n + 1];
      ParseOfElements(c, next, k, rest, depth);
    } else {
      SpaceSkipped(c, j, e.after);
      assert Trees(elements) == [Tree(e.doc)];
    }
  }

  lemma {:induction false} ParseOfKeyed(c: seq<byte>, i: nat, d: Doc, depth: nat)
    requires ValidDoc(d) && d.Keyed? && At(c, i, Render(d)) && depth < 1000 && DocNested(d, 1000 - depth)
    ensures ParseValue(c, i, depth) == Some((Tree(d), i + |Render(d)|))
    decreases d, 0
  {
    hide At, SkipSpace, ParseValue, ParseMembers, RenderEntries, Space, AllValid;
    var entries := d.entries;
    var inner := if entries == [] then d.space else entries[0].before + RenderEntries(entries);
    AtSplit3(c, i, [123], inner, [125]);
    AtByte(c, i, [123], 0);
    AtByte(c, i + 1 + |inner|, [125], 0);
    CjsonParse.ObjectUnfold(c, i, depth);
    if entries == [] {
      SpaceSkipped(c, i + 1, inner);
    } else {
      var first := i + 1 + |entries[0].before|;
      AtSplit(c, i + 1, entries[0].before, RenderEntries(entries));
      EntriesStart(c, first, entries);
      SpaceSkipped(c, i + 1, entries[0].before);
      ParseOfEntries(c, first, first - 1, entries, depth + 1);
    }
  }

  lemma EntriesStart(c: seq<byte>, i: nat, entries: seq<Entry>)
    requires entries != [] && At(c, i, RenderEntries(entries))
    ensures i < |c| && c[i] == 34
  {
    hide At, Render, SpellAll;
    AtByte(c, i, RenderEntries(entries), 0);
  }

  /** A member up to its value: what the member loop reads of it. */
  lemma {:induction false} ParseOfEntry(c: seq<byte>, i: nat, e: Entry, depth: nat)
    requires ValidEntry(e) && At(c, i, RenderEntry(e)) && depth <= 1000 && DocNested(e.doc, 1000 - depth)
    ensures var j := i + 2 + |SpellAll(e.name)|; var k := i + |RenderEntry(e)| - |e.after|;
            && ParseString(c, i) == Some((StandsAll(e.name), j))
            && ByteAt(c, SkipSpace(c, j), 58)
            && ParseValue(c, SkipSpace(c, SkipSpace(c, j) + 1), depth) == Some((Tree(e.doc), k))
            && At(c, k, e.after)
    decreases e, 0
  {
    hide At, SkipSpace, ParseValue, ParseString, Render, SpellAll, StandsAll, Tree, Space, AllValid, ValidDoc, DocNested;
    var quoted, colon := [34] + SpellAll(e.name) + [34], e.between + [58] + e.middle;
    AtSplit4(c, i, quoted, colon, Render(e.doc), e.after);
    SpelledIsParsed(c, i, e.name);
    var j := i + |quoted|;
    AtSplit3(c, j, e.between, [58], e.middle);
    var p := j + |e.between|;
    AtByte(c, p, [58], 0);
    SpaceSkipped(c, j, e.between);
    var v := p + 1 + |e.middle|;
    DocStart(e.doc);
    AtByte(c, v, Render(e.doc), 0);
    SpaceSkipped(c, p + 1, e.middle);
    ParseOfDoc(c, v, e.doc, depth);
  }

  lemma NextEntry(c: seq<byte>, k: nat, before: seq<byte>, rest: seq<Entry>)
    requires rest != [] && Space(before) && At(c, k, [44] + (before + RenderEntries(rest)))
    ensures var next := k + 1 + |before|;
            ByteAt(c, k, 44) && At(c, next, RenderEntries(rest)) && next < |c| && SkipSpace(c, k + 1) == next
  {
    hide At, SkipSpace, RenderEntries, Space;
    AtSplit(c, k, [44], before + RenderEntries(rest));
    AtByte(c, k, [44], 0);
    AtSplit(c, k + 1, before, RenderEntries(rest));
    EntriesStart(c, k + 1 + |before|, rest);
    SpaceSkipped(c, k + 1, before);
  }

  /** What the member loop reads: the first member, and then what follows it. */
  lemma {:induction false} ParseOfEntries(c: seq<byte>, i: nat, before: nat, entries: seq<Entry>, depth: nat)
    requires entries != [] && At(c, i, RenderEntries(entries)) && ByteAt(c, i + |RenderEntries(entries)|, 125)
    requires before + 1 < |c| && SkipSpace(c, before + 1) == i && depth <= 1000
    requires forall k :: 0 <= k < |entries| ==> ValidEntry(entries[k]) && DocNested(entries[k].doc, 1000 - depth)
    ensures ParseMembers(c, before, depth) == Some((NamedTrees(entries), i + |RenderEntries(entries)| + 1))
    decreases entries, 0
  {
    hide At, SkipSpace, ParseValue, ParseMembers, ParseString, RenderEntry, StandsAll, SpellAll, Tree, Space, DocNested;
    hide AllValid, ValidDoc;
    var e, rest := entries[0], entries[1..];
    var tail: seq<byte> := if |entries| > 1 then [44] + (entries[1].before + RenderEntries(rest)) else [];
    AtSplit(c, i, RenderEntry(e), tail);
    ParseOfEntry(c, i, e, depth);
    var k := i + |RenderEntry(e)|;
    EntryEnds(e);
    MembersStep(c, before, depth, Member(StandsAll(e.name), Tree(e.doc)), i + 2 + |SpellAll(e.name)|, k - |e.after|);
    if |entries| > 1 {
      var next := k + 1 + |entries[1].before|;
      assert ValidEntry(entries[1]);
      NextEntry(c, k, entries[1].before, rest);
      SpaceSkipped(c, k - |e.after|, e.after);
      assert forall n :: 0 <= n < |rest| ==> rest[n] == entries[n + 1];
      ParseOfEntries(c, next, k, rest, depth);
    } else {
      SpaceSkipped(c, k - |e.after|, e.after);
      assert NamedTrees(entries) == [Member(StandsAll(e.name), Tree(e.doc))];
    }
  }

  lemma EntryEnds(e: Entry)
    ensures |RenderEntry(e)| >= |e.after| + 2 + |SpellAll(e.name)|
  {
    hide SpellAll, Render;
  }

  // ----- Whole texts -----

  /** Every text is accepted, after a byte order mark or not, in any space, and read as its tree. */
  lemma TextIsParsed(mark: bool, lead: seq<byte>, d: Doc, trail: seq<byte>, requireNul: bool)
    requires ValidDoc(d) && Space(lead) && Space(trail) && DocNested(d, 1000)
    ensures var front := (if mark then [0xEF, 0xBB, 0xBF] else []) + lead;
            var c := front + Render(d) + trail + [0];
            ParseText(c, requireNul) == Some((Tree(d), if requireNul then |c| - 1 else |front| + |Render(d)|))
  {
    hide ParseValue, SkipSpace, Render, Tree, ValidDoc, DocNested, Space, At;
    var bom: seq<byte> := if mark then [0xEF, 0xBB, 0xBF] else [];
    var front := bom + lead;
    var c := front + Render(d) + trail + [0];
    WholeAt(c);
    AtSplit4(c, 0, front, Render(d), trail, [0]);
    AtSplit(c, 0, bom, lead);
    DocStart(d);
    AtByte(c, |front|, Render(d), 0);
    SpaceSkipped(c, |bom|, lead);
    ParseOfDoc(c, |front|, d, 0);
    if |c| > 4 {
      MarkOnly(c, mark, lead, Render(d)[0]);
    }
    TrailSkipped(c, |front| + |Render(d)|, trail);
  }

  lemma WholeAt(c: seq<byte>)
    ensures At(c, 0, c)
  {
    assert c[0..|c|] == c;
  }

  /** The mark is recognised exactly when it is there. */
  lemma MarkOnly(c: seq<byte>, mark: bool, lead: seq<byte>, first: byte)
    requires Space(lead) && first < 128 && |c| > 4
    requires var front := (if mark then [0xEF, 0xBB, 0xBF] else []) + lead;
             At(c, 0, front) && |front| < |c| && c[|front|] == first
    ensures c[..3] == [0xEF, 0xBB, 0xBF] <==> mark
  {
    hide At;
    if mark {
      AtSplit(c, 0, [0xEF, 0xBB, 0xBF], lead);
      AtByte(c, 0, [0xEF, 0xBB, 0xBF], 0);
      AtByte(c, 0, [0xEF, 0xBB, 0xBF], 1);
      AtByte(c, 0, [0xEF, 0xBB, 0xBF], 2);
    } else {
      assert [] + lead == lead;
      if lead != [] {
        AtByte(c, 0, lead, 0);
      }
      assert c[0] < 128 && c[..3][0] == c[0];
    }
  }

  /** Space at the end of the buffer is skipped up to its last byte. */
  lemma TrailSkipped(c: seq<byte>, i: nat, trail: seq<byte>)
    requires Space(trail) && i + |trail| + 1 == |c| && At(c, i, trail) && At(c, i + |trail|, [0])
    ensures SkipSpace(c, i) == |c| - 1 && c[|c| - 1] == 0
  {
    hide At, Space;
    AtByte(c, i + |trail|, [0], 0);
    AllSpace(c, i, trail);
  }

  lemma {:induction false} AllSpace(c: seq<byte>, i: nat, trail: seq<byte>)
    requires Space(trail) && i + |trail| + 1 == |c| && At(c, i, trail) && c[|c| - 1] <= 32
    ensures SpaceEnd(c, i) == |c|
    decreases |trail|
  {
    if trail != [] {
      assert c[i] == c[i..i + |trail|][0];
      assert c[i + 1..i + |trail|] == c[i..i + |trail|][1..] == trail[1..];
      AllSpace(c, i + 1, trail[1..]);
    }
  }
}
