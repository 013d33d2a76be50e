// The printer of cJSON over its print buffer, which grows on demand or is preallocated.
module CjsonPrint {

  import opened CjsonText

  const INT_MAX := 0x7FFF_FFFF
  const DEFAULT_BUFFER_SIZE := 256

  // ----- What is printed holds no NUL -----

  lemma EscapeByteNulFree(b: byte)
    ensures NulFree(EscapeByte(b))
  {
  }

  lemma NulFreeConcat(s: seq<byte>, t: seq<byte>)
    requires NulFree(s) && NulFree(t)
    ensures NulFree(s + t)
  {
  }

  lemma {:induction false} EscapeNulFree(s: seq<byte>)
    ensures NulFree(Escape(s)) && NulFree(PrintString(s))
    decreases |s|
  {
    if s != [] {
      EscapeNulFree(s[1..]);
      EscapeByteNulFree(s[0]);
      NulFreeConcat(EscapeByte(s[0]), Escape(s[1..]));
    }
  }

  lemma {:induction false} PrintNulFree(x: Item, depth: nat, format: bool)
    ensures NulFree(Print(x, depth, format))
    decreases x, 1
  {
    hide PrintString, PrintItems, PrintMembers;
    match x
    case Null =>
    case False =>
    case True =>
    case String(s) =>
      EscapeNulFree(s);
    case Array(items) =>
      PrintItemsNulFree(items, depth + 1, format);
      NulFreeConcat([OPEN_BRACKET], PrintItems(items, depth + 1, format));
    case Object(members) =>
      PrintMembersNulFree(members, depth + 1, format);
      NulFreeConcat(OpenBrace(format), PrintMembers(members, depth + 1, format));
  }

  lemma {:induction false} PrintItemsNulFree(items: seq<Item>, depth: nat, format: bool)
    ensures NulFree(PrintItems(items, depth, format))
    decreases items, 0
  {
    if items != [] {
      hide Print;
      PrintNulFree(items[0], depth, format);
      PrintItemsNulFree(items[1..], depth, format);
      NulFreeConcat(Print(items[0], depth, format), ItemSeparator(|items| > 1, format));
    }
  }

  lemma {:induction false} PrintMembersNulFree(members: seq<Member>, depth: nat, format: bool)
    requires depth > 0
    ensures NulFree(PrintMembers(members, depth, format))
    decreases members, 0
  {
    hide Print, PrintString;
    if members != [] {
      var m := members[0];
      EscapeNulFree(m.name);
      PrintNulFree(m.value, depth, format);
      assert NulFree(Indent(depth, format)) && NulFree(Colon(format));
      NulFreeConcat(Indent(depth, format), PrintString(m.name));
      NulFreeConcat(Indent(depth, format) + PrintString(m.name), Colon(format));
      assert NulFree(PrintMember(m, depth, format));
      PrintMembersNulFree(members[1..], depth, format);
      NulFreeConcat(PrintMember(m, depth, format), MemberSeparator(|members| > 1, format));
    }
  }

  // ----- Length of an escaped string -----

  function EscapeExtra(b: byte): nat {
    if b in {QUOTE, BACKSLASH, 8, 12, 10, 13, 9} then 1 else if b < 32 then 5 else 0
  }

  lemma EscapeUnfold(s: seq<byte>, i: nat)
    requires i < |s|
    ensures Escape(s[i..]) == EscapeByte(s[i]) + Escape(s[i + 1..])
    ensures |EscapeByte(s[i])| == 1 + EscapeExtra(s[i]) && (EscapeExtra(s[i]) == 0 ==> EscapeByte(s[i]) == [s[i]])
  {
    assert s[i..][1..] == s[i + 1..];
  }

  method Copy(t: seq<byte>, target: array<byte>, at: nat)
    requires at + |t| <= target.Length
    modifies target
    ensures target[..at + |t|] == old(target[..at]) + t
  {
    forall k | 0 <= k < |t| {
      target[at + k] := t[k];
    }
  }

  /** The formatted output of u and four hexadecimal digits, which leaves a terminator behind. */
  method FormatUnicode(b: byte, output: array<byte>, at: nat)
    requires b < 32 && at + 6 <= output.Length
    modifies output
    ensures output[..at + 5] == old(output[..at]) + [LETTER_U, 48, 48, HexDigit(b / 16), HexDigit(b % 16)]
  {
    Copy([LETTER_U, 48, 48, HexDigit(b / 16), HexDigit(b % 16), 0], output, at);
    assert output[..at + 5] == output[..at + 6][..at + 5];
  }

  /** The letter after the backslash, for the bytes that have one. */
  function ShortEscape(b: byte): (letter: byte)
    requires b in {QUOTE, BACKSLASH, 8, 12, 10, 13, 9}
    ensures EscapeByte(b) == [BACKSLASH, letter]
  {
    if b == BACKSLASH then BACKSLASH else if b == QUOTE then QUOTE else if b == 8 then LETTER_B else if b == 12 then LETTER_F
    else if b == 10 then LETTER_N else if b == 13 then LETTER_R else LETTER_T
  }

  method WriteEscapedByte(b: byte, output: array<byte>, at: nat) returns (next: nat)
    requires at + |EscapeByte(b)| + 1 <= output.Length
    modifies output
    ensures next == at + |EscapeByte(b)| && output[..next] == old(output[..at]) + EscapeByte(b)
  {
    next := at;
    if b > 31 && b != QUOTE && b != BACKSLASH {
      output[next] := b;
      next := next + 1;
      assert EscapeByte(b) == [b];
    } else {
      output[next] := BACKSLASH;
      next := next + 1;
      assert output[..next] == old(output[..at]) + [BACKSLASH];
      if b in {QUOTE, BACKSLASH, 8, 12, 10, 13, 9} {
        var letter := ShortEscape(b);
        output[next] := letter;
        next := next + 1;
        assert output[..next] == old(output[..at]) + [BACKSLASH] + [letter];
      } else {
        FormatUnicode(b, output, next);
        next := next + 5;
      }
    }
  }

  class PrintBuffer {
    var buffer: array?<byte>
    var length: nat
    var offset: nat
    var depth: nat
    const noalloc: bool
    const format: bool

    constructor (buffer: array<byte>, noalloc: bool, format: bool)
      requires buffer.Length <= INT_MAX && (buffer.Length > 0 || noalloc)
      ensures Valid() && this.buffer == buffer && this.noalloc == noalloc && this.format == format
      ensures offset == 0 && depth == 0
    {
      this.buffer, length, offset, depth := buffer, buffer.Length, 0, 0;
      this.noalloc, this.format := noalloc, format;
    }

    /** The buffer is null once an allocation has been refused. */
    ghost predicate Valid()
      reads this
    {
      buffer != null ==>
        buffer.Length == length <= INT_MAX && (offset < length || (noalloc && offset == length == 0))
    }

    /** How large the buffer can become. */
    ghost function Limit(): nat
      reads this
    {
      if noalloc then length else INT_MAX
    }

    /** `start` and then `t` and a terminator are in the buffer, and the offset has not passed them. */
    ghost predicate Holds(start: seq<byte>, t: seq<byte>)
      reads this, buffer
    {
      buffer != null && buffer.Length == length && |start| <= offset <= |start| + |t| < length
      && buffer[..|start| + |t|] == start + t && buffer[|start| + |t|] == 0
    }

    lemma HoldsJoined(start: seq<byte>, open: seq<byte>, t: seq<byte>)
      requires Holds(start + open, t)
      ensures Holds(start, open + t)
    {
      Associate(start, open, t);
    }

    /** Makes room for `needed` bytes after the offset; it fails only beyond the limit or when memory is refused. */
    method Ensure(needed: nat) returns (ok: bool)
      requires Valid()
      modifies this`buffer, this`length
      ensures Valid() && (buffer == old(buffer) || buffer == null || fresh(buffer))
      ensures noalloc ==> buffer == old(buffer) && length == old(length)
      ensures ok ==> buffer != null && old(buffer) != null && offset + needed + 1 <= length
                     && buffer[..offset] == old(buffer[..offset])
      ensures !ok ==> buffer == null || offset + needed + 1 > Limit()
      ensures old(buffer) != null && buffer != null && buffer != old(buffer) ==>
        var total := offset + needed + 1;
        ok && total > old(length) && length == if total <= 0x3FFF_FFFF then 2 * total else 0x7FFF_FFFF
      ensures old(buffer) != null && offset + needed + 1 <= old(length) ==> ok && buffer == old(buffer) && length == old(length)
    {
      if buffer == null {
        return false;
      }
      if length > 0 && offset >= length {
        return false;
      }
      if needed > INT_MAX {
        return false;
      }
      var total := needed + offset + 1;
      if total <= length {
        return true;
      }
      if noalloc {
        return false;
      }
      var newSize := total * 2;
      if total > INT_MAX / 2 {
        if total > INT_MAX {
          return false;
        }
        newSize := INT_MAX;
      }
      var granted: bool := *;
      if !granted {
        length, buffer := 0, null;
        return false;
      }
      var newBuffer := new byte[newSize];
      forall k | 0 <= k <= offset {
        newBuffer[k] := buffer[k];
      }
      length, buffer := newSize, newBuffer;
      ok := true;
    }

    /** Ensures room and copies `t` to the offset, followed by a terminator if there is to be one. */
    method Put(t: seq<byte>, needed: nat, terminate: bool) returns (ok: bool)
      requires Valid() && buffer != null && |t| + (if terminate then 1 else 0) <= needed
      modifies this`buffer, this`length, buffer
      ensures Valid() && (buffer == old(buffer) || buffer == null || fresh(buffer))
      ensures noalloc ==> buffer == old(buffer) && length == old(length)
      ensures ok ==> buffer != null && offset + needed + 1 <= length
                     && buffer[..offset + |t|] == old(buffer[..offset]) + t
                     && (terminate ==> buffer[offset + |t|] == 0)
      ensures !ok ==> buffer == null || offset + needed + 1 > Limit()
    {
      ghost var start := buffer[..offset];
      ok := Ensure(needed);
      if ok {
        Copy(t, buffer, offset);
        if terminate {
          buffer[offset + |t|] := 0;
        }
      }
    }

    method PutAndAdvance(t: seq<byte>, needed: nat, terminate: bool) returns (ok: bool)
      requires Valid() && buffer != null && |t| + (if terminate then 1 else 0) <= needed
      modifies this`buffer, this`length, this`offset, buffer
      ensures Valid() && (buffer == old(buffer) || buffer == null || fresh(buffer))
      ensures noalloc ==> buffer == old(buffer) && length == old(length)
      ensures ok ==> buffer != null && offset == old(offset) + |t| && buffer[..offset] == old(buffer[..offset]) + t
      ensures !ok ==> buffer == null || old(offset) + needed + 1 > Limit()
    {
      ok := Put(t, needed, terminate);
      if ok {
        offset := offset + |t|;
      }
    }

    /** Moves the offset to the terminator. */
    method UpdateOffset(ghost start: seq<byte>, ghost t: seq<byte>)
      requires Valid() && Holds(start, t) && NulFree(t)
      modifies this`offset
      ensures Valid() && buffer != null && offset == |start| + |t| && buffer[..offset] == start + t
    {
      assert forall k :: |start| <= k < |start + t| ==> (start + t)[k] != 0;
      assert forall k :: 0 <= k < |start + t| ==> buffer[..|start| + |t|][k] == (start + t)[k];
      while buffer[offset] != 0
        invariant |start| <= offset <= |start| + |t|
        decreases |start| + |t| - offset
      {
        offset := offset + 1;
      }
    }

    /** A string in quotes: one pass to size it, one to write it. */
    method PrintStringPtr(input: seq<byte>) returns (ok: bool)
      requires Valid() && buffer != null && NulFree(input)
      modifies this`buffer, this`length, buffer
      ensures Valid() && (buffer == old(buffer) || buffer == null || fresh(buffer))
      ensures noalloc ==> buffer == old(buffer) && length == old(length)
      ensures ok ==> buffer != null && Holds(old(buffer[..offset]), PrintString(input)) && offset + |PrintString(input)| + 2 <= Limit()
      ensures !ok ==> buffer == null || offset + |PrintString(input)| + 2 > Limit()
    {
      hide Escape, EscapeByte, EscapeExtra, NulFree;
      ghost var start := buffer[..offset];
      var escapeCharacters := CountEscapes(input);
      var outputLength := |input| + escapeCharacters;
      ok := Ensure(outputLength + 3);
      if !ok {
        return;
      }
      WriteString(input, outputLength, escapeCharacters == 0);
      assert start + PrintString(input) == start + [QUOTE] + Escape(input) + [QUOTE];
    }

    method WriteString(input: seq<byte>, outputLength: nat, plain: bool)
      requires buffer != null && NulFree(input)
      requires outputLength == |Escape(input)| && offset + outputLength + 3 <= buffer.Length
      requires plain ==> Escape(input) == input
      modifies buffer
      ensures buffer[..offset + outputLength + 2] == old(buffer[..offset]) + [QUOTE] + Escape(input) + [QUOTE]
      ensures buffer[offset + outputLength + 2] == 0
    {
      hide Escape;
      ghost var start := buffer[..offset];
      buffer[offset] := QUOTE;
      assert buffer[..offset + 1] == start + [QUOTE];
      if plain {
        Copy(input, buffer, offset + 1);
      } else {
        WriteEscaped(input, start, outputLength);
      }
      buffer[offset + outputLength + 1] := QUOTE;
      buffer[offset + outputLength + 2] := 0;
    }

    static method CountEscapes(input: seq<byte>) returns (escapeCharacters: nat)
      requires NulFree(input)
      ensures |Escape(input)| == |input| + escapeCharacters
      ensures escapeCharacters == 0 ==> Escape(input) == input
    {
      hide EscapeByte, EscapeExtra;
      escapeCharacters := 0;
      assert input[0..] == input;
      for i := 0 to |input|
        invariant |Escape(input)| == i + escapeCharacters + |Escape(input[i..])|
        invariant escapeCharacters == 0 ==> Escape(input) == input[..i] + Escape(input[i..])
      {
        EscapeUnfold(input, i);
        assert input[..i] + [input[i]] == input[..i + 1];
        escapeCharacters := escapeCharacters + EscapeExtra(input[i]);
      }
      assert input[..|input|] == input;
    }

    method WriteEscaped(input: seq<byte>, ghost start: seq<byte>, outputLength: nat)
      requires buffer != null && NulFree(input) && |start| == offset && outputLength == |Escape(input)|
      requires offset + outputLength + 3 <= buffer.Length && buffer[..offset + 1] == start + [QUOTE]
      modifies buffer
      ensures buffer[..offset + 1 + outputLength] == start + [QUOTE] + Escape(input)
    {
      hide EscapeByte, NulFree;
      var output := offset + 1;
      ghost var written: seq<byte> := [];
      assert input[0..] == input;
      for i := 0 to |input|
        invariant offset + 1 <= output == offset + 1 + |written|
        invariant written + Escape(input[i..]) == Escape(input)
        invariant output <= offset + 1 + outputLength && buffer[..output] == start + [QUOTE] + written
      {
        EscapeUnfold(input, i);
        written := written + EscapeByte(input[i]);
        output := WriteEscapedByte(input[i], buffer, output);
      }
      assert written + Escape([]) == written by {
        assert Escape([]) == [];
      }
    }

    /** A value goes in at the offset if and only if it and two more bytes fit, unless memory is refused. */
    method PrintValue(x: Item) returns (ok: bool)
      requires Valid() && buffer != null && Strings(x)
      modifies this, buffer
      ensures Valid() && (buffer == old(buffer) || buffer == null || fresh(buffer))
      ensures noalloc ==> buffer == old(buffer) && length == old(length)
      ensures ok ==> buffer != null && Holds(old(buffer[..offset]), Print(x, old(depth), format)) && depth == old(depth)
      ensures ok ==> old(offset) + |Print(x, old(depth), format)| + 2 <= Limit()
      ensures !ok ==> buffer == null || old(offset) + |Print(x, old(depth), format)| + 2 > Limit()
      decreases x, 3
    {
      hide PrintString, PrintItems, PrintMembers;
      match x
      case Null => ok := Put(TEXT_NULL, 5, true);
      case False => ok := Put(TEXT_FALSE, 6, true);
      case True => ok := Put(TEXT_TRUE, 5, true);
      case String(s) => ok := PrintStringPtr(s);
      case Array(items) => ok := PrintArray(items);
      case Object(members) => ok := PrintObject(members);
    }

    method PrintObject(members: seq<Member>) returns (ok: bool)
      requires Valid() && buffer != null
      requires forall k :: 0 <= k < |members| ==> NulFree(members[k].name) && Strings(members[k].value)
      modifies this, buffer
      ensures Valid() && (buffer == old(buffer) || buffer == null || fresh(buffer))
      ensures noalloc ==> buffer == old(buffer) && length == old(length)
      ensures ok ==> buffer != null && Holds(old(buffer[..offset]), OpenBrace(format) + PrintMembers(members, old(depth) + 1, format))
                     && depth == old(depth)
      ensures ok ==>
                old(offset) + |OpenBrace(format)| + |PrintMembers(members, old(depth) + 1, format)| + 2 <= Limit()
      ensures !ok ==>
                buffer == null
                || old(offset) + |OpenBrace(format)| + |PrintMembers(members, old(depth) + 1, format)| + 2 > Limit()
      decreases members, 2
    {
      hide PrintMembers, Strings, NulFree, OpenBrace, Holds;
      ghost var start := buffer[..offset];
      var open := OpenBrace(format);
      MembersNotEmpty(members, depth + 1, format);
      ok := Put(open, |open| + 1, false);
      if ok {
        offset, depth := offset + |open|, depth + 1;
        ok := PrintFields(members);
        if ok {
          HoldsJoined(start, open, PrintMembers(members, old(depth) + 1, format));
        }
      }
    }

    /** The members with their separators, and the closing brace. */
    method PrintFields(members: seq<Member>) returns (ok: bool)
      requires Valid() && buffer != null && depth > 0
      requires forall k :: 0 <= k < |members| ==> NulFree(members[k].name) && Strings(members[k].value)
      modifies this, buffer
      ensures Valid() && (buffer == old(buffer) || buffer == null || fresh(buffer))
      ensures noalloc ==> buffer == old(buffer) && length == old(length)
      ensures ok ==> buffer != null && Holds(old(buffer[..offset]), PrintMembers(members, old(depth), format)) && depth == old(depth) - 1
      ensures ok ==> old(offset) + |PrintMembers(members, old(depth), format)| + 2 <= Limit()
      ensures !ok ==> buffer == null || old(offset) + |PrintMembers(members, old(depth), format)| + 2 > Limit()
      decreases members, 1
    {
      hide PrintMembers, Strings, Holds, NulFree, Indent, ClosingBrace;
      ghost var start, text := buffer[..offset], PrintMembers(members, depth, format);
      ghost var done;
      MembersEnd(members, depth, format);
      ok, done := PrintAllFields(members);
      if !ok {
        return;
      }
      var closing := ClosingBrace(depth, format);
      ok := PutLast(closing, if format then depth + 1 else 2, start, done);
    }

    method PrintAllFields(members: seq<Member>) returns (ok: bool, ghost done: seq<byte>)
      requires Valid() && buffer != null && depth > 0
      requires forall k :: 0 <= k < |members| ==> NulFree(members[k].name) && Strings(members[k].value)
      modifies this, buffer
      ensures Valid() && (buffer == old(buffer) || buffer == null || fresh(buffer))
      ensures noalloc ==> buffer == old(buffer) && length == old(length)
      ensures ok ==> buffer != null && depth == old(depth) && offset == old(offset) + |done|
                     && buffer[..offset] == old(buffer[..offset]) + done
                     && done + PrintMembers(members[|members|..], depth, format) == PrintMembers(members, depth, format)
      ensures !ok ==> buffer == null || old(offset) + |PrintMembers(members, old(depth), format)| + 2 > Limit()
      decreases members, 0
    {
      hide FieldText, PrintMembers, Strings, Holds, NulFree;
      ghost var start, text := buffer[..offset], PrintMembers(members, depth, format);
      ok, done := true, [];
      assert members[0..] == members;
      for k := 0 to |members|
        invariant Valid() && buffer != null && depth == old(depth) && (buffer == old(buffer) || fresh(buffer))
        invariant noalloc ==> buffer == old(buffer) && length == old(length)
        invariant offset == |start| + |done| && buffer[..offset] == start + done
        invariant done + PrintMembers(members[k..], depth, format) == text
      {
        MembersUnfold(members, k, depth, format);
        MembersNotEmpty(members[k + 1..], depth, format);
        ghost var t := FieldText(members[k], k + 1 < |members|, depth, format);
        ok := PrintField(members[k], k + 1 < |members|);
        if !ok {
          return;
        }
        Associate(start, done, t);
        done := done + t;
      }
    }

    /** Indentation, name, colon, value and separator; the offset ends up behind them. */
    method PrintField(m: Member, more: bool) returns (ok: bool)
      requires Valid() && buffer != null && depth > 0 && NulFree(m.name) && Strings(m.value)
      modifies this, buffer
      ensures Valid() && (buffer == old(buffer) || buffer == null || fresh(buffer))
      ensures noalloc ==> buffer == old(buffer) && length == old(length)
      ensures ok ==> buffer != null && depth == old(depth)
                     && offset == old(offset) + |FieldText(m, more, depth, format)|
                     && buffer[..offset] == old(buffer[..offset]) + FieldText(m, more, depth, format)
      ensures !ok ==> buffer == null || old(offset) + |FieldText(m, more, old(depth), format)| + 2 > Limit()
      decreases m, 0
    {
      hide Print, Strings, Holds, NulFree, PrintKey;
      ghost var start, key, value := buffer[..offset], PrintKey(m, depth, format), Print(m.value, depth, format);
      var separator := MemberSeparator(more, format);
      FieldParts(m, more, depth, format);
      ok := PrintFieldKey(m);
      if !ok {
        return;
      }
      ok := PrintAndAdvance(m.value);
      if !ok {
        return;
      }
      ok := PutAndAdvance(separator, |separator| + 1, true);
      Regroup(start, key, value, separator);
    }

    method PrintFieldKey(m: Member) returns (ok: bool)
      requires Valid() && buffer != null && depth > 0 && NulFree(m.name)
      modifies this, buffer
      ensures Valid() && (buffer == old(buffer) || buffer == null || fresh(buffer))
      ensures noalloc ==> buffer == old(buffer) && length == old(length)
      ensures ok ==> buffer != null && depth == old(depth) && offset == old(offset) + |PrintKey(m, old(depth), format)|
                     && buffer[..offset] == old(buffer[..offset]) + PrintKey(m, old(depth), format)
      ensures !ok ==> buffer == null || old(offset) + |PrintKey(m, old(depth), format)| + 1 > Limit()
    {
      hide PrintString, Holds, NulFree, Colon, Indent;
      ghost var start, indent, name := buffer[..offset], Indent(depth, format), PrintString(m.name);
      var colon := Colon(format);
      KeyParts(m, depth, format);
      ok := PrintIndent();
      if !ok {
        return;
      }
      ok := PrintStringAndAdvance(m.name);
      if !ok {
        return;
      }
      ok := PutAndAdvance(colon, |colon|, false);
      Regroup(start, indent, name, colon);
    }

    method PrintIndent() returns (ok: bool)
      requires Valid() && buffer != null
      modifies this`buffer, this`length, this`offset, buffer
      ensures Valid() && (buffer == old(buffer) || buffer == null || fresh(buffer))
      ensures noalloc ==> buffer == old(buffer) && length == old(length)
      ensures ok ==> buffer != null && offset == old(offset) + |Indent(depth, format)|
                     && buffer[..offset] == old(buffer[..offset]) + Indent(depth, format)
      ensures !ok ==> buffer == null || old(offset) + |Indent(depth, format)| + 1 > Limit()
    {
      ok := true;
      if format {
        ok := PutAndAdvance(Indent(depth, format), depth, false);
      }
    }

    method PrintStringAndAdvance(s: seq<byte>) returns (ok: bool)
      requires Valid() && buffer != null && NulFree(s)
      modifies this`buffer, this`length, this`offset, buffer
      ensures Valid() && (buffer == old(buffer) || buffer == null || fresh(buffer))
      ensures noalloc ==> buffer == old(buffer) && length == old(length)
      ensures ok ==> buffer != null && offset == old(offset) + |PrintString(s)|
                     && buffer[..offset] == old(buffer[..offset]) + PrintString(s)
      ensures !ok ==> buffer == null || old(offset) + |PrintString(s)| + 2 > Limit()
    {
      hide PrintString, Holds, NulFree;
      ghost var start := buffer[..offset];
      ok := PrintStringPtr(s);
      if ok {
        EscapeNulFree(s);
        UpdateOffset(start, PrintString(s));
      }
    }

    method PrintAndAdvance(x: Item) returns (ok: bool)
      requires Valid() && buffer != null && Strings(x)
      modifies this, buffer
      ensures Valid() && (buffer == old(buffer) || buffer == null || fresh(buffer))
      ensures noalloc ==> buffer == old(buffer) && length == old(length)
      ensures ok ==> buffer != null && depth == old(depth) && offset == old(offset) + |Print(x, depth, format)|
                     && buffer[..offset] == old(buffer[..offset]) + Print(x, depth, format)
      ensures !ok ==> buffer == null || old(offset) + |Print(x, old(depth), format)| + 2 > Limit()
      decreases x, 4
    {
      hide Print, Strings, Holds, NulFree;
      ghost var start, t := buffer[..offset], Print(x, depth, format);
      ok := PrintValue(x);
      if ok {
        PrintNulFree(x, depth, format);
        UpdateOffset(start, t);
      }
    }

    method PrintArray(items: seq<Item>) returns (ok: bool)
      requires Valid() && buffer != null && forall k :: 0 <= k < |items| ==> Strings(items[k])
      modifies this, buffer
      ensures Valid() && (buffer == old(buffer) || buffer == null || fresh(buffer))
      ensures noalloc ==> buffer == old(buffer) && length == old(length)
      ensures ok ==> buffer != null && Holds(old(buffer[..offset]), [OPEN_BRACKET] + PrintItems(items, old(depth) + 1, format))
                     && depth == old(depth)
      ensures ok ==> old(offset) + 1 + |PrintItems(items, old(depth) + 1, format)| + 2 <= Limit()
      ensures !ok ==> buffer == null || old(offset) + 1 + |PrintItems(items, old(depth) + 1, format)| + 2 > Limit()
      decreases items, 2
    {
      hide PrintItems, Strings, Holds;
      ghost var start := buffer[..offset];
      ok := Put([OPEN_BRACKET], 1, false);
      if ok {
        offset, depth := offset + 1, depth + 1;
        ok := PrintElements(items);
        if ok {
          HoldsJoined(start, [OPEN_BRACKET], PrintItems(items, old(depth) + 1, format));
        }
      }
    }

    /** The elements with their separators, and the closing bracket. */
    method PrintElements(items: seq<Item>) returns (ok: bool)
      requires Valid() && buffer != null && depth > 0 && forall k :: 0 <= k < |items| ==> Strings(items[k])
      modifies this, buffer
      ensures Valid() && (buffer == old(buffer) || buffer == null || fresh(buffer))
      ensures noalloc ==> buffer == old(buffer) && length == old(length)
      ensures ok ==> buffer != null && Holds(old(buffer[..offset]), PrintItems(items, old(depth), format)) && depth == old(depth) - 1
      ensures ok ==> old(offset) + |PrintItems(items, old(depth), format)| + 2 <= Limit()
      ensures !ok ==> buffer == null || old(offset) + |PrintItems(items, old(depth), format)| + 2 > Limit()
      decreases items, 1
    {
      hide PrintItems, Strings, Holds, NulFree;
      ghost var start, text := buffer[..offset], PrintItems(items, depth, format);
      ghost var done;
      ItemsEnd(items, depth, format);
      ok, done := PrintAllElements(items);
      if !ok {
        return;
      }
      ok := PutLast([CLOSE_BRACKET], 2, start, done);
    }

    method PrintAllElements(items: seq<Item>) returns (ok: bool, ghost done: seq<byte>)
      requires Valid() && buffer != null && depth > 0 && forall k :: 0 <= k < |items| ==> Strings(items[k])
      modifies this, buffer
      ensures Valid() && (buffer == old(buffer) || buffer == null || fresh(buffer))
      ensures noalloc ==> buffer == old(buffer) && length == old(length)
      ensures ok ==> buffer != null && depth == old(depth) && offset == old(offset) + |done|
                     && buffer[..offset] == old(buffer[..offset]) + done
                     && done + PrintItems(items[|items|..], depth, format) == PrintItems(items, depth, format)
      ensures !ok ==> buffer == null || old(offset) + |PrintItems(items, old(depth), format)| + 2 > Limit()
      decreases items, 0
    {
      hide ElementText, PrintItems, Strings, Holds, NulFree;
      ghost var start, text := buffer[..offset], PrintItems(items, depth, format);
      ok, done := true, [];
      assert items[0..] == items;
      for k := 0 to |items|
        invariant Valid() && buffer != null && depth == old(depth) && (buffer == old(buffer) || fresh(buffer))
        invariant noalloc ==> buffer == old(buffer) && length == old(length)
        invariant offset == |start| + |done| && buffer[..offset] == start + done
        invariant done + PrintItems(items[k..], depth, format) == text
      {
        ItemsUnfold(items, k, depth, format);
        ghost var t := ElementText(items[k], k + 1 < |items|, depth, format);
        ok := PrintElement(items[k], k + 1 < |items|);
        if !ok {
          return;
        }
        Associate(start, done, t);
        done := done + t;
      }
    }

    /** An element and its separator; the offset ends up behind them. */
    method PrintElement(x: Item, more: bool) returns (ok: bool)
      requires Valid() && buffer != null && depth > 0 && Strings(x)
      modifies this, buffer
      ensures Valid() && (buffer == old(buffer) || buffer == null || fresh(buffer))
      ensures noalloc ==> buffer == old(buffer) && length == old(length)
      ensures ok ==> buffer != null && depth == old(depth)
                     && offset == old(offset) + |ElementText(x, more, depth, format)|
                     && buffer[..offset] == old(buffer[..offset]) + ElementText(x, more, depth, format)
      ensures !ok ==> buffer == null || old(offset) + |ElementText(x, more, old(depth), format)| + 2 > Limit()
      decreases x, 5
    {
      hide Print, Strings, Holds, NulFree;
      ghost var start, t := buffer[..offset], Print(x, depth, format);
      ok := PrintAndAdvance(x);
      if !ok {
        return;
      }
      if more {
        var separator := ItemSeparator(true, format);
        ok := PutAndAdvance(separator, |separator| + 1, true);
      }
      Regroup(start, [], t, ItemSeparator(more, format));
    }

    /** The closing byte of an array or object, after which the offset is still in front of it. */
    method PutLast(closing: seq<byte>, needed: nat, ghost start: seq<byte>, ghost done: seq<byte>) returns (ok: bool)
      requires Valid() && buffer != null && depth > 0 && needed == |closing| + 1
      requires offset == |start| + |done| && buffer[..offset] == start + done
      modifies this`buffer, this`length, this`depth, buffer
      ensures Valid() && (buffer == old(buffer) || buffer == null || fresh(buffer))
      ensures noalloc ==> buffer == old(buffer) && length == old(length)
      ensures ok ==> buffer != null && Holds(start, done + closing) && depth == old(depth) - 1
      ensures ok ==> |start| + |done + closing| + 2 <= Limit()
      ensures !ok ==> buffer == null || |start| + |done + closing| + 2 > Limit()
    {
      ok := Put(closing, needed, true);
      if ok {
        depth := depth - 1;
        Associate(start, done, closing);
      }
    }
  }

  function ElementText(x: Item, more: bool, depth: nat, format: bool): seq<byte> {
    Print(x, depth, format) + ItemSeparator(more, format)
  }

  lemma ItemsUnfold(items: seq<Item>, k: nat, depth: nat, format: bool)
    requires k < |items|
    ensures PrintItems(items[k..], depth, format)
            == ElementText(items[k], k + 1 < |items|, depth, format) + PrintItems(items[k + 1..], depth, format)
    ensures |PrintItems(items[k + 1..], depth, format)| >= 1
  {
    hide Print;
    assert items[k..][1..] == items[k + 1..];
    ItemsNotEmpty(items[k + 1..], depth, format);
  }

  lemma ItemsNotEmpty(items: seq<Item>, depth: nat, format: bool)
    ensures |PrintItems(items, depth, format)| >= 1
  {
    if items != [] {
      ValueNotEmpty(items[0], depth, format);
    }
  }

  lemma ValueNotEmpty(x: Item, depth: nat, format: bool)
    ensures |Print(x, depth, format)| >= 1
  {
    hide PrintItems, PrintMembers, Escape;
  }

  lemma Regroup(s: seq<byte>, t: seq<byte>, u: seq<byte>, v: seq<byte>)
    ensures s + t + u + v == s + (t + u + v)
    ensures s + [] == s && [] + u == u
  {
  }

  lemma Associate(s: seq<byte>, t: seq<byte>, u: seq<byte>)
    ensures s + t + u == s + (t + u)
  {
  }

  lemma ItemsEnd(items: seq<Item>, depth: nat, format: bool)
    ensures PrintItems(items[|items|..], depth, format) == [CLOSE_BRACKET]
  {
  }

  function FieldText(m: Member, more: bool, depth: nat, format: bool): seq<byte> {
    PrintMember(m, depth, format) + MemberSeparator(more, format)
  }

  lemma MembersUnfold(members: seq<Member>, k: nat, depth: nat, format: bool)
    requires k < |members| && depth > 0
    ensures PrintMembers(members[k..], depth, format)
            == FieldText(members[k], k + 1 < |members|, depth, format) + PrintMembers(members[k + 1..], depth, format)
  {
    hide PrintMember;
    assert members[k..][1..] == members[k + 1..];
  }

  function ClosingBrace(depth: nat, format: bool): (r: seq<byte>)
    requires depth > 0
    ensures |r| == if format then depth else 1
  {
    Indent(depth - 1, format) + [CLOSE_BRACE]
  }

  lemma MembersEnd(members: seq<Member>, depth: nat, format: bool)
    requires depth > 0
    ensures PrintMembers(members[|members|..], depth, format) == ClosingBrace(depth, format)
  {
  }

  lemma MembersNotEmpty(members: seq<Member>, depth: nat, format: bool)
    requires depth > 0
    ensures |PrintMembers(members, depth, format)| >= 1
  {
    hide Print, PrintString;
    if members != [] {
      NamesNotEmpty(members[0], depth, format);
    }
  }

  /** Everything of a member in front of its value. */
  function PrintKey(m: Member, depth: nat, format: bool): seq<byte> {
    Indent(depth, format) + PrintString(m.name) + Colon(format)
  }

  lemma KeyParts(m: Member, depth: nat, format: bool)
    ensures 1 <= |Colon(format)|
    ensures |PrintKey(m, depth, format)| == |Indent(depth, format)| + |PrintString(m.name)| + |Colon(format)|
  {
  }

  lemma FieldParts(m: Member, more: bool, depth: nat, format: bool)
    ensures FieldText(m, more, depth, format)
            == PrintKey(m, depth, format) + Print(m.value, depth, format) + MemberSeparator(more, format)
    ensures |Print(m.value, depth, format)| >= 1
  {
    hide PrintString, Print;
    ValueNotEmpty(m.value, depth, format);
  }

  lemma NamesNotEmpty(m: Member, depth: nat, format: bool)
    ensures |PrintString(m.name)| >= 2 && 1 <= |Colon(format)| <= 2 && |PrintMember(m, depth, format)| >= 3
  {
    hide Print;
  }

  // ----- Entry points -----

  /** Prints into a buffer that starts small and grows; the text is complete, and only size or memory stop it. */
  method PrintText(x: Item, format: bool) returns (r: Option<seq<byte>>, ghost refused: bool)
    requires Strings(x)
    ensures r.Some? ==> r.value == Print(x, 0, format)
    ensures if refused then r == None else (r.Some? <==> |Print(x, 0, format)| + 2 <= 0x7FFF_FFFF)
  {
    hide Print, Strings;
    var granted: bool := *;
    if !granted {
      return None, true;
    }
    var buffer := new byte[DEFAULT_BUFFER_SIZE];
    var p := new PrintBuffer(buffer, false, format);
    var ok := p.PrintValue(x);
    if !ok {
      return None, p.buffer == null;
    }
    PrintNulFree(x, 0, format);
    assert buffer[..0] == [];
    p.UpdateOffset([], Print(x, 0, format));
    granted := *;
    if !granted {
      return None, true;
    }
    var printed := new byte[p.offset + 1];
    forall k | 0 <= k <= p.offset {
      printed[k] := p.buffer[k];
    }
    assert [] + Print(x, 0, format) == Print(x, 0, format);
    assert printed[..p.offset] == p.buffer[..p.offset];
    return Some(printed[..p.offset]), false;
  }

  /** A preallocated buffer is large enough exactly when it holds the text and two more bytes. */
  method PrintPreallocated(x: Item, buffer: array<byte>, format: bool) returns (ok: bool)
    requires Strings(x) && buffer.Length <= INT_MAX
    modifies buffer
    ensures ok <==> |Print(x, 0, format)| + 2 <= buffer.Length
    ensures ok ==> buffer[..|Print(x, 0, format)|] == Print(x, 0, format) && buffer[|Print(x, 0, format)|] == 0
  {
    hide Print, Strings;
    var p := new PrintBuffer(buffer, true, format);
    ok := p.PrintValue(x);
    assert [] + Print(x, 0, format) == Print(x, 0, format);
  }
}
