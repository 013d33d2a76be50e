// The converters over their shared state: one scratch object for every type, bound and unbound in stack order.
module GatewayConverter {

  import opened GatewayTypes
  import opened GatewayConvert
  import GatewayRoundTrip

  const STR_BUFFER_INITIAL_SIZE := 128

  /** The types that a scratch object can be made for. */
  predicate IsAggregate(t: Type) {
    t.Struct? || IsCollection(t)
  }

  /** The size of the scratch buffer after some strings, of which the one before them took `length` bytes of `size`. */
  function SizeAfter(elements: seq<Value>, size: nat, length: nat): nat
    decreases |elements|
  {
    if elements == [] then size
    else if !elements[0].Text? then SizeAfter(elements[1..], size, length)
    else
      var needed := |elements[0].s| + 1;
      SizeAfter(elements[1..], if needed <= length then size else needed, needed)
  }

  class ConverterState {
    /** The types that have a scratch object, each exactly one. */
    var cache: set<Type>

    /** The scratch objects that are bound, each to the one before it and the first to the caller's object. */
    var bound: seq<Type>

    /** The scratch buffer for strings and octets. */
    var strBuffer: seq<byte>

    /** Whether a scratch object could not be created. */
    ghost var refused: bool

    constructor ()
      ensures cache == {} && bound == [] && strBuffer == [] && !refused
    {
      cache, bound, strBuffer, refused := {}, [], [], false;
    }

    /** No scratch object for a type of depth `n` or less is bound. */
    ghost predicate Free(n: nat)
      reads this`bound
    {
      forall i :: 0 <= i < |bound| ==> Depth(bound[i]) > n
    }

    method GetCached(t: Type) returns (ok: bool)
      modifies this`cache, this`refused
      ensures t in old(cache) ==> ok
      ensures ok ==> cache == old(cache) + {t} && refused == old(refused)
      ensures !ok ==> cache == old(cache) && (refused || !IsAggregate(t))
      ensures old(refused) ==> refused
    {
      if t in cache {
        return true;
      }
      var created: bool := *;
      if !created || !IsAggregate(t) {
        refused := true;
        return false;
      }
      cache := cache + {t};
      ok := true;
    }

    /** The library binds an object only if it is not bound already. */
    method Bind(t: Type)
      requires t in cache && t !in bound
      modifies this`bound
      ensures bound == old(bound) + [t]
    {
      bound := bound + [t];
    }

    method Unbind(t: Type)
      requires bound != [] && bound[|bound| - 1] == t
      modifies this`bound
      ensures bound == old(bound)[..|old(bound)| - 1]
    {
      bound := bound[..|bound| - 1];
    }

    /** The library's string getter: it writes the string and its terminator if they fit `capacity`, and
        tells how much they need. */
    method GetString(s: seq<byte>, capacity: nat) returns (fits: bool, length: nat)
      requires capacity <= |strBuffer|
      modifies this`strBuffer
      ensures length == |s| + 1 && (fits <==> length <= capacity)
      ensures |strBuffer| == |old(strBuffer)| && (fits ==> strBuffer[..length] == s + [0])
    {
      length := |s| + 1;
      fits := length <= capacity;
      if fits {
        strBuffer := s + [0] + strBuffer[length..];
      }
    }

    /** Reads a string through the scratch buffer, which only grows. */
    method ReadString(s: seq<byte>) returns (r: seq<byte>)
      modifies this`strBuffer
      ensures var room := if old(strBuffer) == [] then 128 else |old(strBuffer)|;
              |strBuffer| == if |s| + 1 <= room then room else |s| + 1
      ensures r == s && strBuffer[..|s| + 1] == s + [0]
    {
      var length := |strBuffer|;
      if length == 0 {
        strBuffer := Resized(strBuffer, STR_BUFFER_INITIAL_SIZE);
        length := |strBuffer|;
      }
      var fits;
      fits, length := GetString(s, length);
      if !fits {
        strBuffer := Resized(strBuffer, length);
        fits, length := GetString(s, length);
      }
      r := strBuffer[..length - 1];
      assert r == strBuffer[..length][..|s|] == (s + [0])[..|s|];
    }

    /** The same for an element: `length` is the size of the string before it, so the buffer can shrink. */
    method ReadElementString(s: seq<byte>, length: nat) returns (r: seq<byte>, next: nat)
      requires length <= |strBuffer|
      modifies this`strBuffer
      ensures r == s && next == |s| + 1 <= |strBuffer| && strBuffer[..next] == s + [0]
      ensures |strBuffer| == if |s| + 1 <= length then |old(strBuffer)| else |s| + 1
      ensures |strBuffer| < |old(strBuffer)| <==> length < |s| + 1 < |old(strBuffer)|
    {
      var fits;
      fits, next := GetString(s, length);
      if !fits {
        strBuffer := Resized(strBuffer, next);
        fits, next := GetString(s, next);
      }
      r := strBuffer[..next - 1];
      assert r == strBuffer[..next][..|s|] == (s + [0])[..|s|];
    }

    /** Reads a sequence of octets; the buffer takes exactly its size. */
    method ReadOctets(elements: seq<Value>) returns (ok: bool, r: seq<byte>)
      modifies this`strBuffer
      ensures |strBuffer| == |elements|
      ensures Octets(elements) == if ok then Some(r) else None
    {
      strBuffer := Resized(strBuffer, |elements|);
      var bytes := Octets(elements);
      OctetsSize(elements);
      ok := bytes.Some?;
      if ok {
        strBuffer := bytes.value;
      }
      r := strBuffer;
    }

    // ----- DDS to Protobuf -----

    /** Converts the members that are there; whatever happens, the bindings are as they were. */
    method DdsToProtobuf(t: Type, v: Value, d: Descriptor) returns (ok: bool, message: Message)
      requires forall i :: 0 <= i < |bound| ==> Depth(bound[i]) >= Depth(Resolve(t))
      modifies this
      ensures bound == old(bound) && old(cache) <= cache && (old(refused) ==> refused)
      ensures ok ==> ToPb(t, v, d) == Some(message)
      ensures !ok ==> ToPb(t, v, d) == None || refused
      decreases Depth(Resolve(t)), 3
    {
      hide Depth, MemberToPb, FindField;
      message := Cleared(d);
      var k := Resolve(t);
      if !k.Struct? || !v.Record? || |v.fields| != |k.members| {
        return false, message;
      }
      MembersAreShallower(k);
      for i := 0 to |k.members|
        invariant bound == old(bound) && old(cache) <= cache && (old(refused) ==> refused)
        invariant |message| == |d.fields| && ToPbFrom(k, v.fields, i, d, message) == ToPb(t, v, d)
      {
        if v.fields[i].Some? {
          var f := FindField(d, k.members[i].name, 0);
          if f.None? {
            return false, message;
          }
          var slot;
          ok, slot := MemberToProtobuf(k.members[i].ty, v.fields[i].value, d.fields[f.value]);
          if !ok {
            return;
          }
          message := message[f.value := slot];
        }
      }
      ok := true;
    }

    method MemberToProtobuf(t: Type, v: Value, f: Field) returns (ok: bool, slot: Slot)
      requires Free(Depth(t))
      modifies this
      ensures bound == old(bound) && old(cache) <= cache && (old(refused) ==> refused)
      ensures ok ==> MemberToPb(t, v, f) == Some(slot)
      ensures !ok ==> MemberToPb(t, v, f) == None || refused
      decreases Depth(t), 6
    {
      hide Depth, SingularToPb, CollectionToPb;
      var k := Resolve(t);
      if IsCollection(k) && !(f.ftype.PbBytes? && Resolve(k.element).Octet?) {
        ok, slot := CollectionMemberToPb(k, v, f);
      } else {
        ok, slot := SingularMemberToPb(k, v, f);
      }
    }

    method SingularMemberToPb(k: Type, v: Value, f: Field) returns (ok: bool, slot: Slot)
      requires !k.Alias? && Free(Depth(k))
      modifies this
      ensures bound == old(bound) && old(cache) <= cache && (old(refused) ==> refused)
      ensures ok ==> SingularToPb(k, v, f) == Some(slot)
      ensures !ok ==> SingularToPb(k, v, f) == None || refused
      decreases Depth(k), 4
    {
      hide Depth, ToPb;
      ok, slot := false, Unset;
      if k.Struct? {
        var created := GetCached(k);
        if !created {
          return;
        }
        Bind(k);
        if !f.repeated && IsSubMessage(f.ftype) {
          var message;
          ok, message := DdsToProtobuf(k, v, f.ftype.descriptor);
          slot := One(PbSub(message));
        }
        Unbind(k);
      } else {
        ok, slot := PlainMemberToPb(k, v, f);
      }
    }

    /** Sequences of octets and scalars, which need no scratch object. */
    method PlainMemberToPb(k: Type, v: Value, f: Field) returns (ok: bool, slot: Slot)
      requires !k.Struct?
      modifies this`strBuffer
      ensures SingularToPb(k, v, f) == if ok then Some(slot) else None
      ensures k.Sequence? && v.List? ==> |strBuffer| == |v.elements|
    {
      hide SetField, Octets, SetterOf;
      ok, slot := false, Unset;
      if k.Sequence? {
        if v.List? {
          var read, bytes := ReadOctets(v.elements);
          if read {
            ok, slot := SlotOf(SetField(f, SetString, PbText(bytes)));
          }
        }
      } else if SetterOf(k).Some? && ScalarToPb(v).Some? {
        if v.Text? {
          var text := ReadString(v.s);
          ok, slot := SlotOf(SetField(f, SetterOf(k).value, PbText(text)));
        } else {
          ok, slot := SlotOf(SetField(f, SetterOf(k).value, ScalarToPb(v).value));
        }
      }
    }

    static method SlotOf(s: Option<Slot>) returns (ok: bool, slot: Slot)
      ensures s == if ok then Some(slot) else None
    {
      ok, slot := s.Some?, if s.Some? then s.value else Unset;
    }

    method CollectionMemberToPb(k: Type, v: Value, f: Field) returns (ok: bool, slot: Slot)
      requires IsCollection(k) && Free(Depth(k))
      modifies this
      ensures bound == old(bound) && old(cache) <= cache && (old(refused) ==> refused)
      ensures ok ==> CollectionToPb(k, v, f) == Some(slot)
      ensures !ok ==> CollectionToPb(k, v, f) == None || refused
      decreases Depth(k), 5
    {
      hide ElementsToPb;
      ok, slot := false, Unset;
      if !v.List? {
        return;
      }
      if v.elements == [] {
        return true, Unset;
      }
      var created := GetCached(k);
      if !created {
        return;
      }
      Bind(k);
      var e, values := Resolve(k.element), [];
      if e.Struct? {
        created := GetCached(e);
        if created {
          ok, values := MessagesToPb(e, v.elements, f);
        }
      } else {
        ok, values := ScalarsToPb(e, v.elements, f);
      }
      slot := if values == [] then Unset else Many(values);
      Unbind(k);
    }

    method MessagesToPb(e: Type, elements: seq<Value>, f: Field) returns (ok: bool, values: seq<PbValue>)
      requires e.Struct? && e in cache && Free(Depth(e))
      modifies this
      ensures bound == old(bound) && old(cache) <= cache && (old(refused) ==> refused)
      ensures ok ==> ElementsToPb(e, elements, f) == Some(values)
      ensures !ok ==> ElementsToPb(e, elements, f) == None || refused
      decreases Depth(e), 5
    {
      hide Depth, ElementsToPb, ElementToPb;
      values := [];
      AppendNothing(ElementsToPb(e, elements, f));
      assert elements[0..] == elements;
      for i := 0 to |elements|
        invariant bound == old(bound) && old(cache) <= cache && (old(refused) ==> refused)
        invariant Append(values, ElementsToPb(e, elements[i..], f)) == ElementsToPb(e, elements, f)
      {
        ElementsUnfold(e, elements, i, f);
        Bind(e);
        var message;
        ok := false;
        if f.repeated && IsSubMessage(f.ftype) {
          ok, message := DdsToProtobuf(e, elements[i], f.ftype.descriptor);
        }
        Unbind(e);
        StructElement(e, elements[i], f);
        if !ok {
          return;
        }
        AppendTwo(values, [PbSub(message)], ElementsToPb(e, elements[i + 1..], f));
        values := values + [PbSub(message)];
      }
      ElementsDone(e, elements, f, values);
      ok := true;
    }

    method ScalarsToPb(e: Type, elements: seq<Value>, f: Field) returns (ok: bool, values: seq<PbValue>)
      requires !e.Struct?
      modifies this`strBuffer
      ensures ElementsToPb(e, elements, f) == if ok then Some(values) else None
      ensures ok && e.String? ==>
        var room := if old(strBuffer) == [] then 128 else |old(strBuffer)|;
        |strBuffer| == SizeAfter(elements, room, room)
    {
      hide ElementsToPb, ElementToPb;
      ghost var room := if strBuffer == [] then 128 else |strBuffer|;
      values := [];
      AppendNothing(ElementsToPb(e, elements, f));
      assert elements[0..] == elements;
      var length: nat := |strBuffer|;
      if e.String? && length == 0 {
        strBuffer := Resized(strBuffer, STR_BUFFER_INITIAL_SIZE);
        length := |strBuffer|;
      }
      for i := 0 to |elements|
        invariant e.String? ==>
          length <= |strBuffer| && SizeAfter(elements[i..], |strBuffer|, length) == SizeAfter(elements, room, room)
        invariant Append(values, ElementsToPb(e, elements[i..], f)) == ElementsToPb(e, elements, f)
      {
        ElementsUnfold(e, elements, i, f);
        assert elements[i..][0] == elements[i] && elements[i..][1..] == elements[i + 1..];
        var x;
        x, length := PlainElementToPb(e, elements[i], f, length);
        if x.None? {
          return false, values;
        }
        AppendTwo(values, x.value, ElementsToPb(e, elements[i + 1..], f));
        values := values + x.value;
      }
      ElementsDone(e, elements, f, values);
      ok := true;
    }

    method PlainElementToPb(e: Type, v: Value, f: Field, length: nat) returns (x: Option<seq<PbValue>>, next: nat)
      requires !e.Struct? && (e.String? ==> length <= |strBuffer|)
      modifies this`strBuffer
      ensures x == ElementToPb(e, v, f)
      ensures e.String? ==> next <= |strBuffer|
      ensures e.String? && v.Text? ==>
        next == |v.s| + 1 && |strBuffer| == if |v.s| + 1 <= length then |old(strBuffer)| else |v.s| + 1
      ensures e.String? && !v.Text? ==> next == length && strBuffer == old(strBuffer)
    {
      hide AddField, Octets;
      x, next := None, length;
      if e.Sequence? {
        if Resolve(e.element).Octet? && v.List? {
          var read, bytes := ReadOctets(v.elements);
          if read {
            x := AddField(f, SetString, PbText(bytes));
          }
        }
      } else if SetterOf(e).Some? && ScalarToPb(v).Some? {
        if e.String? && v.Text? {
          var text;
          text, next := ReadElementString(v.s, length);
          x := AddField(f, SetterOf(e).value, PbText(text));
        } else {
          x := AddField(f, SetterOf(e).value, ScalarToPb(v).value);
        }
      }
    }

    // ----- Protobuf to DDS -----

    /** Puts the set fields into a value; whatever happens, the bindings are as they were. */
    method ProtobufToDds(t: Type, v: Value, d: Descriptor, message: Message) returns (ok: bool, r: Value)
      requires |message| == |d.fields|
      requires forall i :: 0 <= i < |bound| ==> Depth(bound[i]) >= Depth(Resolve(t))
      modifies this
      ensures bound == old(bound) && old(cache) <= cache && (old(refused) ==> refused)
      ensures ok ==> ToDds(t, v, d, message) == Some(r)
      ensures !ok ==> ToDds(t, v, d, message) == None || refused
      decreases Depth(Resolve(t)), 3
    {
      hide Depth, FieldToDds, FindMember;
      var k := Resolve(t);
      r := v;
      if k.Struct? {
        MembersAreShallower(k);
      }
      for f := 0 to |message|
        invariant bound == old(bound) && old(cache) <= cache && (old(refused) ==> refused)
        invariant ToDdsFrom(k, r, f, d, message) == ToDds(t, v, d, message)
      {
        if !message[f].Unset? {
          if !k.Struct? || !r.Record? || |r.fields| != |k.members| {
            return false, r;
          }
          var i := FindMember(k.members, d.fields[f].name, 0);
          if i.None? {
            return false, r;
          }
          var x;
          ok, x := FieldToMember(k.members[i.value].ty, r.fields[i.value], d.fields[f], message[f]);
          if !ok {
            return;
          }
          r := Record(r.fields[i.value := Some(x)]);
        }
      }
      ok := true;
    }

    method FieldToMember(t: Type, v: Option<Value>, f: Field, slot: Slot) returns (ok: bool, r: Value)
      requires Free(Depth(t)) && !slot.Unset?
      modifies this
      ensures bound == old(bound) && old(cache) <= cache && (old(refused) ==> refused)
      ensures ok ==> FieldToDds(t, v, f, slot) == Some(r)
      ensures !ok ==> FieldToDds(t, v, f, slot) == None || refused
      decreases Depth(t), 6
    {
      hide Depth, SingularToDds, ElementsToDds, Default;
      var k := Resolve(t);
      r := Current(k, v);
      if f.repeated {
        if !slot.Many? || !IsCollection(k) || !r.List? {
          return false, r;
        }
        var created := GetCached(k);
        if !created {
          return false, r;
        }
        Bind(k);
        var elements;
        ok, elements := RepeatedToElements(k, r.elements, f, slot.values);
        Unbind(k);
        r := List(elements);
      } else {
        if !slot.One? {
          return false, r;
        }
        ok, r := SingularToMember(k, v, f, slot.value);
      }
    }

    method SingularToMember(k: Type, v: Option<Value>, f: Field, x: PbValue) returns (ok: bool, r: Value)
      requires !k.Alias? && Free(Depth(k))
      modifies this
      ensures bound == old(bound) && old(cache) <= cache && (old(refused) ==> refused)
      ensures ok ==> SingularToDds(k, v, f, x) == Some(r)
      ensures !ok ==> SingularToDds(k, v, f, x) == None || refused
      decreases Depth(k), 5
    {
      hide Depth, ToDds, ScalarToDds, Default;
      ok, r := false, Current(k, v);
      if IsSubMessage(f.ftype) {
        if !x.PbSub? || |x.slots| != |f.ftype.descriptor.fields| {
          return;
        }
        var created := GetCached(k);
        if !created || !IsAggregate(k) {
          return;
        }
        Bind(k);
        ok, r := ProtobufToDds(k, r, f.ftype.descriptor, x.slots);
        Unbind(k);
      } else {
        var y := ScalarToDds(k, f.ftype, x);
        ok, r := y.Some?, if y.Some? then y.value else r;
      }
    }

    method RepeatedToElements(k: Type, elements: seq<Value>, f: Field, values: seq<PbValue>)
      returns (ok: bool, r: seq<Value>)
      requires IsCollection(k) && (forall i :: 0 <= i < |bound| ==> Depth(bound[i]) >= Depth(k))
      modifies this
      ensures bound == old(bound) && old(cache) <= cache && (old(refused) ==> refused)
      ensures ok ==> ElementsToDds(k, elements, 0, f, values) == Some(r)
      ensures !ok ==> ElementsToDds(k, elements, 0, f, values) == None || refused
      decreases Depth(k), 4
    {
      var e := Resolve(k.element);
      assert Free(Depth(e));
      hide Depth, ElementToDds, Default;
      ok, r := false, elements;
      if values == [] {
        return true, r;
      }
      var messages := IsSubMessage(f.ftype);
      if messages {
        var created := GetCached(e);
        if !created || !IsAggregate(e) {
          return;
        }
      }
      for j := 0 to |values|
        invariant bound == old(bound) && old(cache) <= cache && (old(refused) ==> refused)
        invariant messages ==> e in cache
        invariant ElementsToDds(k, r, j, f, values) == ElementsToDds(k, elements, 0, f, values)
      {
        ok := false;
        if !HasRoom(k, r, j) {
          return;
        }
        var x := ElementAt(k, r, j);
        if messages {
          Bind(e);
          ok, x := MessageToElement(e, x, f, values[j]);
          Unbind(e);
        } else {
          var y := ElementToDds(e, x, f, values[j]);
          ok, x := y.Some?, if y.Some? then y.value else x;
        }
        if !ok {
          return;
        }
        r := PutElement(r, j, x);
      }
      ok := true;
    }

    method MessageToElement(e: Type, v: Value, f: Field, x: PbValue) returns (ok: bool, r: Value)
      requires IsAggregate(e) && IsSubMessage(f.ftype)
      requires forall i :: 0 <= i < |bound| ==> Depth(bound[i]) >= Depth(e)
      modifies this
      ensures bound == old(bound) && old(cache) <= cache && (old(refused) ==> refused)
      ensures ok ==> ElementToDds(e, v, f, x) == Some(r)
      ensures !ok ==> ElementToDds(e, v, f, x) == None || refused
      decreases Depth(e), 4
    {
      hide Depth, ToDds;
      ok, r := false, v;
      if x.PbSub? && |x.slots| == |f.ftype.descriptor.fields| {
        ok, r := ProtobufToDds(e, v, f.ftype.descriptor, x.slots);
      }
    }
  }

  /** Serialize and deserialize on one state, between which the message keeps its fields. */
  method ThereAndBack(state: ConverterState, t: Type, v: Value, d: Descriptor) returns (ok: bool, r: Value)
    requires state.bound == []
    requires GatewayRoundTrip.Mapped(t, d) && WellTyped(v, t)
    modifies state
    ensures state.bound == []
    ensures ok || state.refused
    ensures ok ==> (r == v <==> GatewayRoundTrip.Faithful(t, v, d))
    ensures ok && GatewayRoundTrip.NoOptional(t) && GatewayRoundTrip.OpenEnums(d) ==> r == v
  {
    hide ToPb, ToDds, GatewayRoundTrip.Mapped, GatewayRoundTrip.Faithful, GatewayRoundTrip.NoOptional, GatewayRoundTrip.OpenEnums, WellTyped, Default;
    GatewayRoundTrip.StructRoundTrip(t, v, d);
    r := Default(t);
    var message;
    ok, message := state.DdsToProtobuf(t, v, d);
    if ok {
      ok, r := state.ProtobufToDds(t, r, d, message);
    }
    if GatewayRoundTrip.NoOptional(t) && GatewayRoundTrip.OpenEnums(d) {
      GatewayRoundTrip.NoOptionalIsFaithful(t, v, d);
    }
  }

  // ----- The scratch buffer -----

  /** A buffer cut or filled up with NULs to a size. */
  function Resized(s: seq<byte>, size: nat): (r: seq<byte>)
    ensures |r| == size
  {
    if size <= |s| then s[..size] else s + seq(size - |s|, _ => 0)
  }

  lemma {:induction false} OctetsSize(elements: seq<Value>)
    ensures Octets(elements).Some? ==> |Octets(elements).value| == |elements|
    decreases |elements|
  {
    if elements != [] {
      OctetsSize(elements[1..]);
    }
  }

  // ----- Steps of the loops -----

  lemma MembersAreShallower(k: Type)
    requires k.Struct?
    ensures forall i :: 0 <= i < |k.members| ==> Depth(k.members[i].ty) < Depth(k)
  {
  }

  function Append(done: seq<PbValue>, rest: Option<seq<PbValue>>): Option<seq<PbValue>> {
    if rest.None? then None else Some(done + rest.value)
  }

  lemma AppendNothing(rest: Option<seq<PbValue>>)
    ensures Append([], rest) == rest
  {
    assert rest.Some? ==> [] + rest.value == rest.value;
  }

  lemma AppendTwo(s: seq<PbValue>, t: seq<PbValue>, rest: Option<seq<PbValue>>)
    ensures Append(s, Append(t, rest)) == Append(s + t, rest)
  {
    assert rest.Some? ==> s + (t + rest.value) == s + t + rest.value;
  }

  lemma ElementsUnfold(e: Type, elements: seq<Value>, i: nat, f: Field)
    requires i < |elements|
    ensures ElementsToPb(e, elements[i..], f)
            == match ElementToPb(e, elements[i], f)
               case None => None
               case Some(first) => Append(first, ElementsToPb(e, elements[i + 1..], f))
  {
    hide ElementToPb;
    assert elements[i..][1..] == elements[i + 1..];
  }

  lemma ElementsDone(e: Type, elements: seq<Value>, f: Field, values: seq<PbValue>)
    requires Append(values, ElementsToPb(e, elements[|elements|..], f)) == ElementsToPb(e, elements, f)
    ensures ElementsToPb(e, elements, f) == Some(values)
  {
    assert values + [] == values;
  }

  lemma StructElement(e: Type, v: Value, f: Field)
    requires e.Struct?
    ensures ElementToPb(e, v, f)
            == if !f.repeated || !IsSubMessage(f.ftype) || ToPb(e, v, f.ftype.descriptor).None? then None
               else Some([PbSub(ToPb(e, v, f.ftype.descriptor).value)])
  {
    hide ToPb;
  }
}
