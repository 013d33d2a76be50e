// What comes back after a value went to Protobuf and back.
module GatewayRoundTrip {

  import opened GatewayTypes
  import opened GatewayConvert

  // ----- Types that are mapped as documented -----

  /** Every member has a field of its own name and of a type it maps to. */
  predicate Mapped(t: Type, d: Descriptor)
    decreases Depth(t), 3
  {
    var k := Resolve(t);
    k.Struct? && DistinctMembers(k.members) && DistinctFields(d)
    && forall i :: 0 <= i < |k.members| ==> MappedMember(k.members[i], d)
  }

  predicate DistinctMembers(members: seq<MemberType>) {
    forall i, j :: 0 <= i < j < |members| ==> members[i].name != members[j].name
  }

  predicate DistinctFields(d: Descriptor) {
    forall i, j :: 0 <= i < j < |d.fields| ==> d.fields[i].name != d.fields[j].name
  }

  predicate MappedMember(m: MemberType, d: Descriptor)
    decreases Depth(m.ty), 7
  {
    var f := FindField(d, m.name, 0);
    f.Some? && MappedType(m.ty, d.fields[f.value])
  }

  predicate MappedType(t: Type, f: Field)
    decreases Depth(t), 6
  {
    var k := Resolve(t);
    if IsCollection(k) then
      if f.repeated then MappedElement(Resolve(k.element), f.ftype) else f.ftype.PbBytes? && IsOctets(k)
    else !f.repeated && MappedScalar(k, f.ftype)
  }

  predicate MappedElement(e: Type, t: FieldType)
    decreases Depth(e), 5
  {
    if IsCollection(e) then t.PbBytes? && IsOctets(e) else MappedScalar(e, t)
  }

  predicate IsOctets(k: Type) {
    k.Sequence? && Resolve(k.element).Octet?
  }

  /** The documented table for single values. */
  predicate MappedScalar(k: Type, t: FieldType)
    decreases Depth(k), 4
  {
    match k
    case Short => t.Int32? || t.SInt32? || t.SFixed32?
    case Long => t.Int32? || t.SInt32? || t.SFixed32?
    case Char => t.Int32? || t.SInt32? || t.SFixed32?
    case LongLong => t.Int64? || t.SInt64? || t.SFixed64?
    case UShort => t.UInt32? || t.Fixed32?
    case ULong => t.UInt32? || t.Fixed32?
    case Octet => t.UInt32? || t.Fixed32?
    case ULongLong => t.UInt64? || t.Fixed64?
    case Float => t.PbFloat?
    case Double => t.PbDouble?
    case Boolean => t.PbBool?
    case String => t.PbString?
    case Enum => t.PbEnum?
    case Struct(_) => (t.PbMessage? || t.PbGroup?) && Mapped(k, t.descriptor)
    case _ => false
  }

  // ----- Values that survive -----

  /** A number that a closed enumeration does not know, and so drops. */
  predicate Unknown(v: Value, ft: FieldType) {
    v.Int? && ft.PbEnum? && ft.closed && v.i !in ft.numbers
  }

  function KnownOnly(elements: seq<Value>, ft: FieldType): seq<Value> {
    if elements == [] then []
    else (if Unknown(elements[0], ft) then [] else [elements[0]]) + KnownOnly(elements[1..], ft)
  }

  /** The field for such a value stays unset: an unknown number, a zero without presence, or no elements. */
  predicate Vanishes(t: Type, v: Value, f: Field) {
    var k := Resolve(t);
    if IsCollection(k) then
      v.List? && if f.repeated then KnownOnly(v.elements, f.ftype) == [] else v.elements == [] && !f.presence
    else
      !k.Struct? && ScalarToPb(v).Some?
      && (!Known(f.ftype, ScalarToPb(v).value) || (!f.presence && IsZero(ScalarToPb(v).value)))
  }

  /** No optional member that is present holds a value that vanishes, and no unknown number is anything but zero. */
  predicate Faithful(t: Type, v: Value, d: Descriptor)
    decreases Depth(t), 3
  {
    var k := Resolve(t);
    k.Struct? && v.Record? && |v.fields| == |k.members| ==>
      forall i :: 0 <= i < |k.members| ==> FaithfulMember(k.members[i], v.fields[i], d)
  }

  predicate FaithfulMember(m: MemberType, v: Option<Value>, d: Descriptor)
    decreases Depth(m.ty), 7
  {
    var f := FindField(d, m.name, 0);
    v.Some? && f.Some? ==>
      FaithfulType(m.ty, v.value, d.fields[f.value])
      && (m.optional ==> !Vanishes(m.ty, v.value, d.fields[f.value]))
  }

  predicate FaithfulType(t: Type, v: Value, f: Field)
    decreases Depth(t), 6
  {
    var k := Resolve(t);
    if IsCollection(k) && f.repeated then
      v.List? ==>
        if Resolve(k.element).Enum? then FaithfulNumbers(k, v.elements, f.ftype)
        else forall j :: 0 <= j < |v.elements| ==> FaithfulValue(Resolve(k.element), v.elements[j], f.ftype)
    else FaithfulValue(k, v, f.ftype)
  }

  predicate FaithfulValue(k: Type, v: Value, ft: FieldType)
    decreases Depth(k), 4
  {
    (k.Struct? && IsSubMessage(ft) ==> Faithful(k, v, ft.descriptor))
    && (Unknown(v, ft) ==> v == Int(0))
  }

  /** Unknown numbers close the gap that they leave, which shows unless only zeros of an array follow. */
  predicate FaithfulNumbers(k: Type, elements: seq<Value>, ft: FieldType) {
    forall j :: 0 <= j < |elements| && Unknown(elements[j], ft) ==>
                  k.Array? && forall i :: j <= i < |elements| ==> elements[i] == Int(0)
  }

  // ----- Scalars -----

  /** A cast that the range check lets through loses nothing. */
  lemma FuzzyLongKeepsValue(k: Type, i: int)
    requires -0x8000_0000 <= i < 0x8000_0000
    ensures SetFuzzyLong(k, i) == if ScalarRange(k, Int(i)) && k in {Short, Char, Long, Enum} then Some(Int(i)) else None
  {
  }

  lemma FuzzyULongKeepsValue(k: Type, i: nat)
    requires i < 0x1_0000_0000
    ensures SetFuzzyULong(k, i) == if ScalarRange(k, Int(i)) && k in {UShort, Octet, ULong} then Some(Int(i)) else None
  {
  }

  lemma {:induction false} UpToNulOfNulFree(s: seq<byte>)
    requires forall k :: 0 <= k < |s| ==> s[k] != 0
    ensures UpToNul(s) == s
    decreases |s|
  {
    if s != [] {
      UpToNulOfNulFree(s[1..]);
    }
  }

  /** What a C string shows: everything up to the first NUL. */
  lemma {:induction false} UpToNulIsPrefix(s: seq<byte>)
    ensures var r := UpToNul(s);
            && |r| <= |s| && r == s[..|r|] && (forall k :: 0 <= k < |r| ==> r[k] != 0)
            && (|r| < |s| ==> s[|r|] == 0)
    decreases |s|
  {
    if s != [] && s[0] != 0 {
      UpToNulIsPrefix(s[1..]);
      assert s[..|UpToNul(s)|] == [s[0]] + s[1..][..|UpToNul(s[1..])|];
    }
  }

  /** Single values go into the fields of the documented table, strings also into bytes, and nothing else anywhere. */
  lemma ScalarGoesByTable(k: Type, v: Value, f: Field)
    requires ScalarRange(k, v)
    ensures var goes := MappedScalar(k, f.ftype) || (k.String? && f.ftype.PbBytes?);
            if f.repeated then ElementToPb(k, v, f).Some? <==> goes else SingularToPb(k, v, f).Some? <==> goes
  {
  }

  /** What a field of a type can hold on the wire. */
  predicate OnWire(t: FieldType, x: PbValue) {
    match t
    case Int32 => x.PbInt? && -0x8000_0000 <= x.i < 0x8000_0000
    case SInt32 => x.PbInt? && -0x8000_0000 <= x.i < 0x8000_0000
    case SFixed32 => x.PbInt? && -0x8000_0000 <= x.i < 0x8000_0000
    case PbEnum(_, _) => x.PbInt? && -0x8000_0000 <= x.i < 0x8000_0000
    case Int64 => x.PbInt? && -0x8000_0000_0000_0000 <= x.i < 0x8000_0000_0000_0000
    case SInt64 => x.PbInt? && -0x8000_0000_0000_0000 <= x.i < 0x8000_0000_0000_0000
    case SFixed64 => x.PbInt? && -0x8000_0000_0000_0000 <= x.i < 0x8000_0000_0000_0000
    case UInt32 => x.PbInt? && 0 <= x.i < 0x1_0000_0000
    case Fixed32 => x.PbInt? && 0 <= x.i < 0x1_0000_0000
    case UInt64 => x.PbInt? && 0 <= x.i < 0x1_0000_0000_0000_0000
    case Fixed64 => x.PbInt? && 0 <= x.i < 0x1_0000_0000_0000_0000
    case PbFloat => x.PbReal?
    case PbDouble => x.PbReal?
    case PbBool => x.PbFlag?
    case PbString => x.PbText?
    case _ => false
  }

  /** The value itself, of the DDS kind that corresponds; a text as far as a C string shows it. */
  function SameValue(x: PbValue): Value
    requires !x.PbSub?
  {
    match x
    case PbInt(i) => Int(i)
    case PbReal(r) => Real(r)
    case PbFlag(b) => Bool(b)
    case PbText(s) => Text(UpToNul(s))
  }

  /** Values of fields go into members by the same table, besides enumerators and 32-bit numbers into each other; no
      value changes, and one that does not fit is refused. */
  lemma ScalarComesByTable(k: Type, t: FieldType, x: PbValue)
    requires OnWire(t, x)
    ensures ScalarToDds(k, t, x)
            == if (MappedScalar(k, t) || (k.Long? && t.PbEnum?) || (k.Enum? && (t.Int32? || t.SInt32? || t.SFixed32?)))
                  && (x.PbInt? ==> ScalarRange(k, Int(x.i)))
               then Some(SameValue(x)) else None
  {
    hide SetFuzzyLong, SetFuzzyULong, SetFuzzyBytes, UpToNul;
    if t.Int32? || t.SInt32? || t.SFixed32? {
      FuzzyLongKeepsValue(k, x.i);
    } else if t.UInt32? || t.Fixed32? {
      FuzzyULongKeepsValue(k, x.i);
    } else if x.PbInt? {
      NumberComesByTable(k, t, x);
    } else {
      OtherComesByTable(k, t, x);
    }
  }

  lemma NumberComesByTable(k: Type, t: FieldType, x: PbValue)
    requires OnWire(t, x) && x.PbInt?
    requires t.Int64? || t.SInt64? || t.SFixed64? || t.UInt64? || t.Fixed64? || t.PbEnum?
    ensures ScalarToDds(k, t, x)
            == if (MappedScalar(k, t) || (k.Long? && t.PbEnum?)) && ScalarRange(k, Int(x.i)) then Some(Int(x.i)) else None
  {
    hide SetFuzzyLong, SetFuzzyULong, SetFuzzyBytes, UpToNul;
  }

  lemma OtherComesByTable(k: Type, t: FieldType, x: PbValue)
    requires OnWire(t, x) && !x.PbInt?
    ensures ScalarToDds(k, t, x) == if MappedScalar(k, t) then Some(SameValue(x)) else None
  {
    hide SetFuzzyLong, SetFuzzyULong, SetFuzzyBytes, UpToNul;
  }

  lemma ScalarSetter(k: Type, v: Value, ft: FieldType)
    requires MappedScalar(k, ft) && ScalarRange(k, v)
    ensures SetterOf(k).Some? && Accepts(ft, SetterOf(k).value)
    ensures ScalarToPb(v).Some? && (Known(ft, ScalarToPb(v).value) <==> !Unknown(v, ft))
  {
  }

  lemma ZeroIsDefault(k: Type, v: Value)
    requires ScalarRange(k, v) && ScalarToPb(v).Some?
    ensures IsZero(ScalarToPb(v).value) <==> v == Default(k)
  {
  }

  /** A scalar comes back through the setter of its kind unchanged. */
  lemma ScalarRoundTrip(k: Type, v: Value, ft: FieldType)
    requires MappedScalar(k, ft) && ScalarRange(k, v) && ScalarToPb(v).Some?
    ensures ScalarToDds(k, ft, ScalarToPb(v).value) == Some(v)
  {
    hide SetFuzzyLong, SetFuzzyULong, SetFuzzyBytes;
    match v
    case Int(i) =>
      if ft.Int32? || ft.SInt32? || ft.SFixed32? {
        FuzzyLongKeepsValue(k, i);
      } else if ft.UInt32? || ft.Fixed32? {
        FuzzyULongKeepsValue(k, i);
      }
    case Text(s) =>
      UpToNulOfNulFree(s);
    case _ =>
  }

  lemma {:induction false} OctetsOf(elements: seq<Value>)
    requires forall j :: 0 <= j < |elements| ==> ScalarRange(Octet, elements[j])
    ensures Octets(elements).Some?
    ensures var s := Octets(elements).value;
            |s| == |elements| && forall j :: 0 <= j < |s| ==> elements[j] == Int(s[j])
    decreases |elements|
  {
    if elements != [] {
      OctetsOf(elements[1..]);
      var s, rest := Octets(elements).value, Octets(elements[1..]).value;
      forall j | 0 <= j < |s| ensures elements[j] == Int(s[j]) {
        if j > 0 {
          assert elements[j] == elements[1..][j - 1];
        }
      }
    }
  }

  lemma OctetsRoundTrip(k: Type, v: Value)
    requires IsOctets(k) && WellTyped(v, k)
    ensures Octets(v.elements).Some? && |Octets(v.elements).value| == |v.elements|
    ensures SetFuzzyBytes(k, Octets(v.elements).value) == Some(v)
  {
    forall j | 0 <= j < |v.elements| ensures ScalarRange(Octet, v.elements[j]) {
      ResolveKeepsValues(v.elements[j], k.element);
    }
    OctetsOf(v.elements);
    var s := Octets(v.elements).value;
    var r := SetFuzzyBytes(k, s);
    assert r.Some? && |r.value.elements| == |v.elements|;
    assert forall j :: 0 <= j < |v.elements| ==> r.value.elements[j] == v.elements[j];
    assert r.value.elements == v.elements;
  }

  /** Where a bytes field may go, and what arrives: byte for byte, and as characters modulo 256. */
  lemma FuzzyBytesPointwise(k: Type, s: seq<byte>)
    ensures var r := SetFuzzyBytes(k, s);
            && (r.Some? <==>
                  && IsCollection(k) && (Resolve(k.element).Octet? || Resolve(k.element).Char?)
                  && if k.Sequence? then |s| <= k.bound else |s| == k.length)
            && (r.Some? ==>
                  && r.value.List? && |r.value.elements| == |s|
                  && forall i :: 0 <= i < |s| ==>
                                   ByteArrives(Resolve(k.element).Char?, s[i], r.value.elements[i]))
  {
    if SetFuzzyBytes(k, s).Some? {
      forall i | 0 <= i < |s|
        ensures ByteArrives(Resolve(k.element).Char?, s[i], SetFuzzyBytes(k, s).value.elements[i])
      {
        CharArrives(s[i]);
      }
    }
  }

  /** An octet is the byte; a character is the signed number with the same eight bits. */
  predicate ByteArrives(signed: bool, b: byte, x: Value) {
    x.Int? && if signed then -128 <= x.i <= 127 && (x.i - b) % 256 == 0 else x.i == b
  }

  lemma CharArrives(b: byte)
    ensures ByteArrives(true, b, Int(CastSigned(b, 0x100)))
  {
  }

  // ----- Collections -----

  lemma {:induction false} ElementsToPbEach(e: Type, elements: seq<Value>, f: Field)
    requires forall j :: 0 <= j < |elements| ==>
                           ElementToPb(e, elements[j], f).Some? && |ElementToPb(e, elements[j], f).value| == 1
    ensures ElementsToPb(e, elements, f).Some?
    ensures var values := ElementsToPb(e, elements, f).value;
            |values| == |elements|
            && forall j :: 0 <= j < |elements| ==> ElementToPb(e, elements[j], f) == Some([values[j]])
    decreases |elements|
  {
    hide ElementToPb;
    if elements != [] {
      var rest := elements[1..];
      assert forall j :: 0 <= j < |rest| ==> rest[j] == elements[j + 1];
      ElementsToPbEach(e, rest, f);
      var first, others := ElementToPb(e, elements[0], f).value, ElementsToPb(e, rest, f).value;
      var values := ElementsToPb(e, elements, f).value;
      assert values == first + others && first == [values[0]];
      forall j | 0 <= j < |elements| ensures ElementToPb(e, elements[j], f) == Some([values[j]]) {
        if j > 0 {
          assert elements[j] == rest[j - 1] && values[j] == others[j - 1];
        }
      }
    }
  }

  /** Elements are set one after the other on what was a default. */
  lemma PutElementParts(elements: seq<Value>, j: nat, x: Value)
    requires j <= |elements|
    ensures var next := PutElement(elements, j, x);
            |next| == (if j < |elements| then |elements| else j + 1) && next[..j] == elements[..j] && next[j] == x
            && forall i :: j < i < |next| ==> next[i] == elements[i]
  {
  }

  lemma SharedFront(r: seq<Value>, s: seq<Value>, j: nat)
    requires j < |r| && j < |s| && r[..j + 1] == s[..j + 1]
    ensures r[..j] == s[..j] && r[j] == s[j]
  {
    assert r[j] == r[..j + 1][j] == s[..j + 1][j] == s[j];
    assert r[..j] == r[..j + 1][..j] == s[..j + 1][..j] == s[..j];
  }

  lemma {:induction false} ElementsToDdsEach(k: Type, current: seq<Value>, j: nat, f: Field, values: seq<PbValue>)
    requires IsCollection(k) && j <= |values|
    requires if k.Sequence? then |current| == j && |values| <= k.bound else |values| <= |current|
    requires var e := Resolve(k.element);
             (forall i :: j <= i < |current| ==> current[i] == Default(e))
             && forall i :: j <= i < |values| ==> ElementToDds(e, Default(e), f, values[i]).Some?
    ensures ElementsToDds(k, current, j, f, values).Some?
    ensures var r, e := ElementsToDds(k, current, j, f, values).value, Resolve(k.element);
            |r| == (if k.Sequence? then |values| else |current|) && r[..j] == current[..j]
            && (forall i :: j <= i < |values| ==> Some(r[i]) == ElementToDds(e, Default(e), f, values[i]))
            && forall i :: |values| <= i < |r| ==> r[i] == current[i]
    decreases |values| - j
  {
    hide ElementToDds, Default, Resolve;
    if j < |values| {
      var e := Resolve(k.element);
      assert ElementAt(k, current, j) == Default(e);
      var x := ElementToDds(e, Default(e), f, values[j]).value;
      var next := PutElement(current, j, x);
      PutElementParts(current, j, x);
      hide PutElement;
      ElementsToDdsEach(k, next, j + 1, f, values);
      var r := ElementsToDds(k, current, j, f, values).value;
      assert r == ElementsToDds(k, next, j + 1, f, values).value;
      SharedFront(r, next, j);
    }
  }

  /** Elements are put in only if there is room for all of them and each can be converted. */
  lemma {:induction false} ElementsNeedRoom(k: Type, current: seq<Value>, j: nat, f: Field, values: seq<PbValue>)
    requires IsCollection(k) && j <= |values| && ElementsToDds(k, current, j, f, values).Some?
    requires k.Sequence? ==> |current| == j
    requires forall i :: j <= i < |current| ==> current[i] == Default(Resolve(k.element))
    ensures j < |values| ==> |values| <= if k.Sequence? then k.bound else |current|
    ensures var e := Resolve(k.element);
            forall i :: j <= i < |values| ==> ElementToDds(e, Default(e), f, values[i]).Some?
    decreases |values| - j
  {
    hide ElementToDds, Default, Resolve;
    if j < |values| {
      var e := Resolve(k.element);
      var x := ElementToDds(e, Default(e), f, values[j]).value;
      assert ElementAt(k, current, j) == Default(e);
      PutElementParts(current, j, x);
      ElementsNeedRoom(k, PutElement(current, j, x), j + 1, f, values);
    }
  }

  lemma {:induction false} ElementRoundTrip(e: Type, v: Value, f: Field)
    requires f.repeated && !e.Alias? && MappedElement(e, f.ftype) && WellTyped(v, e) && !Unknown(v, f.ftype)
    ensures ElementToPb(e, v, f).Some? && |ElementToPb(e, v, f).value| == 1
    ensures var x := ElementToPb(e, v, f).value[0];
            var r := ElementToDds(e, Default(e), f, x);
            r.Some? && (r.value == v <==> FaithfulValue(e, v, f.ftype))
    decreases Depth(e), 4
  {
    hide ToPb, ToDds, Faithful, Mapped, Default, SetFuzzyBytes, Octets;
    if e.Struct? {
      StructRoundTrip(e, v, f.ftype.descriptor);
    } else if IsCollection(e) {
      OctetsRoundTrip(e, v);
    } else {
      hide ScalarToDds;
      ScalarSetter(e, v, f.ftype);
      ScalarRoundTrip(e, v, f.ftype);
    }
  }

  /** What comes out of a cleared collection is what went in exactly when every element is faithful. */
  lemma ElementsRestored(k: Type, elements: seq<Value>, f: Field, values: seq<PbValue>)
    requires IsCollection(k) && |values| == |elements|
    requires if k.Sequence? then |elements| <= k.bound else |elements| == k.length
    requires var e := Resolve(k.element);
             forall j :: 0 <= j < |values| ==>
                           var r := ElementToDds(e, Default(e), f, values[j]);
                           r.Some? && (r.value == elements[j] <==> FaithfulValue(e, elements[j], f.ftype))
    ensures Default(k).List?
    ensures var r := ElementsToDds(k, Default(k).elements, 0, f, values);
            r.Some?
            && (r.value == elements
                <==> forall j :: 0 <= j < |elements| ==> FaithfulValue(Resolve(k.element), elements[j], f.ftype))
  {
    hide ElementToDds, ElementsToDds, FaithfulValue, Resolve;
    DefaultCollection(k);
    hide Default;
    ElementsToDdsEach(k, Default(k).elements, 0, f, values);
    var r := ElementsToDds(k, Default(k).elements, 0, f, values).value;
    assert (forall j :: 0 <= j < |r| ==> r[j] == elements[j]) <==> r == elements;
  }

  lemma {:induction false} CollectionRoundTrip(k: Type, v: Value, f: Field)
    requires IsCollection(k) && f.repeated && MappedElement(Resolve(k.element), f.ftype) && WellTyped(v, k)
    requires !Resolve(k.element).Enum?
    ensures CollectionToPb(k, v, f).Some?
    ensures CollectionToPb(k, v, f).value.Unset? <==> v.elements == []
    ensures v.elements == [] ==> v == Default(k)
    ensures v.elements != [] ==>
              var r := FieldToDds(k, Some(Default(k)), f, CollectionToPb(k, v, f).value);
              r.Some?
              && (r.value == v
                  <==> forall j :: 0 <= j < |v.elements| ==> FaithfulValue(Resolve(k.element), v.elements[j], f.ftype))
    decreases Depth(k), 5
  {
    hide ElementToPb, ElementToDds, ElementsToDds, ElementsToPb, FaithfulValue, MappedElement, WellTyped;
    var e := Resolve(k.element);
    assert v.List? && if k.Sequence? then |v.elements| <= k.bound else |v.elements| == k.length by {
      CollectionLength(k, v);
    }
    forall j | 0 <= j < |v.elements|
      ensures WellTyped(v.elements[j], e) && ElementToPb(e, v.elements[j], f).Some?
      ensures |ElementToPb(e, v.elements[j], f).value| == 1
      ensures var r := ElementToDds(e, Default(e), f, ElementToPb(e, v.elements[j], f).value[0]);
              r.Some? && (r.value == v.elements[j] <==> FaithfulValue(e, v.elements[j], f.ftype))
    {
      ElementTyped(k, v, j);
      NotAnEnum(e, f.ftype);
      ElementRoundTrip(e, v.elements[j], f);
    }
    ElementsToPbEach(e, v.elements, f);
    var values := ElementsToPb(e, v.elements, f).value;
    DefaultCollection(k);
    hide Default;
    if v.elements != [] {
      assert forall j :: 0 <= j < |values| ==> ElementToPb(e, v.elements[j], f) == Some([values[j]]);
      ElementsRestored(k, v.elements, f, values);
    } else {
      assert Default(k).elements == [];
    }
  }

  lemma EnumField(ft: FieldType)
    requires MappedElement(Enum, ft)
    ensures ft.PbEnum?
  {
  }

  lemma NotAnEnum(e: Type, ft: FieldType)
    requires !e.Enum? && MappedElement(e, ft)
    ensures !ft.PbEnum?
  {
  }

  lemma {:induction false} AllKnown(elements: seq<Value>, ft: FieldType)
    requires forall j :: 0 <= j < |elements| ==> !Unknown(elements[j], ft)
    ensures KnownOnly(elements, ft) == elements
    decreases |elements|
  {
    if elements != [] {
      AllKnown(elements[1..], ft);
    }
  }

  // ----- Enumerators -----

  /** Additions of unknown numbers leave no trace. */
  lemma {:induction false} NumbersToPb(elements: seq<Value>, f: Field)
    requires f.repeated && f.ftype.PbEnum?
    requires forall j :: 0 <= j < |elements| ==> elements[j].Int?
    ensures ElementsToPb(Enum, elements, f).Some?
    ensures var values, kept := ElementsToPb(Enum, elements, f).value, KnownOnly(elements, f.ftype);
            |values| == |kept| && forall j :: 0 <= j < |kept| ==> kept[j].Int? && values[j] == PbInt(kept[j].i)
    decreases |elements|
  {
    if elements != [] {
      NumbersToPb(elements[1..], f);
    }
  }

  function Zeros(n: nat): (r: seq<Value>)
    ensures |r| == n
  {
    seq(n, _ => Int(0))
  }

  lemma {:induction false} KnownIsShorter(elements: seq<Value>, ft: FieldType)
    ensures |KnownOnly(elements, ft)| <= |elements|
    ensures KnownOnly(elements, ft) != [] ==> !Unknown(KnownOnly(elements, ft)[0], ft)
    decreases |elements|
  {
    if elements != [] {
      KnownIsShorter(elements[1..], ft);
    }
  }

  /** What is kept of a sequence is the sequence exactly when all of it is. */
  lemma {:induction false} KeptSequence(elements: seq<Value>, ft: FieldType)
    ensures KnownOnly(elements, ft) == elements <==>
            forall j :: 0 <= j < |elements| ==> !Unknown(elements[j], ft)
    decreases |elements|
  {
    if elements != [] {
      var rest := elements[1..];
      KeptSequence(rest, ft);
      KnownIsShorter(rest, ft);
      assert forall j :: 0 <= j < |rest| ==> rest[j] == elements[j + 1];
      if Unknown(elements[0], ft) {
        assert |KnownOnly(elements, ft)| < |elements|;
      } else {
        assert elements == [elements[0]] + rest;
        assert KnownOnly(elements, ft)[1..] == KnownOnly(rest, ft);
      }
    }
  }

  predicate ZerosAfterUnknown(elements: seq<Value>, ft: FieldType) {
    forall j, i :: 0 <= j <= i < |elements| && Unknown(elements[j], ft) ==> elements[i] == Int(0)
  }

  lemma {:induction false} AllUnknown(elements: seq<Value>, ft: FieldType)
    requires forall j :: 0 <= j < |elements| ==> Unknown(elements[j], ft)
    ensures KnownOnly(elements, ft) == []
    decreases |elements|
  {
    if elements != [] {
      AllUnknown(elements[1..], ft);
    }
  }

  lemma KeptAfterUnknown(elements: seq<Value>, ft: FieldType)
    requires elements != [] && Unknown(elements[0], ft)
    ensures |KnownOnly(elements, ft)| <= |elements|
    ensures var kept := KnownOnly(elements, ft);
            kept + Zeros(|elements| - |kept|) == elements <==> ZerosAfterUnknown(elements, ft)
  {
    KnownIsShorter(elements, ft);
    var kept := KnownOnly(elements, ft);
    var filled := kept + Zeros(|elements| - |kept|);
    if filled == elements {
      assert filled[0] == elements[0];
      assert kept == [];
      assert ZerosAfterUnknown(elements, ft);
    } else if ZerosAfterUnknown(elements, ft) {
      assert forall i :: 0 <= i < |elements| ==> elements[i] == elements[0] == Int(0);
      AllUnknown(elements, ft);
      assert false;
    }
  }

  lemma ZerosAfterKnown(elements: seq<Value>, ft: FieldType)
    requires elements != [] && !Unknown(elements[0], ft)
    ensures ZerosAfterUnknown(elements, ft) <==> ZerosAfterUnknown(elements[1..], ft)
  {
    hide Unknown;
    var rest := elements[1..];
    assert forall j :: 0 <= j < |rest| ==> rest[j] == elements[j + 1];
    assert forall j :: 1 <= j < |elements| ==> elements[j] == rest[j - 1];
  }

  lemma SameHead(x: Value, tail: seq<Value>, fill: seq<Value>, rest: seq<Value>)
    ensures [x] + tail + fill == [x] + rest <==> tail + fill == rest
  {
    assert [x] + tail + fill == [x] + (tail + fill);
    assert ([x] + (tail + fill))[1..] == tail + fill && ([x] + rest)[1..] == rest;
  }

  /** What is kept of an array, filled up with zeros, is the array exactly when only zeros follow an unknown number. */
  lemma {:induction false} KeptArray(elements: seq<Value>, ft: FieldType)
    ensures |KnownOnly(elements, ft)| <= |elements|
    ensures var kept := KnownOnly(elements, ft);
            kept + Zeros(|elements| - |kept|) == elements <==> ZerosAfterUnknown(elements, ft)
    decreases |elements|
  {
    if elements != [] {
      hide Unknown, ZerosAfterUnknown, Zeros;
      if Unknown(elements[0], ft) {
        KeptAfterUnknown(elements, ft);
      } else {
        var rest := elements[1..];
        KeptArray(rest, ft);
        ZerosAfterKnown(elements, ft);
        var tail := KnownOnly(rest, ft);
        assert KnownOnly(elements, ft) == [elements[0]] + tail && elements == [elements[0]] + rest;
        SameHead(elements[0], tail, Zeros(|rest| - |tail|), rest);
      }
    }
  }

  lemma FaithfulNumbersOf(k: Type, elements: seq<Value>, ft: FieldType)
    requires IsCollection(k)
    ensures k.Sequence? ==>
              (FaithfulNumbers(k, elements, ft) <==> forall j :: 0 <= j < |elements| ==> !Unknown(elements[j], ft))
    ensures k.Array? ==> (FaithfulNumbers(k, elements, ft) <==> ZerosAfterUnknown(elements, ft))
  {
  }

  /** What comes out of a collection is what went in exactly when the numbers are faithful. */
  lemma KeptIsFaithful(k: Type, elements: seq<Value>, ft: FieldType)
    requires IsCollection(k) && (k.Array? ==> |elements| == k.length)
    ensures |KnownOnly(elements, ft)| <= |elements|
    ensures var kept := KnownOnly(elements, ft);
            (if k.Sequence? then kept else kept + Zeros(k.length - |kept|)) == elements <==> FaithfulNumbers(k, elements, ft)
  {
    hide KnownOnly, FaithfulNumbers, Unknown, ZerosAfterUnknown;
    KeptSequence(elements, ft);
    KeptArray(elements, ft);
    FaithfulNumbersOf(k, elements, ft);
  }

  lemma NumbersRoundTrip(k: Type, v: Value, f: Field)
    requires IsCollection(k) && f.repeated && Resolve(k.element).Enum? && f.ftype.PbEnum? && WellTyped(v, k)
    ensures CollectionToPb(k, v, f).Some?
    ensures CollectionToPb(k, v, f).value.Unset? <==> KnownOnly(v.elements, f.ftype) == []
    ensures CollectionToPb(k, v, f).value.Unset? ==> (v == Default(k) <==> FaithfulNumbers(k, v.elements, f.ftype))
    ensures !CollectionToPb(k, v, f).value.Unset? ==>
              var r := FieldToDds(k, Some(Default(k)), f, CollectionToPb(k, v, f).value);
              r.Some? && (r.value == v <==> FaithfulNumbers(k, v.elements, f.ftype))
  {
    hide ElementsToDds, ElementsToPb, KnownOnly, FaithfulNumbers, Unknown, ZerosAfterUnknown;
    CollectionLength(k, v);
    forall j | 0 <= j < |v.elements| ensures v.elements[j].Int? {
      ElementTyped(k, v, j);
    }
    NumbersToPb(v.elements, f);
    var values, kept := ElementsToPb(Enum, v.elements, f).value, KnownOnly(v.elements, f.ftype);
    KeptIsFaithful(k, v.elements, f.ftype);
    DefaultCollection(k);
    hide WellTyped, Default;
    if v.elements != [] {
      NumbersToDds(k, kept, f, values);
    }
    assert Default(k).elements == if k.Sequence? then [] else Zeros(|v.elements|);
    assert kept == [] ==> Default(k).elements == if k.Sequence? then kept else kept + Zeros(|v.elements|);
  }

  /** Kept numbers go to the front of a cleared collection. */
  lemma NumbersToDds(k: Type, kept: seq<Value>, f: Field, values: seq<PbValue>)
    requires IsCollection(k) && Resolve(k.element).Enum? && f.ftype.PbEnum?
    requires |kept| <= if k.Sequence? then k.bound else k.length
    requires |values| == |kept| && forall j :: 0 <= j < |kept| ==> kept[j].Int? && values[j] == PbInt(kept[j].i)
    ensures Default(k).List?
    ensures ElementsToDds(k, Default(k).elements, 0, f, values)
            == Some(if k.Sequence? then kept else kept + Zeros(k.length - |kept|))
  {
    hide ElementsToDds;
    DefaultCollection(k);
    var start := Default(k).elements;
    hide Default;
    ElementsToDdsEach(k, start, 0, f, values);
    var r := ElementsToDds(k, start, 0, f, values).value;
    assert r == if k.Sequence? then kept else kept + Zeros(k.length - |kept|);
  }

  // ----- Collections in general -----

  lemma CollectionLength(k: Type, v: Value)
    requires IsCollection(k) && WellTyped(v, k)
    ensures v.List? && if k.Sequence? then |v.elements| <= k.bound else |v.elements| == k.length
  {
  }

  lemma ElementTyped(k: Type, v: Value, j: nat)
    requires IsCollection(k) && WellTyped(v, k) && v.List? && j < |v.elements|
    ensures WellTyped(v.elements[j], Resolve(k.element))
  {
    ResolveKeepsValues(v.elements[j], k.element);
  }

  lemma DefaultCollection(k: Type)
    requires IsCollection(k)
    ensures Default(k).List? && |Default(k).elements| == if k.Sequence? then 0 else k.length
    ensures forall i :: 0 <= i < |Default(k).elements| ==> Default(k).elements[i] == Default(Resolve(k.element))
  {
    ResolveKeepsValues(Int(0), k.element);
  }

  // ----- Members -----

  /** The slot is unset exactly for vanishing values, faithful if they are defaults; a set one restores faithful values. */
  predicate Restores(t: Type, v: Value, f: Field, current: Option<Value>) {
    var slot := MemberToPb(t, v, f);
    slot.Some?
    && if slot.value.Unset? then Vanishes(t, v, f) && (v == Default(t) <==> FaithfulType(t, v, f))
       else
         !Vanishes(t, v, f)
         && var r := FieldToDds(t, current, f, slot.value);
         r.Some? && (r.value == v <==> FaithfulType(t, v, f))
  }

  lemma {:induction false} MemberRoundTrip(t: Type, v: Value, f: Field, current: Option<Value>)
    requires MappedType(t, f) && WellTyped(v, t)
    requires current == None || current == Some(Default(t))
    ensures Restores(t, v, f, current)
    decreases Depth(t), 8
  {
    hide WellTyped, Default, MemberToPb, FieldToDds, Vanishes, FaithfulType, MappedElement, MappedScalar;
    var k := Resolve(t);
    ResolveKeepsValues(v, t);
    if IsCollection(k) && f.repeated {
      RepeatedMember(t, v, f, current);
    } else if IsCollection(k) {
      BytesMember(t, v, f, current);
    } else if k.Struct? {
      StructMember(t, v, f, current);
    } else {
      ScalarMember(t, v, f, current);
    }
  }

  lemma {:induction false} RepeatedMember(t: Type, v: Value, f: Field, current: Option<Value>)
    requires var k := Resolve(t); IsCollection(k) && f.repeated && MappedElement(Resolve(k.element), f.ftype)
    requires WellTyped(v, Resolve(t)) && (current == None || current == Some(Default(t)))
    ensures Restores(t, v, f, current)
    decreases Depth(t), 7
  {
    hide WellTyped, Default, MappedElement, FaithfulValue, ElementsToDds, ElementsToPb, SingularToDds, SingularToPb;
    hide FaithfulNumbers, KnownOnly;
    var k := Resolve(t);
    ResolveKeepsValues(v, t);
    NotOctetsInRepeated(k, f);
    CollectionLength(k, v);
    hide CollectionToPb;
    if Resolve(k.element).Enum? {
      EnumField(f.ftype);
      NumbersRoundTrip(k, v, f);
    } else {
      NotAnEnum(Resolve(k.element), f.ftype);
      AllKnown(v.elements, f.ftype);
      CollectionRoundTrip(k, v, f);
      assert v.elements == [] ==> FaithfulType(t, v, f);
    }
  }

  lemma BytesMember(t: Type, v: Value, f: Field, current: Option<Value>)
    requires !f.repeated && f.ftype.PbBytes? && IsOctets(Resolve(t)) && WellTyped(v, Resolve(t))
    ensures Restores(t, v, f, current)
  {
    hide WellTyped, Default, SingularToPb, SingularToDds, ElementsToDds, CollectionToPb;
    var k := Resolve(t);
    ResolveKeepsValues(v, t);
    CollectionLength(k, v);
    BytesRoundTrip(k, v, f, current);
    assert MemberToPb(t, v, f) == SingularToPb(k, v, f);
    var slot := MemberToPb(t, v, f).value;
    assert slot.Unset? <==> Vanishes(t, v, f);
    assert FaithfulType(t, v, f);
    assert slot.Unset? ==> v == Default(t);
    assert !slot.Unset? ==> FieldToDds(t, current, f, slot) == SingularToDds(k, current, f, slot.value);
  }

  lemma BytesRoundTrip(k: Type, v: Value, f: Field, current: Option<Value>)
    requires !f.repeated && f.ftype.PbBytes? && IsOctets(k) && WellTyped(v, k) && v.List?
    ensures SingularToPb(k, v, f).Some?
    ensures SingularToPb(k, v, f).value
            == if v.elements == [] && !f.presence then Unset else One(SingularToPb(k, v, f).value.value)
    ensures v.elements == [] ==> v == Default(k)
    ensures !SingularToPb(k, v, f).value.Unset? ==>
              SingularToDds(k, current, f, SingularToPb(k, v, f).value.value) == Some(v)
  {
    hide SetFuzzyBytes, Octets;
    OctetsRoundTrip(k, v);
  }

  lemma NotOctetsInRepeated(k: Type, f: Field)
    requires IsCollection(k) && f.repeated && MappedElement(Resolve(k.element), f.ftype)
    ensures !(f.ftype.PbBytes? && Resolve(k.element).Octet?)
  {
  }

  lemma {:induction false} StructMember(t: Type, v: Value, f: Field, current: Option<Value>)
    requires Resolve(t).Struct? && !f.repeated && MappedScalar(Resolve(t), f.ftype)
    requires WellTyped(v, Resolve(t)) && (current == None || current == Some(Default(t)))
    ensures Restores(t, v, f, current)
    decreases Depth(t), 4
  {
    hide WellTyped, Default, ToPb, ToDds, Faithful, Mapped, ScalarToDds, CollectionToPb, ElementsToDds;
    var k := Resolve(t);
    ResolveKeepsValues(v, t);
    StructRoundTrip(k, v, f.ftype.descriptor);
    assert MemberToPb(t, v, f) == SingularToPb(k, v, f);
    var slot := MemberToPb(t, v, f).value;
    assert slot.One?;
    assert !Vanishes(t, v, f);
    assert FieldToDds(t, current, f, slot) == SingularToDds(k, current, f, slot.value);
    assert FaithfulType(t, v, f) <==> Faithful(k, v, f.ftype.descriptor);
    assert Current(k, current) == Default(k);
    assert SingularToDds(k, current, f, slot.value) == ToDds(k, Default(k), f.ftype.descriptor, slot.value.slots);
  }

  lemma ScalarMember(t: Type, v: Value, f: Field, current: Option<Value>)
    requires var k := Resolve(t); !k.Struct? && !IsCollection(k) && MappedScalar(k, f.ftype)
    requires !f.repeated && WellTyped(v, Resolve(t))
    ensures Restores(t, v, f, current)
  {
    hide Default, ScalarToDds, SingularToPb, SingularToDds, CollectionToPb, ElementsToDds, MappedScalar, WellTyped, Accepts;
    var k := Resolve(t);
    ResolveKeepsValues(v, t);
    ScalarRoundTripByField(k, v, f, current);
    hide Unknown, Known, IsZero, ScalarToPb;
    assert MemberToPb(t, v, f) == SingularToPb(k, v, f);
    var slot := MemberToPb(t, v, f).value;
    assert slot.Unset? <==> Vanishes(t, v, f);
    assert FaithfulType(t, v, f) <==> (Unknown(v, f.ftype) ==> v == Int(0));
    assert slot.One? ==> FieldToDds(t, current, f, slot) == SingularToDds(k, current, f, slot.value);
  }

  lemma ScalarRoundTripByField(k: Type, v: Value, f: Field, current: Option<Value>)
    requires !k.Alias? && !k.Struct? && !IsCollection(k) && MappedScalar(k, f.ftype)
    requires !f.repeated && WellTyped(v, k)
    ensures ScalarToPb(v).Some? && (IsZero(ScalarToPb(v).value) <==> v == Default(k))
    ensures Known(f.ftype, ScalarToPb(v).value) <==> !Unknown(v, f.ftype)
    ensures Unknown(v, f.ftype) ==> (v == Int(0) <==> v == Default(k))
    ensures var x := ScalarToPb(v).value;
            SingularToPb(k, v, f) == Some(if !Known(f.ftype, x) || (!f.presence && IsZero(x)) then Unset else One(x))
            && SingularToDds(k, current, f, x) == Some(v)
  {
    assert ScalarRange(k, v);
    UnknownIsEnum(k, v, f.ftype);
    hide ScalarToDds, Default, WellTyped, ScalarRange, SingularToPb, SingularToDds, SetterOf, MappedScalar, Accepts;
    hide ScalarToPb, Known, Unknown;
    ScalarSetter(k, v, f.ftype);
    ScalarSlot(k, v, f);
    ScalarRoundTrip(k, v, f.ftype);
    ZeroIsDefault(k, v);
    NotASubMessage(k, f.ftype);
    ScalarFromSlot(k, f, current, ScalarToPb(v).value);
  }

  lemma UnknownIsEnum(k: Type, v: Value, ft: FieldType)
    requires MappedScalar(k, ft)
    ensures Unknown(v, ft) ==> k.Enum? && Default(k) == Int(0)
  {
  }

  lemma ScalarSlot(k: Type, v: Value, f: Field)
    requires !k.Struct? && !IsCollection(k) && !f.repeated && SetterOf(k).Some? && Accepts(f.ftype, SetterOf(k).value)
    requires ScalarToPb(v).Some?
    ensures var x := ScalarToPb(v).value;
            SingularToPb(k, v, f) == Some(if !Known(f.ftype, x) || (!f.presence && IsZero(x)) then Unset else One(x))
  {
    hide SetterOf, Accepts, ScalarToPb, Known, IsZero;
  }

  lemma ScalarFromSlot(k: Type, f: Field, current: Option<Value>, x: PbValue)
    requires !IsSubMessage(f.ftype)
    ensures SingularToDds(k, current, f, x) == ScalarToDds(k, f.ftype, x)
  {
    hide ScalarToDds;
  }

  lemma NotASubMessage(k: Type, ft: FieldType)
    requires !k.Struct? && MappedScalar(k, ft)
    ensures !IsSubMessage(ft)
  {
  }

  // ----- Structures -----

  lemma {:induction false} FindOwnField(d: Descriptor, f: nat, from: nat)
    requires DistinctFields(d) && from <= f < |d.fields|
    ensures FindField(d, d.fields[f].name, from) == Some(f)
    decreases f - from
  {
    if from < f {
      FindOwnField(d, f, from + 1);
    }
  }

  lemma {:induction false} FindOwnMember(members: seq<MemberType>, i: nat, from: nat)
    requires DistinctMembers(members) && from <= i < |members|
    ensures FindMember(members, members[i].name, from) == Some(i)
    decreases i - from
  {
    if from < i {
      FindOwnMember(members, i, from + 1);
    }
  }

  /** The member that a field belongs to, when it is present and among those from the `i`th on. */
  predicate Filled(k: Type, values: seq<Option<Value>>, i: nat, d: Descriptor, f: nat)
    requires k.Struct? && |values| == |k.members| && f < |d.fields|
  {
    var owner := FindMember(k.members, d.fields[f].name, 0);
    owner.Some? && owner.value >= i && values[owner.value].Some?
  }

  function Content(k: Type, values: seq<Option<Value>>, d: Descriptor, f: nat): Option<Slot>
    requires k.Struct? && |values| == |k.members| && f < |d.fields| && Filled(k, values, 0, d, f)
  {
    var owner := FindMember(k.members, d.fields[f].name, 0).value;
    MemberToPb(k.members[owner].ty, values[owner].value, d.fields[f])
  }

  /** Every member has a field, and every present one a slot. */
  predicate Convertible(k: Type, values: seq<Option<Value>>, d: Descriptor)
    requires k.Struct? && |values| == |k.members|
  {
    DistinctMembers(k.members) && DistinctFields(d)
    && (forall i :: 0 <= i < |values| ==> FindField(d, k.members[i].name, 0).Some?)
    && forall i :: 0 <= i < |values| && values[i].Some? ==>
                     MemberToPb(k.members[i].ty, values[i].value,
                                d.fields[FindField(d, k.members[i].name, 0).value]).Some?
  }

  /** Each slot holds what its own member put there, and nothing else changes. */
  lemma {:induction false} ToPbFromSlots(k: Type, values: seq<Option<Value>>, i: nat, d: Descriptor, m: Message)
    requires k.Struct? && |values| == |k.members| && i <= |values| && |m| == |d.fields|
    requires Convertible(k, values, d)
    ensures ToPbFrom(k, values, i, d, m).Some?
    ensures forall f :: 0 <= f < |m| ==>
                          ToPbFrom(k, values, i, d, m).value[f]
                          == if Filled(k, values, i, d, f) then Content(k, values, d, f).value else m[f]
    decreases |values| - i
  {
    hide MemberToPb, FindField, FindMember;
    if i < |values| {
      var f0 := FindField(d, k.members[i].name, 0).value;
      FindOwnMember(k.members, i, 0);
      var next := m;
      if values[i].Some? {
        next := m[f0 := MemberToPb(k.members[i].ty, values[i].value, d.fields[f0]).value];
      }
      ToPbFromSlots(k, values, i + 1, d, next);
      forall f | 0 <= f < |m|
        ensures ToPbFrom(k, values, i, d, m).value[f]
                == if Filled(k, values, i, d, f) then Content(k, values, d, f).value else m[f]
      {
        if f != f0 {
          FindOwnField(d, f, 0);
          assert d.fields[f].name != k.members[i].name;
        }
      }
    }
  }

  /** Every set field belongs to a member and can be put into it. */
  predicate Restorable(k: Type, start: seq<Option<Value>>, d: Descriptor, m: Message)
    requires k.Struct? && |start| == |k.members| && |m| == |d.fields|
  {
    DistinctMembers(k.members) && DistinctFields(d)
    && forall f :: 0 <= f < |m| && !m[f].Unset? ==>
                     var owner := FindMember(k.members, d.fields[f].name, 0);
                     owner.Some? && FieldToDds(k.members[owner.value].ty, start[owner.value], d.fields[f], m[f]).Some?
  }

  /** The member's own field comes at or after the `f`th, and is set. */
  predicate Pending(k: Type, f: nat, d: Descriptor, m: Message, i: nat)
    requires k.Struct? && i < |k.members| && |m| == |d.fields|
  {
    var own := FindField(d, k.members[i].name, 0);
    own.Some? && own.value >= f && !m[own.value].Unset?
  }

  function Restored(k: Type, start: seq<Option<Value>>, d: Descriptor, m: Message, i: nat): Option<Value>
    requires k.Struct? && |start| == |k.members| && |m| == |d.fields| && i < |start| && Pending(k, 0, d, m, i)
  {
    var own := FindField(d, k.members[i].name, 0).value;
    FieldToDds(k.members[i].ty, start[i], d.fields[own], m[own])
  }

  /** Each member is restored from its own field, and nothing else changes. */
  lemma {:induction false} ToDdsFromFields(k: Type, start: seq<Option<Value>>, now: seq<Option<Value>>, f: nat,
                                           d: Descriptor, m: Message)
    requires k.Struct? && |start| == |now| == |k.members| && |m| == |d.fields| && f <= |m|
    requires Restorable(k, start, d, m)
    requires forall i :: 0 <= i < |now| && Pending(k, f, d, m, i) ==> now[i] == start[i]
    ensures var r := ToDdsFrom(k, Record(now), f, d, m);
            r.Some? && r.value.Record? && |r.value.fields| == |now|
            && forall i :: 0 <= i < |now| ==>
                             r.value.fields[i] == if Pending(k, f, d, m, i) then Restored(k, start, d, m, i) else now[i]
    decreases |m| - f
  {
    hide FieldToDds, FindField, FindMember;
    if f < |m| {
      FindOwnField(d, f, 0);
      if m[f].Unset? {
        ToDdsFromFields(k, start, now, f + 1, d, m);
      } else {
        var i0 := FindMember(k.members, d.fields[f].name, 0).value;
        var x := FieldToDds(k.members[i0].ty, start[i0], d.fields[f], m[f]);
        assert Pending(k, f, d, m, i0);
        ToDdsFromFields(k, start, now[i0 := x], f + 1, d, m);
        forall i | 0 <= i < |now| && i != i0 ensures Pending(k, f, d, m, i) == Pending(k, f + 1, d, m, i) {
          assert k.members[i].name != k.members[i0].name;
        }
      }
    }
  }

  /** A present member has a slot, and its own field gives it back if it is faithful. */
  predicate Recovers(k: Type, values: seq<Option<Value>>, start: seq<Option<Value>>, d: Descriptor, i: nat)
    requires k.Struct? && |values| == |start| == |k.members| && i < |values|
  {
    var own := FindField(d, k.members[i].name, 0);
    own.Some?
    && if values[i].None? then k.members[i].optional
       else Restores(k.members[i].ty, values[i].value, d.fields[own.value], start[i])
  }

  lemma {:induction false} MemberRecovers(k: Type, values: seq<Option<Value>>, start: seq<Option<Value>>, d: Descriptor,
                                          i: nat)
    requires k.Struct? && |values| == |start| == |k.members| && i < |values|
    requires MappedMember(k.members[i], d)
    requires if values[i].None? then k.members[i].optional else WellTyped(values[i].value, k.members[i].ty)
    requires start[i] == if k.members[i].optional then None else Some(Default(k.members[i].ty))
    ensures Recovers(k, values, start, d, i)
    decreases Depth(k), 2
  {
    hide MemberToPb, FieldToDds, WellTyped, Default, Vanishes, FaithfulType, MappedType, FindField;
    if values[i].Some? {
      var f := d.fields[FindField(d, k.members[i].name, 0).value];
      MemberRoundTrip(k.members[i].ty, values[i].value, f, start[i]);
    }
  }

  /** `m` is what the conversion made of `values`. */
  predicate Holds(k: Type, values: seq<Option<Value>>, d: Descriptor, m: Message)
    requires k.Struct? && |values| == |k.members| && |m| == |d.fields|
  {
    forall f :: 0 <= f < |m| ==>
                  m[f] == if Filled(k, values, 0, d, f) && Content(k, values, d, f).Some?
                          then Content(k, values, d, f).value else Unset
  }

  lemma ConvertedHolds(k: Type, values: seq<Option<Value>>, d: Descriptor, m: Message)
    requires k.Struct? && |values| == |k.members| && |m| == |d.fields| && Convertible(k, values, d)
    requires forall f :: 0 <= f < |m| ==>
                           m[f] == if Filled(k, values, 0, d, f) then Content(k, values, d, f).value else Unset
    ensures Holds(k, values, d, m)
  {
    hide MemberToPb, FindField, FindMember;
    forall f | 0 <= f < |m| && Filled(k, values, 0, d, f) ensures Content(k, values, d, f).Some? {
      FindOwnField(d, f, 0);
    }
  }

  lemma AllConvertible(k: Type, values: seq<Option<Value>>, start: seq<Option<Value>>, d: Descriptor)
    requires k.Struct? && |values| == |start| == |k.members|
    requires DistinctMembers(k.members) && DistinctFields(d)
    requires forall i :: 0 <= i < |values| ==> Recovers(k, values, start, d, i)
    ensures Convertible(k, values, d)
  {
    hide MemberToPb, FieldToDds, FindField, Default, Vanishes, FaithfulType;
    forall i | 0 <= i < |values|
      ensures FindField(d, k.members[i].name, 0).Some?
      ensures values[i].Some? ==> MemberToPb(k.members[i].ty, values[i].value,
                                             d.fields[FindField(d, k.members[i].name, 0).value]).Some?
    {
      assert Recovers(k, values, start, d, i);
    }
  }

  lemma AllRestorable(k: Type, values: seq<Option<Value>>, start: seq<Option<Value>>, d: Descriptor, m: Message)
    requires k.Struct? && |values| == |start| == |k.members| && |m| == |d.fields|
    requires DistinctMembers(k.members) && DistinctFields(d) && Holds(k, values, d, m)
    requires forall i :: 0 <= i < |values| ==> Recovers(k, values, start, d, i)
    ensures Restorable(k, start, d, m)
  {
    hide MemberToPb, FieldToDds, FindField, FindMember, Default, Vanishes, FaithfulType;
    forall f | 0 <= f < |m| && !m[f].Unset?
      ensures var owner := FindMember(k.members, d.fields[f].name, 0);
              owner.Some? && FieldToDds(k.members[owner.value].ty, start[owner.value], d.fields[f], m[f]).Some?
    {
      assert Filled(k, values, 0, d, f);
      var i := FindMember(k.members, d.fields[f].name, 0).value;
      FindOwnField(d, f, 0);
      assert Recovers(k, values, start, d, i);
    }
  }

  /** What the way back leaves in a member is what it held, if and only if that was faithful. */
  lemma MemberRestored(k: Type, values: seq<Option<Value>>, start: seq<Option<Value>>, d: Descriptor, m: Message, i: nat)
    requires k.Struct? && |values| == |start| == |k.members| && |m| == |d.fields| && i < |values|
    requires DistinctMembers(k.members) && DistinctFields(d) && Holds(k, values, d, m)
    requires Recovers(k, values, start, d, i)
    requires start[i] == if k.members[i].optional then None else Some(Default(k.members[i].ty))
    ensures (if Pending(k, 0, d, m, i) then Restored(k, start, d, m, i) else start[i]) == values[i]
            <==> FaithfulMember(k.members[i], values[i], d)
  {
    hide MemberToPb, FieldToDds, FindField, FindMember, Default, Vanishes, FaithfulType;
    var f := FindField(d, k.members[i].name, 0).value;
    FindOwnMember(k.members, i, 0);
    assert m[f] == if values[i].Some? then Content(k, values, d, f).value else Unset;
  }

  /** Conversion to a mapped message and back into a cleared object succeeds, and restores exactly faithful values. */
  lemma {:induction false} StructRoundTrip(t: Type, v: Value, d: Descriptor)
    requires Mapped(t, d) && WellTyped(v, t)
    ensures ToPb(t, v, d).Some?
    ensures var r := ToDds(t, Default(t), d, ToPb(t, v, d).value);
            r.Some? && (r.value == v <==> Faithful(t, v, d))
    decreases Depth(t), 3
  {
    var k := Resolve(t);
    ResolveKeepsValues(v, t);
    assert v.Record? && |v.fields| == |k.members|;
    var values, start := v.fields, DefaultMembers(k.members);
    assert Default(t) == Record(start);
    hide MemberToPb, FieldToDds, Default, Vanishes, FaithfulType, FaithfulMember, FindField, FindMember, ToDdsFrom, ToPbFrom;
    hide WellTyped, MappedType, Recovers, Restorable, Restored, Pending, Holds;
    forall i | 0 <= i < |values| ensures Recovers(k, values, start, d, i) {
      assert MappedMember(k.members[i], d);
      MemberRecovers(k, values, start, d, i);
    }
    AllConvertible(k, values, start, d);
    ToPbFromSlots(k, values, 0, d, Cleared(d));
    var m := ToPb(t, v, d).value;
    ConvertedHolds(k, values, d, m);
    AllRestorable(k, values, start, d, m);
    ToDdsFromFields(k, start, start, 0, d, m);
    var r := ToDds(t, Default(t), d, m).value;
    forall i | 0 <= i < |values|
      ensures r.fields[i] == values[i] <==> FaithfulMember(k.members[i], values[i], d)
    {
      MemberRestored(k, values, start, d, m, i);
    }
    assert r == v <==> r.fields == values;
  }

  // ----- What is already there -----

  /** A message with nothing set changes nothing. */
  lemma {:induction false} UnsetFrom(k: Type, v: Value, f: nat, d: Descriptor)
    requires f <= |d.fields|
    ensures ToDdsFrom(k, v, f, d, Cleared(d)) == Some(v)
    decreases |d.fields| - f
  {
    if f < |d.fields| {
      UnsetFrom(k, v, f + 1, d);
    }
  }

  /** Nor does a sub-message with nothing set: the structure keeps what it holds, and an absent one is made by default. */
  lemma UnsetChangesNothing(t: Type, v: Value, f: Field)
    requires Resolve(t).Struct? && !f.repeated && (f.ftype.PbMessage? || f.ftype.PbGroup?)
    ensures var d := f.ftype.descriptor;
            && ToDds(t, v, d, Cleared(d)) == Some(v)
            && FieldToDds(t, Some(v), f, One(PbSub(Cleared(d)))) == Some(v)
            && FieldToDds(t, None, f, One(PbSub(Cleared(d)))) == Some(Default(Resolve(t)))
            && FieldToDds(t, Some(v), f, Unset) == Some(v)
  {
    var k, d := Resolve(t), f.ftype.descriptor;
    hide Default, ToDdsFrom;
    UnsetFrom(k, v, 0, d);
    UnsetFrom(k, Default(k), 0, d);
    assert ToDds(k, v, d, Cleared(d)) == Some(v) && ToDds(k, Default(k), d, Cleared(d)) == Some(Default(k));
  }

  /** Sub-messages with nothing set keep the elements that are there. */
  lemma {:induction false} UnsetElements(k: Type, elements: seq<Value>, j: nat, f: Field, values: seq<PbValue>)
    requires IsCollection(k) && Resolve(k.element).Struct? && (f.ftype.PbMessage? || f.ftype.PbGroup?)
    requires j <= |values| <= |elements|
    requires forall i :: 0 <= i < |values| ==> values[i] == PbSub(Cleared(f.ftype.descriptor))
    ensures ElementsToDds(k, elements, j, f, values) == Some(elements)
    decreases |values| - j
  {
    if j < |values| {
      hide ToDdsFrom;
      var e, d := Resolve(k.element), f.ftype.descriptor;
      UnsetFrom(e, elements[j], 0, d);
      assert ToDds(e, elements[j], d, Cleared(d)) == Some(elements[j]);
      assert ElementToDds(e, elements[j], f, values[j]) == Some(elements[j]);
      assert PutElement(elements, j, elements[j]) == elements;
      UnsetElements(k, elements, j + 1, f, values);
    }
  }

  // ----- Types without optional members -----

  predicate NoOptional(t: Type) {
    match t
    case Struct(members) => forall i :: 0 <= i < |members| ==> !members[i].optional && NoOptional(members[i].ty)
    case Sequence(element, _) => NoOptional(element)
    case Array(element, _) => NoOptional(element)
    case Alias(content) => NoOptional(content)
    case _ => true
  }

  lemma {:induction false} ResolveKeepsNoOptional(t: Type)
    requires NoOptional(t)
    ensures NoOptional(Resolve(t))
  {
    if t.Alias? {
      ResolveKeepsNoOptional(t.content);
    }
  }

  /** No enumeration is closed. */
  predicate OpenEnums(d: Descriptor) {
    forall f :: 0 <= f < |d.fields| ==> OpenField(d.fields[f])
  }

  predicate OpenField(f: Field) {
    match f.ftype
    case PbEnum(_, closed) => !closed
    case PbMessage(d) => OpenEnums(d)
    case PbGroup(d) => OpenEnums(d)
    case _ => true
  }

  lemma {:induction false} NoOptionalIsFaithful(t: Type, v: Value, d: Descriptor)
    requires NoOptional(t) && OpenEnums(d)
    ensures Faithful(t, v, d)
    decreases Depth(t), 3
  {
    var k := Resolve(t);
    ResolveKeepsNoOptional(t);
    if k.Struct? && v.Record? && |v.fields| == |k.members| {
      forall i | 0 <= i < |k.members| ensures FaithfulMember(k.members[i], v.fields[i], d) {
        var f := FindField(d, k.members[i].name, 0);
        if v.fields[i].Some? && f.Some? {
          NoOptionalIsFaithfulType(k.members[i].ty, v.fields[i].value, d.fields[f.value]);
        }
      }
    }
  }

  lemma {:induction false} NoOptionalIsFaithfulType(t: Type, v: Value, f: Field)
    requires NoOptional(t) && OpenField(f)
    ensures FaithfulType(t, v, f)
    decreases Depth(t), 6
  {
    var k := Resolve(t);
    ResolveKeepsNoOptional(t);
    if IsCollection(k) && f.repeated {
      if v.List? {
        var e := Resolve(k.element);
        ResolveKeepsNoOptional(k.element);
        forall j | 0 <= j < |v.elements| ensures FaithfulValue(e, v.elements[j], f.ftype) {
          if e.Struct? && IsSubMessage(f.ftype) {
            NoOptionalIsFaithful(e, v.elements[j], f.ftype.descriptor);
          }
        }
      }
    } else if k.Struct? && IsSubMessage(f.ftype) {
      NoOptionalIsFaithful(k, v, f.ftype.descriptor);
    }
  }

  /** Every value of a mapped type without optional members or closed enumerations comes back as it was. */
  lemma RoundTrip(t: Type, v: Value, d: Descriptor)
    requires Mapped(t, d) && NoOptional(t) && OpenEnums(d) && WellTyped(v, t)
    ensures ToPb(t, v, d).Some?
    ensures ToDds(t, Default(t), d, ToPb(t, v, d).value) == Some(v)
  {
    StructRoundTrip(t, v, d);
    NoOptionalIsFaithful(t, v, d);
  }

  /** An optional zero in a field without presence comes back absent. */
  lemma OptionalZeroIsLost()
    ensures var t := Struct([MemberType("x", Long, true)]);
            var d := Descriptor([Field("x", Int32, false, false)]);
            Mapped(t, d) && WellTyped(Record([Some(Int(0))]), t)
            && ToDds(t, Default(t), d, ToPb(t, Record([Some(Int(0))]), d).value) == Some(Record([None]))
  {
    var t, d := Struct([MemberType("x", Long, true)]), Descriptor([Field("x", Int32, false, false)]);
    var v := Record([Some(Int(0))]);
    assert MappedMember(t.members[0], d);
    assert FindField(d, "x", 0) == Some(0);
    assert MemberToPb(Long, Int(0), d.fields[0]) == Some(Unset);
    assert ToPbFrom(t, v.fields, 1, d, [Unset]) == Some([Unset]);
    assert Cleared(d) == [Unset] && [Unset][0 := Unset] == [Unset];
    assert ToPb(t, v, d) == Some([Unset]);
    assert ToDdsFrom(t, Default(t), 1, d, [Unset]) == Some(Default(t));
    assert Default(t) == Record([None]);
  }

  /** A closed enumeration drops a number that it does not know, and the way back finds zero. */
  lemma ClosedEnumLosesUnknown()
    ensures var t := Struct([MemberType("e", Enum, false)]);
            var d := Descriptor([Field("e", PbEnum({0, 1}, true), false, true)]);
            WellTyped(Record([Some(Int(7))]), t)
            && ToPb(t, Record([Some(Int(7))]), d) == Some([Unset])
            && ToDds(t, Default(t), d, [Unset]) == Some(Record([Some(Int(0))]))
  {
    var t, d := Struct([MemberType("e", Enum, false)]), Descriptor([Field("e", PbEnum({0, 1}, true), false, true)]);
    var v := Record([Some(Int(7))]);
    assert FindField(d, "e", 0) == Some(0);
    assert MemberToPb(Enum, Int(7), d.fields[0]) == Some(Unset);
    assert ToPbFrom(t, v.fields, 1, d, [Unset]) == Some([Unset]);
    assert Cleared(d) == [Unset] && [Unset][0 := Unset] == [Unset];
    assert ToPb(t, v, d) == Some([Unset]);
    assert ToDdsFrom(t, Default(t), 1, d, [Unset]) == Some(Default(t));
    assert Default(t) == Record([Some(Int(0))]);
  }
}
