// What the converters see of the two libraries: DDS types and values, Protobuf descriptors and messages.
module GatewayTypes {

  type byte = x: int | 0 <= x < 256

  datatype Option<+T> = None | Some(value: T)

  // ----- DDS -----

  /** Type codes.  Valuetypes count as structures; kinds that no conversion supports are `Other`. */
  datatype Type =
    | Short
    | Long
    | LongLong
    | UShort
    | ULong
    | ULongLong
    | Float
    | Double
    | Boolean
    | Char
    | Octet
    | String
    | Enum
    | Other
    | Struct(members: seq<MemberType>)
    | Sequence(element: Type, bound: nat)
    | Array(element: Type, length: nat)
    | Alias(content: Type)

  datatype MemberType = MemberType(name: string, ty: Type, optional: bool)

  /** Values; enumerators are their ordinals, and a member of a structure may be absent. */
  datatype Value =
    | Int(i: int)
    | Real(r: real)
    | Bool(b: bool)
    | Text(s: seq<byte>)
    | List(elements: seq<Value>)
    | Record(fields: seq<Option<Value>>)

  /** The type behind any number of aliases. */
  function Resolve(t: Type): (r: Type)
    ensures !r.Alias? && Depth(r) <= Depth(t)
    ensures !t.Alias? ==> r == t
  {
    if t.Alias? then Resolve(t.content) else t
  }

  /** How deeply aggregates are nested in a type. */
  function Depth(t: Type): nat {
    match t
    case Struct(members) => 1 + MemberDepth(members)
    case Sequence(element, _) => 1 + Depth(element)
    case Array(element, _) => 1 + Depth(element)
    case Alias(content) => Depth(content)
    case _ => 0
  }

  function MemberDepth(members: seq<MemberType>): (d: nat)
    ensures forall i :: 0 <= i < |members| ==> Depth(members[i].ty) <= d
  {
    if members == [] then 0
    else
      var first, rest := Depth(members[0].ty), MemberDepth(members[1..]);
      assert forall i :: 1 <= i < |members| ==> members[i] == members[1..][i - 1];
      if first > rest then first else rest
  }

  predicate IsCollection(t: Type) {
    t.Sequence? || t.Array?
  }

  /** The values that a scalar type can hold. */
  predicate ScalarRange(t: Type, v: Value) {
    match t
    case Short => v.Int? && -0x8000 <= v.i < 0x8000
    case Long => v.Int? && -0x8000_0000 <= v.i < 0x8000_0000
    case LongLong => v.Int? && -0x8000_0000_0000_0000 <= v.i < 0x8000_0000_0000_0000
    case UShort => v.Int? && 0 <= v.i < 0x1_0000
    case ULong => v.Int? && 0 <= v.i < 0x1_0000_0000
    case ULongLong => v.Int? && 0 <= v.i < 0x1_0000_0000_0000_0000
    case Float => v.Real?
    case Double => v.Real?
    case Boolean => v.Bool?
    case Char => v.Int? && -0x80 <= v.i < 0x80
    case Octet => v.Int? && 0 <= v.i < 0x100
    case String => v.Text? && forall k :: 0 <= k < |v.s| ==> v.s[k] != 0
    case Enum => v.Int? && -0x8000_0000 <= v.i < 0x8000_0000
    case _ => false
  }

  predicate WellTyped(v: Value, t: Type)
    decreases t
  {
    match t
    case Struct(members) =>
      v.Record? && |v.fields| == |members|
      && forall i :: 0 <= i < |members| ==>
                       if v.fields[i].None? then members[i].optional else WellTyped(v.fields[i].value, members[i].ty)
    case Sequence(element, bound) =>
      v.List? && |v.elements| <= bound
      && forall i :: 0 <= i < |v.elements| ==> WellTyped(v.elements[i], element)
    case Array(element, length) =>
      v.List? && |v.elements| == length
      && forall i :: 0 <= i < |v.elements| ==> WellTyped(v.elements[i], element)
    case Alias(content) => WellTyped(v, content)
    case _ => ScalarRange(t, v)
  }

  /** What a cleared object holds: zeros, empty strings and sequences, absent optional members. */
  function Default(t: Type): Value
    decreases t
  {
    match t
    case Float => Real(0.0)
    case Double => Real(0.0)
    case Boolean => Bool(false)
    case String => Text([])
    case Struct(members) => Record(DefaultMembers(members))
    case Sequence(_, _) => List([])
    case Array(element, length) => List(seq(length, _ => Default(element)))
    case Alias(content) => Default(content)
    case _ => Int(0)
  }

  function DefaultMembers(members: seq<MemberType>): (r: seq<Option<Value>>)
    ensures |r| == |members|
    ensures forall i :: 0 <= i < |members| ==>
                          r[i] == if members[i].optional then None else Some(Default(members[i].ty))
    decreases members
  {
    if members == [] then []
    else
      var m := members[0];
      [if m.optional then None else Some(Default(m.ty))] + DefaultMembers(members[1..])
  }

  lemma {:induction false} ResolveKeepsValues(v: Value, t: Type)
    ensures WellTyped(v, t) == WellTyped(v, Resolve(t)) && Default(t) == Default(Resolve(t))
    decreases t
  {
    if t.Alias? {
      ResolveKeepsValues(v, t.content);
    }
  }

  // ----- Protobuf -----

  datatype FieldType =
    | Int32
    | SInt32
    | SFixed32
    | Int64
    | SInt64
    | SFixed64
    | UInt32
    | Fixed32
    | UInt64
    | Fixed64
    | PbFloat
    | PbDouble
    | PbBool
    | PbString
    | PbBytes
    | PbEnum(numbers: set<int>, closed: bool)
    | PbMessage(descriptor: Descriptor)
    | PbGroup(descriptor: Descriptor)

  /** A field; a singular one without presence is unset while it holds zero.  Maps are repeated messages. */
  datatype Field = Field(name: string, ftype: FieldType, repeated: bool, presence: bool)

  datatype Descriptor = Descriptor(fields: seq<Field>)

  datatype PbValue =
    | PbInt(i: int)
    | PbReal(r: real)
    | PbFlag(b: bool)
    | PbText(s: seq<byte>)
    | PbSub(slots: seq<Slot>)

  /** What a message holds for one field; repeated fields with no element are unset. */
  datatype Slot = Unset | One(value: PbValue) | Many(values: seq<PbValue>)

  /** A message: one slot for every field of its descriptor. */
  type Message = seq<Slot>

  function Cleared(d: Descriptor): (m: Message)
    ensures |m| == |d.fields|
    ensures forall f :: 0 <= f < |m| ==> m[f] == Unset
  {
    seq(|d.fields|, _ => Unset)
  }

  predicate IsZero(v: PbValue) {
    match v
    case PbInt(i) => i == 0
    case PbReal(r) => r == 0.0
    case PbFlag(b) => !b
    case PbText(s) => s == []
    case PbSub(_) => false
  }

  predicate IsSubMessage(t: FieldType) {
    t.PbMessage? || t.PbGroup?
  }

  // ----- Reflection -----

  /** The typed setters of the reflection interface. */
  datatype Setter = SetInt32 | SetInt64 | SetUInt32 | SetUInt64 | SetFloat | SetDouble | SetBool | SetString | SetEnum

  /** The fields that a setter may be used on; on any other the library gives up. */
  predicate Accepts(t: FieldType, s: Setter) {
    match s
    case SetInt32 => t.Int32? || t.SInt32? || t.SFixed32?
    case SetInt64 => t.Int64? || t.SInt64? || t.SFixed64?
    case SetUInt32 => t.UInt32? || t.Fixed32?
    case SetUInt64 => t.UInt64? || t.Fixed64?
    case SetFloat => t.PbFloat?
    case SetDouble => t.PbDouble?
    case SetBool => t.PbBool?
    case SetString => t.PbString? || t.PbBytes?
    case SetEnum => t.PbEnum?
  }

  /** A closed enumeration puts a number it does not know among the unknown fields. */
  predicate Known(t: FieldType, v: PbValue) {
    t.PbEnum? && t.closed && v.PbInt? ==> v.i in t.numbers
  }

  function SetField(f: Field, s: Setter, v: PbValue): Option<Slot> {
    if f.repeated || !Accepts(f.ftype, s) then None
    else if !Known(f.ftype, v) || (!f.presence && IsZero(v)) then Some(Unset)
    else Some(One(v))
  }

  /** What one addition to a repeated field adds. */
  function AddField(f: Field, s: Setter, v: PbValue): Option<seq<PbValue>> {
    if !f.repeated || !Accepts(f.ftype, s) then None
    else if !Known(f.ftype, v) then Some([])
    else Some([v])
  }

  function FindField(d: Descriptor, name: string, from: nat): (r: Option<nat>)
    requires from <= |d.fields|
    ensures r.Some? ==> from <= r.value < |d.fields| && d.fields[r.value].name == name
    ensures r.None? ==> forall f :: from <= f < |d.fields| ==> d.fields[f].name != name
    decreases |d.fields| - from
  {
    if from == |d.fields| then None
    else if d.fields[from].name == name then Some(from)
    else FindField(d, name, from + 1)
  }

  function FindMember(members: seq<MemberType>, name: string, from: nat): (r: Option<nat>)
    requires from <= |members|
    ensures r.Some? ==> from <= r.value < |members| && members[r.value].name == name
    ensures r.None? ==> forall i :: from <= i < |members| ==> members[i].name != name
    decreases |members| - from
  {
    if from == |members| then None
    else if members[from].name == name then Some(from)
    else FindMember(members, name, from + 1)
  }
}
