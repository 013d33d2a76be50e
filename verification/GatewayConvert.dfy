// The two conversions as functions of types, values, descriptors and messages.
module GatewayConvert {

  import opened GatewayTypes

  // ----- Scalars -----

  /** The setter that a scalar member goes through. */
  function SetterOf(k: Type): Option<Setter> {
    match k
    case Short => Some(SetInt32)
    case Long => Some(SetInt32)
    case LongLong => Some(SetInt64)
    case UShort => Some(SetUInt32)
    case ULong => Some(SetUInt32)
    case ULongLong => Some(SetUInt64)
    case Float => Some(SetFloat)
    case Double => Some(SetDouble)
    case Boolean => Some(SetBool)
    case Char => Some(SetInt32)
    case Octet => Some(SetUInt32)
    case String => Some(SetString)
    case Enum => Some(SetEnum)
    case _ => None
  }

  function ScalarToPb(v: Value): Option<PbValue> {
    match v
    case Int(i) => Some(PbInt(i))
    case Real(r) => Some(PbReal(r))
    case Bool(b) => Some(PbFlag(b))
    case Text(s) => Some(PbText(s))
    case _ => None
  }

  /** Two's complement conversion to a signed type of `modulus` values, as a cast does it. */
  function CastSigned(i: int, modulus: nat): int
    requires modulus > 0
  {
    (i + modulus / 2) % modulus - modulus / 2
  }

  /** Sets a 32-bit value on a member of kind `k`, which may be narrower. */
  function SetFuzzyLong(k: Type, i: int): Option<Value> {
    match k
    case Short => if i < -0x8000 || i > 0x7FFF then None else Some(Int(CastSigned(i, 0x1_0000)))
    case Char => if i < -0x80 || i > 0x7F then None else Some(Int(CastSigned(i, 0x100)))
    case Long => Some(Int(i))
    case Enum => Some(Int(i))
    case _ => None
  }

  function SetFuzzyULong(k: Type, i: nat): Option<Value> {
    match k
    case UShort => if i > 0xFFFF then None else Some(Int(i % 0x1_0000))
    case Octet => if i > 0xFF then None else Some(Int(i % 0x100))
    case ULong => Some(Int(i))
    case _ => None
  }

  /** A scalar of a field put into a member or element of kind `k`. */
  function ScalarToDds(k: Type, t: FieldType, v: PbValue): Option<Value> {
    match t
    case PbDouble => if k.Double? && v.PbReal? then Some(Real(v.r)) else None
    case PbFloat => if k.Float? && v.PbReal? then Some(Real(v.r)) else None
    case Int64 => if k.LongLong? && v.PbInt? then Some(Int(v.i)) else None
    case SInt64 => if k.LongLong? && v.PbInt? then Some(Int(v.i)) else None
    case SFixed64 => if k.LongLong? && v.PbInt? then Some(Int(v.i)) else None
    case UInt64 => if k.ULongLong? && v.PbInt? then Some(Int(v.i)) else None
    case Fixed64 => if k.ULongLong? && v.PbInt? then Some(Int(v.i)) else None
    case Int32 => if v.PbInt? then SetFuzzyLong(k, v.i) else None
    case SInt32 => if v.PbInt? then SetFuzzyLong(k, v.i) else None
    case SFixed32 => if v.PbInt? then SetFuzzyLong(k, v.i) else None
    case UInt32 => if v.PbInt? && v.i >= 0 then SetFuzzyULong(k, v.i) else None
    case Fixed32 => if v.PbInt? && v.i >= 0 then SetFuzzyULong(k, v.i) else None
    case PbBool => if k.Boolean? && v.PbFlag? then Some(Bool(v.b)) else None
    case PbString => if k.String? && v.PbText? then Some(Text(UpToNul(v.s))) else None
    case PbEnum(_, _) => if (k.Enum? || k.Long?) && v.PbInt? then Some(Int(v.i)) else None
    case PbBytes => if v.PbText? then SetFuzzyBytes(k, v.s) else None
    case _ => None
  }

  /** What a C string shows of some bytes. */
  function UpToNul(s: seq<byte>): seq<byte> {
    if s == [] || s[0] == 0 then [] else [s[0]] + UpToNul(s[1..])
  }

  /** Bytes put into a collection of octets or characters, which must be able to hold just as many. */
  function SetFuzzyBytes(k: Type, s: seq<byte>): Option<Value> {
    if !IsCollection(k) then None
    else
      var e := Resolve(k.element);
      if !e.Char? && !e.Octet? then None
      else
        var elements := seq(|s|, i requires 0 <= i < |s| => Int(if e.Char? then CastSigned(s[i], 0x100) else s[i]));
        if k.Sequence? then (if |s| <= k.bound then Some(List(elements)) else None)
        else if |s| == k.length then Some(List(elements))
        else None
  }

  /** The bytes of a sequence of octets. */
  function Octets(elements: seq<Value>): Option<seq<byte>> {
    if elements == [] then Some([])
    else if !ScalarRange(Octet, elements[0]) then None
    else
      match Octets(elements[1..])
      case None => None
      case Some(rest) => Some([elements[0].i] + rest)
  }

  // ----- DDS to Protobuf -----

  function ToPb(t: Type, v: Value, d: Descriptor): (r: Option<Message>)
    ensures r.Some? ==> |r.value| == |d.fields|
    decreases Depth(t), 3
  {
    var k := Resolve(t);
    if !k.Struct? || !v.Record? || |v.fields| != |k.members| then None
    else ToPbFrom(k, v.fields, 0, d, Cleared(d))
  }

  /** The members from the `i`th on, added to what `m` already holds. */
  function ToPbFrom(k: Type, values: seq<Option<Value>>, i: nat, d: Descriptor, m: Message): (r: Option<Message>)
    requires k.Struct? && |values| == |k.members| && i <= |values| && |m| == |d.fields|
    ensures r.Some? ==> |r.value| == |d.fields|
    decreases Depth(k), 2, |values| - i
  {
    if i == |values| then Some(m)
    else if values[i].None? then ToPbFrom(k, values, i + 1, d, m)
    else
      match FindField(d, k.members[i].name, 0)
      case None => None
      case Some(f) =>
        match MemberToPb(k.members[i].ty, values[i].value, d.fields[f])
        case None => None
        case Some(slot) => ToPbFrom(k, values, i + 1, d, m[f := slot])
  }

  function MemberToPb(t: Type, v: Value, f: Field): Option<Slot>
    decreases Depth(t), 6
  {
    var k := Resolve(t);
    if IsCollection(k) && !(f.ftype.PbBytes? && Resolve(k.element).Octet?) then CollectionToPb(k, v, f)
    else SingularToPb(k, v, f)
  }

  function SingularToPb(k: Type, v: Value, f: Field): Option<Slot>
    decreases Depth(k), 4
  {
    match k
    case Struct(_) =>
      if f.repeated || !IsSubMessage(f.ftype) then None
      else
        (match ToPb(k, v, f.ftype.descriptor)
         case None => None
         case Some(m) => Some(One(PbSub(m))))
    case Sequence(_, _) =>
      if !v.List? then None
      else
        (match Octets(v.elements)
         case None => None
         case Some(s) => SetField(f, SetString, PbText(s)))
    case _ =>
      if SetterOf(k).None? || ScalarToPb(v).None? then None
      else SetField(f, SetterOf(k).value, ScalarToPb(v).value)
  }

  function CollectionToPb(k: Type, v: Value, f: Field): Option<Slot>
    requires IsCollection(k)
    decreases Depth(k), 5
  {
    if !v.List? then None
    else if v.elements == [] then Some(Unset)
    else
      match ElementsToPb(Resolve(k.element), v.elements, f)
      case None => None
      case Some(values) => Some(if values == [] then Unset else Many(values))
  }

  function ElementsToPb(e: Type, elements: seq<Value>, f: Field): Option<seq<PbValue>>
    decreases Depth(e), 5, |elements|
  {
    if elements == [] then Some([])
    else
      match ElementToPb(e, elements[0], f)
      case None => None
      case Some(first) =>
        match ElementsToPb(e, elements[1..], f)
        case None => None
        case Some(rest) => Some(first + rest)
  }

  function ElementToPb(e: Type, v: Value, f: Field): Option<seq<PbValue>>
    decreases Depth(e), 4
  {
    match e
    case Struct(_) =>
      if !f.repeated || !IsSubMessage(f.ftype) then None
      else
        (match ToPb(e, v, f.ftype.descriptor)
         case None => None
         case Some(m) => Some([PbSub(m)]))
    case Sequence(c, _) =>
      if !Resolve(c).Octet? || !v.List? then None
      else
        (match Octets(v.elements)
         case None => None
         case Some(s) => AddField(f, SetString, PbText(s)))
    case _ =>
      if SetterOf(e).None? || ScalarToPb(v).None? then None
      else AddField(f, SetterOf(e).value, ScalarToPb(v).value)
  }

  // ----- Protobuf to DDS -----

  /** Every set field of `m`, put into the members of `v`. */
  function ToDds(t: Type, v: Value, d: Descriptor, m: Message): Option<Value>
    requires |m| == |d.fields|
    decreases Depth(t), 3
  {
    ToDdsFrom(Resolve(t), v, 0, d, m)
  }

  function ToDdsFrom(k: Type, v: Value, f: nat, d: Descriptor, m: Message): Option<Value>
    requires |m| == |d.fields| && f <= |m|
    decreases Depth(k), 2, |m| - f
  {
    if f == |m| then Some(v)
    else if m[f].Unset? then ToDdsFrom(k, v, f + 1, d, m)
    else if !k.Struct? || !v.Record? || |v.fields| != |k.members| then None
    else
      match FindMember(k.members, d.fields[f].name, 0)
      case None => None
      case Some(i) =>
        match FieldToDds(k.members[i].ty, v.fields[i], d.fields[f], m[f])
        case None => None
        case Some(x) => ToDdsFrom(k, Record(v.fields[i := Some(x)]), f + 1, d, m)
  }

  /** What the member holds now; an absent one is created with its default. */
  function Current(t: Type, v: Option<Value>): Value {
    if v.None? then Default(t) else v.value
  }

  function FieldToDds(t: Type, v: Option<Value>, f: Field, slot: Slot): Option<Value>
    decreases Depth(t), 6
  {
    var k := Resolve(t);
    match slot
    case Unset => Some(Current(k, v))
    case One(x) => if f.repeated then None else SingularToDds(k, v, f, x)
    case Many(values) =>
      if !f.repeated || !IsCollection(k) || !Current(k, v).List? then None
      else
        match ElementsToDds(k, Current(k, v).elements, 0, f, values)
        case None => None
        case Some(elements) => Some(List(elements))
  }

  function SingularToDds(k: Type, v: Option<Value>, f: Field, x: PbValue): Option<Value>
    decreases Depth(k), 5
  {
    if IsSubMessage(f.ftype) then
      if !(k.Struct? || IsCollection(k)) || !x.PbSub? || |x.slots| != |f.ftype.descriptor.fields| then None
      else ToDds(k, Current(k, v), f.ftype.descriptor, x.slots)
    else ScalarToDds(k, f.ftype, x)
  }

  /** Elements from the `j`th on; a sequence grows by one element at a time up to its bound. */
  function ElementsToDds(k: Type, elements: seq<Value>, j: nat, f: Field, values: seq<PbValue>): Option<seq<Value>>
    requires IsCollection(k) && j <= |values|
    decreases Depth(k), 4, |values| - j
  {
    if j == |values| then Some(elements)
    else if !HasRoom(k, elements, j) then None
    else
      match ElementToDds(Resolve(k.element), ElementAt(k, elements, j), f, values[j])
      case None => None
      case Some(x) => ElementsToDds(k, PutElement(elements, j, x), j + 1, f, values)
  }

  predicate HasRoom(k: Type, elements: seq<Value>, j: nat)
    requires IsCollection(k)
  {
    j < |elements| || (k.Sequence? && j == |elements| < k.bound)
  }

  function ElementAt(k: Type, elements: seq<Value>, j: nat): Value
    requires IsCollection(k)
  {
    if j < |elements| then elements[j] else Default(Resolve(k.element))
  }

  function PutElement(elements: seq<Value>, j: nat, x: Value): seq<Value>
    requires j <= |elements|
  {
    elements[..j] + [x] + if j < |elements| then elements[j + 1..] else []
  }

  function ElementToDds(e: Type, v: Value, f: Field, x: PbValue): Option<Value>
    decreases Depth(e), 5
  {
    if IsSubMessage(f.ftype) then
      if !(e.Struct? || IsCollection(e)) || !x.PbSub? || |x.slots| != |f.ftype.descriptor.fields| then None
      else ToDds(e, v, f.ftype.descriptor, x.slots)
    else ScalarToDds(e, f.ftype, x)
  }
}
