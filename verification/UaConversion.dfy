/** What the converter between the UA SDK and the internal interface computes, type-directed on
    the UA data type. The methods that compute it step by step are in `ConverterUa2IO`. */
module UaConversion {
  import opened Wrappers
  import opened CTypes
  import opened NodeIds
  import opened UaValues
  import I = IoValues

  // ---- UA to internal interface ----

  ghost function Ua2Io(env: TypeEnv, v: Value, t: UaNodeId): Result<I.Value>
    decreases v, 3
  {
    if v.Array? then Array2Io(env, v, t)
    else
      var b :- BuildInType(env, t);
      if IsStructured(b) then ExtensionObject2Io(env, v, t) else BuildIn2Io(env, v, b)
  }

  ghost function BuildIn2Io(env: TypeEnv, v: Value, b: UaNodeId): Result<I.Value>
    decreases v, 2
  {
    if b.ns != 0 then Failure
    else if b.IdentifierNumeric() == VARIANT then Variant2Io(env, v)
    else Scalar2Io(v, b.IdentifierNumeric())
  }

  /** The switch over built-in types; every other combination throws. */
  function Scalar2Io(v: Value, buildIn: nat): Result<I.Value> {
    if buildIn == NULL then Success(I.String(Some("NULL")))
    else match v
      case Bool(b) => if buildIn == BOOLEAN then Success(I.Bool(b)) else Failure
      case SByte(i) => if buildIn == SBYTE then Success(I.SChar(i)) else Failure
      case Byte(i) => if buildIn == BYTE then Success(I.Char(ToUnsigned(i, U8) as char)) else Failure
      case Int16(i) => if buildIn == INT16 then Success(I.Int(i)) else Failure
      case UInt16(i) =>
        if buildIn == UINT16 then Success(I.UInt(i))
        else if buildIn == INT32 || buildIn == ENUMERATION then Success(I.Long(i))
        else Failure
      case Int32(i) => if buildIn == INT32 || buildIn == ENUMERATION then Success(I.Long(i)) else Failure
      case UInt32(i) => if buildIn == UINT32 then Success(I.ULong(i)) else Failure
      case Int64(i) => if buildIn == INT64 then Success(I.LLong(i)) else Failure
      case UInt64(i) => if buildIn == UINT64 then Success(I.ULLong(i)) else Failure
      case Float(f) => if buildIn == FLOAT then Success(I.Float(f)) else Failure
      case Double(f) => if buildIn == DOUBLE || buildIn == DURATION then Success(I.Double(f)) else Failure
      case String(s) => if buildIn == STRING then Success(I.String(CText(s))) else Failure
      case DateTime(i) => if buildIn == DATE_TIME || buildIn == UTC_TIME then Success(I.LLong(i)) else Failure
      case ByteString(bytes) =>
        if buildIn != BYTE_STRING then Failure
        else if bytes.None? then Success(I.ByteString(None))
        else Success(I.ByteString(Some(SignedBytes(bytes.value))))
      case NodeIdValue(id) =>
        if buildIn != NODE_ID then Failure else var n :- UaId2Io(id); Success(I.NodeIdValue(n))
      case LocalizedText(locale, text) =>
        if buildIn == LOCALIZED_TEXT then Success(I.LocalizedText(CText(locale), CText(text))) else Failure
      case _ => Failure
  }

  function CText(s: Option<string>): Option<string> {
    if s.None? then None else Some(CString(s.value))
  }

  function SignedBytes(bytes: seq<int>): (r: seq<int>)
    ensures |r| == |bytes|
  {
    seq(|bytes|, i requires 0 <= i < |bytes| => ToSigned(bytes[i], U8))
  }

  function UnsignedBytes(bytes: seq<int>): (r: seq<int>)
    ensures |r| == |bytes|
  {
    seq(|bytes|, i requires 0 <= i < |bytes| => ToUnsigned(bytes[i], U8))
  }

  /** A Variant holds a DataValue; its content is converted by its own data type. */
  ghost function Variant2Io(env: TypeEnv, v: Value): Result<I.Value>
    decreases v, 1
  {
    if !v.DataValue? then Failure
    else if !v.v.Array? then Ua2Io(env, v.v, DataTypeOf(v.v))
    else if v.v.elemType != VARIANT then Success(I.Array(I.TVariant, []))
    else if forall i | 0 <= i < |v.v.elems| ::
        !v.v.elems[i].Array? && Ua2Io(env, v.v.elems[i], DataTypeOf(v.v.elems[i])).Success? then
      Success(I.Array(I.TVariant, seq(|v.v.elems|, i requires 0 <= i < |v.v.elems| =>
        Ua2Io(env, v.v.elems[i], DataTypeOf(v.v.elems[i])).value)))
    else Failure
  }

  ghost function Array2Io(env: TypeEnv, v: Value, t: UaNodeId): Result<I.Value>
    requires v.Array?
    decreases v, 2
  {
    var b :- BuildInType(env, t);
    var elemType :- IoArrayType(b);
    if forall i | 0 <= i < |v.elems| :: !v.elems[i].Array? && Ua2Io(env, v.elems[i], t).Success? then
      Success(I.Array(elemType, seq(|v.elems|, i requires 0 <= i < |v.elems| => Ua2Io(env, v.elems[i], t).value)))
    else Failure
  }

  function IoArrayType(b: UaNodeId): Result<I.Type> {
    var n := b.IdentifierNumeric();
    if b.ns != 0 then Failure
    else if n == NULL then Success(I.TString)
    else if n == INT16 then Success(I.TInt)
    else if n == UINT16 then Success(I.TUInt)
    else if n == INT32 || n == ENUMERATION then Success(I.TLong)
    else if n == UINT32 then Success(I.TULong)
    else if n == STRING then Success(I.TString)
    else if n == LOCALIZED_TEXT then Success(I.TLocalizedText)
    else if n == VARIANT then Success(I.TVariant)
    else if n == STRUCTURE || n == UNION then Success(I.TStructure)
    else Failure
  }

  /** An extension object decoded under a union definition shows a field only if it is a union
      over a child of the definition; under a structure definition it shows the set fields. */
  ghost function ExtensionObject2Io(env: TypeEnv, v: Value, t: UaNodeId): Result<I.Value>
    decreases v, 2
  {
    var id :- UaId2Io(t);
    var def :- Definition(env, t);
    if def.isUnion then
      if v.Union? && ChildIndex(def.children, v.field) < |def.children| then
        var child := def.children[ChildIndex(def.children, v.field)];
        var x :- Ua2Io(env, v.member, child.typeId);
        Success(I.Structure(id, map[child.name := x]))
      else Success(I.Structure(id, map[]))
    else
      var fields :- CollectFields(def.children, SetFields(v).Keys, Field2Io(env, v));
      Success(I.Structure(id, fields))
  }

  function SetFields(v: Value): map<string, Value> {
    if v.Struct? then v.fields else map[]
  }

  ghost function Field2Io(env: TypeEnv, v: Value): Field -> Result<I.Value>
    decreases v, 1
  {
    (f: Field) => if f.name in SetFields(v) then Ua2Io(env, v.fields[f.name], f.typeId) else Failure
  }

  // ---- Internal interface to UA ----

  ghost function Io2Ua(env: TypeEnv, x: I.Value, t: UaNodeId): Result<Value>
    decreases x, 3
  {
    if x.Array? then IoArray2Ua(env, x, t)
    else if x.Structure? then Structure2Ua(env, x, t)
    else if !I.IsScalar(x) then Failure
    else
      var b :- BuildInType(env, t);
      IoScalar2Ua(x, b.IdentifierNumeric())
  }

  /** The bound checks of the unsigned destinations read `v < 2 ^ k` where the operator is
      exclusive or: the comparison with 2 is xored with the exponent. */
  function PassesBound(v: int, exponent: bv8): bool {
    (if v < 2 then 1 else 0) ^ exponent != 0
  }

  function IoScalar2Ua(x: I.Value, n: nat): Result<Value> {
    match x
    case Bool(b) => if n == BOOLEAN then Success(Bool(b)) else Failure
    case SChar(i) => if n == SBYTE then Success(SByte(ToSigned(i, U8))) else Failure
    case Char(c) => if n == BYTE then Success(Byte(ToUnsigned(c as int, U8))) else Failure
    case Int(i) => if n == INT16 then Success(Int16(ToSigned(i, U16))) else Failure
    case UInt(i) => if n == UINT16 then Success(UInt16(ToUnsigned(i, U16))) else Failure
    case Long(i) =>
      if n == INT32 || n == ENUMERATION then Success(Int32(ToSigned(i, U32)))
      else if n == UINT32 then Success(UInt32(ToUnsigned(i, U32)))
      else if n == UINT16 && i >= 0 && PassesBound(i, 15) then Success(UInt16(ToUnsigned(i, U16)))
      else Failure
    case ULong(i) => if n == UINT32 then Success(UInt32(ToUnsigned(i, U32))) else Failure
    case LLong(i) =>
      if n == INT64 then Success(Int64(ToSigned(i, U64)))
      else if n == UINT32 && i >= 0 && PassesBound(i, 31) then Success(UInt32(ToUnsigned(i, U32)))
      else if n == DATE_TIME || n == UTC_TIME then Success(DateTime(ToSigned(i, U64)))
      else Failure
    case ULLong(i) => if n == UINT64 then Success(UInt64(ToUnsigned(i, U64))) else Failure
    case Float(f) => if n == FLOAT then Success(Float(f)) else Failure
    case Double(f) => if n == DOUBLE || n == DURATION then Success(Double(f)) else Failure
    case String(s) =>
      if n == STRING then Success(String(CText(s)))
      else if n == LOCALIZED_TEXT then Success(EnglishText(s))
      else Failure
    case ByteString(bytes) => if n == BYTE_STRING then Success(NewByteString(bytes)) else Failure
    case LocalizedText(locale, text) =>
      if n == LOCALIZED_TEXT then Success(LocalizedText(CText(locale), CText(text))) else Failure
    case _ => Failure
  }

  function EnglishText(s: Option<string>): Value {
    if s.None? then LocalizedText(None, None) else LocalizedText(Some("en"), CText(s))
  }

  /** The SDK turns an empty byte string into NULL. */
  function NewByteString(bytes: Option<seq<int>>): Value {
    if bytes.None? || bytes.value == [] then ByteString(None)
    else ByteString(Some(UnsignedBytes(bytes.value)))
  }

  ghost function IoArray2Ua(env: TypeEnv, x: I.Value, t: UaNodeId): Result<Value>
    requires x.Array?
    decreases x, 2
  {
    if x.elemType == I.TStructure then
      if forall i | 0 <= i < |x.elems| :: x.elems[i].Structure? && Structure2Ua(env, x.elems[i], t).Success? then
        Success(Array(STRUCTURE, seq(|x.elems|, i requires 0 <= i < |x.elems| =>
          Structure2Ua(env, x.elems[i], t).value)))
      else Failure
    else
      var b :- BuildInType(env, t);
      ScalarArray2Ua(x, b.IdentifierNumeric())
  }

  predicate ScalarArraySupported(elemType: I.Type, n: nat) {
    match elemType
    case TLong => n == INT32 || n == ENUMERATION || n == UINT16
    case TULong => n == UINT32
    case TLLong => n == UINT32
    case TString => n == STRING || n == LOCALIZED_TEXT
    case TLocalizedText => n == LOCALIZED_TEXT
    case _ => false
  }

  /** Arrays of scalars. A NULL element of a string array has no defined conversion. */
  function ScalarArray2Ua(x: I.Value, n: nat): Result<Value>
    requires x.Array?
  {
    if !ScalarArraySupported(x.elemType, n) then Failure
    else if x.elemType == I.TString && exists i | 0 <= i < |x.elems| :: x.elems[i] == I.String(None) then Failure
    else Success(Array(if n == ENUMERATION then INT32 else n,
      seq(|x.elems|, i requires 0 <= i < |x.elems| => ArrayElement2Ua(x.elems[i], x.elemType, n))))
  }

  function NumberOf(e: I.Value): int {
    if e.Long? || e.ULong? || e.LLong? then e.i else 0
  }

  function TextOf(e: I.Value): Option<string> {
    if e.String? then e.s else if e.LocalizedText? then e.text else None
  }

  function LocaleOf(e: I.Value): Option<string> {
    if e.LocalizedText? then e.locale else None
  }

  /** One element of an array of scalars: no bound is checked here. */
  function ArrayElement2Ua(e: I.Value, elemType: I.Type, n: nat): Value {
    if n == UINT16 then UInt16(ToUnsigned(NumberOf(e), U16))
    else if n == UINT32 then UInt32(ToUnsigned(NumberOf(e), U32))
    else if n == STRING then String(CText(TextOf(e)))
    else if n == LOCALIZED_TEXT then
      if elemType == I.TString then EnglishText(TextOf(e))
      else LocalizedText(CText(LocaleOf(e)), CText(TextOf(e)))
    else Int32(ToSigned(NumberOf(e), U32))
  }

  ghost function Structure2Ua(env: TypeEnv, x: I.Value, t: UaNodeId): Result<Value>
    requires x.Structure?
    decreases x, 1
  {
    var def :- Definition(env, t);
    if def.isUnion then
      if |x.fields| > 1 then Failure
      else if |x.fields| == 0 then Success(EmptyUnion(t))
      else
        var name :| name in x.fields;
        var j := ChildIndex(def.children, name);
        if j == |def.children| then Failure
        else
          var v :- Io2Ua(env, x.fields[name], def.children[j].typeId);
          Success(Union(t, name, v))
    else
      var fields :- CollectFields(def.children, x.fields.Keys, Field2Ua(env, x));
      Success(Struct(t, fields))
  }

  ghost function Field2Ua(env: TypeEnv, x: I.Value): Field -> Result<Value>
    requires x.Structure?
    decreases x, 0
  {
    (f: Field) => if f.name in x.fields then Io2Ua(env, x.fields[f.name], f.typeId) else Failure
  }
}
