/** Values as the UA SDK holds them (`UaVariant`), and the type information a converter asks for. */
module UaValues {
  import opened Wrappers
  import opened CTypes
  import opened NodeIds

  // Built-in types of OPC UA Part 6 (namespace 0), and the data types the converters name.
  const NULL := 0
  const BOOLEAN := 1
  const SBYTE := 2
  const BYTE := 3
  const INT16 := 4
  const UINT16 := 5
  const INT32 := 6
  const UINT32 := 7
  const INT64 := 8
  const UINT64 := 9
  const FLOAT := 10
  const DOUBLE := 11
  const STRING := 12
  const DATE_TIME := 13
  const BYTE_STRING := 15
  const NODE_ID := 17
  const LOCALIZED_TEXT := 21
  const STRUCTURE := 22
  const DATA_VALUE := 23
  const VARIANT := 24
  const ENUMERATION := 29
  const DURATION := 290
  const UTC_TIME := 294
  const UNION := 12756

  /** A NULL string, byte string or text field is `None`. Floating point values are tokens.
      An extension object is held decoded, with the fields that are set. */
  datatype Value =
    | Bool(b: bool)
    | SByte(i: int)
    | Byte(i: int)
    | Int16(i: int)
    | UInt16(i: int)
    | Int32(i: int)
    | UInt32(i: int)
    | Int64(i: int)
    | UInt64(i: int)
    | Float(token: nat)
    | Double(token: nat)
    | String(s: Option<string>)
    | DateTime(i: int)
    | ByteString(bytes: Option<seq<int>>)
    | NodeIdValue(nodeId: UaNodeId)
    | LocalizedText(locale: Option<string>, text: Option<string>)
    | Struct(typeId: UaNodeId, fields: map<string, Value>)
    | Union(typeId: UaNodeId, field: string, member: Value)
    | EmptyUnion(typeId: UaNodeId)
    | DataValue(v: Value)
    | Array(elemType: nat, elems: seq<Value>)
    | Other(builtIn: nat)

  /** `UaVariant::type()`. */
  function TypeOf(v: Value): nat {
    match v
    case Bool(_) => BOOLEAN
    case SByte(_) => SBYTE
    case Byte(_) => BYTE
    case Int16(_) => INT16
    case UInt16(_) => UINT16
    case Int32(_) => INT32
    case UInt32(_) => UINT32
    case Int64(_) => INT64
    case UInt64(_) => UINT64
    case Float(_) => FLOAT
    case Double(_) => DOUBLE
    case String(_) => STRING
    case DateTime(_) => DATE_TIME
    case ByteString(_) => BYTE_STRING
    case NodeIdValue(_) => NODE_ID
    case LocalizedText(_, _) => LOCALIZED_TEXT
    case Struct(_, _) => STRUCTURE
    case Union(_, _, _) => STRUCTURE
    case EmptyUnion(_) => STRUCTURE
    case DataValue(_) => DATA_VALUE
    case Array(t, _) => t
    case Other(t) => t
  }

  /** `UaVariant::dataType()`. */
  function DataTypeOf(v: Value): UaNodeId {
    if v.Struct? || v.Union? || v.EmptyUnion? then v.typeId else UaNodeId(0, Numeric(TypeOf(v)))
  }

  /** Values the SDK can hold: integers within their width, no empty byte string that is not
      NULL, and arrays whose elements have the type of the array. */
  predicate Holds(v: Value) {
    match v
    case SByte(i) => InSigned(i, U8)
    case Byte(i) => InUnsigned(i, U8)
    case Int16(i) => InSigned(i, U16)
    case UInt16(i) => InUnsigned(i, U16)
    case Int32(i) => InSigned(i, U32)
    case UInt32(i) => InUnsigned(i, U32)
    case Int64(i) => InSigned(i, U64)
    case UInt64(i) => InUnsigned(i, U64)
    case DateTime(i) => InSigned(i, U64)
    case ByteString(bytes) =>
      bytes.Some? ==> bytes.value != [] && forall i | 0 <= i < |bytes.value| :: InUnsigned(bytes.value[i], U8)
    case Struct(_, fields) => forall k | k in fields :: Holds(fields[k])
    case Union(_, _, member) => Holds(member)
    case DataValue(w) => Holds(w)
    case Array(t, elems) =>
      forall i | 0 <= i < |elems| ::
        Holds(elems[i]) && (t == VARIANT || (!elems[i].Array? && TypeOf(elems[i]) == t))
    case Other(t) => t in {NULL, 14, 16, 18, 19, 20, 25}
    case _ => true
  }

  datatype Field = Field(name: string, typeId: UaNodeId, optional: bool)

  datatype StructureDefinition = StructureDefinition(isUnion: bool, children: seq<Field>)

  /** What the converter callback answers. A type without an entry is one for which the callback
      throws or has no answer. */
  datatype TypeEnv = TypeEnv(
    superTypes: map<UaNodeId, seq<UaNodeId>>,
    definitions: map<UaNodeId, StructureDefinition>)

  predicate DistinctNames(children: seq<Field>) {
    forall i, j | 0 <= i < j < |children| :: children[i].name != children[j].name
  }

  predicate WellFormedEnv(env: TypeEnv) {
    forall t | t in env.definitions :: DistinctNames(env.definitions[t].children)
  }

  /** The loop over the children of a structure definition: each child whose name is present is
      converted, a missing mandatory child fails, a later child of the same name overwrites. */
  function CollectFields<V>(children: seq<Field>, present: set<string>,
      convert: Field -> Result<V>): Result<map<string, V>> {
    if children == [] then Success(map[])
    else
      var child := children[|children| - 1];
      var fields :- CollectFields(children[..|children| - 1], present, convert);
      if child.name in present then
        var v :- convert(child);
        Success(fields[child.name := v])
      else if child.optional then Success(fields)
      else Failure
  }

  /** One round of the loop. */
  lemma CollectNext<V>(children: seq<Field>, j: nat, present: set<string>, convert: Field -> Result<V>)
    requires j < |children| && CollectFields(children[..j], present, convert).Success?
    ensures var child, fields := children[j], CollectFields(children[..j], present, convert).value;
      CollectFields(children[..j + 1], present, convert) ==
        if child.name in present then
          if convert(child).Success? then Success(fields[child.name := convert(child).value]) else Failure
        else if child.optional then Success(fields)
        else Failure
  {
    assert children[..j + 1][..j] == children[..j];
  }

  /** A failure of the loop is final. */
  lemma {:induction false} CollectFailsEarly<V>(children: seq<Field>, n: nat, present: set<string>,
      convert: Field -> Result<V>)
    requires n <= |children| && CollectFields(children[..n], present, convert).Failure?
    ensures CollectFields(children, present, convert).Failure?
    decreases |children|
  {
    if n == |children| {
      assert children[..n] == children;
    } else {
      assert children[..|children| - 1][..n] == children[..n];
      CollectFailsEarly(children[..|children| - 1], n, present, convert);
    }
  }

  predicate Collectable<V>(children: seq<Field>, present: set<string>, convert: Field -> Result<V>) {
    forall i | 0 <= i < |children| ::
      if children[i].name in present then convert(children[i]).Success? else children[i].optional
  }

  lemma {:induction false} CollectsIff<V>(children: seq<Field>, present: set<string>, convert: Field -> Result<V>)
    ensures CollectFields(children, present, convert).Success? <==> Collectable(children, present, convert)
  {
    if children != [] {
      var n := |children| - 1;
      CollectsIff(children[..n], present, convert);
      assert forall i | 0 <= i < n :: children[..n][i] == children[i];
    }
  }

  lemma {:induction false} CollectedKeys<V>(children: seq<Field>, present: set<string>, convert: Field -> Result<V>,
      k: string)
    requires CollectFields(children, present, convert).Success?
    requires k in CollectFields(children, present, convert).value
    ensures k in present && ChildIndex(children, k) < |children|
  {
    var n := |children| - 1;
    if k == children[n].name && k in present {
      assert ChildIndex(children, k) <= n;
    } else {
      CollectedKeys(children[..n], present, convert, k);
      var i := ChildIndex(children[..n], k);
      assert children[i] == children[..n][i];
    }
  }

  lemma {:induction false} CollectedValue<V>(children: seq<Field>, present: set<string>, convert: Field -> Result<V>,
      i: nat)
    requires DistinctNames(children) && CollectFields(children, present, convert).Success?
    requires i < |children| && children[i].name in present
    ensures var m := CollectFields(children, present, convert).value;
      children[i].name in m && Success(m[children[i].name]) == convert(children[i])
  {
    var n := |children| - 1;
    if i < n {
      CollectedValue(children[..n], present, convert, i);
    }
  }

  /** With distinct names, each field comes from its own child. */
  lemma CollectFieldsMeaning<V>(children: seq<Field>, present: set<string>, convert: Field -> Result<V>)
    requires DistinctNames(children)
    ensures CollectFields(children, present, convert).Success? <==> Collectable(children, present, convert)
    ensures Collectable(children, present, convert) ==>
      var m := CollectFields(children, present, convert).value;
      && (forall k | k in m :: k in present && ChildIndex(children, k) < |children|)
      && (forall i | 0 <= i < |children| && children[i].name in present ::
            children[i].name in m && Success(m[children[i].name]) == convert(children[i]))
  {
    CollectsIff(children, present, convert);
    if Collectable(children, present, convert) {
      var m := CollectFields(children, present, convert).value;
      forall k | k in m
        ensures k in present && ChildIndex(children, k) < |children|
      {
        CollectedKeys(children, present, convert, k);
      }
      forall i | 0 <= i < |children| && children[i].name in present
        ensures children[i].name in m && Success(m[children[i].name]) == convert(children[i])
      {
        CollectedValue(children, present, convert, i);
      }
    }
  }

  /** Exactly the names of children that are present occur. */
  ghost predicate KeysAre(children: seq<Field>, present: set<string>, keys: set<string>) {
    forall k :: k in keys <==> k in present && ChildIndex(children, k) < |children|
  }

  /** A child whose name is present gives its field; any other one is optional. */
  predicate FieldAt<V(==)>(child: Field, present: set<string>, convert: Field -> Result<V>, m: map<string, V>) {
    if child.name in present then child.name in m && convert(child) == Success(m[child.name]) else child.optional
  }

  ghost predicate FieldsAre<V>(children: seq<Field>, present: set<string>, convert: Field -> Result<V>,
      m: map<string, V>) {
    && KeysAre(children, present, m.Keys)
    && forall i | 0 <= i < |children| :: FieldAt(children[i], present, convert, m)
  }

  lemma CollectedAre<V>(children: seq<Field>, present: set<string>, convert: Field -> Result<V>)
    requires DistinctNames(children) && Collectable(children, present, convert)
    ensures CollectFields(children, present, convert).Success?
    ensures FieldsAre(children, present, convert, CollectFields(children, present, convert).value)
  {
    CollectFieldsMeaning(children, present, convert);
    var c := CollectFields(children, present, convert).value;
    forall k
      ensures k in c <==> k in present && ChildIndex(children, k) < |children|
    {
      if k in present && ChildIndex(children, k) < |children| {
        assert children[ChildIndex(children, k)].name == k;
      }
    }
  }

  lemma FieldsUnique<V>(children: seq<Field>, present: set<string>, convert: Field -> Result<V>, m: map<string, V>,
      c: map<string, V>)
    requires FieldsAre(children, present, convert, m) && FieldsAre(children, present, convert, c)
    ensures m == c
  {
    assert m.Keys == c.Keys;
    forall k | k in m
      ensures m[k] == c[k]
    {
      var i := ChildIndex(children, k);
      assert FieldAt(children[i], present, convert, m) && FieldAt(children[i], present, convert, c);
    }
  }

  /** The collected fields, stated without the loop. */
  lemma CollectedFields<V>(children: seq<Field>, present: set<string>, convert: Field -> Result<V>, m: map<string, V>)
    requires DistinctNames(children)
    ensures CollectFields(children, present, convert) == Success(m) <==> FieldsAre(children, present, convert, m)
  {
    if Collectable(children, present, convert) {
      CollectedAre(children, present, convert);
      if FieldsAre(children, present, convert, m) {
        FieldsUnique(children, present, convert, m, CollectFields(children, present, convert).value);
      }
    } else {
      CollectsIff(children, present, convert);
    }
  }

  function Definition(env: TypeEnv, t: UaNodeId): Result<StructureDefinition> {
    if t in env.definitions then Success(env.definitions[t]) else Failure
  }

  /** `getBuildInType`: a type of namespace 0 stands for itself, any other for its last super type. */
  function BuildInType(env: TypeEnv, t: UaNodeId): Result<UaNodeId> {
    if t.ns == 0 then Success(t)
    else if t in env.superTypes && |env.superTypes[t]| > 0 then
      Success(env.superTypes[t][|env.superTypes[t]| - 1])
    else Failure
  }

  predicate IsStructured(b: UaNodeId) {
    b.IdentifierNumeric() == STRUCTURE || b.IdentifierNumeric() == UNION
  }

  /** Ranks for some types; other types may be recursive. */
  type Ranking = UaNodeId -> Option<nat>

  predicate Lower(rank: Ranking, s: UaNodeId, t: UaNodeId) {
    rank(s).Some? && rank(t).Some? && rank(s).value < rank(t).value
  }

  function Height(rank: Ranking, t: UaNodeId): nat {
    if rank(t).Some? then rank(t).value else 0
  }

  /** Index of the first child with the given name, or the number of children. */
  function ChildIndex(children: seq<Field>, name: string): (j: nat)
    ensures j <= |children|
    ensures j < |children| ==> children[j].name == name
    ensures forall i | 0 <= i < j :: children[i].name != name
  {
    if children == [] || children[0].name == name then 0 else 1 + ChildIndex(children[1..], name)
  }
}

/** Values of the internal interface. */
module IoValues {
  import opened Wrappers
  import opened NodeIds

  /** Type tags: the scalar types, and the variant types that may tag an array. */
  datatype Type =
    | TBool | TSChar | TChar | TInt | TUInt | TLong | TULong | TLLong | TULLong | TFloat | TDouble
    | TString | TByteString | TLocalizedText | TVariant
    | TArray | TNodeId | TStructure | TOther

  datatype Value =
    | Bool(b: bool)
    | SChar(i: int)
    | Char(c: char)
    | Int(i: int)
    | UInt(i: int)
    | Long(i: int)
    | ULong(i: int)
    | LLong(i: int)
    | ULLong(i: int)
    | Float(token: nat)
    | Double(token: nat)
    | String(s: Option<string>)
    | ByteString(bytes: Option<seq<int>>)
    | LocalizedText(locale: Option<string>, text: Option<string>)
    | Array(elemType: Type, elems: seq<Value>)
    | NullArray(elemType: Type)
    | Structure(typeId: IoNodeId, fields: map<string, Value>)
    | NodeIdValue(nodeId: IoNodeId)
    | Other

  /** The tag of a value: its scalar type if it is a scalar. */
  function TypeOf(v: Value): Type {
    match v
    case Bool(_) => TBool
    case SChar(_) => TSChar
    case Char(_) => TChar
    case Int(_) => TInt
    case UInt(_) => TUInt
    case Long(_) => TLong
    case ULong(_) => TULong
    case LLong(_) => TLLong
    case ULLong(_) => TULLong
    case Float(_) => TFloat
    case Double(_) => TDouble
    case String(_) => TString
    case ByteString(_) => TByteString
    case LocalizedText(_, _) => TLocalizedText
    case Array(_, _) => TArray
    case NullArray(_) => TArray
    case Structure(_, _) => TStructure
    case NodeIdValue(_) => TNodeId
    case Other => TOther
  }

  predicate IsScalar(v: Value) {
    !(v.Array? || v.NullArray? || v.Structure? || v.NodeIdValue? || v.Other?)
  }
}

/** Values of the binary protocol. */
module BinaryValues {
  import opened NodeIds

  datatype Type =
    | TBoolean | TChar | TByte | TShort | TInt | TLong | TFloat | TDouble | TArray | TStruct
    | TUnknown(code: int)

  datatype Value =
    | Boolean(b: bool)
    | Char(c: char)
    | Byte(i: int)
    | Short(i: int)
    | Int(i: int)
    | Long(i: int)
    | Float(token: nat)
    | Double(token: nat)
    | Array(elemType: Type, elems: seq<Value>)
    | Struct(typeId: ParamId, fields: map<string, Value>)

  /** Arrays of characters hold characters and arrays of bytes hold bytes. */
  predicate WellFormed(v: Value) {
    match v
    case Array(t, elems) =>
      forall i | 0 <= i < |elems| ::
        WellFormed(elems[i]) && (t == TChar ==> elems[i].Char?) && (t == TByte ==> elems[i].Byte?)
    case Struct(_, fields) => forall k | k in fields :: WellFormed(fields[k])
    case _ => true
  }

  function CharsOf(elems: seq<Value>): (s: string)
    ensures |s| == |elems|
  {
    seq(|elems|, i requires 0 <= i < |elems| => if elems[i].Char? then elems[i].c else '\0')
  }

  function BytesOf(elems: seq<Value>): (s: seq<int>)
    ensures |s| == |elems|
  {
    seq(|elems|, i requires 0 <= i < |elems| => if elems[i].Byte? then elems[i].i else 0)
  }

  function CharArray(s: string): Value {
    Array(TChar, seq(|s|, i requires 0 <= i < |s| => Char(s[i])))
  }

  function ByteArray(s: seq<int>): Value {
    Array(TByte, seq(|s|, i requires 0 <= i < |s| => Byte(s[i])))
  }
}
