/** What the results of the converters hold: type ids, fields and tags. */
module ConversionMeaning {
  import opened Wrappers
  import opened CTypes
  import opened NodeIds
  import opened UaValues
  import opened UaConversion
  import opened BinaryConversion
  import opened RoundTrips
  import CachedConversion
  import ClientConversion
  import Decimals
  import I = IoValues
  import B = BinaryValues

  /** A structured data type. */
  predicate StructuredType(env: TypeEnv, t: UaNodeId) {
    BuildInType(env, t).Success? && IsStructured(BuildInType(env, t).value)
  }

  /** The id survives the spelling of the internal interface. */
  predicate PlainId(t: UaNodeId) {
    t.ns < U16 && (t.id.Text? ==> NulFree(t.id.s))
  }

  // ---- Structures ----

  /** A converted structure carries the id of its data type, namespace included. */
  lemma StructureKeepsType(env: TypeEnv, v: Value, t: UaNodeId)
    requires !v.Array? && StructuredType(env, t) && PlainId(t) && Ua2Io(env, v, t).Success?
    ensures var x := Ua2Io(env, v, t).value; x.Structure? && IoId2Ua(x.typeId) == t
  {
    assert Ua2Io(env, v, t) == ExtensionObject2Io(env, v, t);
    NodeIdRoundTrip(t, 0);
  }

  /** It still does on the wire, whatever the namespace of the receiver. */
  lemma SentStructureKeepsType(env: TypeEnv, v: Value, t: UaNodeId, ns: int)
    requires !v.Array? && StructuredType(env, t) && PlainId(t) && ClientConversion.Ua2Bin(env, v, t).Success?
    ensures var b := ClientConversion.Ua2Bin(env, v, t).value; b.Struct? && IoId2Ua(BinId2Io(b.typeId, ns)) == t
  {
    StructureKeepsType(env, v, t);
    var x := Ua2Io(env, v, t).value;
    assert Ua2Io(env, v, t) == ExtensionObject2Io(env, v, t);
    SentStructure(x);
    NodeIdRoundTrip(t, ns);
  }

  lemma SentStructure(x: I.Value)
    requires x.Structure? && Io2Bin(x).Success?
    ensures Io2Bin(x).value.Struct? && Io2Bin(x).value.typeId == IoId2Bin(x.typeId)
  {
  }

  /** A value under a structure definition: the set fields of the definition, each converted by the
      type of its child, and nothing else. */
  lemma StructureFields(env: TypeEnv, v: Value, t: UaNodeId, m: map<string, I.Value>)
    requires !v.Array? && StructuredType(env, t) && PlainId(t)
    requires t in env.definitions && !env.definitions[t].isUnion && DistinctNames(env.definitions[t].children)
    ensures (Ua2Io(env, v, t).Success? && Ua2Io(env, v, t).value.Structure? && Ua2Io(env, v, t).value.fields == m) <==>
      && (t.id.Numeric? || t.id.Text?)
      && FieldsAre(env.definitions[t].children, SetFields(v).Keys, Field2Io(env, v), m)
  {
    assert Ua2Io(env, v, t) == ExtensionObject2Io(env, v, t);
    CollectedFields(env.definitions[t].children, SetFields(v).Keys, Field2Io(env, v), m);
  }

  /** A value under a union definition: the one field of the definition that the value is a union
      over, or no field. */
  lemma UnionFields(env: TypeEnv, v: Value, t: UaNodeId)
    requires !v.Array? && StructuredType(env, t) && Ua2Io(env, v, t).Success?
    requires t in env.definitions && env.definitions[t].isUnion
    ensures var x, children := Ua2Io(env, v, t).value, env.definitions[t].children;
      && x.Structure?
      && if v.Union? && ChildIndex(children, v.field) < |children| then
           && x.fields.Keys == {v.field}
           && Success(x.fields[v.field]) == Ua2Io(env, v.member, children[ChildIndex(children, v.field)].typeId)
         else x.fields == map[]
  {
    assert Ua2Io(env, v, t) == ExtensionObject2Io(env, v, t);
  }

  /** Under a structure definition the way back takes the same fields and ignores all others. */
  lemma StructureFromFields(env: TypeEnv, x: I.Value, t: UaNodeId, u: Value)
    requires x.Structure? && t in env.definitions && !env.definitions[t].isUnion
    requires DistinctNames(env.definitions[t].children)
    ensures Io2Ua(env, x, t) == Success(u) <==>
      && u.Struct? && u.typeId == t
      && FieldsAre(env.definitions[t].children, x.fields.Keys, Field2Ua(env, x), u.fields)
  {
    assert Io2Ua(env, x, t) == Structure2Ua(env, x, t);
    if u.Struct? {
      CollectedFields(env.definitions[t].children, x.fields.Keys, Field2Ua(env, x), u.fields);
    }
  }

  /** Under a union definition the way back takes no field, or one field that is declared; more than
      one is refused. */
  lemma UnionFromFields(env: TypeEnv, x: I.Value, t: UaNodeId, u: Value)
    requires x.Structure? && t in env.definitions && env.definitions[t].isUnion
    ensures var children := env.definitions[t].children;
      Io2Ua(env, x, t) == Success(u) <==>
      || (u == EmptyUnion(t) && x.fields == map[])
      || (&& u.Union? && u.typeId == t && x.fields.Keys == {u.field}
          && ChildIndex(children, u.field) < |children|
          && Io2Ua(env, x.fields[u.field], children[ChildIndex(children, u.field)].typeId) == Success(u.member))
  {
    assert Io2Ua(env, x, t) == Structure2Ua(env, x, t);
    if |x.fields| == 1 {
      var name :| name in x.fields;
      CachedConversion.OnlyField(x, name);
      assert x.fields.Keys == {name};
    }
    if u.Union? {
      KeysCounted(x.fields, {u.field});
    }
  }

  /** A map has as many entries as it has keys. */
  lemma KeysCounted<V>(m: map<string, V>, keys: set<string>)
    ensures m.Keys == keys ==> |m| == |keys|
  {
    assert |m.Keys| == |m|;
  }

  /** A structure without a definition is refused. */
  lemma UndefinedStructure(env: TypeEnv, t: UaNodeId, x: I.Value, v: Value)
    requires t !in env.definitions
    ensures x.Structure? ==> Io2Ua(env, x, t).Failure?
    ensures !v.Array? && StructuredType(env, t) ==> Ua2Io(env, v, t).Failure?
  {
    if x.Structure? {
      assert Io2Ua(env, x, t) == Structure2Ua(env, x, t);
    }
    if !v.Array? && StructuredType(env, t) {
      assert Ua2Io(env, v, t) == ExtensionObject2Io(env, v, t);
    }
  }

  // ---- Arrays ----

  /** The built-in types that arrays are converted of: booleans, octets, numbers of 64 bits, floating
      point numbers, times, byte strings and node ids are missing. */
  predicate HasArrays(b: UaNodeId) {
    b.ns == 0 && b.IdentifierNumeric() in
      {NULL, INT16, UINT16, INT32, UINT32, ENUMERATION, STRING, LOCALIZED_TEXT, VARIANT, STRUCTURE, UNION}
  }

  /** An array is converted exactly if its type is one of these and each element is. */
  lemma ArrayConverted(env: TypeEnv, v: Value, t: UaNodeId)
    requires v.Array?
    ensures Ua2Io(env, v, t).Success? <==>
      && BuildInType(env, t).Success? && HasArrays(BuildInType(env, t).value)
      && forall i | 0 <= i < |v.elems| :: !v.elems[i].Array? && Ua2Io(env, v.elems[i], t).Success?
  {
    assert Ua2Io(env, v, t) == Array2Io(env, v, t);
  }

  /** An array is tagged with the type its elements have. */
  lemma ArrayIsTagged(env: TypeEnv, v: Value, t: UaNodeId, i: nat)
    requires v.Array? && Ua2Io(env, v, t).Success? && i < |v.elems|
    requires BuildInType(env, t).Success? && BuildInType(env, t).value.IdentifierNumeric() != VARIANT
    ensures var x := Ua2Io(env, v, t).value;
      && x.Array? && |x.elems| == |v.elems| && Success(x.elems[i]) == Ua2Io(env, v.elems[i], t)
      && I.TypeOf(x.elems[i]) == x.elemType
  {
    var b := BuildInType(env, t).value;
    assert Ua2Io(env, v, t) == Array2Io(env, v, t);
    assert Ua2Io(env, v.elems[i], t) ==
      if IsStructured(b) then ExtensionObject2Io(env, v.elems[i], t) else BuildIn2Io(env, v.elems[i], b);
    if !IsStructured(b) {
      ScalarTag(v.elems[i], b);
    }
  }

  lemma ScalarTag(e: Value, b: UaNodeId)
    requires b.ns == 0 && IoArrayType(b).Success? && Scalar2Io(e, b.IdentifierNumeric()).Success?
    requires !IsStructured(b)
    ensures I.TypeOf(Scalar2Io(e, b.IdentifierNumeric()).value) == IoArrayType(b).value
  {
  }

  // ---- Scalars ----

  /** The built-in type a scalar is held as. */
  predicate HeldAs(w: Value, n: nat) {
    match w
    case Bool(_) => n == BOOLEAN
    case SByte(_) => n == SBYTE
    case Byte(_) => n == BYTE
    case Int16(_) => n == INT16
    case UInt16(_) => n == UINT16
    case Int32(_) => n == INT32
    case UInt32(_) => n == UINT32
    case Int64(_) => n == INT64
    case UInt64(_) => n == UINT64
    case Float(_) => n == FLOAT
    case Double(_) => n == DOUBLE
    case String(_) => n == STRING
    case DateTime(_) => n == DATE_TIME
    case ByteString(_) => n == BYTE_STRING
    case NodeIdValue(_) => n == NODE_ID
    case LocalizedText(_, _) => n == LOCALIZED_TEXT
    case _ => false
  }

  /** The standard type that an alias stands for. */
  function Standard(n: nat): nat {
    if n == ENUMERATION then INT32 else if n == DURATION then DOUBLE else if n == UTC_TIME then DATE_TIME else n
  }

  /** The switch accepts what is held as the built-in type or as the type it is an alias of, and an
      unsigned 16 bit number also as a signed one of 32 bits. Any value of the null type is
      accepted. */
  lemma ScalarAccepted(v: Value, n: nat)
    ensures Scalar2Io(v, n).Success? <==>
      || n == NULL
      || (&& (HeldAs(v, Standard(n)) || (v.UInt16? && Standard(n) == INT32))
          && (v.NodeIdValue? ==> v.nodeId.id.Numeric? || v.nodeId.id.Text?))
  {
  }

  /** The number a value holds. */
  function UaNumber(v: Value): Option<int> {
    match v
    case SByte(i) => Some(i)
    case Byte(i) => Some(i)
    case Int16(i) => Some(i)
    case UInt16(i) => Some(i)
    case Int32(i) => Some(i)
    case UInt32(i) => Some(i)
    case Int64(i) => Some(i)
    case UInt64(i) => Some(i)
    case DateTime(i) => Some(i)
    case _ => None
  }

  function IoNumber(x: I.Value): Option<int> {
    match x
    case SChar(i) => Some(i)
    case Char(c) => Some(c as int)
    case Int(i) => Some(i)
    case UInt(i) => Some(i)
    case Long(i) => Some(i)
    case ULong(i) => Some(i)
    case LLong(i) => Some(i)
    case ULLong(i) => Some(i)
    case _ => None
  }

  /** A text is cut at the first NUL and stays NULL if it is. */
  predicate TextKept(s: Option<string>, t: Option<string>) {
    (s.None? <==> t.None?) && (s.Some? ==> t.value == CString(s.value))
  }

  /** An accepted scalar keeps its number, and what is NULL stays NULL; the null type gives the text
      "NULL". */
  lemma ScalarKept(v: Value, n: nat)
    requires Holds(v) && Scalar2Io(v, n).Success?
    ensures var x := Scalar2Io(v, n).value;
      if n == NULL then x == I.String(Some("NULL"))
      else
        && UaNumber(v) == IoNumber(x)
        && (v.String? ==> x.String? && TextKept(v.s, x.s))
        && (v.ByteString? ==> x.ByteString? && (v.bytes.None? <==> x.bytes.None?))
        && (v.LocalizedText? ==> x.LocalizedText? && TextKept(v.locale, x.locale) && TextKept(v.text, x.text))
  {
  }

  /** What the destination types take on the way back. */
  predicate Taken(x: I.Value, n: nat) {
    match x
    case Bool(_) => n == BOOLEAN
    case SChar(_) => n == SBYTE
    case Char(_) => n == BYTE
    case Int(_) => n == INT16
    case UInt(_) => n == UINT16
    case Long(i) => n == INT32 || n == UINT32 || (n == UINT16 && i >= 0)
    case ULong(_) => n == UINT32
    case LLong(i) => n == INT64 || n == DATE_TIME || (n == UINT32 && i >= 0)
    case ULLong(_) => n == UINT64
    case Float(_) => n == FLOAT
    case Double(_) => n == DOUBLE
    case String(_) => n == STRING || n == LOCALIZED_TEXT
    case ByteString(_) => n == BYTE_STRING
    case LocalizedText(_, _) => n == LOCALIZED_TEXT
    case _ => false
  }

  /** An alias is written as the type it stands for; what is written has the type of the
      destination. */
  lemma ScalarTaken(x: I.Value, n: nat)
    ensures IoScalar2Ua(x, n).Success? <==> Taken(x, Standard(n))
    ensures IoScalar2Ua(x, n).Success? ==> HeldAs(IoScalar2Ua(x, n).value, Standard(n))
  {
    if x.Long? {
      BoundNeverRejects(x.i);
    } else if x.LLong? {
      BoundNeverRejects(x.i);
    }
  }

  /** The number of values of an integer type. */
  function Values(n: nat): nat {
    if n == SBYTE || n == BYTE then U8
    else if n == INT16 || n == UINT16 then U16
    else if n == INT32 || n == UINT32 then U32
    else U64
  }

  /** What is written can be held, with the same number modulo the width of the destination. */
  lemma NumberWritten(x: I.Value, n: nat)
    requires IoScalar2Ua(x, n).Success? && IoNumber(x).Some?
    ensures var w := IoScalar2Ua(x, n).value;
      && Holds(w) && UaNumber(w).Some?
      && UaNumber(w).value % Values(Standard(n)) == IoNumber(x).value % Values(Standard(n))
  {
    Congruent(IoNumber(x).value, Values(Standard(n)));
  }

  lemma Congruent(i: int, m: nat)
    requires m in {U8, U16, U32, U64}
    ensures ToUnsigned(i, m) % m == i % m && ToSigned(i, m) % m == i % m
  {
  }

  /** A text without language becomes an English one; an empty byte string is written as NULL. */
  lemma TextWritten(x: I.Value, n: nat)
    requires IoScalar2Ua(x, n).Success?
    ensures var w := IoScalar2Ua(x, n).value;
      && (w.String? ==> x.String? && TextKept(x.s, w.s))
      && (x.String? && w.LocalizedText? ==>
            TextKept(x.s, w.text) && w.locale == if x.s.None? then None else Some("en"))
      && (x.LocalizedText? ==> w.LocalizedText? && TextKept(x.locale, w.locale) && TextKept(x.text, w.text))
      && (x.ByteString? ==> w.ByteString? && (w.bytes.None? <==> x.bytes == None || x.bytes == Some([])))
  {
  }

  // ---- Variants ----

  /** A Variant is converted as what it holds: a scalar by the built-in type it is held as. */
  lemma VariantOfScalar(env: TypeEnv, w: Value, t: UaNodeId, n: nat)
    requires HeldAs(w, n) && BuildInType(env, t) == Success(UaNodeId(0, Numeric(VARIANT)))
    ensures Ua2Io(env, DataValue(w), t) == Ua2Io(env, w, UaNodeId(0, Numeric(n))) == Scalar2Io(w, n)
  {
    var b := UaNodeId(0, Numeric(VARIANT));
    var v := DataValue(w);
    assert Ua2Io(env, v, t) == BuildIn2Io(env, v, b) == Variant2Io(env, v);
    assert DataTypeOf(w) == UaNodeId(0, Numeric(n));
    assert Ua2Io(env, w, DataTypeOf(w)) == BuildIn2Io(env, w, DataTypeOf(w)) == Scalar2Io(w, n);
  }

  /** A structure by its own data type. */
  lemma VariantOfStructure(env: TypeEnv, w: Value, t: UaNodeId)
    requires BuildInType(env, t) == Success(UaNodeId(0, Numeric(VARIANT)))
    requires w.Struct? || w.Union? || w.EmptyUnion?
    ensures Ua2Io(env, DataValue(w), t) == Ua2Io(env, w, w.typeId)
  {
    var v := DataValue(w);
    assert Ua2Io(env, v, t) == BuildIn2Io(env, v, UaNodeId(0, Numeric(VARIANT))) == Variant2Io(env, v);
  }

  /** An array of Variants element by element, each as what it holds; of any other array only an empty
      array of Variants is left. */
  lemma VariantOfArray(env: TypeEnv, w: Value, t: UaNodeId)
    requires BuildInType(env, t) == Success(UaNodeId(0, Numeric(VARIANT))) && w.Array?
    ensures w.elemType != VARIANT ==> Ua2Io(env, DataValue(w), t) == Success(I.Array(I.TVariant, []))
    ensures w.elemType == VARIANT && Ua2Io(env, DataValue(w), t).Success? ==>
      var x := Ua2Io(env, DataValue(w), t).value;
      && x.Array? && x.elemType == I.TVariant && |x.elems| == |w.elems|
      && forall i | 0 <= i < |w.elems| :: Success(x.elems[i]) == Ua2Io(env, w.elems[i], DataTypeOf(w.elems[i]))
  {
    var v := DataValue(w);
    assert Ua2Io(env, v, t) == BuildIn2Io(env, v, UaNodeId(0, Numeric(VARIANT))) == Variant2Io(env, v);
  }

  // ---- Scalars on the way back ----

  /** A scalar is converted by the number of the built-in type alone: a vendor type without an
      ancestor of namespace 0 is taken for the standard type of its number. */
  lemma ScalarByNumber(env: TypeEnv, x: I.Value, t: UaNodeId)
    requires I.IsScalar(x) && BuildInType(env, t).Success?
    ensures Io2Ua(env, x, t) == Io2Ua(env, x, UaNodeId(0, Numeric(BuildInType(env, t).value.IdentifierNumeric())))
  {
  }

  /** A scalar of UA is refused under a built-in type outside namespace 0. */
  lemma ForeignTypeRefused(env: TypeEnv, v: Value, t: UaNodeId)
    requires !v.Array? && BuildInType(env, t).Success? && BuildInType(env, t).value.ns != 0
    requires !IsStructured(BuildInType(env, t).value)
    ensures Ua2Io(env, v, t).Failure?
  {
    assert Ua2Io(env, v, t) == BuildIn2Io(env, v, BuildInType(env, t).value);
  }

  /** An array of scalars is written under the standard type of the destination, and each element as
      the scalar it is; only negative numbers, which the scalar destinations may refuse, wrap
      around. */
  lemma ArrayWritten(env: TypeEnv, x: I.Value, t: UaNodeId, i: nat)
    requires x.Array? && x.elemType != I.TStructure && Io2Ua(env, x, t).Success? && i < |x.elems|
    requires BuildInType(env, t).Success? && I.TypeOf(x.elems[i]) == x.elemType
    ensures var n, v := BuildInType(env, t).value.IdentifierNumeric(), Io2Ua(env, x, t).value;
      && v.Array? && v.elemType == Standard(n) && |v.elems| == |x.elems|
      && HeldAs(v.elems[i], Standard(n))
      && (IoScalar2Ua(x.elems[i], n).Success? ==> IoScalar2Ua(x.elems[i], n).value == v.elems[i])
      && (IoScalar2Ua(x.elems[i], n).Failure? ==>
            IoNumber(x.elems[i]).Some? && IoNumber(x.elems[i]).value < 0 &&
            UaNumber(v.elems[i]) == Some(IoNumber(x.elems[i]).value % Values(n)))
  {
    var e, n := x.elems[i], BuildInType(env, t).value.IdentifierNumeric();
    assert Io2Ua(env, x, t) == IoArray2Ua(env, x, t) == ScalarArray2Ua(x, n);
    ScalarTaken(e, n);
    if e.Long? {
      BoundNeverRejects(e.i);
    } else if e.LLong? {
      BoundNeverRejects(e.i);
    }
  }

  // ---- Node ids as values ----

  /** The text that a node id becomes on the wire. */
  lemma NodeIdText(n: IoNodeId)
    ensures Io2Bin(I.NodeIdValue(n)) == Success(B.CharArray(
      "IODataProviderNamespace::NodeId[type=" + (if n.id.Number? then "numeric" else "string") +
      ",ns=" + Decimals.Print(n.ns) +
      ",value=" + (if n.id.Number? then Decimals.Print(n.id.n) else CString(n.id.s)) + "]"))
  {
    var ns := Decimals.Print(n.ns);
    if n.id.Number? {
      SixParts(NODE_ID_LABEL, "numeric", ",ns=", ns, ",value=", Decimals.Print(n.id.n), "]");
      assert "numeric,ns=" == "numeric" + ",ns=";
    } else {
      SixParts(NODE_ID_LABEL, "string", ",ns=", ns, ",value=", CString(n.id.s), "]");
      assert "string,ns=" == "string" + ",ns=";
    }
  }

  lemma SixParts(a: string, b: string, c: string, d: string, e: string, f: string, g: string)
    ensures Streamed([a] + [b + c, d, e, f] + [g]) == a + b + c + d + e + f + g
  {
    assert [a] + [b + c, d, e, f] + [g] == [a] + ([b + c] + ([d] + ([e] + ([f] + ([g] + [])))));
    OnePart(g, []);
    OnePart(f, [g] + []);
    OnePart(e, [f] + ([g] + []));
    OnePart(d, [e] + ([f] + ([g] + [])));
    OnePart(b + c, [d] + ([e] + ([f] + ([g] + []))));
    OnePart(a, [b + c] + ([d] + ([e] + ([f] + ([g] + [])))));
    assert a + ((b + c) + (d + (e + (f + (g + ""))))) == a + b + c + d + e + f + g;
  }

  lemma OnePart(part: string, parts: seq<string>)
    ensures Streamed([part] + parts) == part + Streamed(parts)
  {
    assert ([part] + parts)[1..] == parts;
  }
}
