/** Which UA values survive the trip to the internal interface and back, directly or over the
    binary protocol. */
module RoundTrips {
  import opened Wrappers
  import opened CTypes
  import opened NodeIds
  import opened UaValues
  import opened UaConversion
  import opened BinaryConversion
  import BinaryRoundTrip
  import I = IoValues

  /** The way a value takes between the two type-directed conversions. */
  datatype Route = Direct | OverWire(destNs: int)

  ghost function Transit(route: Route, x: I.Value): Result<I.Value> {
    if route.Direct? then Success(x)
    else
      var b :- Io2Bin(x);
      Bin2Io(b, route.destNs)
  }

  ghost function RoundTrip(route: Route, env: TypeEnv, v: Value, t: UaNodeId): Result<Value> {
    var x :- Ua2Io(env, v, t);
    var y :- Transit(route, x);
    Io2Ua(env, y, t)
  }

  // ---- The values that survive ----

  predicate PlainText(s: Option<string>) {
    s.Some? ==> NulFree(s.value)
  }

  predicate ConvertibleId(t: UaNodeId) {
    t.id.Numeric? || t.id.Text?
  }

  /** A scalar has exactly the built-in type its data type asks for. */
  predicate TypedScalar(v: Value, n: nat) {
    match v
    case Bool(_) => n == BOOLEAN
    case SByte(_) => n == SBYTE
    case Byte(_) => n == BYTE
    case Int16(_) => n == INT16
    case UInt16(_) => n == UINT16
    case Int32(_) => n == INT32 || n == ENUMERATION
    case UInt32(_) => n == UINT32
    case Int64(_) => n == INT64
    case UInt64(_) => n == UINT64
    case Float(_) => n == FLOAT
    case Double(_) => n == DOUBLE || n == DURATION
    case String(s) => n == STRING && PlainText(s)
    case DateTime(_) => n == DATE_TIME || n == UTC_TIME
    case ByteString(_) => n == BYTE_STRING
    case LocalizedText(locale, text) => n == LOCALIZED_TEXT && PlainText(locale) && PlainText(text)
    case _ => false
  }

  /** The wire has no UInt64, no NULL string, and no locale: texts come back as English. */
  predicate Carried(v: Value) {
    match v
    case UInt64(_) => false
    case String(s) => s.Some?
    case LocalizedText(locale, text) => locale == Some("en") && text.Some?
    case _ => true
  }

  predicate SafeScalar(route: Route, v: Value, n: nat) {
    TypedScalar(v, n) && (route.OverWire? ==> Carried(v))
  }

  /** The built-in type of the elements of a supported array, if arrays of the type are supported.
      UInt16 arrays only come back over the wire, where they are widened on the way. */
  function ArrayElementType(route: Route, n: nat): Option<nat> {
    if n == INT32 || n == ENUMERATION then Some(INT32)
    else if n == UINT32 || n == STRING || n == LOCALIZED_TEXT || (n == UINT16 && route.OverWire?) then Some(n)
    else if n == STRUCTURE || n == UNION then Some(STRUCTURE)
    else None
  }

  /** Arrays of texts must show their type on the wire, and may not hold NULL strings. */
  predicate SafeArray(route: Route, n: nat, elems: seq<Value>) {
    && (route.Direct? && n == STRING ==> String(None) !in elems)
    && (route.OverWire? && (n == STRING || n == LOCALIZED_TEXT) ==> elems != [])
  }

  /** Well-typed values of the types the route supports, nested to any depth: structures with a
      value for each mandatory field, and unions over a declared field or none. */
  ghost predicate Safe(route: Route, env: TypeEnv, v: Value, t: UaNodeId)
    decreases v
  {
    && BuildInType(env, t).Success?
    && var b := BuildInType(env, t).value;
       var n := b.IdentifierNumeric();
       if v.Array? then
         && b.ns == 0 && ArrayElementType(route, n) == Some(v.elemType) && SafeArray(route, n, v.elems)
         && forall i | 0 <= i < |v.elems| :: !v.elems[i].Array? && Safe(route, env, v.elems[i], t)
       else if IsStructured(b) then
         && ConvertibleId(t) && t in env.definitions
         && var def := env.definitions[t];
            match v
            case Struct(typeId, fields) =>
              && typeId == t && !def.isUnion
              && (forall k | k in fields :: ChildIndex(def.children, k) < |def.children|)
              && (forall i | 0 <= i < |def.children| ::
                    if def.children[i].name in fields then
                      Safe(route, env, fields[def.children[i].name], def.children[i].typeId)
                    else def.children[i].optional)
            case Union(typeId, field, member) =>
              && typeId == t && def.isUnion && ChildIndex(def.children, field) < |def.children|
              && Safe(route, env, member, def.children[ChildIndex(def.children, field)].typeId)
            case EmptyUnion(typeId) => typeId == t && def.isUnion
            case _ => false
       else b.ns == 0 && SafeScalar(route, v, n)
  }

  // ---- The way over the wire, step by step ----

  /** Whatever the UA converter produces is well-formed for the binary converter. */
  lemma {:induction false} ConvertedIsWellFormed(env: TypeEnv, v: Value, t: UaNodeId)
    requires Ua2Io(env, v, t).Success?
    ensures BinaryRoundTrip.WellFormed(Ua2Io(env, v, t).value)
    decreases v, 2
  {
    if v.Array? {
      assert Ua2Io(env, v, t) == Array2Io(env, v, t);
      forall i | 0 <= i < |v.elems|
        ensures BinaryRoundTrip.WellFormed(Ua2Io(env, v, t).value.elems[i])
      {
        ConvertedIsWellFormed(env, v.elems[i], t);
      }
    } else {
      var b := BuildInType(env, t).value;
      if IsStructured(b) {
        ConvertedStructureIsWellFormed(env, v, t);
      } else {
        assert Ua2Io(env, v, t) == BuildIn2Io(env, v, b);
        if b.IdentifierNumeric() == VARIANT {
          ConvertedVariantIsWellFormed(env, v);
        }
      }
    }
  }

  lemma {:induction false} ConvertedVariantIsWellFormed(env: TypeEnv, v: Value)
    requires Variant2Io(env, v).Success?
    ensures BinaryRoundTrip.WellFormed(Variant2Io(env, v).value)
    decreases v, 1
  {
    if !v.v.Array? {
      ConvertedIsWellFormed(env, v.v, DataTypeOf(v.v));
    } else if v.v.elemType == VARIANT {
      forall i | 0 <= i < |v.v.elems|
        ensures BinaryRoundTrip.WellFormed(Variant2Io(env, v).value.elems[i])
      {
        ConvertedIsWellFormed(env, v.v.elems[i], DataTypeOf(v.v.elems[i]));
      }
    }
  }

  lemma {:induction false} ConvertedStructureIsWellFormed(env: TypeEnv, v: Value, t: UaNodeId)
    requires ExtensionObject2Io(env, v, t).Success?
    ensures BinaryRoundTrip.WellFormed(ExtensionObject2Io(env, v, t).value)
    decreases v, 1
  {
    var children := env.definitions[t].children;
    if env.definitions[t].isUnion {
      if v.Union? && ChildIndex(children, v.field) < |children| {
        ConvertedIsWellFormed(env, v.member, children[ChildIndex(children, v.field)].typeId);
      }
    } else {
      CollectedWellFormed(env, v, children);
    }
  }

  lemma {:induction false} CollectedWellFormed(env: TypeEnv, v: Value, children: seq<Field>)
    requires CollectFields(children, SetFields(v).Keys, Field2Io(env, v)).Success?
    ensures var m := CollectFields(children, SetFields(v).Keys, Field2Io(env, v)).value;
      forall k | k in m :: BinaryRoundTrip.WellFormed(m[k])
    decreases v, 0, |children|
  {
    if children != [] {
      var child := children[|children| - 1];
      CollectedWellFormed(env, v, children[..|children| - 1]);
      if child.name in SetFields(v) {
        ConvertedIsWellFormed(env, v.fields[child.name], child.typeId);
      }
    }
  }

  /** What arrives on a route: the value itself, or its normal form. */
  function Arrival(route: Route, x: I.Value): Result<I.Value> {
    if route.Direct? then Success(x)
    else if BinaryRoundTrip.Sendable(x) then Success(BinaryRoundTrip.Normal(x, route.destNs))
    else Failure
  }

  lemma TransitIsArrival(route: Route, x: I.Value)
    requires BinaryRoundTrip.WellFormed(x)
    ensures Transit(route, x) == Arrival(route, x)
  {
    if route.OverWire? {
      BinaryRoundTrip.ArrivesAsNormal(x, route.destNs);
    }
  }

  lemma ArrivalOfStructure(route: Route, x: I.Value)
    requires x.Structure?
    ensures Arrival(route, x).Success? ==>
      var y := Arrival(route, x).value;
      && y.Structure? && y.fields.Keys == x.fields.Keys
      && forall k | k in x.fields :: Arrival(route, x.fields[k]) == Success(y.fields[k])
    ensures Arrival(route, x).Failure? ==> exists k :: k in x.fields && Arrival(route, x.fields[k]).Failure?
  {
  }

  lemma ArrivalOfArray(route: Route, x: I.Value)
    requires x.Array? && x.elemType != I.TSChar && IoArrayType2Bin(x.elemType).Success?
    ensures Arrival(route, x).Success? ==>
      var y := Arrival(route, x).value;
      && y.Array? && |y.elems| == |x.elems|
      && y.elemType == (if route.Direct? then x.elemType
           else Retag(BinaryRoundTrip.NormalArrayType(x.elemType), y.elems))
      && forall i | 0 <= i < |x.elems| :: Arrival(route, x.elems[i]) == Success(y.elems[i])
    ensures Arrival(route, x).Failure? ==> exists i :: 0 <= i < |x.elems| && Arrival(route, x.elems[i]).Failure?
  {
  }

  // ---- Scalars ----

  lemma SignedBytesBack(bytes: seq<int>)
    requires forall i | 0 <= i < |bytes| :: InUnsigned(bytes[i], U8)
    ensures UnsignedBytes(SignedBytes(bytes)) == bytes
  {
    forall i | 0 <= i < |bytes|
      ensures UnsignedBytes(SignedBytes(bytes))[i] == bytes[i]
    {
      OctetRoundTrip(bytes[i]);
    }
  }

  /** The bound checks of the unsigned destinations let every number pass: the exclusive or of a
      comparison result with 15 or 31 is never zero. */
  lemma BoundNeverRejects(v: int)
    ensures PassesBound(v, 15) && PassesBound(v, 31)
  {
    assert (1 as bv8) ^ 15 == 14 && (0 as bv8) ^ 15 == 15;
    assert (1 as bv8) ^ 31 == 30 && (0 as bv8) ^ 31 == 31;
  }

  predicate IsUnsigned(v: Value) {
    v.Byte? || v.UInt16? || v.UInt32? || v.UInt64?
  }

  predicate IsSigned(v: Value) {
    v.SByte? || v.Int16? || v.Int32? || v.Int64? || v.DateTime?
  }

  lemma ByteBack(route: Route, i: int)
    requires InUnsigned(i, U8)
    ensures var x := I.Char(ToUnsigned(i, U8) as char);
      Arrival(route, x) == Success(x) && IoScalar2Ua(x, BYTE) == Success(Byte(i))
  {
  }

  lemma UInt16Back(route: Route, i: int)
    requires InUnsigned(i, U16)
    ensures Arrival(route, I.UInt(i)) == Success(if route.Direct? then I.UInt(i) else I.Long(i))
    ensures IoScalar2Ua(I.UInt(i), UINT16) == Success(UInt16(i)) == IoScalar2Ua(I.Long(i), UINT16)
  {
    BoundNeverRejects(i);
  }

  lemma UInt32Back(route: Route, i: int)
    requires InUnsigned(i, U32)
    ensures Arrival(route, I.ULong(i)) == Success(if route.Direct? then I.ULong(i) else I.LLong(i))
    ensures IoScalar2Ua(I.ULong(i), UINT32) == Success(UInt32(i)) == IoScalar2Ua(I.LLong(i), UINT32)
  {
    BoundNeverRejects(i);
  }

  /** Unsigned integers are widened on the wire and come back whole: no bound applies. */
  lemma UnsignedBack(route: Route, v: Value, n: nat)
    requires Holds(v) && Scalar2Io(v, n).Success?
    requires IsUnsigned(v)
    ensures SafeScalar(route, v, n) <==>
      Arrival(route, Scalar2Io(v, n).value).Success?
      && IoScalar2Ua(Arrival(route, Scalar2Io(v, n).value).value, n) == Success(v)
  {
    if n == NULL {
      NullTypeFails(route);
    } else if v.Byte? {
      ByteBack(route, v.i);
    } else if v.UInt16? && n != UINT16 {
      UInt16AsInt32(route, v.i, n);
    } else if v.UInt16? {
      UInt16Back(route, v.i);
    } else if v.UInt32? {
      UInt32Back(route, v.i);
    }
  }

  /** A UInt16 that is converted as an Int32 comes back as one. */
  lemma UInt16AsInt32(route: Route, i: int, n: nat)
    requires n == INT32 || n == ENUMERATION
    ensures !SafeScalar(route, UInt16(i), n)
    ensures Arrival(route, I.Long(i)) == Success(I.Long(i)) && IoScalar2Ua(I.Long(i), n) != Success(UInt16(i))
  {
  }

  lemma SignedBack(route: Route, v: Value, n: nat)
    requires Holds(v) && Scalar2Io(v, n).Success?
    requires IsSigned(v)
    ensures SafeScalar(route, v, n) <==>
      Arrival(route, Scalar2Io(v, n).value).Success?
      && IoScalar2Ua(Arrival(route, Scalar2Io(v, n).value).value, n) == Success(v)
  {
  }

  lemma StringBack(route: Route, s: Option<string>)
    ensures var x := I.String(CText(s));
      SafeScalar(route, String(s), STRING) <==>
      Arrival(route, x).Success? && IoScalar2Ua(Arrival(route, x).value, STRING) == Success(String(s))
  {
  }

  lemma LocalizedBack(route: Route, v: Value)
    requires v.LocalizedText?
    ensures var x := I.LocalizedText(CText(v.locale), CText(v.text));
      SafeScalar(route, v, LOCALIZED_TEXT) <==>
      Arrival(route, x).Success? && IoScalar2Ua(Arrival(route, x).value, LOCALIZED_TEXT) == Success(v)
  {
    if route.OverWire? {
      LocalizedOverWire(route, v);
    } else {
      LocalizedDirect(route, v);
    }
  }

  lemma LocalizedDirect(route: Route, v: Value)
    requires v.LocalizedText? && route.Direct?
    ensures var x := I.LocalizedText(CText(v.locale), CText(v.text));
      && Arrival(route, x) == Success(x)
      && (SafeScalar(route, v, LOCALIZED_TEXT) <==> IoScalar2Ua(x, LOCALIZED_TEXT) == Success(v))
  {
  }

  lemma LocalizedOverWire(route: Route, v: Value)
    requires v.LocalizedText? && route.OverWire?
    ensures var x := I.LocalizedText(CText(v.locale), CText(v.text));
      && Arrival(route, x) == Success(I.String(Some(CString(OrEmpty(CText(v.text))))))
      && (SafeScalar(route, v, LOCALIZED_TEXT) <==>
            IoScalar2Ua(I.String(Some(CString(OrEmpty(CText(v.text))))), LOCALIZED_TEXT) == Success(v))
  {
    assert IoScalar2Ua(I.String(Some(CString(OrEmpty(CText(v.text))))), LOCALIZED_TEXT) ==
      Success(EnglishText(Some(CString(OrEmpty(CText(v.text))))));
  }

  lemma TextsBack(route: Route, v: Value, n: nat)
    requires v.String? || v.LocalizedText?
    requires Scalar2Io(v, n).Success? && n != NULL
    ensures SafeScalar(route, v, n) <==>
      Arrival(route, Scalar2Io(v, n).value).Success?
      && IoScalar2Ua(Arrival(route, Scalar2Io(v, n).value).value, n) == Success(v)
  {
    if v.String? {
      StringBack(route, v.s);
    } else {
      LocalizedBack(route, v);
    }
  }

  /** NULL becomes empty on the wire and the SDK makes it NULL again. */
  lemma BytesBack(route: Route, v: Value, n: nat)
    requires v.ByteString? && Holds(v) && Scalar2Io(v, n).Success? && n != NULL
    ensures SafeScalar(route, v, n)
    ensures Arrival(route, Scalar2Io(v, n).value).Success?
    ensures I.IsScalar(Arrival(route, Scalar2Io(v, n).value).value)
    ensures IoScalar2Ua(Arrival(route, Scalar2Io(v, n).value).value, n) == Success(v)
  {
    if v.bytes.Some? {
      SignedBytesBack(v.bytes.value);
    }
  }

  lemma TokensBack(route: Route, v: Value, n: nat)
    requires v.Bool? || v.Float? || v.Double?
    requires Scalar2Io(v, n).Success? && n != NULL
    ensures SafeScalar(route, v, n)
    ensures var x := Scalar2Io(v, n).value;
      Arrival(route, x) == Success(x) && I.IsScalar(x) && IoScalar2Ua(x, n) == Success(v)
  {
  }

  /** A node id arrives as itself, which has no way back, or as a text. */
  lemma NodeIdFails(route: Route, id: IoNodeId)
    ensures var x := I.NodeIdValue(id);
      Arrival(route, x).Success? ==>
        !I.IsScalar(Arrival(route, x).value) || IoScalar2Ua(Arrival(route, x).value, NODE_ID).Failure?
  {
    assert route.OverWire? ==> Arrival(route, I.NodeIdValue(id)).value.String?;
  }

  lemma RefusedScalar(route: Route, v: Value, n: nat)
    requires Scalar2Io(v, n).Failure?
    ensures !SafeScalar(route, v, n)
  {
  }

  lemma NullTypeFails(route: Route)
    ensures var x := I.String(Some("NULL"));
      Arrival(route, x).Success? ==> IoScalar2Ua(Arrival(route, x).value, NULL).Failure?
  {
  }

  lemma ArrivesAsScalar(route: Route, v: Value, n: nat)
    requires Scalar2Io(v, n).Success? && !v.NodeIdValue?
    ensures Arrival(route, Scalar2Io(v, n).value).Success? ==> I.IsScalar(Arrival(route, Scalar2Io(v, n).value).value)
  {
  }

  lemma ConvertedScalarBack(route: Route, v: Value, n: nat)
    requires Holds(v) && !v.Array? && Scalar2Io(v, n).Success? && n != NULL && !v.NodeIdValue?
    ensures SafeScalar(route, v, n) <==>
      Arrival(route, Scalar2Io(v, n).value).Success?
      && IoScalar2Ua(Arrival(route, Scalar2Io(v, n).value).value, n) == Success(v)
  {
    if v.ByteString? {
      BytesBack(route, v, n);
    } else if v.String? || v.LocalizedText? {
      TextsBack(route, v, n);
    } else if IsSigned(v) {
      SignedBack(route, v, n);
    } else if IsUnsigned(v) {
      UnsignedBack(route, v, n);
    } else {
      TokensBack(route, v, n);
    }
  }

  lemma ScalarBack(route: Route, v: Value, n: nat)
    requires Holds(v) && !v.Array?
    requires n != STRUCTURE && n != UNION && n != VARIANT
    ensures SafeScalar(route, v, n) <==>
      && Scalar2Io(v, n).Success?
      && Arrival(route, Scalar2Io(v, n).value).Success?
      && I.IsScalar(Arrival(route, Scalar2Io(v, n).value).value)
      && IoScalar2Ua(Arrival(route, Scalar2Io(v, n).value).value, n) == Success(v)
  {
    if Scalar2Io(v, n).Failure? {
      RefusedScalar(route, v, n);
    } else if n == NULL {
      NullTypeFails(route);
    } else if v.NodeIdValue? {
      NodeIdFails(route, UaId2Io(v.nodeId).value);
    } else {
      ArrivesAsScalar(route, v, n);
      ConvertedScalarBack(route, v, n);
    }
  }

  lemma ScalarElement(route: Route, env: TypeEnv, e: Value, t: UaNodeId, n: nat)
    requires !e.Array? && BuildInType(env, t).Success? && BuildInType(env, t).value.ns == 0
    requires n == BuildInType(env, t).value.IdentifierNumeric()
    requires n != STRUCTURE && n != UNION && n != VARIANT
    ensures Ua2Io(env, e, t) == Scalar2Io(e, n)
    ensures Safe(route, env, e, t) <==> SafeScalar(route, e, n)
  {
    assert Ua2Io(env, e, t) == BuildIn2Io(env, e, BuildInType(env, t).value);
  }

  /** A DataValue never comes back: the content of a Variant is not wrapped again. */
  lemma NoDataValueBack(env: TypeEnv, x: I.Value, t: UaNodeId)
    ensures Io2Ua(env, x, t).Success? ==> !Io2Ua(env, x, t).value.DataValue?
  {
    if x.Array? {
      assert Io2Ua(env, x, t) == IoArray2Ua(env, x, t);
    } else if x.Structure? {
      assert Io2Ua(env, x, t) == Structure2Ua(env, x, t);
    }
  }

  /** What arrives of a scalar takes the scalar path back, if any. */
  lemma ScalarArrival(route: Route, env: TypeEnv, v: Value, t: UaNodeId, n: nat)
    requires Scalar2Io(v, n).Success? && BuildInType(env, t).Success?
    requires n == BuildInType(env, t).value.IdentifierNumeric()
    ensures Arrival(route, Scalar2Io(v, n).value).Success? ==>
      var y := Arrival(route, Scalar2Io(v, n).value).value;
      Io2Ua(env, y, t) == if I.IsScalar(y) then IoScalar2Ua(y, n) else Failure
  {
  }

  lemma SimpleRoundTrip(route: Route, env: TypeEnv, v: Value, t: UaNodeId)
    requires Holds(v) && !v.Array?
    requires BuildInType(env, t).Success? && !IsStructured(BuildInType(env, t).value)
    ensures RoundTrip(route, env, v, t) == Success(v) <==> Safe(route, env, v, t)
  {
    var b := BuildInType(env, t).value;
    var n := b.IdentifierNumeric();
    if b.ns == 0 && n != VARIANT {
      ScalarElement(route, env, v, t, n);
      ScalarBack(route, v, n);
      if Ua2Io(env, v, t).Success? {
        TransitIsArrival(route, Ua2Io(env, v, t).value);
        ScalarArrival(route, env, v, t, n);
      }
    } else {
      VariantFails(route, env, v, t);
    }
  }

  lemma VariantFails(route: Route, env: TypeEnv, v: Value, t: UaNodeId)
    requires !v.Array? && BuildInType(env, t).Success? && !IsStructured(BuildInType(env, t).value)
    requires BuildInType(env, t).value.ns != 0 || BuildInType(env, t).value.IdentifierNumeric() == VARIANT
    ensures RoundTrip(route, env, v, t) != Success(v) && !Safe(route, env, v, t)
  {
    var b := BuildInType(env, t).value;
    assert Ua2Io(env, v, t) == BuildIn2Io(env, v, b);
    assert b.ns == 0 ==> BuildIn2Io(env, v, b) == Variant2Io(env, v);
    if Ua2Io(env, v, t).Success? && Transit(route, Ua2Io(env, v, t).value).Success? {
      NoDataValueBack(env, Transit(route, Ua2Io(env, v, t).value).value, t);
    }
  }

  // ---- Arrays of scalars ----

  /** The tag an array of a supported type has when it arrives. */
  function ArrivedTag(route: Route, n: nat): I.Type {
    if n == INT32 || n == ENUMERATION || n == UINT16 then I.TLong
    else if n == UINT32 then if route.Direct? then I.TULong else I.TLLong
    else if n == LOCALIZED_TEXT && route.Direct? then I.TLocalizedText
    else I.TString
  }

  lemma StringElementBack(route: Route, s: Option<string>)
    requires route.Direct? ==> s != None
    ensures SafeScalar(route, String(s), STRING) <==>
      && Arrival(route, I.String(CText(s))).Success?
      && ArrayElement2Ua(Arrival(route, I.String(CText(s))).value, ArrivedTag(route, STRING), STRING) == String(s)
  {
  }

  lemma LocalizedElementBack(route: Route, e: Value)
    requires e.LocalizedText?
    ensures var x := I.LocalizedText(CText(e.locale), CText(e.text));
      SafeScalar(route, e, LOCALIZED_TEXT) <==>
      && Arrival(route, x).Success?
      && ArrayElement2Ua(Arrival(route, x).value, ArrivedTag(route, LOCALIZED_TEXT), LOCALIZED_TEXT) == e
  {
  }

  lemma TextElementBack(route: Route, e: Value, n: nat)
    requires (e.String? || e.LocalizedText?) && (n == STRING || n == LOCALIZED_TEXT) && Scalar2Io(e, n).Success?
    requires route.Direct? && n == STRING ==> e != String(None)
    ensures SafeScalar(route, e, n) <==>
      && Arrival(route, Scalar2Io(e, n).value).Success?
      && ArrayElement2Ua(Arrival(route, Scalar2Io(e, n).value).value, ArrivedTag(route, n), n) == e
  {
    if e.String? {
      StringElementBack(route, e.s);
    } else {
      LocalizedElementBack(route, e);
    }
  }

  lemma NumberElementBack(route: Route, e: Value, n: nat)
    requires Holds(e) && (e.UInt16? || e.Int32? || e.UInt32?) && Scalar2Io(e, n).Success?
    requires ArrayElementType(route, n).Some?
    ensures SafeScalar(route, e, n) <==>
      && Arrival(route, Scalar2Io(e, n).value).Success?
      && ArrayElement2Ua(Arrival(route, Scalar2Io(e, n).value).value, ArrivedTag(route, n), n) == e
  {
  }

  lemma ArrayElementBack(route: Route, e: Value, n: nat)
    requires Holds(e) && !e.Array? && ArrayElementType(route, n).Some? && n != STRUCTURE && n != UNION
    requires route.Direct? && n == STRING ==> e != String(None)
    ensures SafeScalar(route, e, n) <==>
      && Scalar2Io(e, n).Success?
      && Arrival(route, Scalar2Io(e, n).value).Success?
      && ArrayElement2Ua(Arrival(route, Scalar2Io(e, n).value).value, ArrivedTag(route, n), n) == e
  {
    if Scalar2Io(e, n).Failure? {
      RefusedScalar(route, e, n);
    } else if n == STRING || n == LOCALIZED_TEXT {
      TextElementBack(route, e, n);
    } else {
      NumberElementBack(route, e, n);
    }
  }

  lemma TextElementArrives(route: Route, e: Value, y: I.Value, n: nat)
    requires route.OverWire? && (n == STRING || n == LOCALIZED_TEXT)
    requires Scalar2Io(e, n).Success? && Arrival(route, Scalar2Io(e, n).value) == Success(y)
    ensures y.String?
  {
  }

  lemma TextTag(elems: seq<I.Value>)
    requires forall i | 0 <= i < |elems| :: elems[i].String?
    ensures Retag(I.TArray, elems) == if elems == [] then I.TArray else I.TString
  {
    BinaryRoundTrip.RetagOfArrays(elems);
    assert elems != [] ==> elems[0].String?;
  }

  /** The tag that arrives is one the way back supports, unless an array of texts is empty. */
  lemma TagArrives(route: Route, v: Value, x: I.Value, y: I.Value, n: nat)
    requires v.Array? && x.Array? && y.Array? && |x.elems| == |v.elems| == |y.elems|
    requires IoArrayType(UaNodeId(0, Numeric(n))) == Success(x.elemType)
    requires n != STRUCTURE && n != UNION
    requires y.elemType == if route.Direct? then x.elemType
      else Retag(BinaryRoundTrip.NormalArrayType(x.elemType), y.elems)
    requires forall i | 0 <= i < |v.elems| ::
      Scalar2Io(v.elems[i], n) == Success(x.elems[i]) && Arrival(route, x.elems[i]) == Success(y.elems[i])
    ensures ScalarArraySupported(y.elemType, n) <==>
      ArrayElementType(route, n).Some? && (route.OverWire? && (n == STRING || n == LOCALIZED_TEXT) ==> v.elems != [])
    ensures ScalarArraySupported(y.elemType, n) ==> y.elemType == ArrivedTag(route, n)
  {
    if route.OverWire? {
      if BinaryRoundTrip.NormalArrayType(x.elemType) != I.TArray {
        BinaryRoundTrip.RetagKeeps(BinaryRoundTrip.NormalArrayType(x.elemType), y.elems);
      } else if n == STRING || n == LOCALIZED_TEXT {
        forall i | 0 <= i < |y.elems|
          ensures y.elems[i].String?
        {
          TextElementArrives(route, v.elems[i], y.elems[i], n);
        }
        TextTag(y.elems);
      }
    }
  }

  /** The element loops of the way back, over the values that arrived. */
  lemma ScalarElementsBack(route: Route, v: Value, y: I.Value, n: nat)
    requires v.Array? && y.Array? && |y.elems| == |v.elems|
    requires ArrayElementType(route, n).Some? && n != STRUCTURE && n != UNION
    requires y.elemType == ArrivedTag(route, n) && ScalarArraySupported(y.elemType, n)
    requires forall i | 0 <= i < |v.elems| ::
      && Holds(v.elems[i]) && !v.elems[i].Array? && Scalar2Io(v.elems[i], n).Success?
      && Arrival(route, Scalar2Io(v.elems[i], n).value) == Success(y.elems[i])
    ensures ScalarArray2Ua(y, n) == Success(v) <==>
      && ArrayElementType(route, n) == Some(v.elemType)
      && (route.Direct? && n == STRING ==> String(None) !in v.elems)
      && (forall i | 0 <= i < |v.elems| :: SafeScalar(route, v.elems[i], n))
  {
    if route.Direct? && n == STRING && String(None) in v.elems {
      var i :| 0 <= i < |v.elems| && v.elems[i] == String(None);
      assert y.elems[i] == I.String(None);
    } else {
      forall i | 0 <= i < |v.elems|
        ensures y.elems[i] != I.String(None)
        ensures SafeScalar(route, v.elems[i], n) <==> ArrayElement2Ua(y.elems[i], y.elemType, n) == v.elems[i]
      {
        NoNullArrives(route, v.elems[i], n);
        ArrayElementBack(route, v.elems[i], n);
      }
      ScalarArrayOf(v, y, n);
    }
  }

  lemma NoNullArrives(route: Route, e: Value, n: nat)
    requires ArrayElementType(route, n).Some? && n != STRUCTURE && n != UNION
    requires Scalar2Io(e, n).Success? && (route.Direct? && n == STRING ==> e != String(None))
    ensures Arrival(route, Scalar2Io(e, n).value) != Success(I.String(None))
  {
  }

  lemma ScalarArrayOf(v: Value, y: I.Value, n: nat)
    requires v.Array? && y.Array? && |y.elems| == |v.elems| && ScalarArraySupported(y.elemType, n)
    requires forall i | 0 <= i < |y.elems| :: y.elems[i] != I.String(None)
    ensures ScalarArray2Ua(y, n) == Success(v) <==>
      && v.elemType == (if n == ENUMERATION then INT32 else n)
      && forall i | 0 <= i < |v.elems| :: ArrayElement2Ua(y.elems[i], y.elemType, n) == v.elems[i]
  {
    assert ScalarArray2Ua(y, n).Success?;
    var u := ScalarArray2Ua(y, n).value;
    assert forall i | 0 <= i < |v.elems| :: u.elems[i] == ArrayElement2Ua(y.elems[i], y.elemType, n);
    assert u.elems == v.elems <==> forall i | 0 <= i < |v.elems| :: u.elems[i] == v.elems[i];
  }

  lemma StructureTagNeverArrives(route: Route, x: I.Value, y: I.Value)
    requires x.Array? && y.Array? && x.elemType != I.TStructure
    requires y.elemType == if route.Direct? then x.elemType
      else Retag(BinaryRoundTrip.NormalArrayType(x.elemType), y.elems)
    ensures y.elemType != I.TStructure
  {
    if BinaryRoundTrip.NormalArrayType(x.elemType) == I.TArray {
      BinaryRoundTrip.RetagOfArrays(y.elems);
    } else {
      BinaryRoundTrip.RetagKeeps(BinaryRoundTrip.NormalArrayType(x.elemType), y.elems);
    }
  }

  /** No Variant array comes back, nor an array of a type without an internal array type. */
  lemma UnsupportedArrayFails(route: Route, env: TypeEnv, v: Value, t: UaNodeId)
    requires v.Array? && BuildInType(env, t).Success? && BuildInType(env, t).value.ns == 0
    requires var b := BuildInType(env, t).value; b.IdentifierNumeric() == VARIANT || IoArrayType(b).Failure?
    ensures RoundTrip(route, env, v, t).Failure? && !Safe(route, env, v, t)
  {
    assert Ua2Io(env, v, t) == Array2Io(env, v, t);
    if Ua2Io(env, v, t).Success? {
      var x := Ua2Io(env, v, t).value;
      ConvertedIsWellFormed(env, v, t);
      TransitIsArrival(route, x);
      ArrivalOfArray(route, x);
      if Arrival(route, x).Success? {
        var y := Arrival(route, x).value;
        StructureTagNeverArrives(route, x, y);
        assert Io2Ua(env, y, t) == IoArray2Ua(env, y, t) == ScalarArray2Ua(y, VARIANT);
      }
    }
  }

  /** The second half of the trip of a scalar array: arrival and the element loop back. */
  lemma ArrivedScalarArray(route: Route, env: TypeEnv, v: Value, t: UaNodeId, x: I.Value, n: nat)
    requires v.Array? && Holds(v) && x.Array? && |x.elems| == |v.elems|
    requires BuildInType(env, t).Success? && BuildInType(env, t).value.IdentifierNumeric() == n
    requires IoArrayType(UaNodeId(0, Numeric(n))) == Success(x.elemType)
    requires n != STRUCTURE && n != UNION && n != VARIANT
    requires forall i | 0 <= i < |v.elems| :: !v.elems[i].Array? && Scalar2Io(v.elems[i], n) == Success(x.elems[i])
    ensures Arrival(route, x).Success? && Io2Ua(env, Arrival(route, x).value, t) == Success(v) <==>
      && ArrayElementType(route, n) == Some(v.elemType) && SafeArray(route, n, v.elems)
      && forall i | 0 <= i < |v.elems| :: SafeScalar(route, v.elems[i], n)
  {
    ArrivalOfArray(route, x);
    if Arrival(route, x).Failure? {
      var i :| 0 <= i < |x.elems| && Arrival(route, x.elems[i]).Failure?;
      ScalarBack(route, v.elems[i], n);
    } else {
      var y := Arrival(route, x).value;
      TagArrives(route, v, x, y, n);
      StructureTagNeverArrives(route, x, y);
      assert Io2Ua(env, y, t) == IoArray2Ua(env, y, t) == ScalarArray2Ua(y, n);
      if ScalarArraySupported(y.elemType, n) {
        ScalarElementsBack(route, v, y, n);
      }
    }
  }

  lemma {:induction false} ScalarArrayRoundTrip(route: Route, env: TypeEnv, v: Value, t: UaNodeId)
    requires v.Array? && Holds(v)
    requires BuildInType(env, t).Success? && BuildInType(env, t).value.ns == 0
    requires !IsStructured(BuildInType(env, t).value)
    ensures RoundTrip(route, env, v, t) == Success(v) <==> Safe(route, env, v, t)
  {
    var b := BuildInType(env, t).value;
    var n := b.IdentifierNumeric();
    assert Ua2Io(env, v, t) == Array2Io(env, v, t);
    if n == VARIANT || IoArrayType(b).Failure? {
      UnsupportedArrayFails(route, env, v, t);
    } else if Ua2Io(env, v, t).Failure? {
      var i :| 0 <= i < |v.elems| && (v.elems[i].Array? || Ua2Io(env, v.elems[i], t).Failure?);
      if !v.elems[i].Array? {
        ScalarElement(route, env, v.elems[i], t, n);
        ScalarBack(route, v.elems[i], n);
      }
    } else {
      var x := Ua2Io(env, v, t).value;
      forall i | 0 <= i < |v.elems|
        ensures Scalar2Io(v.elems[i], n) == Success(x.elems[i])
        ensures Safe(route, env, v.elems[i], t) <==> SafeScalar(route, v.elems[i], n)
      {
        ScalarElement(route, env, v.elems[i], t, n);
      }
      ConvertedIsWellFormed(env, v, t);
      TransitIsArrival(route, x);
      ArrivedScalarArray(route, env, v, t, x, n);
    }
  }

  // ---- Structures and unions ----

  /** What arrives of an extension object takes the structure path back. */
  lemma StructureRoundTrip(route: Route, env: TypeEnv, e: Value, t: UaNodeId)
    requires !e.Array? && BuildInType(env, t).Success? && IsStructured(BuildInType(env, t).value)
    requires Ua2Io(env, e, t).Success?
    ensures Ua2Io(env, e, t).value.Structure?
    ensures BinaryRoundTrip.WellFormed(Ua2Io(env, e, t).value)
    ensures Transit(route, Ua2Io(env, e, t).value) == Arrival(route, Ua2Io(env, e, t).value)
    ensures Arrival(route, Ua2Io(env, e, t).value).Success? ==>
      var y := Arrival(route, Ua2Io(env, e, t).value).value;
      y.Structure? && RoundTrip(route, env, e, t) == Structure2Ua(env, y, t)
  {
    ConvertedIsWellFormed(env, e, t);
    var x := Ua2Io(env, e, t).value;
    assert Success(x) == ExtensionObject2Io(env, e, t);
    TransitIsArrival(route, x);
    ArrivalOfStructure(route, x);
  }

  lemma {:induction false} StructureArrayRoundTrip(route: Route, env: TypeEnv, v: Value, t: UaNodeId)
    requires WellFormedEnv(env) && Holds(v) && v.Array?
    requires BuildInType(env, t).Success? && IsStructured(BuildInType(env, t).value)
    ensures RoundTrip(route, env, v, t) == Success(v) <==> Safe(route, env, v, t)
    decreases v, 0
  {
    assert Ua2Io(env, v, t) == Array2Io(env, v, t);
    forall i | 0 <= i < |v.elems|
      ensures RoundTrip(route, env, v.elems[i], t) == Success(v.elems[i]) <==> Safe(route, env, v.elems[i], t)
    {
      UaRoundTrip(route, env, v.elems[i], t);
    }
    if Ua2Io(env, v, t).Success? {
      var x := Ua2Io(env, v, t).value;
      ConvertedIsWellFormed(env, v, t);
      TransitIsArrival(route, x);
      StructureElementsBack(route, env, v, t, x);
    }
  }

  lemma StructureArray2Ua(env: TypeEnv, y: I.Value, t: UaNodeId, v: Value)
    requires v.Array? && y.Array? && |y.elems| == |v.elems| && y.elemType == I.TStructure
    requires forall i | 0 <= i < |v.elems| :: y.elems[i].Structure?
    ensures Io2Ua(env, y, t) == Success(v) <==>
      && v.elemType == STRUCTURE
      && forall i | 0 <= i < |v.elems| :: Structure2Ua(env, y.elems[i], t) == Success(v.elems[i])
  {
    assert Io2Ua(env, y, t) == IoArray2Ua(env, y, t);
    if forall i | 0 <= i < |v.elems| :: Structure2Ua(env, y.elems[i], t) == Success(v.elems[i]) {
      assert IoArray2Ua(env, y, t).value.elems == v.elems;
    } else if IoArray2Ua(env, y, t).Success? {
      var i :| 0 <= i < |v.elems| && Structure2Ua(env, y.elems[i], t) != Success(v.elems[i]);
      assert IoArray2Ua(env, y, t).value.elems[i] != v.elems[i];
    }
  }

  lemma StructureElementsBack(route: Route, env: TypeEnv, v: Value, t: UaNodeId, x: I.Value)
    requires v.Array? && BuildInType(env, t).Success? && IsStructured(BuildInType(env, t).value)
    requires x.Array? && |x.elems| == |v.elems| && x.elemType == I.TStructure
    requires forall i | 0 <= i < |v.elems| :: !v.elems[i].Array? && Ua2Io(env, v.elems[i], t) == Success(x.elems[i])
    ensures Arrival(route, x).Success? && Io2Ua(env, Arrival(route, x).value, t) == Success(v) <==>
      && v.elemType == STRUCTURE
      && forall i | 0 <= i < |v.elems| :: RoundTrip(route, env, v.elems[i], t) == Success(v.elems[i])
  {
    ArrivalOfArray(route, x);
    forall i | 0 <= i < |v.elems|
      ensures Transit(route, x.elems[i]) == Arrival(route, x.elems[i])
      ensures Arrival(route, x.elems[i]).Success? ==>
        && Arrival(route, x.elems[i]).value.Structure?
        && RoundTrip(route, env, v.elems[i], t) == Structure2Ua(env, Arrival(route, x.elems[i]).value, t)
    {
      StructureRoundTrip(route, env, v.elems[i], t);
    }
    if Arrival(route, x).Success? {
      var y := Arrival(route, x).value;
      BinaryRoundTrip.RetagKeeps(I.TStructure, y.elems);
      StructureArray2Ua(env, y, t, v);
    }
  }

  lemma {:induction false} UnionRoundTrip(route: Route, env: TypeEnv, v: Value, t: UaNodeId)
    requires WellFormedEnv(env) && Holds(v) && !v.Array?
    requires BuildInType(env, t).Success? && IsStructured(BuildInType(env, t).value)
    requires ConvertibleId(t) && t in env.definitions && env.definitions[t].isUnion
    ensures RoundTrip(route, env, v, t) == Success(v) <==> Safe(route, env, v, t)
    decreases v, 0
  {
    var def := env.definitions[t];
    if v.Union? && ChildIndex(def.children, v.field) < |def.children| {
      UaRoundTrip(route, env, v.member, def.children[ChildIndex(def.children, v.field)].typeId);
      assert Ua2Io(env, v, t) == ExtensionObject2Io(env, v, t);
      if Ua2Io(env, v, t).Success? {
        UnionMemberBack(route, env, v, t);
      }
    } else {
      EmptyUnionBack(route, env, v, t);
    }
  }

  /** Without a declared field, the empty union comes back. */
  lemma EmptyUnionBack(route: Route, env: TypeEnv, v: Value, t: UaNodeId)
    requires !v.Array? && BuildInType(env, t).Success? && IsStructured(BuildInType(env, t).value)
    requires ConvertibleId(t) && t in env.definitions && env.definitions[t].isUnion
    requires v.Union? ==> ChildIndex(env.definitions[t].children, v.field) == |env.definitions[t].children|
    ensures RoundTrip(route, env, v, t) == Success(EmptyUnion(t))
  {
    assert Ua2Io(env, v, t) == ExtensionObject2Io(env, v, t);
    var x := Ua2Io(env, v, t).value;
    StructureRoundTrip(route, env, v, t);
    ArrivalOfStructure(route, x);
    assert x.fields == map[];
  }

  lemma UnionMemberBack(route: Route, env: TypeEnv, v: Value, t: UaNodeId)
    requires v.Union? && t in env.definitions && env.definitions[t].isUnion
    requires BuildInType(env, t).Success? && IsStructured(BuildInType(env, t).value)
    requires ChildIndex(env.definitions[t].children, v.field) < |env.definitions[t].children|
    requires Ua2Io(env, v, t).Success?
    ensures var childType := env.definitions[t].children[ChildIndex(env.definitions[t].children, v.field)].typeId;
      RoundTrip(route, env, v, t) ==
        var m :- RoundTrip(route, env, v.member, childType); Success(Union(t, v.field, m))
  {
    var x := Ua2Io(env, v, t).value;
    assert Success(x) == ExtensionObject2Io(env, v, t);
    assert x.fields.Keys == {v.field};
    StructureRoundTrip(route, env, v, t);
    ArrivalOfStructure(route, x);
    TransitIsArrival(route, x.fields[v.field]);
    if Arrival(route, x).Success? {
      var y := Arrival(route, x).value;
      assert |y.fields| == |y.fields.Keys| == 1;
      assert v.field in y.fields && forall k | k in y.fields :: k == v.field;
    }
  }

  lemma {:induction false} StructRoundTrip(route: Route, env: TypeEnv, v: Value, t: UaNodeId)
    requires WellFormedEnv(env) && Holds(v) && v.Struct?
    requires BuildInType(env, t).Success? && IsStructured(BuildInType(env, t).value)
    requires ConvertibleId(t) && t in env.definitions && !env.definitions[t].isUnion
    ensures RoundTrip(route, env, v, t) == Success(v) <==> Safe(route, env, v, t)
    decreases v, 0
  {
    var children := env.definitions[t].children;
    assert Ua2Io(env, v, t) == ExtensionObject2Io(env, v, t);
    forall i | 0 <= i < |children|
      ensures ChildBack(route, env, v, children[i]) <==> ChildSafe(route, env, v, children[i])
    {
      if children[i].name in v.fields {
        UaRoundTrip(route, env, v.fields[children[i].name], children[i].typeId);
      }
    }
    SafeStruct(route, env, v, t);
    if Ua2Io(env, v, t).Success? {
      StructFieldsBack(route, env, v, t);
    } else {
      UnconvertedField(route, env, v, children);
    }
  }

  ghost predicate ChildSafe(route: Route, env: TypeEnv, v: Value, child: Field)
    requires v.Struct?
  {
    if child.name in v.fields then Safe(route, env, v.fields[child.name], child.typeId) else child.optional
  }

  ghost predicate ChildBack(route: Route, env: TypeEnv, v: Value, child: Field)
    requires v.Struct?
  {
    if child.name in v.fields then
      RoundTrip(route, env, v.fields[child.name], child.typeId) == Success(v.fields[child.name])
    else child.optional
  }

  lemma SafeStruct(route: Route, env: TypeEnv, v: Value, t: UaNodeId)
    requires v.Struct? && BuildInType(env, t).Success? && IsStructured(BuildInType(env, t).value)
    requires ConvertibleId(t) && t in env.definitions && !env.definitions[t].isUnion
    ensures Safe(route, env, v, t) <==>
      var children := env.definitions[t].children;
      && v.typeId == t
      && (forall k | k in v.fields :: ChildIndex(children, k) < |children|)
      && forall i | 0 <= i < |children| :: ChildSafe(route, env, v, children[i])
  {
  }

  lemma FieldBack(route: Route, env: TypeEnv, v: Value, x: I.Value, y: I.Value, child: Field)
    requires v.Struct? && x.Structure? && y.Structure? && y.fields.Keys == x.fields.Keys
    requires child.name in x.fields ==>
      child.name in v.fields && Transit(route, x.fields[child.name]) == Success(y.fields[child.name])
    requires FieldAt(child, v.fields.Keys, Field2Io(env, v), x.fields)
    ensures ChildBack(route, env, v, child) <==> FieldAt(child, y.fields.Keys, Field2Ua(env, y), v.fields)
  {
  }

  lemma KeysBack(children: seq<Field>, present: set<string>, arrived: set<string>)
    requires KeysAre(children, present, arrived)
    ensures KeysAre(children, arrived, present) <==> forall k | k in present :: ChildIndex(children, k) < |children|
  {
  }

  /** The field loop of the way back gives the fields of v exactly when each of them comes back. */
  lemma FieldsBack(route: Route, env: TypeEnv, v: Value, children: seq<Field>, x: I.Value, y: I.Value)
    requires v.Struct? && x.Structure? && y.Structure? && y.fields.Keys == x.fields.Keys
    requires forall k | k in x.fields :: Transit(route, x.fields[k]) == Success(y.fields[k])
    requires FieldsAre(children, v.fields.Keys, Field2Io(env, v), x.fields)
    ensures FieldsAre(children, y.fields.Keys, Field2Ua(env, y), v.fields) <==>
      && (forall k | k in v.fields :: ChildIndex(children, k) < |children|)
      && forall i | 0 <= i < |children| :: ChildBack(route, env, v, children[i])
  {
    KeysBack(children, v.fields.Keys, y.fields.Keys);
    forall i | 0 <= i < |children|
      ensures ChildBack(route, env, v, children[i]) <==>
        FieldAt(children[i], y.fields.Keys, Field2Ua(env, y), v.fields)
    {
      FieldBack(route, env, v, x, y, children[i]);
    }
  }

  /** Field by field, the structure comes back exactly when each of its fields does. */
  lemma StructFieldsBack(route: Route, env: TypeEnv, v: Value, t: UaNodeId)
    requires WellFormedEnv(env) && v.Struct? && t in env.definitions && !env.definitions[t].isUnion
    requires BuildInType(env, t).Success? && IsStructured(BuildInType(env, t).value)
    requires Ua2Io(env, v, t).Success?
    ensures RoundTrip(route, env, v, t) == Success(v) <==>
      var children := env.definitions[t].children;
      && v.typeId == t
      && (forall k | k in v.fields :: ChildIndex(children, k) < |children|)
      && forall i | 0 <= i < |children| :: ChildBack(route, env, v, children[i])
  {
    var children := env.definitions[t].children;
    var x := Ua2Io(env, v, t).value;
    assert Success(x) == ExtensionObject2Io(env, v, t);
    CollectedFields(children, v.fields.Keys, Field2Io(env, v), x.fields);
    StructureRoundTrip(route, env, v, t);
    ArrivalOfStructure(route, x);
    forall k | k in x.fields
      ensures Transit(route, x.fields[k]) == Arrival(route, x.fields[k])
    {
      TransitIsArrival(route, x.fields[k]);
    }
    if Arrival(route, x).Success? {
      var y := Arrival(route, x).value;
      CollectedFields(children, y.fields.Keys, Field2Ua(env, y), v.fields);
      FieldsBack(route, env, v, children, x, y);
    } else {
      var k :| k in x.fields && Arrival(route, x.fields[k]).Failure?;
      assert !ChildBack(route, env, v, children[ChildIndex(children, k)]);
    }
  }

  /** If the field loop fails, some field does not survive. */
  lemma UnconvertedField(route: Route, env: TypeEnv, v: Value, children: seq<Field>)
    requires v.Struct? && DistinctNames(children)
    requires CollectFields(children, v.fields.Keys, Field2Io(env, v)).Failure?
    ensures exists i :: 0 <= i < |children| && !ChildBack(route, env, v, children[i])
  {
    CollectFieldsMeaning(children, v.fields.Keys, Field2Io(env, v));
    var i :| 0 <= i < |children| &&
      !(if children[i].name in v.fields then Field2Io(env, v)(children[i]).Success? else children[i].optional);
    assert !ChildBack(route, env, v, children[i]);
  }

  lemma {:induction false} ExtensionObjectRoundTrip(route: Route, env: TypeEnv, v: Value, t: UaNodeId)
    requires WellFormedEnv(env) && Holds(v) && !v.Array?
    requires BuildInType(env, t).Success? && IsStructured(BuildInType(env, t).value)
    ensures RoundTrip(route, env, v, t) == Success(v) <==> Safe(route, env, v, t)
    decreases v, 1
  {
    if !ConvertibleId(t) || t !in env.definitions {
      assert Ua2Io(env, v, t) == ExtensionObject2Io(env, v, t);
    } else if env.definitions[t].isUnion {
      UnionRoundTrip(route, env, v, t);
    } else if v.Struct? {
      StructRoundTrip(route, env, v, t);
    } else {
      NotAStruct(route, env, v, t);
    }
  }

  /** Under a structure definition only structures come back. */
  lemma NotAStruct(route: Route, env: TypeEnv, v: Value, t: UaNodeId)
    requires !v.Array? && !v.Struct? && t in env.definitions && !env.definitions[t].isUnion
    requires BuildInType(env, t).Success? && IsStructured(BuildInType(env, t).value)
    ensures RoundTrip(route, env, v, t) != Success(v) && !Safe(route, env, v, t)
  {
    if Ua2Io(env, v, t).Success? {
      StructureRoundTrip(route, env, v, t);
    }
  }

  /** Main result, for both routes: a value the SDK holds comes back unchanged exactly when it is
      safe for the route. */
  lemma {:induction false} UaRoundTrip(route: Route, env: TypeEnv, v: Value, t: UaNodeId)
    requires WellFormedEnv(env) && Holds(v)
    ensures RoundTrip(route, env, v, t) == Success(v) <==> Safe(route, env, v, t)
    decreases v, 2
  {
    if v.Array? {
      assert Ua2Io(env, v, t) == Array2Io(env, v, t);
    }
    if BuildInType(env, t).Success? {
      var b := BuildInType(env, t).value;
      if v.Array? && IsStructured(b) {
        StructureArrayRoundTrip(route, env, v, t);
      } else if v.Array? && b.ns == 0 {
        ScalarArrayRoundTrip(route, env, v, t);
      } else if !v.Array? && IsStructured(b) {
        ExtensionObjectRoundTrip(route, env, v, t);
      } else if !v.Array? {
        SimpleRoundTrip(route, env, v, t);
      }
    }
  }
}
