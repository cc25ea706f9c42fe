/** The converter between the UA SDK and the internal interface, with the loops that fill its
    vectors and maps. Each method computes what `UaConversion` specifies. */
module ConverterUa2IO {
  import opened Wrappers
  import opened CTypes
  import opened NodeIds
  import opened UaValues
  import opened UaConversion
  import I = IoValues

  // ---- UA to internal interface ----

  method ConvertUa2Io(env: TypeEnv, v: Value, t: UaNodeId) returns (r: Result<I.Value>)
    ensures r == Ua2Io(env, v, t)
    decreases v, 3
  {
    if v.Array? {
      r := ConvertUaArray2Io(env, v, t);
    } else {
      var b := BuildInType(env, t);
      if b.Failure? {
        return Failure;
      }
      if IsStructured(b.value) {
        r := ConvertUaExtensionObject2Io(env, v, t);
      } else {
        r := ConvertUaBuildInType2Io(env, v, b.value);
      }
    }
  }

  method ConvertUaBuildInType2Io(env: TypeEnv, v: Value, b: UaNodeId) returns (r: Result<I.Value>)
    ensures r == BuildIn2Io(env, v, b)
    decreases v, 2
  {
    if b.ns != 0 {
      return Failure;
    }
    var n := b.IdentifierNumeric();
    if n == VARIANT {
      r := ConvertUaVariant2Io(env, v);
    } else if n == BYTE_STRING && v.ByteString? && v.bytes.Some? {
      var chars := CopyBytes(v.bytes.value);
      return Success(I.ByteString(Some(chars)));
    } else {
      return Scalar2Io(v, n);
    }
  }

  /** Octets become signed characters. */
  method CopyBytes(bytes: seq<int>) returns (chars: seq<int>)
    ensures chars == SignedBytes(bytes)
    ensures |chars| == |bytes| && forall i | 0 <= i < |bytes| :: InSigned(chars[i], U8)
  {
    chars := [];
    for i := 0 to |bytes|
      invariant chars == SignedBytes(bytes)[..i]
    {
      chars := chars + [ToSigned(bytes[i], U8)];
    }
  }

  /** The case of a Variant type: a DataValue, possibly around an array of Variants. */
  method ConvertUaVariant2Io(env: TypeEnv, v: Value) returns (r: Result<I.Value>)
    ensures r == Variant2Io(env, v)
    decreases v, 1
  {
    if !v.DataValue? {
      return Failure;
    }
    if !v.v.Array? {
      r := ConvertUa2Io(env, v.v, DataTypeOf(v.v));
      return;
    }
    var elements: seq<I.Value> := [];
    var arr := if v.v.elemType == VARIANT then v.v.elems else [];
    for i := 0 to |arr|
      invariant |elements| == i
      invariant forall j | 0 <= j < i ::
        !arr[j].Array? && Ua2Io(env, arr[j], DataTypeOf(arr[j])) == Success(elements[j])
    {
      if arr[i].Array? {
        return Failure;
      }
      var x := ConvertUa2Io(env, arr[i], DataTypeOf(arr[i]));
      if x.Failure? {
        return Failure;
      }
      elements := elements + [x.value];
    }
    r := Success(I.Array(I.TVariant, elements));
    assert elements == Variant2Io(env, v).value.elems;
  }

  method ConvertUaArray2Io(env: TypeEnv, v: Value, t: UaNodeId) returns (r: Result<I.Value>)
    requires v.Array?
    ensures r == Array2Io(env, v, t)
    decreases v, 2
  {
    var b := BuildInType(env, t);
    if b.Failure? || IoArrayType(b.value).Failure? {
      return Failure;
    }
    var elements: seq<I.Value> := [];
    for i := 0 to |v.elems|
      invariant |elements| == i
      invariant forall j | 0 <= j < i :: !v.elems[j].Array? && Ua2Io(env, v.elems[j], t) == Success(elements[j])
    {
      if v.elems[i].Array? {
        return Failure;
      }
      var x := ConvertUa2Io(env, v.elems[i], t);
      if x.Failure? {
        return Failure;
      }
      elements := elements + [x.value];
    }
    r := Success(I.Array(IoArrayType(b.value).value, elements));
    assert elements == Array2Io(env, v, t).value.elems;
  }

  method ConvertUaExtensionObject2Io(env: TypeEnv, v: Value, t: UaNodeId) returns (r: Result<I.Value>)
    ensures r == ExtensionObject2Io(env, v, t)
    decreases v, 2
  {
    if UaId2Io(t).Failure? || t !in env.definitions {
      return Failure;
    }
    var id := UaId2Io(t).value;
    var def := env.definitions[t];
    var fieldData: map<string, I.Value> := map[];
    if def.isUnion {
      if v.Union? && ChildIndex(def.children, v.field) < |def.children| {
        var child := def.children[ChildIndex(def.children, v.field)];
        var x := ConvertUa2Io(env, v.member, child.typeId);
        if x.Failure? {
          return Failure;
        }
        fieldData := fieldData[child.name := x.value];
      }
    } else {
      var set_ := SetFields(v);
      for j := 0 to |def.children|
        invariant CollectFields(def.children[..j], set_.Keys, Field2Io(env, v)) == Success(fieldData)
      {
        var child := def.children[j];
        CollectNext(def.children, j, set_.Keys, Field2Io(env, v));
        if !child.optional && child.name !in set_ {
          CollectFailsEarly(def.children, j + 1, set_.Keys, Field2Io(env, v));
          return Failure;
        }
        if child.name in set_ {
          var x := ConvertUa2Io(env, v.fields[child.name], child.typeId);
          if x.Failure? {
            CollectFailsEarly(def.children, j + 1, set_.Keys, Field2Io(env, v));
            return Failure;
          }
          fieldData := fieldData[child.name := x.value];
        }
      }
      assert def.children[..|def.children|] == def.children;
    }
    r := Success(I.Structure(id, fieldData));
  }

  // ---- Internal interface to UA ----

  method ConvertIo2Ua(env: TypeEnv, x: I.Value, t: UaNodeId) returns (r: Result<Value>)
    ensures r == Io2Ua(env, x, t)
    decreases x, 3
  {
    if x.Array? {
      r := ConvertIoArray2Ua(env, x, t);
    } else if x.Structure? {
      r := ConvertIoStructure2Ua(env, x, t);
    } else if I.IsScalar(x) && BuildInType(env, t).Success? {
      r := IoScalar2Ua(x, BuildInType(env, t).value.IdentifierNumeric());
    } else {
      r := Failure;
    }
  }

  method ConvertIoArray2Ua(env: TypeEnv, x: I.Value, t: UaNodeId) returns (r: Result<Value>)
    requires x.Array?
    ensures r == IoArray2Ua(env, x, t)
    decreases x, 2
  {
    if x.elemType == I.TStructure {
      r := ConvertIoArray2UaStructureArray(env, x, t);
    } else {
      var b := BuildInType(env, t);
      if b.Failure? || !ScalarArraySupported(x.elemType, b.value.IdentifierNumeric()) {
        return Failure;
      }
      r := ConvertIoArray2UaScalarArray(x, b.value.IdentifierNumeric());
    }
  }

  method ConvertIoArray2UaStructureArray(env: TypeEnv, x: I.Value, t: UaNodeId) returns (r: Result<Value>)
    requires x.Array? && x.elemType == I.TStructure
    ensures r == IoArray2Ua(env, x, t)
    decreases x, 1
  {
    var elements: seq<Value> := [];
    for i := 0 to |x.elems|
      invariant |elements| == i
      invariant forall j | 0 <= j < i ::
        x.elems[j].Structure? && Structure2Ua(env, x.elems[j], t) == Success(elements[j])
    {
      if !x.elems[i].Structure? {
        return Failure;
      }
      var v := ConvertIoStructure2Ua(env, x.elems[i], t);
      if v.Failure? {
        return Failure;
      }
      elements := elements + [v.value];
    }
    r := Success(Array(STRUCTURE, elements));
    assert elements == IoArray2Ua(env, x, t).value.elems;
  }

  /** The loops over UInt16, Int32, UInt32, string and localized text elements. */
  method ConvertIoArray2UaScalarArray(x: I.Value, n: nat) returns (r: Result<Value>)
    requires x.Array? && ScalarArraySupported(x.elemType, n)
    ensures r == ScalarArray2Ua(x, n)
    ensures r.Success? ==> r.value.Array? && |r.value.elems| == |x.elems|
    ensures r.Failure? <==> x.elemType == I.TString && I.String(None) in x.elems
  {
    var elements: seq<Value> := [];
    for i := 0 to |x.elems|
      invariant |elements| == i
      invariant forall j | 0 <= j < i :: elements[j] == ArrayElement2Ua(x.elems[j], x.elemType, n)
      invariant x.elemType == I.TString ==> forall j | 0 <= j < i :: x.elems[j] != I.String(None)
    {
      if x.elemType == I.TString && x.elems[i] == I.String(None) {
        return Failure;
      }
      elements := elements + [ArrayElement2Ua(x.elems[i], x.elemType, n)];
    }
    r := Success(Array(if n == ENUMERATION then INT32 else n, elements));
    assert elements == ScalarArray2Ua(x, n).value.elems;
  }

  method ConvertIoStructure2Ua(env: TypeEnv, x: I.Value, t: UaNodeId) returns (r: Result<Value>)
    requires x.Structure?
    ensures r == Structure2Ua(env, x, t)
    decreases x, 0
  {
    if t !in env.definitions {
      return Failure;
    }
    var def := env.definitions[t];
    if def.isUnion {
      r := ConvertIoUnion2Ua(env, x, t, def);
      return;
    }
    var fields: map<string, Value> := map[];
    for j := 0 to |def.children|
      invariant CollectFields(def.children[..j], x.fields.Keys, Field2Ua(env, x)) == Success(fields)
    {
      var child := def.children[j];
      assert def.children[..j + 1][..j] == def.children[..j];
      if !child.optional && child.name !in x.fields {
        CollectFailsEarly(def.children, j + 1, x.fields.Keys, Field2Ua(env, x));
        return Failure;
      }
      if child.name in x.fields {
        var v := ConvertIo2Ua(env, x.fields[child.name], child.typeId);
        if v.Failure? {
          CollectFailsEarly(def.children, j + 1, x.fields.Keys, Field2Ua(env, x));
          return Failure;
        }
        fields := fields[child.name := v.value];
      }
    }
    assert def.children[..|def.children|] == def.children;
    r := Success(Struct(t, fields));
  }

  /** A union takes at most one value, for a field found by a search over the children. */
  method ConvertIoUnion2Ua(env: TypeEnv, x: I.Value, t: UaNodeId, def: StructureDefinition) returns (r: Result<Value>)
    requires x.Structure? && Definition(env, t) == Success(def) && def.isUnion
    ensures r == Structure2Ua(env, x, t)
    decreases x, 0, 0
  {
    if |x.fields| > 1 {
      return Failure;
    }
    if |x.fields| == 0 {
      return Success(EmptyUnion(t));
    }
    var name :| name in x.fields;
    assert x.fields.Keys == {name} by {
      var rest := x.fields.Keys - {name};
      assert |rest| == 0;
    }
    for j := 0 to |def.children|
      invariant forall i | 0 <= i < j :: def.children[i].name != name
    {
      if def.children[j].name == name {
        assert ChildIndex(def.children, name) == j;
        var v := ConvertIo2Ua(env, x.fields[name], def.children[j].typeId);
        if v.Failure? {
          return Failure;
        }
        return Success(Union(t, name, v.value));
      }
    }
    r := Failure;
  }
}
