/** Converting from the cache alone: which lookups a conversion makes, and when a cache that holds
    a preloaded type has them all, in either direction. */
module CachedConversion {
  import opened Wrappers
  import opened NodeIds
  import opened UaValues
  import opened UaConversion
  import opened CachedConverterCallbackClass
  import I = IoValues

  // ---- UA to internal interface ----

  /** Converting v by t looks something up that the cache does not have. */
  ghost predicate Misses(cache: TypeEnv, v: Value, t: UaNodeId)
    decreases v, 1
  {
    var b := BuildInType(cache, t);
    || b.Failure?
    || if v.Array? then exists i :: 0 <= i < |v.elems| && Misses(cache, v.elems[i], t)
       else if IsStructured(b.value) then
         t !in cache.definitions || MissesField(cache, v, cache.definitions[t])
       else b.value.ns == 0 && b.value.IdentifierNumeric() == VARIANT && v.DataValue? && MissesContent(cache, v.v)
  }

  /** The fields that are set are converted by the types of their children. */
  ghost predicate MissesField(cache: TypeEnv, v: Value, def: StructureDefinition)
    decreases v, 0
  {
    if def.isUnion then
      && v.Union? && ChildIndex(def.children, v.field) < |def.children|
      && Misses(cache, v.member, def.children[ChildIndex(def.children, v.field)].typeId)
    else
      exists f :: f in def.children && f.name in SetFields(v) && Misses(cache, v.fields[f.name], f.typeId)
  }

  /** The content of a Variant is converted by its own data type. */
  ghost predicate MissesContent(cache: TypeEnv, w: Value)
    decreases w, 2
  {
    if !w.Array? then Misses(cache, w, DataTypeOf(w))
    else
      && w.elemType == VARIANT
      && exists i :: 0 <= i < |w.elems| && !w.elems[i].Array? && Misses(cache, w.elems[i], DataTypeOf(w.elems[i]))
  }

  lemma {:induction false} CollectedTheSame<V>(children: seq<Field>, present: set<string>, f: Field -> Result<V>,
      g: Field -> Result<V>)
    requires forall c | c in children && c.name in present :: f(c) == g(c)
    ensures CollectFields(children, present, f) == CollectFields(children, present, g)
  {
    if children != [] {
      var rest := children[..|children| - 1];
      assert forall c | c in rest :: c in children;
      CollectedTheSame(rest, present, f, g);
      assert children[|children| - 1] in children;
    }
  }

  /** A field that cannot be converted fails the whole structure. */
  lemma {:induction false} FieldFails<V>(children: seq<Field>, present: set<string>, f: Field -> Result<V>, c: Field)
    requires c in children && c.name in present && f(c).Failure?
    ensures CollectFields(children, present, f).Failure?
  {
    var n := |children| - 1;
    if c != children[n] {
      FieldFails(children[..n], present, f, c);
    }
  }

  /** Without a miss the cache is as good as the callback. */
  lemma {:induction false} HitsConvert(cache: TypeEnv, env: TypeEnv, v: Value, t: UaNodeId)
    requires PartOf(cache, env) && !Misses(cache, v, t)
    ensures Ua2Io(cache, v, t) == Ua2Io(env, v, t)
    decreases v, 1
  {
    var b := BuildInType(cache, t).value;
    assert BuildInType(env, t) == Success(b);
    if v.Array? {
      forall i | 0 <= i < |v.elems|
        ensures Ua2Io(cache, v.elems[i], t) == Ua2Io(env, v.elems[i], t)
      {
        HitsConvert(cache, env, v.elems[i], t);
      }
      ArrayAlike(cache, env, v, t);
    } else if IsStructured(b) {
      HitsConvertStructure(cache, env, v, t);
      assert Ua2Io(cache, v, t) == ExtensionObject2Io(cache, v, t);
      assert Ua2Io(env, v, t) == ExtensionObject2Io(env, v, t);
    } else {
      if b.ns == 0 && b.IdentifierNumeric() == VARIANT && v.DataValue? {
        HitsConvertContent(cache, env, v);
      }
      assert BuildIn2Io(cache, v, b) == BuildIn2Io(env, v, b);
      assert Ua2Io(cache, v, t) == BuildIn2Io(cache, v, b);
      assert Ua2Io(env, v, t) == BuildIn2Io(env, v, b);
    }
  }

  lemma ArrayAlike(cache: TypeEnv, env: TypeEnv, v: Value, t: UaNodeId)
    requires v.Array? && BuildInType(cache, t) == BuildInType(env, t)
    requires forall i | 0 <= i < |v.elems| :: Ua2Io(cache, v.elems[i], t) == Ua2Io(env, v.elems[i], t)
    ensures Ua2Io(cache, v, t) == Ua2Io(env, v, t)
  {
    var a, b := Array2Io(cache, v, t), Array2Io(env, v, t);
    assert Ua2Io(cache, v, t) == a && Ua2Io(env, v, t) == b;
    if a.Success? {
      assert a.value.elems == b.value.elems;
    }
  }

  lemma {:induction false} HitsConvertStructure(cache: TypeEnv, env: TypeEnv, v: Value, t: UaNodeId)
    requires PartOf(cache, env) && t in cache.definitions && !MissesField(cache, v, cache.definitions[t])
    ensures ExtensionObject2Io(cache, v, t) == ExtensionObject2Io(env, v, t)
    decreases v, 0
  {
    var children := cache.definitions[t].children;
    assert Definition(env, t) == Definition(cache, t);
    if cache.definitions[t].isUnion {
      var j := if v.Union? then ChildIndex(children, v.field) else |children|;
      if j < |children| {
        HitsConvert(cache, env, v.member, children[j].typeId);
      }
    } else {
      forall f | f in children && f.name in SetFields(v)
        ensures Field2Io(cache, v)(f) == Field2Io(env, v)(f)
      {
        HitsConvert(cache, env, v.fields[f.name], f.typeId);
      }
      CollectedTheSame(children, SetFields(v).Keys, Field2Io(cache, v), Field2Io(env, v));
    }
  }

  lemma {:induction false} HitsConvertContent(cache: TypeEnv, env: TypeEnv, v: Value)
    requires PartOf(cache, env) && v.DataValue? && !MissesContent(cache, v.v)
    ensures Variant2Io(cache, v) == Variant2Io(env, v)
    decreases v, 0
  {
    var w := v.v;
    if !w.Array? {
      HitsConvert(cache, env, w, DataTypeOf(w));
    } else if w.elemType == VARIANT {
      forall i | 0 <= i < |w.elems| && !w.elems[i].Array?
        ensures Ua2Io(cache, w.elems[i], DataTypeOf(w.elems[i])) == Ua2Io(env, w.elems[i], DataTypeOf(w.elems[i]))
      {
        HitsConvert(cache, env, w.elems[i], DataTypeOf(w.elems[i]));
      }
      var a, b := Variant2Io(cache, v), Variant2Io(env, v);
      if a.Success? {
        assert a.value.elems == b.value.elems;
      }
    }
  }

  /** With a miss the conversion from the cache alone fails. */
  lemma {:induction false} MissFails(cache: TypeEnv, v: Value, t: UaNodeId)
    requires Misses(cache, v, t)
    ensures Ua2Io(cache, v, t).Failure?
    decreases v, 1
  {
    if v.Array? {
      assert Ua2Io(cache, v, t) == Array2Io(cache, v, t);
      if BuildInType(cache, t).Success? {
        var i :| 0 <= i < |v.elems| && Misses(cache, v.elems[i], t);
        MissFails(cache, v.elems[i], t);
      }
    } else if BuildInType(cache, t).Success? {
      var b := BuildInType(cache, t).value;
      if IsStructured(b) {
        MissFailsStructure(cache, v, t);
        assert Ua2Io(cache, v, t) == ExtensionObject2Io(cache, v, t);
      } else {
        MissFailsContent(cache, v);
        assert BuildIn2Io(cache, v, b) == Variant2Io(cache, v);
        assert Ua2Io(cache, v, t) == BuildIn2Io(cache, v, b);
      }
    }
  }

  lemma {:induction false} MissFailsStructure(cache: TypeEnv, v: Value, t: UaNodeId)
    requires t !in cache.definitions || MissesField(cache, v, cache.definitions[t])
    ensures ExtensionObject2Io(cache, v, t).Failure?
    decreases v, 0
  {
    if t in cache.definitions {
      var children := cache.definitions[t].children;
      if cache.definitions[t].isUnion {
        MissFails(cache, v.member, children[ChildIndex(children, v.field)].typeId);
      } else {
        var f :| f in children && f.name in SetFields(v) && Misses(cache, v.fields[f.name], f.typeId);
        MissFails(cache, v.fields[f.name], f.typeId);
        FieldFails(children, SetFields(v).Keys, Field2Io(cache, v), f);
      }
    }
  }

  lemma {:induction false} MissFailsContent(cache: TypeEnv, v: Value)
    requires v.DataValue? && MissesContent(cache, v.v)
    ensures Variant2Io(cache, v).Failure?
    decreases v, 0
  {
    var w := v.v;
    if !w.Array? {
      MissFails(cache, w, DataTypeOf(w));
    } else {
      var i :| 0 <= i < |w.elems| && !w.elems[i].Array? && Misses(cache, w.elems[i], DataTypeOf(w.elems[i]));
      MissFails(cache, w.elems[i], DataTypeOf(w.elems[i]));
    }
  }

  /** Main result: for any cache and any value that converts, the cache alone gives the same result
      exactly when it misses nothing; otherwise the conversion fails. */
  lemma ConvertsFromCache(cache: TypeEnv, env: TypeEnv, v: Value, t: UaNodeId)
    requires PartOf(cache, env) && Ua2Io(env, v, t).Success?
    ensures Ua2Io(cache, v, t) == Ua2Io(env, v, t) <==> !Misses(cache, v, t)
    ensures Misses(cache, v, t) ==> Ua2Io(cache, v, t).Failure?
  {
    if Misses(cache, v, t) {
      MissFails(cache, v, t);
    } else {
      HitsConvert(cache, env, v, t);
    }
  }

  // ---- Internal interface to UA ----

  /** Converting x by t looks something up that the cache does not have. */
  ghost predicate MissesBack(cache: TypeEnv, x: I.Value, t: UaNodeId)
    decreases x
  {
    if x.Array? && x.elemType == I.TStructure then
      exists i :: 0 <= i < |x.elems| && x.elems[i].Structure? && MissesBack(cache, x.elems[i], t)
    else if x.Structure? then
      || t !in cache.definitions
      || var def := cache.definitions[t];
         if def.isUnion then
           |x.fields| == 1 &&
           exists k :: k in x.fields && ChildIndex(def.children, k) < |def.children| &&
             MissesBack(cache, x.fields[k], def.children[ChildIndex(def.children, k)].typeId)
         else exists f :: f in def.children && f.name in x.fields && MissesBack(cache, x.fields[f.name], f.typeId)
    else (x.Array? || I.IsScalar(x)) && BuildInType(cache, t).Failure?
  }

  lemma {:induction false} HitsConvertBack(cache: TypeEnv, env: TypeEnv, x: I.Value, t: UaNodeId)
    requires PartOf(cache, env) && !MissesBack(cache, x, t)
    ensures Io2Ua(cache, x, t) == Io2Ua(env, x, t)
    decreases x, 1
  {
    if x.Structure? {
      HitsConvertStructureBack(cache, env, x, t);
    } else if x.Array? {
      forall i | 0 <= i < |x.elems| && x.elemType == I.TStructure && x.elems[i].Structure?
        ensures Structure2Ua(cache, x.elems[i], t) == Structure2Ua(env, x.elems[i], t)
      {
        HitsConvertStructureBack(cache, env, x.elems[i], t);
      }
      ArrayAlikeBack(cache, env, x, t);
    }
  }

  lemma ArrayAlikeBack(cache: TypeEnv, env: TypeEnv, x: I.Value, t: UaNodeId)
    requires x.Array? && (x.elemType != I.TStructure ==> BuildInType(cache, t) == BuildInType(env, t))
    requires forall i | 0 <= i < |x.elems| && x.elemType == I.TStructure && x.elems[i].Structure? ::
      Structure2Ua(cache, x.elems[i], t) == Structure2Ua(env, x.elems[i], t)
    ensures Io2Ua(cache, x, t) == Io2Ua(env, x, t)
  {
    var a, b := IoArray2Ua(cache, x, t), IoArray2Ua(env, x, t);
    assert Io2Ua(cache, x, t) == a && Io2Ua(env, x, t) == b;
    if x.elemType == I.TStructure && a.Success? {
      assert a.value.elems == b.value.elems;
    }
  }

  lemma {:induction false} HitsConvertStructureBack(cache: TypeEnv, env: TypeEnv, x: I.Value, t: UaNodeId)
    requires PartOf(cache, env) && x.Structure? && !MissesBack(cache, x, t)
    ensures Structure2Ua(cache, x, t) == Structure2Ua(env, x, t)
    ensures Io2Ua(cache, x, t) == Io2Ua(env, x, t)
    decreases x, 0
  {
    var children := cache.definitions[t].children;
    if cache.definitions[t].isUnion {
      if |x.fields| == 1 {
        var name :| name in x.fields;
        var j := ChildIndex(children, name);
        if j < |children| {
          HitsConvertBack(cache, env, x.fields[name], children[j].typeId);
        }
        UnionField(cache, env, x, t, name);
      }
    } else {
      forall f | f in children && f.name in x.fields
        ensures Field2Ua(cache, x)(f) == Field2Ua(env, x)(f)
      {
        HitsConvertBack(cache, env, x.fields[f.name], f.typeId);
      }
      CollectedTheSame(children, x.fields.Keys, Field2Ua(cache, x), Field2Ua(env, x));
    }
    assert Io2Ua(cache, x, t) == Structure2Ua(cache, x, t);
    assert Io2Ua(env, x, t) == Structure2Ua(env, x, t);
  }

  lemma OnlyField(x: I.Value, name: string)
    requires x.Structure? && |x.fields| == 1 && name in x.fields
    ensures forall k | k in x.fields :: k == name
  {
    assert |x.fields.Keys - {name}| == 0;
    assert forall k | k in x.fields :: k in x.fields.Keys - {name} || k == name;
  }

  lemma UnionField(cache: TypeEnv, env: TypeEnv, x: I.Value, t: UaNodeId, name: string)
    requires t in cache.definitions && cache.definitions[t].isUnion && Definition(cache, t) == Definition(env, t)
    requires x.Structure? && |x.fields| == 1 && name in x.fields
    requires var children := cache.definitions[t].children; var j := ChildIndex(children, name);
      j < |children| ==>
        Io2Ua(cache, x.fields[name], children[j].typeId) == Io2Ua(env, x.fields[name], children[j].typeId)
    ensures Structure2Ua(cache, x, t) == Structure2Ua(env, x, t)
  {
    OnlyField(x, name);
  }

  lemma {:induction false} MissFailsBack(cache: TypeEnv, x: I.Value, t: UaNodeId)
    requires MissesBack(cache, x, t)
    ensures Io2Ua(cache, x, t).Failure?
    decreases x, 1
  {
    if x.Structure? {
      MissFailsStructureBack(cache, x, t);
    } else if x.Array? {
      assert Io2Ua(cache, x, t) == IoArray2Ua(cache, x, t);
      if x.elemType == I.TStructure {
        var i :| 0 <= i < |x.elems| && x.elems[i].Structure? && MissesBack(cache, x.elems[i], t);
        MissFailsStructureBack(cache, x.elems[i], t);
      }
    }
  }

  lemma {:induction false} MissFailsStructureBack(cache: TypeEnv, x: I.Value, t: UaNodeId)
    requires x.Structure? && MissesBack(cache, x, t)
    ensures Structure2Ua(cache, x, t).Failure? && Io2Ua(cache, x, t).Failure?
    decreases x, 0
  {
    assert Io2Ua(cache, x, t) == Structure2Ua(cache, x, t);
    if t in cache.definitions {
      var children := cache.definitions[t].children;
      if cache.definitions[t].isUnion {
        var k :| k in x.fields && ChildIndex(children, k) < |children| &&
          MissesBack(cache, x.fields[k], children[ChildIndex(children, k)].typeId);
        OnlyField(x, k);
        MissFailsBack(cache, x.fields[k], children[ChildIndex(children, k)].typeId);
      } else {
        var f :| f in children && f.name in x.fields && MissesBack(cache, x.fields[f.name], f.typeId);
        MissFailsBack(cache, x.fields[f.name], f.typeId);
        FieldFails(children, x.fields.Keys, Field2Ua(cache, x), f);
      }
    }
  }

  /** Main result for the way back. */
  lemma ConvertsFromCacheBack(cache: TypeEnv, env: TypeEnv, x: I.Value, t: UaNodeId)
    requires PartOf(cache, env) && Io2Ua(env, x, t).Success?
    ensures Io2Ua(cache, x, t) == Io2Ua(env, x, t) <==> !MissesBack(cache, x, t)
    ensures MissesBack(cache, x, t) ==> Io2Ua(cache, x, t).Failure?
  {
    if MissesBack(cache, x, t) {
      MissFailsBack(cache, x, t);
    } else {
      HitsConvertBack(cache, env, x, t);
    }
  }

  // ---- After preloading ----

  /** Preloading stops at namespace 0, so it never enters a definition of namespace 0. */
  predicate StandardUndefined(cache: TypeEnv) {
    forall t | t in cache.definitions :: t.ns != 0
  }

  /** What a Variant holds is converted by its own data type, which is not below t. */
  predicate NoVariant(v: Value) {
    match v
    case DataValue(_) => false
    case Struct(_, fields) => forall k | k in fields :: NoVariant(fields[k])
    case Union(_, _, member) => NoVariant(member)
    case Array(_, elems) => forall i | 0 <= i < |elems| :: NoVariant(elems[i])
    case _ => true
  }

  predicate IsStandardStructure(t: UaNodeId) {
    t.ns == 0 && IsStructured(t)
  }

  /** The value, or one inside it that is set, stands where the type is a structure or union of
      namespace 0. */
  ghost predicate MeetsStandardStructure(cache: TypeEnv, v: Value, t: UaNodeId)
    decreases v
  {
    if v.Array? then exists i :: 0 <= i < |v.elems| && MeetsStandardStructure(cache, v.elems[i], t)
    else
      || IsStandardStructure(t)
      || (IsVendorStructure(cache, t) &&
          var def := cache.definitions[t];
          if def.isUnion then
            && v.Union? && ChildIndex(def.children, v.field) < |def.children|
            && MeetsStandardStructure(cache, v.member, def.children[ChildIndex(def.children, v.field)].typeId)
          else
            exists f :: f in def.children && f.name in SetFields(v) &&
              MeetsStandardStructure(cache, v.fields[f.name], f.typeId))
  }

  /** What is loaded for a vendor type: its base and, of a structure, its definition. */
  lemma LoadedHere(cache: TypeEnv, t: UaNodeId, rank: Ranking)
    requires Acyclic(cache, rank) && Loaded(cache, t, rank) && t.ns != 0
    ensures HasBase(cache, t) && BuildInType(cache, t) == Success(Base(cache, t))
    ensures IsStructured(Base(cache, t)) ==>
      IsVendorStructure(cache, t) && forall f | f in cache.definitions[t].children :: Loaded(cache, f.typeId, rank)
  {
  }

  /** From a loaded type only a structure of namespace 0 can be missed, and it always is. */
  lemma {:induction false} OnlyStandardMissed(cache: TypeEnv, v: Value, t: UaNodeId, rank: Ranking)
    requires Acyclic(cache, rank) && Loaded(cache, t, rank) && NoVariant(v)
    ensures Misses(cache, v, t) ==> MeetsStandardStructure(cache, v, t)
    ensures StandardUndefined(cache) && MeetsStandardStructure(cache, v, t) ==> Misses(cache, v, t)
    decreases v
  {
    if t.ns != 0 {
      LoadedHere(cache, t, rank);
    }
    if v.Array? {
      forall i | 0 <= i < |v.elems|
        ensures Misses(cache, v.elems[i], t) ==> MeetsStandardStructure(cache, v.elems[i], t)
        ensures StandardUndefined(cache) && MeetsStandardStructure(cache, v.elems[i], t) ==>
          Misses(cache, v.elems[i], t)
      {
        OnlyStandardMissed(cache, v.elems[i], t, rank);
      }
    } else if IsVendorStructure(cache, t) {
      var def := cache.definitions[t];
      assert Misses(cache, v, t) <==> MissesField(cache, v, def);
      if def.isUnion {
        if v.Union? && ChildIndex(def.children, v.field) < |def.children| {
          OnlyStandardMissed(cache, v.member, def.children[ChildIndex(def.children, v.field)].typeId, rank);
        }
      } else {
        forall f | f in def.children && f.name in SetFields(v)
          ensures Misses(cache, v.fields[f.name], f.typeId) ==>
            MeetsStandardStructure(cache, v.fields[f.name], f.typeId)
          ensures StandardUndefined(cache) && MeetsStandardStructure(cache, v.fields[f.name], f.typeId) ==>
            Misses(cache, v.fields[f.name], f.typeId)
        {
          OnlyStandardMissed(cache, v.fields[f.name], f.typeId, rank);
        }
      }
    }
  }

  /** Main result (preloading): after a preload of t, a value that converts is converted from the
      cache alone exactly when it meets no structure of namespace 0. */
  lemma PreloadedExactly(cache: TypeEnv, env: TypeEnv, v: Value, t: UaNodeId, rank: Ranking)
    requires Acyclic(cache, rank) && PartOf(cache, env) && Loaded(cache, t, rank) && StandardUndefined(cache)
    requires NoVariant(v) && Ua2Io(env, v, t).Success?
    ensures Ua2Io(cache, v, t) == Ua2Io(env, v, t) <==> !MeetsStandardStructure(cache, v, t)
  {
    ConvertsFromCache(cache, env, v, t);
    OnlyStandardMissed(cache, v, t, rank);
  }

  /** What preloading enters into an empty cache: definitions of vendor structures. */
  predicate VendorOnly(cache: TypeEnv) {
    forall t | t in cache.definitions :: IsVendorStructure(cache, t)
  }

  /** Growing keeps this, so it holds after any number of preloads. */
  lemma GrowsVendorOnly(a: TypeEnv, b: TypeEnv)
    requires VendorOnly(a) && Grows(a, b)
    ensures VendorOnly(b) && StandardUndefined(b)
  {
  }

  /** The way back goes by the form of the value. A value, or one inside it, has the form of a
      structure where the type is no loaded vendor structure: a concrete structure of namespace 0,
      for example. */
  ghost predicate MeetsOtherType(cache: TypeEnv, x: I.Value, t: UaNodeId)
    decreases x
  {
    if x.Array? then
      x.elemType == I.TStructure &&
      exists i :: 0 <= i < |x.elems| && x.elems[i].Structure? && MeetsOtherType(cache, x.elems[i], t)
    else
      && x.Structure?
      && (|| !IsVendorStructure(cache, t)
          || (var def := cache.definitions[t];
              if def.isUnion then
                |x.fields| == 1 &&
                exists k :: k in x.fields && ChildIndex(def.children, k) < |def.children| &&
                  MeetsOtherType(cache, x.fields[k], def.children[ChildIndex(def.children, k)].typeId)
              else
                exists f :: f in def.children && f.name in x.fields &&
                  MeetsOtherType(cache, x.fields[f.name], f.typeId)))
  }

  /** From a loaded type exactly those are missed. */
  lemma {:induction false} OtherTypeMissed(cache: TypeEnv, x: I.Value, t: UaNodeId, rank: Ranking)
    requires Acyclic(cache, rank) && Loaded(cache, t, rank) && VendorOnly(cache)
    ensures MissesBack(cache, x, t) <==> MeetsOtherType(cache, x, t)
    decreases x
  {
    if t.ns != 0 {
      LoadedHere(cache, t, rank);
    }
    if x.Array? {
      forall i | 0 <= i < |x.elems|
        ensures MissesBack(cache, x.elems[i], t) <==> MeetsOtherType(cache, x.elems[i], t)
      {
        OtherTypeMissed(cache, x.elems[i], t, rank);
      }
    } else if x.Structure? && IsVendorStructure(cache, t) {
      var children := cache.definitions[t].children;
      forall k | k in x.fields && ChildIndex(children, k) < |children|
        ensures var s := children[ChildIndex(children, k)].typeId;
          MissesBack(cache, x.fields[k], s) <==> MeetsOtherType(cache, x.fields[k], s)
      {
        OtherTypeMissed(cache, x.fields[k], children[ChildIndex(children, k)].typeId, rank);
      }
      forall f | f in children && f.name in x.fields
        ensures MissesBack(cache, x.fields[f.name], f.typeId) <==> MeetsOtherType(cache, x.fields[f.name], f.typeId)
      {
        OtherTypeMissed(cache, x.fields[f.name], f.typeId, rank);
      }
    }
  }

  /** Main result (preloading) for the way back. */
  lemma PreloadedExactlyBack(cache: TypeEnv, env: TypeEnv, x: I.Value, t: UaNodeId, rank: Ranking)
    requires Acyclic(cache, rank) && PartOf(cache, env) && Loaded(cache, t, rank) && VendorOnly(cache)
    requires Io2Ua(env, x, t).Success?
    ensures Io2Ua(cache, x, t) == Io2Ua(env, x, t) <==> !MeetsOtherType(cache, x, t)
  {
    ConvertsFromCacheBack(cache, env, x, t);
    OtherTypeMissed(cache, x, t, rank);
  }

  // ---- Types without standard structures ----

  /** No type of namespace 0 at or below t is a structure or a union. */
  ghost predicate NoStandardStructure(env: TypeEnv, t: UaNodeId, rank: Ranking)
    requires Acyclic(env, rank)
    decreases Height(rank, t)
  {
    && rank(t).Some? && !IsStandardStructure(t)
    && (IsVendorStructure(env, t) ==>
          forall f | f in env.definitions[t].children :: NoStandardStructure(env, f.typeId, rank))
  }

  lemma {:induction false} NothingMet(cache: TypeEnv, v: Value, t: UaNodeId, rank: Ranking)
    requires Acyclic(cache, rank) && NoStandardStructure(cache, t, rank)
    ensures !MeetsStandardStructure(cache, v, t)
    decreases v
  {
    if v.Array? {
      forall i | 0 <= i < |v.elems|
        ensures !MeetsStandardStructure(cache, v.elems[i], t)
      {
        NothingMet(cache, v.elems[i], t, rank);
      }
    } else if IsVendorStructure(cache, t) {
      var children := cache.definitions[t].children;
      if v.Union? && ChildIndex(children, v.field) < |children| {
        NothingMet(cache, v.member, children[ChildIndex(children, v.field)].typeId, rank);
      }
      forall f | f in children && f.name in SetFields(v)
        ensures !MeetsStandardStructure(cache, v.fields[f.name], f.typeId)
      {
        NothingMet(cache, v.fields[f.name], f.typeId, rank);
      }
    }
  }

  /** After a preload of such a type, every value without Variants is converted as by the callback,
      whether it converts or not. */
  lemma CacheSuffices(cache: TypeEnv, env: TypeEnv, v: Value, t: UaNodeId, rank: Ranking)
    requires Acyclic(cache, rank) && PartOf(cache, env)
    requires Loaded(cache, t, rank) && NoStandardStructure(cache, t, rank) && NoVariant(v)
    ensures Ua2Io(cache, v, t) == Ua2Io(env, v, t)
  {
    NothingMet(cache, v, t, rank);
    OnlyStandardMissed(cache, v, t, rank);
    HitsConvert(cache, env, v, t);
  }

  /** Whatever the server defines at or below t is in the cache. */
  ghost predicate DefinitionsCached(cache: TypeEnv, env: TypeEnv, t: UaNodeId, rank: Ranking)
    requires Acyclic(cache, rank)
    decreases Height(rank, t)
  {
    && rank(t).Some?
    && (t in env.definitions ==>
          && IsVendorStructure(cache, t)
          && forall f | f in cache.definitions[t].children :: DefinitionsCached(cache, env, f.typeId, rank))
  }

  /** What the cache has no definition of, the server has none of either. */
  lemma {:induction false} MissIsFailure(cache: TypeEnv, env: TypeEnv, x: I.Value, t: UaNodeId, rank: Ranking)
    requires Acyclic(cache, rank) && PartOf(cache, env)
    requires Loaded(cache, t, rank) && DefinitionsCached(cache, env, t, rank) && MissesBack(cache, x, t)
    ensures Io2Ua(env, x, t).Failure?
    ensures x.Structure? ==> Structure2Ua(env, x, t).Failure?
    decreases x
  {
    if t.ns != 0 {
      LoadedHere(cache, t, rank);
    }
    if x.Array? {
      assert Io2Ua(env, x, t) == IoArray2Ua(env, x, t);
      if x.elemType == I.TStructure {
        var i :| 0 <= i < |x.elems| && x.elems[i].Structure? && MissesBack(cache, x.elems[i], t);
        MissIsFailure(cache, env, x.elems[i], t, rank);
      }
    } else if x.Structure? {
      assert Io2Ua(env, x, t) == Structure2Ua(env, x, t);
      if t in cache.definitions {
        var children := cache.definitions[t].children;
        assert Definition(env, t) == Definition(cache, t);
        if cache.definitions[t].isUnion {
          var k :| k in x.fields && ChildIndex(children, k) < |children| &&
            MissesBack(cache, x.fields[k], children[ChildIndex(children, k)].typeId);
          OnlyField(x, k);
          MissIsFailure(cache, env, x.fields[k], children[ChildIndex(children, k)].typeId, rank);
        } else {
          var f :| f in children && f.name in x.fields && MissesBack(cache, x.fields[f.name], f.typeId);
          MissIsFailure(cache, env, x.fields[f.name], f.typeId, rank);
          FieldFails(children, x.fields.Keys, Field2Ua(env, x), f);
        }
      }
    }
  }

  /** The same for the way back, of any value, well-typed or not, if the cache has all that the
      server defines at or below the type. */
  lemma CacheSufficesBack(cache: TypeEnv, env: TypeEnv, x: I.Value, t: UaNodeId, rank: Ranking)
    requires Acyclic(cache, rank) && PartOf(cache, env)
    requires Loaded(cache, t, rank) && DefinitionsCached(cache, env, t, rank)
    ensures Io2Ua(cache, x, t) == Io2Ua(env, x, t)
  {
    if MissesBack(cache, x, t) {
      MissFailsBack(cache, x, t);
      MissIsFailure(cache, env, x, t, rank);
    } else {
      HitsConvertBack(cache, env, x, t);
    }
  }

  // ---- The conditions can fail ----

  /** A structure of namespace 0 counts as loaded when nothing is, and its definition is then
      missing. */
  lemma StandardStructureIsNotLoaded()
    ensures exists env: TypeEnv, v: Value, t: UaNodeId, rank: Ranking ::
      var cache := TypeEnv(map[], map[]);
      && Acyclic(cache, rank) && PartOf(cache, env) && VendorOnly(cache) && NoVariant(v)
      && Loaded(cache, t, rank) && Ua2Io(cache, v, t) != Ua2Io(env, v, t)
  {
    var t := UaNodeId(0, Numeric(STRUCTURE));
    var env := TypeEnv(map[], map[t := StructureDefinition(false, [])]);
    var v := Struct(t, map[]);
    var cache := TypeEnv(map[], map[]);
    var rank: Ranking := _ => Some(0);
    assert Acyclic(cache, rank) && Loaded(cache, t, rank);
    assert Ua2Io(cache, v, t) == ExtensionObject2Io(cache, v, t) == Failure;
    assert Ua2Io(env, v, t) == ExtensionObject2Io(env, v, t);
    assert ExtensionObject2Io(env, v, t).Success?;
  }

  const RANGE := UaNodeId(0, Numeric(884))
  const VENDOR := UaNodeId(2, Numeric(1))

  /** A vendor structure with an optional field of the type `Range` of namespace 0. */
  function WithRange(rangeDefined: bool): TypeEnv {
    var definitions := map[VENDOR := StructureDefinition(false, [Field("range", RANGE, true)])];
    TypeEnv(map[VENDOR := [UaNodeId(0, Numeric(STRUCTURE))]],
      if rangeDefined then definitions[RANGE := StructureDefinition(false, [])] else definitions)
  }

  /** Preloading the vendor structure does not load `Range`, and a value with that field cannot be
      written from the cache. */
  lemma RangeIsNotLoaded(id: IoNodeId)
    ensures var cache, env := WithRange(false), WithRange(true);
      var rank: Ranking := (t: UaNodeId) => Some(if t == VENDOR then 1 else 0);
      var x := I.Structure(id, map["range" := I.Structure(id, map[])]);
      && Acyclic(cache, rank) && PartOf(cache, env) && Loaded(cache, VENDOR, rank) && VendorOnly(cache)
      && Io2Ua(env, x, VENDOR).Success? && MeetsOtherType(cache, x, VENDOR)
      && Io2Ua(cache, x, VENDOR).Failure?
  {
    var cache, env := WithRange(false), WithRange(true);
    var rank: Ranking := (t: UaNodeId) => Some(if t == VENDOR then 1 else 0);
    var inner := I.Structure(id, map[]);
    var x := I.Structure(id, map["range" := inner]);
    var f := Field("range", RANGE, true);
    assert Acyclic(cache, rank) && Loaded(cache, VENDOR, rank);
    assert f in cache.definitions[VENDOR].children && !IsVendorStructure(cache, RANGE);
    assert MeetsOtherType(cache, inner, RANGE) && MeetsOtherType(cache, x, VENDOR);
    assert Io2Ua(env, inner, RANGE) == Structure2Ua(env, inner, RANGE) == Success(Struct(RANGE, map[]));
    assert [f][..0] == [];
    assert CollectFields([f], x.fields.Keys, Field2Ua(env, x)).Success?;
    assert Io2Ua(env, x, VENDOR) == Structure2Ua(env, x, VENDOR);
    PreloadedExactlyBack(cache, env, x, VENDOR, rank);
    ConvertsFromCacheBack(cache, env, x, VENDOR);
  }
}
