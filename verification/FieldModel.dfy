/** The model of the fields of all data types in use, from which values of unknown kind get their
    scalar type. Client and data provider build it in the same way. */
module FieldModels {
  import opened Wrappers
  import opened CTypes
  import opened NodeIds
  import opened UaValues
  import opened ParamIds
  import opened Reachability
  import S = SuperTypes

  /** `ModelType`: the number of a type of namespace 0, or the key of another type. */
  datatype ModelType = Type(t: int) | Ref(ref: string)
  {
    /** The text field, which is empty for a type number. */
    function Text(): string {
      if Ref? then ref else ""
    }
  }

  // the default type number, for which the type is guessed from the value
  const UNKNOWN := -99

  type Model = map<string, map<string, ModelType>>

  /** Type ids are numeric or texts without NUL. */
  predicate Plain(t: UaNodeId) {
    t.id.Numeric? || (t.id.Text? && NulFree(t.id.s))
  }

  function ParamIdOf(t: UaNodeId): ParamId {
    ParamId(t.ns, match t.id case Numeric(n) => Number(n) case Text(s) => Name(s) case _ => Name(""))
  }

  function Key(t: UaNodeId): string {
    ToString(ParamIdOf(t))
  }

  lemma KeyInjective(s: UaNodeId, t: UaNodeId)
    requires Plain(s) && Plain(t)
    ensures Key(s) == Key(t) <==> s == t
  {
    PrintedAlike(ParamIdOf(s), ParamIdOf(t));
  }

  function TypeOrRef(t: UaNodeId): ModelType {
    if t.ns != 0 then Ref(Key(t)) else Type(t.IdentifierNumeric())
  }

  function ChildrenOf(env: TypeEnv, t: UaNodeId): seq<Field> {
    if t in env.definitions then env.definitions[t].children else []
  }

  function FieldTypes(children: seq<Field>): map<string, ModelType> {
    if children == [] then map[]
    else
      var child := children[|children| - 1];
      FieldTypes(children[..|children| - 1])[child.name := TypeOrRef(child.typeId)]
  }

  /** The top of the chain of super types, or the type itself if it has none. */
  function Root(env: TypeEnv, t: UaNodeId): UaNodeId {
    if t in env.superTypes && env.superTypes[t] != [] then env.superTypes[t][|env.superTypes[t]| - 1] else t
  }

  function OwnType(env: TypeEnv, t: UaNodeId): ModelType {
    if Root(env, t) != t then TypeOrRef(Root(env, t))
    else if t.id.Numeric? then Type(t.id.n)
    else Type(UNKNOWN)
  }

  /** What the model says of a type. */
  function EntryOf(env: TypeEnv, t: UaNodeId): map<string, ModelType> {
    if ChildrenOf(env, t) != [] then FieldTypes(ChildrenOf(env, t)) else map[Key(t) := OwnType(env, t)]
  }

  /** The types that the model of t is built from. */
  ghost predicate Needs(env: TypeEnv, t: UaNodeId, s: UaNodeId) {
    && s.ns != 0
    && if ChildrenOf(env, t) != [] then exists f :: f in ChildrenOf(env, t) && f.typeId == s
       else s == Root(env, t) && s != t
  }

  /** What a ranked type needs is of lower rank. */
  ghost predicate Acyclic(env: TypeEnv, rank: Ranking) {
    forall t, s | rank(t).Some? && Needs(env, t, s) :: Lower(rank, s, t)
  }

  /** Ranked types have plain ids and are not their own super types. */
  ghost predicate PlainTypes(env: TypeEnv, rank: Ranking) {
    forall t | rank(t).Some? :: Plain(t) && (t in env.superTypes ==> t !in env.superTypes[t])
  }

  /** The super types of all childless types that are needed can be read. */
  ghost predicate Available(env: TypeEnv, t: UaNodeId, rank: Ranking)
    requires Acyclic(env, rank)
    decreases Height(rank, t)
  {
    && rank(t).Some?
    && (ChildrenOf(env, t) == [] ==> t in env.superTypes)
    && forall s | Needs(env, t, s) :: Available(env, s, rank)
  }

  ghost function NeedsStep(env: TypeEnv): (UaNodeId, UaNodeId) -> bool {
    (t: UaNodeId, s: UaNodeId) => Needs(env, t, s)
  }

  /** The model of a type can be built exactly if, of all types that it needs directly or indirectly,
      the super types of those without fields can be read. */
  lemma {:induction false} AvailableIsReadable(env: TypeEnv, t: UaNodeId, rank: Ranking)
    requires Acyclic(env, rank) && rank(t).Some?
    ensures Available(env, t, rank) <==>
      forall s | Reaches(NeedsStep(env), t, s) :: ChildrenOf(env, s) != [] || s in env.superTypes
    decreases Height(rank, t)
  {
    if Available(env, t, rank) {
      var available: UaNodeId -> bool := (x: UaNodeId) => Available(env, x, rank);
      forall s | Reaches(NeedsStep(env), t, s)
        ensures ChildrenOf(env, s) != [] || s in env.superTypes
      {
        ClosedReach(NeedsStep(env), available, t, s);
      }
    }
    if forall s | Reaches(NeedsStep(env), t, s) :: ChildrenOf(env, s) != [] || s in env.superTypes {
      ReachesSelf(NeedsStep(env), t);
      forall s | Needs(env, t, s)
        ensures Available(env, s, rank)
      {
        assert NeedsStep(env)(t, s);
        forall u | Reaches(NeedsStep(env), s, u)
          ensures ChildrenOf(env, u) != [] || u in env.superTypes
        {
          ReachesStep(NeedsStep(env), t, s, u);
        }
        AvailableIsReadable(env, s, rank);
      }
    }
  }

  /** A reference to a type that is not in the model. */
  ghost predicate Dangles(m: Model, r: string) {
    r !in m && exists k, n :: k in m && n in m[k] && m[k][n] == Ref(r)
  }

  /** Every type in the model has its entry. */
  ghost predicate Faithful(env: TypeEnv, rank: Ranking, m: Model)
    requires Acyclic(env, rank)
  {
    forall t | rank(t).Some? && Key(t) in m :: m[Key(t)] == EntryOf(env, t) && Available(env, t, rank)
  }

  /** Nothing is lost or changed, and no reference is newly left dangling. */
  ghost predicate Grows(before: Model, after: Model) {
    && (forall k | k in before :: k in after && after[k] == before[k])
    && forall r | Dangles(after, r) :: Dangles(before, r)
  }

  /** A field's type is of namespace 0 or in the model. */
  ghost predicate Known(env: TypeEnv, rank: Ranking, m: Model, f: Field)
    requires Acyclic(env, rank)
  {
    f.typeId.ns != 0 ==> Key(f.typeId) in m && Available(env, f.typeId, rank)
  }

  lemma {:induction false} FieldTypesRefs(children: seq<Field>, n: string)
    requires n in FieldTypes(children)
    ensures exists f :: f in children && f.name == n && FieldTypes(children)[n] == TypeOrRef(f.typeId)
  {
    var child := children[|children| - 1];
    if n == child.name {
      assert child in children;
    } else {
      FieldTypesRefs(children[..|children| - 1], n);
    }
  }

  /** What an entry refers to is needed. */
  lemma EntryRefs(env: TypeEnv, t: UaNodeId, n: string)
    requires n in EntryOf(env, t) && EntryOf(env, t)[n].Ref?
    ensures exists s :: Needs(env, t, s) && EntryOf(env, t)[n] == Ref(Key(s))
  {
    if ChildrenOf(env, t) != [] {
      FieldTypesRefs(ChildrenOf(env, t), n);
      var f :| f in ChildrenOf(env, t) && EntryOf(env, t)[n] == TypeOrRef(f.typeId);
      assert TypeOrRef(f.typeId).Ref?;
      assert f.typeId.ns != 0;
      assert Needs(env, t, f.typeId);
    } else {
      assert Needs(env, t, Root(env, t));
    }
  }

  /** Adding an entry all of whose references are in the model leaves nothing new dangling. */
  lemma AddedEntry(env: TypeEnv, t: UaNodeId, m: Model, m': Model)
    requires m' == m[Key(t) := EntryOf(env, t)]
    requires forall s | Needs(env, t, s) :: Key(s) in m
    ensures forall r | Dangles(m', r) :: Dangles(m, r)
  {
    forall r | Dangles(m', r)
      ensures Dangles(m, r)
    {
      var k, n :| k in m' && n in m'[k] && m'[k][n] == Ref(r);
      if k == Key(t) {
        EntryRefs(env, t, n);
      }
    }
  }

  lemma NeedsChild(env: TypeEnv, t: UaNodeId, j: nat)
    requires j < |ChildrenOf(env, t)| && ChildrenOf(env, t)[j].typeId.ns != 0
    ensures Needs(env, t, ChildrenOf(env, t)[j].typeId)
  {
    assert ChildrenOf(env, t)[j] in ChildrenOf(env, t);
  }

  lemma GrowsOn(a: Model, b: Model, c: Model)
    requires Grows(a, b) && Grows(b, c)
    ensures Grows(a, c)
  {
  }

  ghost predicate AllKnown(env: TypeEnv, rank: Ranking, m: Model, children: seq<Field>)
    requires Acyclic(env, rank)
  {
    forall f | f in children :: Known(env, rank, m, f)
  }

  lemma OneMoreChild(env: TypeEnv, rank: Ranking, m: Model, m': Model, children: seq<Field>, j: nat)
    requires Acyclic(env, rank) && j < |children| && Grows(m, m')
    requires AllKnown(env, rank, m, children[..j]) && Known(env, rank, m', children[j])
    ensures AllKnown(env, rank, m', children[..j + 1])
    ensures FieldTypes(children[..j + 1]) ==
      FieldTypes(children[..j])[children[j].name := TypeOrRef(children[j].typeId)]
  {
    assert children[..j + 1] == children[..j] + [children[j]];
    assert children[..j + 1][..j] == children[..j];
  }

  lemma ChildrenKnown(env: TypeEnv, rank: Ranking, m: Model, t: UaNodeId)
    requires Acyclic(env, rank) && rank(t).Some? && ChildrenOf(env, t) != []
    requires AllKnown(env, rank, m, ChildrenOf(env, t))
    ensures Available(env, t, rank) && forall s | Needs(env, t, s) :: Key(s) in m
  {
    forall s | Needs(env, t, s)
      ensures Available(env, s, rank) && Key(s) in m
    {
      var f :| f in ChildrenOf(env, t) && f.typeId == s;
    }
  }

  class FieldModel {
    // type information of the session or of the node browser
    const env: TypeEnv
    // ranks for the types in use, which show that they do not need themselves
    ghost const rank: Ranking
    var fields: Model

    ghost predicate Valid()
      reads this
    {
      Acyclic(env, rank) && PlainTypes(env, rank) && Faithful(env, rank, fields)
    }

    constructor (env: TypeEnv, ghost rank: Ranking)
      requires Acyclic(env, rank) && PlainTypes(env, rank)
      ensures Valid() && fields == map[] && this.env == env && this.rank == rank
    {
      this.env, this.rank, fields := env, rank, map[];
    }

    /** Adds a type after everything it needs. It fails exactly when the super types of a type
        that is needed cannot be read; even then no reference is left dangling. */
    method FindFieldModel(start: UaNodeId) returns (changed: Result<bool>)
      requires Valid() && rank(start).Some?
      modifies this
      ensures Valid() && Grows(old(fields), fields)
      ensures changed.Success? <==> Available(env, start, rank)
      ensures changed.Success? ==> changed.value == (Key(start) !in old(fields))
      ensures changed.Success? ==> Key(start) in fields && fields[Key(start)] == EntryOf(env, start)
      decreases Height(rank, start), 2
    {
      if Key(start) in fields {
        return Success(false);
      }
      var values: Result<map<string, ModelType>>;
      if |ChildrenOf(env, start)| > 0 {
        values := FindChildren(start);
      } else {
        values := FindOwnType(start);
      }
      if values.Failure? {
        return Failure;
      }
      Insert(start, values.value);
      return Success(true);
    }

    /** The entry of a type with children. */
    method FindChildren(start: UaNodeId) returns (values: Result<map<string, ModelType>>)
      requires Valid() && rank(start).Some? && ChildrenOf(env, start) != []
      modifies this
      ensures Valid() && Grows(old(fields), fields)
      ensures values.Success? <==> Available(env, start, rank)
      ensures values.Success? ==>
        values.value == EntryOf(env, start) && forall s | Needs(env, start, s) :: Key(s) in fields
      decreases Height(rank, start), 1
    {
      var children := ChildrenOf(env, start);
      var found: map<string, ModelType> := map[];
      for j := 0 to |children|
        invariant Valid() && Grows(old(fields), fields)
        invariant found == FieldTypes(children[..j])
        invariant AllKnown(env, rank, fields, children[..j])
      {
        ghost var before := fields;
        var t := FindChild(start, j);
        if t.Failure? {
          return Failure;
        }
        GrowsOn(old(fields), before, fields);
        OneMoreChild(env, rank, before, fields, children, j);
        found := found[children[j].name := t.value];
      }
      assert children[..|children|] == children;
      ChildrenKnown(env, rank, fields, start);
      return Success(found);
    }

    /** The type of one child, which is added to the model if it needs to be. */
    method FindChild(start: UaNodeId, j: nat) returns (t: Result<ModelType>)
      requires Valid() && rank(start).Some? && j < |ChildrenOf(env, start)|
      modifies this
      ensures Valid() && Grows(old(fields), fields)
      ensures t.Failure? ==> !Available(env, start, rank)
      ensures t.Success? ==>
        t.value == TypeOrRef(ChildrenOf(env, start)[j].typeId) && Known(env, rank, fields, ChildrenOf(env, start)[j])
      decreases Height(rank, start), 0
    {
      var sf := ChildrenOf(env, start)[j];
      if sf.typeId.ns != 0 {
        NeedsChild(env, start, j);
        var changed := FindFieldModel(sf.typeId);
        if changed.Failure? {
          return Failure;
        }
      }
      return Success(TypeOrRef(sf.typeId));
    }

    /** The entry of a type without children. */
    method FindOwnType(start: UaNodeId) returns (values: Result<map<string, ModelType>>)
      requires Valid() && rank(start).Some? && ChildrenOf(env, start) == []
      modifies this
      ensures Valid() && Grows(old(fields), fields)
      ensures values.Success? <==> Available(env, start, rank)
      ensures values.Success? ==>
        values.value == EntryOf(env, start) && forall s | Needs(env, start, s) :: Key(s) in fields
      decreases Height(rank, start), 0
    {
      if start !in env.superTypes {
        return Failure;
      }
      var superTypes := env.superTypes[start];
      var t: ModelType;
      if |superTypes| > 0 {
        var back := superTypes[|superTypes| - 1];
        assert back in superTypes && back == Root(env, start);
        if back.ns != 0 {
          assert Needs(env, start, back);
          var changed := FindFieldModel(back);
          if changed.Failure? {
            return Failure;
          }
        }
        t := TypeOrRef(back);
      } else {
        t := Type(if start.id.Numeric? then start.id.n else UNKNOWN);
      }
      return Success(map[Key(start) := t]);
    }

    method Insert(start: UaNodeId, values: map<string, ModelType>)
      requires Valid() && rank(start).Some? && values == EntryOf(env, start)
      requires Available(env, start, rank) && forall s | Needs(env, start, s) :: Key(s) in fields
      modifies this
      ensures Valid() && Grows(old(fields), fields) && fields == old(fields)[Key(start) := values]
    {
      ghost var before := fields;
      fields := fields[Key(start) := values];
      AddedEntry(env, start, before, fields);
      forall t | rank(t).Some?
        ensures Key(t) == Key(start) ==> t == start
      {
        KeyInjective(t, start);
      }
    }

    /** What `checkModel` does for a method's argument or for a variable: the node refers to the
        data type. The reference is entered before the type, so it dangles if that fails. */
    method EnterAndFind(p: ParamId, name: string, dataType: UaNodeId) returns (ok: bool)
      requires Valid() && rank(dataType).Some? && IsNode(rank, p)
      modifies this
      ensures Valid() && ok == Available(env, dataType, rank)
      ensures forall k | k in old(fields) :: k in fields
      ensures NodeEntry(fields, p) == NodeEntry(old(fields), p)[name := Ref(Key(dataType))]
      ensures forall r | Dangles(fields, r) :: Dangles(old(fields), r) || (!ok && r == Key(dataType))
      ensures ok ==> Key(dataType) in fields
    {
      Enter(p, name, dataType);
      var changed := FindFieldModel(dataType);
      ok := changed.Success?;
    }

    method Enter(p: ParamId, name: string, dataType: UaNodeId)
      requires Valid() && IsNode(rank, p)
      modifies this
      ensures Valid()
      ensures fields == old(fields)[ToString(p) := NodeEntry(old(fields), p)[name := Ref(Key(dataType))]]
      ensures forall r | Dangles(fields, r) :: Dangles(old(fields), r) || r == Key(dataType)
    {
      fields := fields[ToString(p) := NodeEntry(fields, p)[name := Ref(Key(dataType))]];
    }

    /** `checkModel` for a call. */
    method CheckCall(p: ParamId, inputArgs: seq<Argument>) returns (names: Result<seq<string>>)
      requires Valid() && IsNode(rank, p) && forall i | 0 <= i < |inputArgs| :: rank(inputArgs[i].dataType).Some?
      modifies this
      ensures Valid()
      ensures names.Failure? ==> exists i | 0 <= i < |inputArgs| :: !Available(env, inputArgs[i].dataType, rank)
      ensures names.Success? ==> AllFound(env, rank, fields, inputArgs)
      ensures names.Success? ==> forall r | Dangles(fields, r) :: Dangles(old(fields), r)
      ensures names.Success? ==>
        && names.value == NamesOf(inputArgs)
        && NodeEntry(fields, p) == WithArguments(NodeEntry(old(fields), p), inputArgs)
    {
      var found: seq<string> := [];
      for i := 0 to |inputArgs|
        invariant Valid()
        invariant found == NamesOf(inputArgs[..i])
        invariant forall r | Dangles(fields, r) :: Dangles(old(fields), r)
        invariant AllFound(env, rank, fields, inputArgs[..i])
        invariant NodeEntry(fields, p) == WithArguments(NodeEntry(old(fields), p), inputArgs[..i])
      {
        found := found + [inputArgs[i].name];
        ghost var before := fields;
        var ok := EnterAndFind(p, inputArgs[i].name, inputArgs[i].dataType);
        if !ok {
          return Failure;
        }
        OneMoreArgument(env, rank, before, fields, p, inputArgs, i);
      }
      assert inputArgs[..|inputArgs|] == inputArgs;
      return Success(found);
    }

    /** `checkModel` for reading and writing. */
    method CheckVariable(p: ParamId, dataType: UaNodeId) returns (names: Result<seq<string>>)
      requires Valid() && rank(dataType).Some? && IsNode(rank, p)
      modifies this
      ensures Valid()
      ensures names == if Available(env, dataType, rank) then Success([Key(dataType)]) else Failure
      ensures forall r | Dangles(fields, r) :: Dangles(old(fields), r) || (names.Failure? && r == Key(dataType))
      ensures NodeEntry(fields, p) == NodeEntry(old(fields), p)[Key(dataType) := Ref(Key(dataType))]
      ensures names.Success? ==> Key(dataType) in fields
    {
      var ok := EnterAndFind(p, Key(dataType), dataType);
      return if ok then Success([Key(dataType)]) else Failure;
    }
  }

  /** The id of a node that is not a data type. */
  ghost predicate IsNode(rank: Ranking, p: ParamId) {
    forall t | rank(t).Some? :: Key(t) != ToString(p)
  }

  datatype Argument = Argument(name: string, dataType: UaNodeId)

  function NamesOf(args: seq<Argument>): seq<string> {
    seq(|args|, i requires 0 <= i < |args| => args[i].name)
  }

  function NodeEntry(m: Model, p: ParamId): map<string, ModelType> {
    if ToString(p) in m then m[ToString(p)] else map[]
  }

  /** Of arguments with the same name the last one stays. */
  function WithArguments(entry: map<string, ModelType>, args: seq<Argument>): map<string, ModelType> {
    if args == [] then entry
    else
      var a := args[|args| - 1];
      WithArguments(entry, args[..|args| - 1])[a.name := Ref(Key(a.dataType))]
  }

  /** All arguments' types are in the model. */
  ghost predicate AllFound(env: TypeEnv, rank: Ranking, m: Model, args: seq<Argument>)
    requires Acyclic(env, rank)
  {
    forall a | a in args :: Key(a.dataType) in m && Available(env, a.dataType, rank)
  }

  lemma OneMoreArgument(env: TypeEnv, rank: Ranking, m: Model, m': Model, p: ParamId, args: seq<Argument>,
      i: nat)
    requires Acyclic(env, rank) && i < |args| && AllFound(env, rank, m, args[..i]) && forall k | k in m :: k in m'
    requires Key(args[i].dataType) in m' && Available(env, args[i].dataType, rank)
    ensures AllFound(env, rank, m', args[..i + 1])
    ensures NamesOf(args[..i + 1]) == NamesOf(args[..i]) + [args[i].name]
    ensures forall entry ::
      (WithArguments(entry, args[..i + 1]) ==
       WithArguments(entry, args[..i])[args[i].name := Ref(Key(args[i].dataType))])
  {
    assert args[..i + 1] == args[..i] + [args[i]];
    assert args[..i + 1][..i] == args[..i];
  }

  // ---- resolution ----

  /** `Native2J::getDataTypeFromModel`. */
  function GetDataTypeFromModel(m: Model, key: string, t: ModelType): ModelType {
    if t.Ref? && t.ref in m && key != "" && key in m[t.ref] then m[t.ref][key]
    else if t.Ref? && t.ref in m && t.ref in m[t.ref] then m[t.ref][t.ref]
    else t
  }

  /** The number of the type of namespace 0 as which a scalar of the type is read, if it is not
      guessed from the value. */
  ghost function Meaning(env: TypeEnv, t: UaNodeId, rank: Ranking): Option<int>
    requires Acyclic(env, rank) && NoSelfNamed(env) && rank(t).Some?
    decreases Height(rank, t)
  {
    if ChildrenOf(env, t) != [] then None
    else match OwnType(env, t)
      case Type(n) => if n == UNKNOWN then None else Some(n)
      case Ref(_) =>
        assert Needs(env, t, Root(env, t));
        Meaning(env, Root(env, t), rank)
  }

  /** No field of a structure is named like the key of the structure's type. */
  ghost predicate NoSelfNamed(env: TypeEnv) {
    forall t | t in env.definitions :: forall f | f in env.definitions[t].children :: f.name != Key(t)
  }

  /** What the model says of a type itself. */
  lemma SelfLookup(env: TypeEnv, t: UaNodeId, m: Model)
    requires NoSelfNamed(env) && Key(t) in m && m[Key(t)] == EntryOf(env, t)
    ensures GetDataTypeFromModel(m, Key(t), Ref(Key(t))) ==
      if ChildrenOf(env, t) != [] then Ref(Key(t)) else OwnType(env, t)
  {
    var children := ChildrenOf(env, t);
    if children != [] && Key(t) in FieldTypes(children) {
      FieldTypesRefs(children, Key(t));
      assert false;
    }
  }

  /** The last field of a name. */
  predicate IsLastField(children: seq<Field>, name: string, i: int) {
    0 <= i < |children| && children[i].name == name && forall j | i < j < |children| :: children[j].name != name
  }

  /** The entry of a structure gives a name the type of the last field of that name: the number of a
      type of namespace 0, or a reference to another type. */
  lemma {:induction false} FieldTypesMeaning(children: seq<Field>, name: string, i: int)
    requires IsLastField(children, name, i)
    ensures name in FieldTypes(children)
    ensures var t := children[i].typeId;
      FieldTypes(children)[name] == if t.ns == 0 then Type(t.IdentifierNumeric()) else Ref(Key(t))
  {
    var n := |children| - 1;
    if i < n {
      FieldTypesMeaning(children[..n], name, i);
    }
  }

  /** What a key finds in the model for a data type: by the name of a field the type of that field,
      by any other key the type itself; a type without fields is resolved to its own type. */
  lemma TypeLookup(env: TypeEnv, t: UaNodeId, m: Model, name: string)
    requires NoSelfNamed(env) && Key(t) in m && m[Key(t)] == EntryOf(env, t)
    ensures ChildrenOf(env, t) == [] ==> GetDataTypeFromModel(m, name, Ref(Key(t))) == OwnType(env, t)
    ensures forall i | IsLastField(ChildrenOf(env, t), name, i) ::
      var s := ChildrenOf(env, t)[i].typeId;
      GetDataTypeFromModel(m, name, Ref(Key(t))) ==
        if name == "" then Ref(Key(t)) else if s.ns == 0 then Type(s.IdentifierNumeric()) else Ref(Key(s))
    ensures ChildrenOf(env, t) != [] && (forall f | f in ChildrenOf(env, t) :: f.name != name) ==>
      GetDataTypeFromModel(m, name, Ref(Key(t))) == Ref(Key(t))
  {
    var children := ChildrenOf(env, t);
    SelfLookup(env, t, m);
    if name in FieldTypes(children) {
      FieldTypesRefs(children, name);
    }
    forall i | IsLastField(children, name, i)
      ensures var s := children[i].typeId;
        && name in FieldTypes(children)
        && FieldTypes(children)[name] == if s.ns == 0 then Type(s.IdentifierNumeric()) else Ref(Key(s))
    {
      FieldTypesMeaning(children, name, i);
    }
  }

  /** The last argument of a name. */
  predicate IsLastArgument(args: seq<Argument>, name: string, i: int) {
    0 <= i < |args| && args[i].name == name && forall j | i < j < |args| :: args[j].name != name
  }

  /** The arguments of a call replace what the node's entry had under their names. */
  lemma ArgumentsEntered(entry: map<string, ModelType>, args: seq<Argument>, name: string, i: int)
    requires IsLastArgument(args, name, i)
    ensures name in WithArguments(entry, args)
    ensures WithArguments(entry, args)[name] == Ref(Key(args[i].dataType))
  {
    EnteredUpTo(entry, args, name, i, |args|);
    assert args[..|args|] == args;
  }

  lemma {:induction false} EnteredUpTo(entry: map<string, ModelType>, args: seq<Argument>, name: string, i: int, n: int)
    requires IsLastArgument(args, name, i) && i < n <= |args|
    ensures name in WithArguments(entry, args[..n])
    ensures WithArguments(entry, args[..n])[name] == Ref(Key(args[i].dataType))
  {
    assert args[..n][..n - 1] == args[..n - 1];
    if i < n - 1 {
      EnteredUpTo(entry, args, name, i, n - 1);
    }
  }

  /** They leave the other names alone. */
  lemma {:induction false} OthersStay(entry: map<string, ModelType>, args: seq<Argument>, name: string)
    requires name !in NamesOf(args)
    ensures name in WithArguments(entry, args) <==> name in entry
    ensures name in entry ==> WithArguments(entry, args)[name] == entry[name]
  {
    if args != [] {
      var n := |args| - 1;
      assert NamesOf(args)[n] == args[n].name;
      assert NamesOf(args) == NamesOf(args[..n]) + [args[n].name];
      OthersStay(entry, args[..n], name);
    }
  }

  /** After a call has been checked, an argument's name finds the argument's data type. */
  lemma ArgumentLookup(m: Model, p: ParamId, entry: map<string, ModelType>, args: seq<Argument>, i: nat)
    requires i < |args| && IsLastArgument(args, args[i].name, i) && args[i].name != ""
    requires NodeEntry(m, p) == WithArguments(entry, args)
    ensures GetDataTypeFromModel(m, args[i].name, Ref(ToString(p))) == Ref(Key(args[i].dataType))
  {
    ArgumentsEntered(entry, args, args[i].name, i);
  }

  /** The lookup in `Native2J::getScalarVariant`: `None` stands for guessing from the value. */
  method ResolveScalar(m: Model, t: ModelType, ghost env: TypeEnv, ghost start: UaNodeId,
      ghost rank: Ranking)
    returns (r: Option<int>)
    requires Acyclic(env, rank) && PlainTypes(env, rank) && Faithful(env, rank, m) && NoSelfNamed(env)
    requires forall ref :: !Dangles(m, ref)
    requires t.Ref? ==> rank(start).Some? && t == Ref(Key(start)) && Key(start) in m
    ensures r ==
      if t.Ref? then Meaning(env, start, rank) else if t.t == UNKNOWN then None else Some(t.t)
    decreases if t.Ref? then 1 + Height(rank, start) else 0
  {
    if t.Type? && t.t == UNKNOWN {
      return None;
    }
    if t.Type? {
      return Some(t.t);
    }
    var t2 := GetDataTypeFromModel(m, t.ref, t);
    SelfLookup(env, start, m);
    ghost var root := Root(env, start);
    if ChildrenOf(env, start) == [] && root.ns != 0 && root != start {
      assert Needs(env, start, root);
      KeyInjective(start, root);
    }
    assert |t.ref| > 0;
    if t.ref == t2.Text() {
      return None;
    }
    if t2.Ref? {
      assert EntryOf(env, start)[Key(start)] == t2;
      assert !Dangles(m, t2.ref);
      assert Needs(env, start, root);
    }
    r := ResolveScalar(m, t2, env, root, rank);
  }

  /** What the converters take as the built-in type of a scalar, if it is of namespace 0. */
  function StandardType(env: TypeEnv, t: UaNodeId): Option<int> {
    var b := BuildInType(env, t);
    if b.Success? && b.value.ns == 0 then Some(b.value.IdentifierNumeric()) else None
  }

  /** The list of super types goes up to namespace 0 or to a type without super types. */
  ghost predicate UpToTheTop(env: TypeEnv) {
    forall t | t in env.superTypes && env.superTypes[t] != [] ::
      var root := env.superTypes[t][|env.superTypes[t]| - 1];
      root.ns == 0 || (root in env.superTypes && env.superTypes[root] == [])
  }

  /** The lists that the session answers do. */
  lemma SessionAnswersUpToTheTop(env: TypeEnv, space: S.Space, rank: UaNodeId -> nat)
    requires S.Acyclic(space, rank) && S.AnswersFrom(env, space, rank)
    ensures UpToTheTop(env)
  {
    forall t | t in env.superTypes && env.superTypes[t] != []
      ensures Root(env, t).ns == 0 || (Root(env, t) in env.superTypes && env.superTypes[Root(env, t)] == [])
    {
      S.ChainEndsAtTheTop(space, t, rank);
      assert S.Chain(space, t, true, rank) == Success(env.superTypes[t]);
      assert S.Chain(space, Root(env, t), true, rank) == Success([]);
    }
  }

  /** For a type that is no structure, the field model and the converters agree on the built-in
      type exactly when the super types reach namespace 0, or end at a type whose id is not a
      number or which has fields. */
  lemma ModelAgreesWithConverters(env: TypeEnv, t: UaNodeId, rank: Ranking)
    requires Acyclic(env, rank) && NoSelfNamed(env) && UpToTheTop(env) && rank(t).Some?
    requires t.ns != 0 && t in env.superTypes && t !in env.superTypes[t] && ChildrenOf(env, t) == []
    ensures Meaning(env, t, rank) == StandardType(env, t) <==>
      var root := Root(env, t);
      root.ns == 0 || !root.id.Numeric? || ChildrenOf(env, root) != []
  {
    var root := Root(env, t);
    if env.superTypes[t] != [] {
      assert root in env.superTypes[t];
    }
  }

  /** Otherwise the number of a type outside namespace 0 is taken for the number of a standard
      type: here that of a vendor type for `Int32`. */
  lemma VendorTypeTakenForInt32()
    ensures exists env: TypeEnv, t: UaNodeId, rank: Ranking ::
      && Acyclic(env, rank) && NoSelfNamed(env) && UpToTheTop(env) && t.ns != 0 && t in env.superTypes
      && rank(t).Some?
      && Meaning(env, t, rank) == Some(INT32) && StandardType(env, t) == None
  {
    var t := UaNodeId(2, Numeric(INT32));
    var env := TypeEnv(map[t := []], map[]);
    var rank: Ranking := _ => Some(0);
    assert Acyclic(env, rank);
    assert Meaning(env, t, rank) == Some(INT32);
  }
}
