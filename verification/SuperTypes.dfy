/** The super types of a type, as the client's session and the server's node browser list them. */
module SuperTypes {
  import opened Wrappers
  import opened NodeIds
  import opened UaValues
  import opened Reachability

  /** What browsing the inverse HasSubtype references of a node gives. */
  datatype Entry = Missing | NotBrowsable | Node(superTypes: seq<UaNodeId>)

  type Space = UaNodeId -> Entry

  /** No type is above itself. */
  ghost predicate Acyclic(space: Space, rank: UaNodeId -> nat) {
    forall t, s | space(t).Node? && s in space(t).superTypes :: rank(s) < rank(t)
  }

  predicate SingleInheritance(space: Space, t: UaNodeId) {
    space(t).Node? ==> |space(t).superTypes| <= 1
  }

  /** Both walks list all super types of a node and go on from the last one. */
  ghost predicate Follows(space: Space, t: UaNodeId, s: UaNodeId) {
    t.ns != 0 && space(t).Node? && space(t).superTypes != [] && s == space(t).superTypes[|space(t).superTypes| - 1]
  }

  ghost function Followed(space: Space): (UaNodeId, UaNodeId) -> bool {
    (t: UaNodeId, s: UaNodeId) => Follows(space, t, s)
  }

  /** The chain of a walk that either stops at a missing node or fails there. */
  ghost function Chain(space: Space, t: UaNodeId, missingFails: bool, rank: UaNodeId -> nat): Result<seq<UaNodeId>>
    requires Acyclic(space, rank)
    decreases rank(t)
  {
    if t.ns == 0 then Success([])
    else match space(t)
      case Missing => if missingFails then Failure else Success([])
      case NotBrowsable => Failure
      case Node(supers) =>
        if supers == [] then Success([])
        else
          var rest :- Chain(space, supers[|supers| - 1], missingFails, rank);
          Success(supers + rest)
  }

  /** `HaSession::getSuperTypes`: the server refuses to browse a missing node. */
  method GetSuperTypesBySession(server: Space, typeId: UaNodeId, ghost rank: UaNodeId -> nat)
    returns (r: Result<seq<UaNodeId>>)
    requires Acyclic(server, rank)
    ensures r == Chain(server, typeId, true, rank)
  {
    var ret: seq<UaNodeId> := [];
    var nodeId := Some(typeId);
    ghost var rest := Chain(server, typeId, true, rank);
    PrefixedTwice([], [], rest);
    while nodeId.Some? && nodeId.value.ns != 0
      invariant rest == if nodeId.None? then Success([]) else Chain(server, nodeId.value, true, rank)
      invariant Chain(server, typeId, true, rank) == Prefixed(ret, rest)
      decreases if nodeId.Some? then 1 + rank(nodeId.value) else 0
    {
      var entry := server(nodeId.value);
      if !entry.Node? {
        return Failure;
      }
      var supers := entry.superTypes;
      ChainOfNode(server, nodeId.value, true, ret, rank);
      rest := if supers == [] then Success([]) else Chain(server, supers[|supers| - 1], true, rank);
      ret := ret + supers;
      if supers != [] {
        nodeId := Some(supers[|supers| - 1]);
      } else {
        nodeId := None;
      }
    }
    PrefixedTwice(ret, [], rest);
    return Success(ret);
  }

  ghost function Prefixed(prefix: seq<UaNodeId>, rest: Result<seq<UaNodeId>>): Result<seq<UaNodeId>> {
    if rest.Success? then Success(prefix + rest.value) else Failure
  }

  lemma PrefixedTwice(a: seq<UaNodeId>, b: seq<UaNodeId>, rest: Result<seq<UaNodeId>>)
    ensures Prefixed([], rest) == rest && Prefixed(a, Success([])) == Success(a)
    ensures Prefixed(a, Prefixed(b, rest)) == Prefixed(a + b, rest)
  {
    assert a + [] == a;
    if rest.Success? {
      assert [] + rest.value == rest.value;
      assert a + (b + rest.value) == (a + b) + rest.value;
    }
  }

  /** One round of the loop: the chain of a node is its super types and the chain of the last one. */
  lemma ChainOfNode(space: Space, t: UaNodeId, missingFails: bool, ret: seq<UaNodeId>, rank: UaNodeId -> nat)
    requires Acyclic(space, rank) && t.ns != 0 && space(t).Node?
    ensures var supers := space(t).superTypes;
      (supers != [] ==> rank(supers[|supers| - 1]) < rank(t)) &&
      Prefixed(ret, Chain(space, t, missingFails, rank)) ==
        Prefixed(ret + supers,
          if supers == [] then Success([]) else Chain(space, supers[|supers| - 1], missingFails, rank))
  {
    var supers := space(t).superTypes;
    var rest := if supers == [] then Success([]) else Chain(space, supers[|supers| - 1], missingFails, rank);
    PrefixedTwice(ret, supers, rest);
    PrefixedTwice(supers, [], rest);
    assert Chain(space, t, missingFails, rank) == Prefixed(supers, rest);
  }

  /** The server's node managers, each with the nodes of one namespace. */
  datatype Manager = Manager(ns: nat, nodes: map<UaNodeId, Option<seq<UaNodeId>>>)

  datatype Managers = Managers(root: Manager, own: Manager, associated: Option<seq<Manager>>)

  function Entries(m: Manager, id: UaNodeId): Entry {
    if id !in m.nodes then Missing else match m.nodes[id] case None => NotBrowsable case Some(s) => Node(s)
  }

  function FirstOf(managers: seq<Manager>, ns: nat): Option<Manager> {
    if managers == [] then None
    else if managers[0].ns == ns then Some(managers[0])
    else FirstOf(managers[1..], ns)
  }

  /** The manager that is responsible for a namespace. */
  function ManagerOf(m: Managers, ns: nat): Option<Manager> {
    if ns == 0 then Some(m.root)
    else if m.own.ns == ns then Some(m.own)
    else if m.associated.Some? then FirstOf(m.associated.value, ns)
    else None
  }

  function SpaceOf(m: Managers): Space {
    (id: UaNodeId) => match ManagerOf(m, id.ns) case None => Missing case Some(manager) => Entries(manager, id)
  }

  method GetNodeManagerUaNode(m: Managers, nodeId: UaNodeId) returns (r: Option<Manager>)
    ensures r == ManagerOf(m, nodeId.ns)
  {
    if nodeId.ns == 0 {
      return Some(m.root);
    }
    if m.own.ns == nodeId.ns {
      return Some(m.own);
    }
    if m.associated.Some? {
      var managers := m.associated.value;
      for i := 0 to |managers|
        invariant FirstOf(managers, nodeId.ns) == FirstOf(managers[i..], nodeId.ns)
      {
        if managers[i].ns == nodeId.ns {
          return Some(managers[i]);
        }
      }
    }
    return None;
  }

  method GetNode(m: Managers, nodeId: UaNodeId) returns (r: Entry)
    ensures r == SpaceOf(m)(nodeId)
  {
    var manager := GetNodeManagerUaNode(m, nodeId);
    return if manager.None? then Missing else Entries(manager.value, nodeId);
  }

  // ---- What the node managers answer ----

  /** The manager is one of those of the server that may be asked for the namespace. */
  predicate Serves(m: Managers, manager: Manager, ns: nat) {
    if ns == 0 then manager == m.root
    else manager.ns == ns && (manager == m.own || (m.associated.Some? && manager in m.associated.value))
  }

  /** The first manager of a namespace in a list. */
  predicate IsFirst(managers: seq<Manager>, ns: nat, i: int) {
    0 <= i < |managers| && managers[i].ns == ns && forall j | 0 <= j < i :: managers[j].ns != ns
  }

  lemma {:induction false} FirstFound(managers: seq<Manager>, ns: nat)
    ensures FirstOf(managers, ns).None? ==> forall manager | manager in managers :: manager.ns != ns
    ensures FirstOf(managers, ns).Some? ==>
      FirstOf(managers, ns).value in managers && FirstOf(managers, ns).value.ns == ns
    ensures forall i | IsFirst(managers, ns, i) :: FirstOf(managers, ns) == Some(managers[i])
  {
    if managers != [] {
      FirstFound(managers[1..], ns);
      assert managers == [managers[0]] + managers[1..];
      forall i | IsFirst(managers, ns, i)
        ensures FirstOf(managers, ns) == Some(managers[i])
      {
        assert i > 0 ==> managers[0].ns != ns && IsFirst(managers[1..], ns, i - 1);
      }
    }
  }

  /** A manager that serves the namespace is found if there is one: the root for namespace 0, for any
      other namespace the own manager, or else the first associated one of that namespace. */
  lemma ManagerServes(m: Managers, ns: nat)
    ensures ManagerOf(m, ns).Some? ==> Serves(m, ManagerOf(m, ns).value, ns)
    ensures ManagerOf(m, ns).None? <==> forall manager :: !Serves(m, manager, ns)
    ensures ns != 0 && m.own.ns == ns ==> ManagerOf(m, ns) == Some(m.own)
    ensures ns != 0 && m.own.ns != ns && m.associated.Some? ==>
      forall i | IsFirst(m.associated.value, ns, i) :: ManagerOf(m, ns) == Some(m.associated.value[i])
  {
    if m.associated.Some? {
      FirstFound(m.associated.value, ns);
    }
    if ManagerOf(m, ns).Some? {
      assert Serves(m, ManagerOf(m, ns).value, ns);
    }
  }

  /** A namespace has one manager. */
  predicate OneManagerEach(m: Managers) {
    m.associated.Some? ==>
      && (forall i | 0 <= i < |m.associated.value| :: m.associated.value[i].ns != m.own.ns)
      && forall i, j | 0 <= i < j < |m.associated.value| :: m.associated.value[i].ns != m.associated.value[j].ns
  }

  /** A node is then what the one manager of its namespace holds for it: it is missing if nothing is
      held or if there is no such manager, and shows the super types that are held. */
  lemma SpaceIsHeld(m: Managers, id: UaNodeId, manager: Manager)
    requires OneManagerEach(m)
    ensures Serves(m, manager, id.ns) ==>
      && (SpaceOf(m)(id).Missing? <==> id !in manager.nodes)
      && forall s :: SpaceOf(m)(id) == Node(s) <==> id in manager.nodes && manager.nodes[id] == Some(s)
    ensures (forall other :: !Serves(m, other, id.ns)) ==> SpaceOf(m)(id) == Missing
  {
    ManagerServes(m, id.ns);
  }

  /** `NodeBrowser::getSuperTypes`: the walk ends at a node that is not found. */
  method GetSuperTypesByBrowser(m: Managers, typeId: UaNodeId, ghost rank: UaNodeId -> nat)
    returns (r: Result<seq<UaNodeId>>)
    requires Acyclic(SpaceOf(m), rank)
    ensures r == Chain(SpaceOf(m), typeId, false, rank)
  {
    ghost var space := SpaceOf(m);
    ghost var rest := Chain(space, typeId, false, rank);
    PrefixedTwice([], [], rest);
    var ret: seq<UaNodeId> := [];
    var id := typeId;
    var node := GetNode(m, id);
    while !node.Missing? && id.ns != 0
      invariant node.Missing? || node == space(id)
      invariant rest == if node.Missing? then Success([]) else Chain(space, id, false, rank)
      invariant Chain(space, typeId, false, rank) == Prefixed(ret, rest)
      decreases if node.Missing? then 0 else 1 + rank(id)
    {
      if node.NotBrowsable? {
        return Failure;
      }
      var supers := node.superTypes;
      ChainOfNode(space, id, false, ret, rank);
      rest := if supers == [] then Success([]) else Chain(space, supers[|supers| - 1], false, rank);
      ret := ret + supers;
      if supers == [] {
        node := Missing;
      } else {
        id := supers[|supers| - 1];
        node := GetNode(m, id);
      }
    }
    PrefixedTwice(ret, [], rest);
    return Success(ret);
  }

  /** The walk meets a node outside namespace 0 that does not exist. */
  ghost predicate MeetsMissing(space: Space, t: UaNodeId) {
    exists n :: Reaches(Followed(space), t, n) && n.ns != 0 && space(n).Missing?
  }

  lemma MissingAhead(space: Space, t: UaNodeId)
    ensures MeetsMissing(space, t) <==>
      (t.ns != 0 && (space(t).Missing? || (space(t).Node? && space(t).superTypes != [] &&
        MeetsMissing(space, space(t).superTypes[|space(t).superTypes| - 1]))))
  {
    if MeetsMissing(space, t) {
      var n :| Reaches(Followed(space), t, n) && n.ns != 0 && space(n).Missing?;
      if n != t {
        var s := FirstStep(Followed(space), t, n);
        assert MeetsMissing(space, s);
      }
    }
    if t.ns != 0 && space(t).Missing? {
      ReachesSelf(Followed(space), t);
    } else if t.ns != 0 && space(t).Node? && space(t).superTypes != [] {
      var s := space(t).superTypes[|space(t).superTypes| - 1];
      if MeetsMissing(space, s) {
        var n :| Reaches(Followed(space), s, n) && n.ns != 0 && space(n).Missing?;
        assert Followed(space)(t, s);
        ReachesStep(Followed(space), t, s, n);
      }
    }
  }

  /** Over the same address space the session and the node browser give the same answer exactly
      when the walk meets no missing node. */
  lemma {:induction false} SessionAndBrowserAgree(space: Space, t: UaNodeId, rank: UaNodeId -> nat)
    requires Acyclic(space, rank)
    ensures Chain(space, t, true, rank) == Chain(space, t, false, rank) <==> !MeetsMissing(space, t)
    ensures MeetsMissing(space, t) ==> Chain(space, t, true, rank).Failure? && Chain(space, t, false, rank).Success?
    decreases rank(t)
  {
    MissingAhead(space, t);
    if t.ns != 0 && space(t).Node? && space(t).superTypes != [] {
      SessionAndBrowserAgree(space, space(t).superTypes[|space(t).superTypes| - 1], rank);
    }
  }

  /** A chain of super types: each follows from the one before, up to the first one of namespace 0
      or one without a super type. */
  ghost predicate IsChain(space: Space, t: UaNodeId, c: seq<UaNodeId>)
    decreases |c|
  {
    if c == [] then t.ns == 0 || (space(t).Node? && space(t).superTypes == [])
    else Follows(space, t, c[0]) && IsChain(space, c[0], c[1..])
  }

  /** With single inheritance the answer is the chain of super types, and nothing else is. */
  lemma {:induction false} SuperTypesAreTheChain(space: Space, t: UaNodeId, c: seq<UaNodeId>, rank: UaNodeId -> nat)
    requires Acyclic(space, rank) && forall s :: SingleInheritance(space, s)
    ensures Chain(space, t, true, rank) == Success(c) <==> IsChain(space, t, c)
    decreases rank(t)
  {
    assert SingleInheritance(space, t);
    if t.ns != 0 && space(t).Node? && space(t).superTypes != [] {
      var s := space(t).superTypes[0];
      assert space(t).superTypes == [s];
      var rest := Chain(space, s, true, rank);
      if c != [] {
        SuperTypesAreTheChain(space, s, c[1..], rank);
        assert c == [c[0]] + c[1..];
      }
    }
  }

  /** A super type of a node that the walk comes by. */
  ghost predicate Listed(space: Space, t: UaNodeId, x: UaNodeId) {
    exists n :: Reaches(Followed(space), t, n) && IsSuperOf(space, n, x)
  }

  predicate IsSuperOf(space: Space, n: UaNodeId, x: UaNodeId) {
    n.ns != 0 && space(n).Node? && x in space(n).superTypes
  }

  lemma ListedAhead(space: Space, t: UaNodeId, x: UaNodeId)
    ensures Listed(space, t, x) <==>
      IsSuperOf(space, t, x) ||
      (t.ns != 0 && space(t).Node? && space(t).superTypes != [] &&
       Listed(space, space(t).superTypes[|space(t).superTypes| - 1], x))
  {
    if Listed(space, t, x) {
      var n :| Reaches(Followed(space), t, n) && IsSuperOf(space, n, x);
      if n != t {
        var s := FirstStep(Followed(space), t, n);
        assert Listed(space, s, x);
      }
    }
    if IsSuperOf(space, t, x) {
      ReachesSelf(Followed(space), t);
    } else if t.ns != 0 && space(t).Node? && space(t).superTypes != [] {
      var s := space(t).superTypes[|space(t).superTypes| - 1];
      if Listed(space, s, x) {
        var n :| Reaches(Followed(space), s, n) && IsSuperOf(space, n, x);
        assert Followed(space)(t, s);
        ReachesStep(Followed(space), t, s, n);
      }
    }
  }

  /** Whatever the number of super types, a list holds the super types of the nodes that the walk
      comes by, and nothing else. */
  lemma {:induction false} ListedExactly(space: Space, t: UaNodeId, missingFails: bool, x: UaNodeId,
      rank: UaNodeId -> nat)
    requires Acyclic(space, rank) && Chain(space, t, missingFails, rank).Success?
    ensures x in Chain(space, t, missingFails, rank).value <==> Listed(space, t, x)
    decreases rank(t)
  {
    ListedAhead(space, t, x);
    if t.ns != 0 && space(t).Node? && space(t).superTypes != [] {
      var supers := space(t).superTypes;
      var s := supers[|supers| - 1];
      ListedExactly(space, s, missingFails, x, rank);
      assert Chain(space, t, missingFails, rank).value == supers + Chain(space, s, missingFails, rank).value;
    }
  }

  /** The last type of a list has no super types of its own. */
  lemma {:induction false} ChainEndsAtTheTop(space: Space, t: UaNodeId, rank: UaNodeId -> nat)
    requires Acyclic(space, rank)
    ensures var c := Chain(space, t, true, rank);
      c.Success? && c.value != [] ==> Chain(space, c.value[|c.value| - 1], true, rank) == Success([])
    decreases rank(t)
  {
    if t.ns != 0 && space(t).Node? && space(t).superTypes != [] {
      var supers := space(t).superTypes;
      var s := supers[|supers| - 1];
      ChainEndsAtTheTop(space, s, rank);
      var rest := Chain(space, s, true, rank);
      if rest.Success? {
        assert Chain(space, t, true, rank).value == supers + rest.value;
      }
    }
  }

  /** The type information a converter gets from the session: every list that is known is what the
      session answers, and outside namespace 0, where alone the converters ask, a list is known
      unless the session fails. */
  ghost predicate AnswersFrom(env: TypeEnv, space: Space, rank: UaNodeId -> nat)
    requires Acyclic(space, rank)
  {
    && (forall t | t in env.superTypes :: Chain(space, t, true, rank) == Success(env.superTypes[t]))
    && (forall t: UaNodeId | t.ns != 0 && t !in env.superTypes :: Chain(space, t, true, rank).Failure?)
  }

  /** The built-in type of a type is its ancestor of namespace 0, whatever the number of super
      types; without such an ancestor there is no built-in type of namespace 0. */
  lemma BuildInTypeIsStandardAncestor(env: TypeEnv, space: Space, t: UaNodeId, b: UaNodeId, rank: UaNodeId -> nat)
    requires Acyclic(space, rank) && AnswersFrom(env, space, rank)
    ensures BuildInType(env, t) == Success(b) && b.ns == 0 <==> Reaches(Followed(space), t, b) && b.ns == 0
  {
    if b.ns == 0 {
      LastOfChain(space, t, b, rank);
    }
    if t.ns == 0 {
      ReachesSelf(Followed(space), t);
      if Reaches(Followed(space), t, b) && t != b {
        var s := FirstStep(Followed(space), t, b);
      }
    }
  }

  lemma {:induction false} LastOfChain(space: Space, t: UaNodeId, b: UaNodeId, rank: UaNodeId -> nat)
    requires Acyclic(space, rank) && b.ns == 0
    ensures t.ns != 0 ==> (EndsIn(Chain(space, t, true, rank), b) <==> Reaches(Followed(space), t, b))
    decreases rank(t), 1
  {
    if t.ns != 0 {
      if Reaches(Followed(space), t, b) {
        var s := FirstStep(Followed(space), t, b);
        StepOfChain(space, t, s, b, rank);
      } else if space(t).Node? && space(t).superTypes != [] {
        var s := space(t).superTypes[|space(t).superTypes| - 1];
        StepOfChain(space, t, s, b, rank);
        if Reaches(Followed(space), s, b) {
          ReachesStep(Followed(space), t, s, b);
        } else if s == b {
          ReachesSelf(Followed(space), b);
        }
      }
    }
  }

  lemma {:induction false} StepOfChain(space: Space, t: UaNodeId, s: UaNodeId, b: UaNodeId, rank: UaNodeId -> nat)
    requires Acyclic(space, rank) && b.ns == 0 && Follows(space, t, s)
    ensures EndsIn(Chain(space, t, true, rank), b) <==> Reaches(Followed(space), s, b)
    decreases rank(t), 0
  {
    LastOfChain(space, s, b, rank);
    var rest := Chain(space, s, true, rank);
    if rest.Success? {
      var supers := space(t).superTypes;
      assert Chain(space, t, true, rank) == Success(supers + rest.value);
      assert rest.value == [] ==> supers + rest.value == supers;
    }
    if s == b {
      ReachesSelf(Followed(space), b);
    } else if s.ns == 0 && Reaches(Followed(space), s, b) {
      var next := FirstStep(Followed(space), s, b);
    }
  }

  ghost predicate EndsIn(c: Result<seq<UaNodeId>>, b: UaNodeId) {
    c.Success? && |c.value| > 0 && c.value[|c.value| - 1] == b
  }

  const VENDOR := UaNodeId(2, Numeric(2))
  const VENDOR_BASE := UaNodeId(2, Numeric(1))
  const INT32_ID := UaNodeId(0, Numeric(INT32))

  /** A server with a vendor type under another one under `Int32`. */
  function VendorSpace(): Space {
    (n: UaNodeId) => if n == VENDOR then Node([VENDOR_BASE]) else if n == VENDOR_BASE then Node([INT32_ID]) else Missing
  }

  function VendorRank(): UaNodeId -> nat {
    (n: UaNodeId) => if n == VENDOR then 2 else if n == VENDOR_BASE then 1 else 0
  }

  function VendorEnv(): TypeEnv {
    TypeEnv(map[VENDOR := [VENDOR_BASE, INT32_ID], VENDOR_BASE := [INT32_ID]], map[])
  }

  lemma ChainStep(space: Space, t: UaNodeId, s: UaNodeId, rest: seq<UaNodeId>, rank: UaNodeId -> nat)
    requires Acyclic(space, rank) && t.ns != 0 && space(t) == Node([s]) && Chain(space, s, true, rank) == Success(rest)
    ensures Chain(space, t, true, rank) == Success([s] + rest)
  {
    assert space(t).superTypes[|space(t).superTypes| - 1] == s;
  }

  /** What the session answers there. */
  lemma VendorTypeUnderInt32()
    ensures Acyclic(VendorSpace(), VendorRank()) && AnswersFrom(VendorEnv(), VendorSpace(), VendorRank())
    ensures BuildInType(VendorEnv(), VENDOR) == Success(INT32_ID)
  {
    var space, rank := VendorSpace(), VendorRank();
    assert Acyclic(space, rank);
    ChainStep(space, VENDOR_BASE, INT32_ID, [], rank);
    assert [INT32_ID] + [] == [INT32_ID];
    ChainStep(space, VENDOR, VENDOR_BASE, [INT32_ID], rank);
    assert [VENDOR_BASE] + [INT32_ID] == [VENDOR_BASE, INT32_ID];
  }
}
