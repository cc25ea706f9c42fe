/** The client's table of monitored items against a server that may refuse any request, whole or
    in part. The class that performs the steps is in `HaSubscription`. */
module Subscriptions {
  import opened Wrappers
  import opened NodeIds

  type EventFields = seq<string>

  /** What is known of a node that is to be monitored. */
  datatype NodeAttributes = NodeAttributes(nodeId: UaNodeId, isEventType: bool)

  datatype MonitoredItem = MonitoredItem(id: nat, attr: NodeAttributes, fields: Option<EventFields>)

  /** The client side, and the server's live items (id to client handle) of the subscription. */
  datatype State = State(counter: nat, subscribed: bool, items: map<nat, MonitoredItem>, live: map<nat, nat>)

  const INITIAL := State(1, false, map[], map[])

  /** What the server does with an add request: whether a subscription can be created, whether the
      call succeeds, the id of each accepted item, and whether a subscription can be deleted. */
  datatype AddReply = AddReply(createOk: bool, callOk: bool, results: seq<Option<nat>>, deleteOk: bool)

  datatype RemoveReply = RemoveReply(callOk: bool, results: seq<bool>, deleteOk: bool)

  // ---- add ----

  function FieldsFor(attr: NodeAttributes, fields: map<UaNodeId, EventFields>): Option<EventFields> {
    if attr.isEventType && attr.nodeId in fields then Some(fields[attr.nodeId]) else None
  }

  function NewItem(id: nat, attr: NodeAttributes, fields: map<UaNodeId, EventFields>): MonitoredItem {
    MonitoredItem(id, attr, FieldsFor(attr, fields))
  }

  /** The entries made before the server is asked; their ids are not known yet. */
  function Requested(base: nat, attrs: seq<NodeAttributes>,
      fields: map<UaNodeId, EventFields>): map<nat, MonitoredItem> {
    if attrs == [] then map[]
    else
      var n := |attrs| - 1;
      Requested(base, attrs[..n], fields)[base + n := NewItem(0, attrs[n], fields)]
  }

  /** The entries the server has accepted. */
  function Accepted(base: nat, attrs: seq<NodeAttributes>, fields: map<UaNodeId, EventFields>,
      results: seq<Option<nat>>)
    : map<nat, MonitoredItem>
    requires |results| == |attrs|
  {
    if attrs == [] then map[]
    else
      var n := |attrs| - 1;
      var rest := Accepted(base, attrs[..n], fields, results[..n]);
      if results[n].Some? then rest[base + n := NewItem(results[n].value, attrs[n], fields)] else rest
  }

  lemma {:induction false} RequestedAre(base: nat, attrs: seq<NodeAttributes>, fields: map<UaNodeId, EventFields>)
    ensures forall h :: h in Requested(base, attrs, fields) <==> base <= h < base + |attrs|
    ensures forall h | h in Requested(base, attrs, fields) ::
      Requested(base, attrs, fields)[h] == NewItem(0, attrs[h - base], fields)
  {
    if attrs != [] {
      RequestedAre(base, attrs[..|attrs| - 1], fields);
    }
  }

  lemma {:induction false} AcceptedAre(base: nat, attrs: seq<NodeAttributes>, fields: map<UaNodeId, EventFields>,
      results: seq<Option<nat>>)
    requires |results| == |attrs|
    ensures forall h :: h in Accepted(base, attrs, fields, results) <==>
      base <= h < base + |attrs| && results[h - base].Some?
    ensures forall h | h in Accepted(base, attrs, fields, results) ::
      Accepted(base, attrs, fields, results)[h] == NewItem(results[h - base].value, attrs[h - base], fields)
  {
    if attrs != [] {
      AcceptedAre(base, attrs[..|attrs| - 1], fields, results[..|attrs| - 1]);
    }
  }

  /** The server's items after it has answered. */
  function GoLive(live: map<nat, nat>, base: nat, results: seq<Option<nat>>): map<nat, nat> {
    if results == [] then live
    else
      var n := |results| - 1;
      var rest := GoLive(live, base, results[..n]);
      if results[n].Some? then rest[results[n].value := base + n] else rest
  }

  function DeleteSubscription(s: State, deleteOk: bool): (State, bool) {
    if !s.subscribed then (s, false)
    else if deleteOk then (s.(subscribed := false, live := map[]), false)
    else (s, true)
  }

  /** With a subscription, the server answers: `s` holds the table without the new entries. */
  function Answer(s: State, base: nat, attrs: seq<NodeAttributes>, fields: map<UaNodeId, EventFields>, reply: AddReply)
    : (State, bool)
    requires reply.callOk ==> |reply.results| == |attrs|
  {
    var r := if !reply.callOk then s else
      s.(items := s.items + Accepted(base, attrs, fields, reply.results), live := GoLive(s.live, base, reply.results));
    if reply.callOk && None !in reply.results then (r, false)
    else if r.items == map[] then (DeleteSubscription(r, reply.deleteOk).0, true)
    else (r, true)
  }

  /** New state, and whether an exception is thrown. */
  function Add(s: State, attrs: seq<NodeAttributes>, fields: map<UaNodeId, EventFields>, reply: AddReply): (State, bool)
    requires reply.callOk ==> |reply.results| == |attrs|
  {
    if attrs == [] then (s, false)
    else
      var s1 := s.(counter := s.counter + |attrs|);
      if !s.subscribed && !reply.createOk then
        (s1.(items := s.items + Requested(s.counter, attrs, fields)), true)
      else
        Answer(s1.(subscribed := true), s.counter, attrs, fields, reply)
  }

  // ---- remove ----

  /** The first entry for a node in the order of the handles, below `n`. */
  function FirstHandle(items: map<nat, MonitoredItem>, nodeId: UaNodeId, n: nat): Option<nat> {
    if n == 0 then None
    else
      var f := FirstHandle(items, nodeId, n - 1);
      if f.Some? then f
      else if n - 1 in items && items[n - 1].attr.nodeId == nodeId then Some(n - 1)
      else None
  }

  /** The handles a remove request names; nodes that are not monitored are skipped. */
  function Targets(items: map<nat, MonitoredItem>, nodeIds: seq<UaNodeId>, n: nat): seq<nat> {
    if nodeIds == [] then []
    else
      var f := FirstHandle(items, nodeIds[|nodeIds| - 1], n);
      Targets(items, nodeIds[..|nodeIds| - 1], n) + if f.Some? then [f.value] else []
  }

  /** The loop over the results of a remove request: table, live items, and whether an item that
      is still in the table could not be removed. */
  function RemoveEach(s: State, targets: seq<nat>, results: seq<bool>): (State, bool)
    requires |results| == |targets|
  {
    if targets == [] then (s, false)
    else
      var n := |targets| - 1;
      var (r, failed) := RemoveEach(s, targets[..n], results[..n]);
      if targets[n] !in r.items then (r, failed)
      else if results[n] then
        (r.(items := r.items - {targets[n]}, live := r.live - {r.items[targets[n]].id}), failed)
      else (r, true)
  }

  function Remove(s: State, nodeIds: seq<UaNodeId>, reply: RemoveReply): (State, bool)
    requires reply.callOk ==> |reply.results| == |Targets(s.items, nodeIds, s.counter)|
  {
    var targets := Targets(s.items, nodeIds, s.counter);
    if targets == [] then (s, false)
    else if !reply.callOk then (s, true)
    else
      var (r, failed) := RemoveEach(s, targets, reply.results);
      if failed then (r, true)
      else if r.items == map[] then DeleteSubscription(r, reply.deleteOk)
      else (r, false)
  }

  /** The handles of the table in ascending order, below `n`. */
  function Handles(items: map<nat, MonitoredItem>, n: nat): seq<nat> {
    if n == 0 then [] else Handles(items, n - 1) + if n - 1 in items then [n - 1] else []
  }

  lemma {:induction false} HandlesAre(items: map<nat, MonitoredItem>, n: nat)
    ensures forall h :: h in Handles(items, n) <==> h in items && h < n
    ensures forall i, j | 0 <= i < j < |Handles(items, n)| :: Handles(items, n)[i] < Handles(items, n)[j]
  {
    if n > 0 {
      HandlesAre(items, n - 1);
      var rest := Handles(items, n - 1);
      assert forall i | 0 <= i < |rest| :: rest[i] in rest;
    }
  }

  /** The attributes of the table in the order of the handles. */
  function Attributes(items: map<nat, MonitoredItem>, n: nat): (r: seq<NodeAttributes>)
    ensures |r| == |Handles(items, n)|
  {
    if n == 0 then [] else Attributes(items, n - 1) + if n - 1 in items then [items[n - 1].attr] else []
  }

  function NodeIdsOf(attrs: seq<NodeAttributes>): (r: seq<UaNodeId>)
    ensures |r| == |attrs|
  {
    seq(|attrs|, i requires 0 <= i < |attrs| => attrs[i].nodeId)
  }

  function RemoveAll(s: State, reply: RemoveReply): (State, bool)
    requires reply.callOk ==>
      |reply.results| == |Targets(s.items, NodeIdsOf(Attributes(s.items, s.counter)), s.counter)|
  {
    Remove(s, NodeIdsOf(Attributes(s.items, s.counter)), reply)
  }

  // ---- the subscription has expired ----

  /** The event fields of the table by node id; of entries for one node the last one counts. */
  function FieldsByNode(items: map<nat, MonitoredItem>, n: nat): map<UaNodeId, EventFields> {
    if n == 0 then map[]
    else
      var rest := FieldsByNode(items, n - 1);
      if n - 1 in items && items[n - 1].fields.Some? then rest[items[n - 1].attr.nodeId := items[n - 1].fields.value]
      else rest
  }

  /** The server has lost the subscription: everything is monitored anew. Exceptions are logged. */
  function Expire(s: State, deleteOk: bool, reply: AddReply): State
    requires reply.callOk ==> |reply.results| == |Attributes(s.items, s.counter)|
  {
    var lost := s.(items := map[], live := map[]);
    var (d, failed) := DeleteSubscription(lost, deleteOk);
    if failed then d
    else Add(d, Attributes(s.items, s.counter), FieldsByNode(s.items, s.counter), reply).0
  }

  // ---- notifications ----

  /** A notification for a handle goes to the node of its entry, or is dropped. */
  function Route(s: State, handle: nat): Option<UaNodeId> {
    if handle in s.items then Some(s.items[handle].attr.nodeId) else None
  }

  datatype Notification = Notification(handle: nat, good: bool, value: nat)

  /** A node with its new value, or with an exception. */
  datatype Delivery = Delivery(nodeId: UaNodeId, value: Option<nat>)

  /** What the callback receives for a list of notifications. */
  function Delivered(s: State, ns: seq<Notification>): seq<Delivery> {
    if ns == [] then []
    else
      var n := ns[|ns| - 1];
      var target := Route(s, n.handle);
      Delivered(s, ns[..|ns| - 1]) +
        if target.Some? then [Delivery(target.value, if n.good then Some(n.value) else None)] else []
  }

  // ---- runs ----

  datatype Event =
    | AddNodes(attrs: seq<NodeAttributes>, fields: map<UaNodeId, EventFields>, addReply: AddReply)
    | RemoveNodes(nodeIds: seq<UaNodeId>, removeReply: RemoveReply)
    | RemoveAllNodes(removeReply: RemoveReply)
    | Expired(deleteOk: bool, addReply: AddReply)

  /** The ids a server hands out are distinct and not those of live items. */
  predicate FreshIds(live: map<nat, nat>, results: seq<Option<nat>>) {
    && (forall i | 0 <= i < |results| && results[i].Some? :: results[i].value !in live)
    && forall i, j | 0 <= i < j < |results| && results[i].Some? && results[j].Some? ::
      results[i].value != results[j].value
  }

  /** Event fields are given for every event type. */
  predicate EventsCovered(attrs: seq<NodeAttributes>, fields: map<UaNodeId, EventFields>) {
    forall a | a in attrs && a.isEventType :: a.nodeId in fields
  }

  /** The answer fits the request, as the OPC UA services guarantee it. */
  predicate Fits(s: State, e: Event) {
    match e
    case AddNodes(attrs, fields, reply) =>
      && (reply.callOk ==> |reply.results| == |attrs| && FreshIds(s.live, reply.results))
      && EventsCovered(attrs, fields)
    case RemoveNodes(nodeIds, reply) => reply.callOk ==> |reply.results| == |Targets(s.items, nodeIds, s.counter)|
    case RemoveAllNodes(reply) =>
      reply.callOk ==> |reply.results| == |Targets(s.items, NodeIdsOf(Attributes(s.items, s.counter)), s.counter)|
    case Expired(_, reply) =>
      reply.callOk ==> |reply.results| == |Attributes(s.items, s.counter)| && FreshIds(map[], reply.results)
  }

  function Step(s: State, e: Event): State
    requires Fits(s, e)
  {
    match e
    case AddNodes(attrs, fields, reply) => Add(s, attrs, fields, reply).0
    case RemoveNodes(nodeIds, reply) => Remove(s, nodeIds, reply).0
    case RemoveAllNodes(reply) => RemoveAll(s, reply).0
    case Expired(deleteOk, reply) => Expire(s, deleteOk, reply)
  }

  ghost predicate FitsAll(s: State, es: seq<Event>)
    decreases |es|
  {
    es == [] || (Fits(s, es[0]) && FitsAll(Step(s, es[0]), es[1..]))
  }

  ghost function Run(s: State, es: seq<Event>): State
    requires FitsAll(s, es)
    decreases |es|
  {
    if es == [] then s else Run(Step(s, es[0]), es[1..])
  }
}
