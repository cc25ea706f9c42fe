/** The client's subscription: its table, handle counter and subscription flag, updated in place.
    Each method performs the step that `Subscriptions` specifies; the server's live items are kept
    as a ghost. */
module HaSubscriptionClass {
  import opened Wrappers
  import opened NodeIds
  import opened Subscriptions
  import opened SubscriptionRuns

  class HaSubscription {
    var clientHandleCounter: nat
    var subscription: bool
    // client handle -> monitored item
    var monitoredItems: map<nat, MonitoredItem>
    ghost var live: map<nat, nat>

    ghost function Now(): State
      reads this
    {
      State(clientHandleCounter, subscription, monitoredItems, live)
    }

    constructor ()
      ensures Now() == INITIAL
    {
      clientHandleCounter := 1;
      subscription := false;
      monitoredItems := map[];
      live := map[];
    }

    /** Entries are made before the server is asked, get their ids from its answers, and are taken
        back for the nodes it refused. */
    method Add(attrs: seq<NodeAttributes>, fields: map<UaNodeId, EventFields>, reply: AddReply) returns (thrown: bool)
      requires TableOk(Now()) && Fits(Now(), AddNodes(attrs, fields, reply))
      modifies this
      ensures (Now(), thrown) == Subscriptions.Add(old(Now()), attrs, fields, reply)
    {
      if attrs == [] {
        return false;
      }
      ghost var table := monitoredItems;
      ghost var base := clientHandleCounter;
      var handles := MakeEntries(attrs, fields);
      if !subscription {
        if !reply.createOk {
          return true;
        }
        subscription := true;
      }
      thrown := CreateMonitoredItems(table, base, attrs, fields, reply, handles);
    }

    /** The request itself, and the rollback of what was refused. */
    method CreateMonitoredItems(ghost table: map<nat, MonitoredItem>, ghost base: nat, attrs: seq<NodeAttributes>,
        fields: map<UaNodeId, EventFields>, reply: AddReply, handles: seq<nat>) returns (thrown: bool)
      requires (forall h | h in table :: h < base) && monitoredItems == table + Requested(base, attrs, fields)
      requires |handles| == |attrs| && forall j | 0 <= j < |handles| :: handles[j] == base + j
      requires reply.callOk ==> |reply.results| == |attrs|
      modifies this
      ensures (Now(), thrown) == Answer(old(Now()).(items := table), base, attrs, fields, reply)
    {
      var refused := set h | h in handles;
      HandlesAreConsecutive(base, handles);
      if reply.callOk {
        live := GoLive(live, base, reply.results);
        EntriesMade(table, base, attrs, fields, handles);
        refused := TakeAnswers(base, attrs, fields, reply.results, handles);
        thrown := None in reply.results;
      } else {
        thrown := true;
      }
      if thrown {
        RollBack(refused);
        if reply.callOk {
          RefusedTakenBack(table, base, attrs, fields, reply.results, refused);
        } else {
          AllTakenBack(table, base, attrs, fields, refused);
        }
        if monitoredItems == map[] {
          var _ := DeleteSubscription(reply.deleteOk);
        }
      } else {
        AllAccepted(table, base, attrs, fields, reply.results);
      }
    }

    /** The loop over the nodes: each gets a fresh handle and an entry. */
    method MakeEntries(attrs: seq<NodeAttributes>, fields: map<UaNodeId, EventFields>) returns (handles: seq<nat>)
      modifies this`clientHandleCounter, this`monitoredItems
      ensures clientHandleCounter == old(clientHandleCounter) + |attrs|
      ensures monitoredItems == old(monitoredItems) + Requested(old(clientHandleCounter), attrs, fields)
      ensures |handles| == |attrs| && forall j | 0 <= j < |handles| :: handles[j] == old(clientHandleCounter) + j
    {
      handles := [];
      for i := 0 to |attrs|
        invariant clientHandleCounter == old(clientHandleCounter) + i
        invariant monitoredItems == old(monitoredItems) + Requested(old(clientHandleCounter), attrs[..i], fields)
        invariant |handles| == i && forall j | 0 <= j < i :: handles[j] == old(clientHandleCounter) + j
      {
        RequestOne(old(monitoredItems), old(clientHandleCounter), attrs, fields, i);
        var clientHandle := clientHandleCounter;
        clientHandleCounter := clientHandleCounter + 1;
        handles := handles + [clientHandle];
        monitoredItems := monitoredItems[clientHandle := NewItem(0, attrs[i], fields)];
      }
      assert attrs[..|attrs|] == attrs;
    }

    /** The loop over the results: an accepted node gets its id, the others are returned. */
    method TakeAnswers(ghost base: nat, ghost attrs: seq<NodeAttributes>, ghost fields: map<UaNodeId, EventFields>,
        results: seq<Option<nat>>, handles: seq<nat>) returns (refused: set<nat>)
      requires |results| == |attrs| == |handles| && forall j | 0 <= j < |handles| :: handles[j] == base + j
      requires forall j | 0 <= j < |handles| ::
        handles[j] in monitoredItems && monitoredItems[handles[j]] == NewItem(0, attrs[j], fields)
      modifies this`monitoredItems
      ensures monitoredItems == old(monitoredItems) + Accepted(base, attrs, fields, results)
      ensures forall h :: h in refused <==> base <= h < base + |attrs| && results[h - base].None?
    {
      refused := {};
      for i := 0 to |results|
        invariant monitoredItems == old(monitoredItems) + Accepted(base, attrs[..i], fields, results[..i])
        invariant forall j | i <= j < |handles| ::
          handles[j] in monitoredItems && monitoredItems[handles[j]] == NewItem(0, attrs[j], fields)
        invariant forall h :: h in refused <==> base <= h < base + i && results[h - base].None?
      {
        AcceptOne(old(monitoredItems), base, attrs, fields, results, i);
        var clientHandle := handles[i];
        if results[i].Some? {
          monitoredItems := monitoredItems[clientHandle := monitoredItems[clientHandle].(id := results[i].value)];
        } else {
          refused := refused + {clientHandle};
        }
      }
      assert attrs[..|attrs|] == attrs && results[..|results|] == results;
    }

    /** The rollback loop over the entries that were not accepted. */
    method RollBack(added: set<nat>)
      modifies this`monitoredItems
      ensures monitoredItems == old(monitoredItems) - added
    {
      var rest := added;
      while rest != {}
        invariant rest <= added && monitoredItems == old(monitoredItems) - (added - rest)
        decreases |rest|
      {
        var clientHandle :| clientHandle in rest;
        monitoredItems := monitoredItems - {clientHandle};
        rest := rest - {clientHandle};
      }
    }

    method DeleteSubscription(deleteOk: bool) returns (thrown: bool)
      modifies this`subscription, this`live
      ensures (Now(), thrown) == Subscriptions.DeleteSubscription(old(Now()), deleteOk)
    {
      if !subscription {
        return false;
      }
      if !deleteOk {
        return true;
      }
      live := map[];
      subscription := false;
      return false;
    }

    /** The search over the table in the order of the handles. */
    method Find(nodeId: UaNodeId) returns (handle: Option<nat>)
      ensures handle == FirstHandle(monitoredItems, nodeId, clientHandleCounter)
    {
      var h := 0;
      while h < clientHandleCounter
        invariant h <= clientHandleCounter && FirstHandle(monitoredItems, nodeId, h) == None
      {
        if h in monitoredItems && monitoredItems[h].attr.nodeId == nodeId {
          FoundEarly(monitoredItems, nodeId, h + 1, clientHandleCounter);
          return Some(h);
        }
        h := h + 1;
      }
      return None;
    }

    method Remove(nodeIds: seq<UaNodeId>, reply: RemoveReply) returns (thrown: bool)
      requires Fits(Now(), RemoveNodes(nodeIds, reply))
      modifies this
      ensures (Now(), thrown) == Subscriptions.Remove(old(Now()), nodeIds, reply)
    {
      var clientHandles: seq<nat> := [];
      for i := 0 to |nodeIds|
        invariant clientHandles == Targets(monitoredItems, nodeIds[..i], clientHandleCounter)
        invariant Now() == old(Now())
      {
        assert nodeIds[..i + 1][..i] == nodeIds[..i];
        var handle := Find(nodeIds[i]);
        if handle.Some? {
          clientHandles := clientHandles + [handle.value];
        }
      }
      assert nodeIds[..|nodeIds|] == nodeIds;
      if clientHandles == [] {
        return false;
      }
      if !reply.callOk {
        return true;
      }
      var exception := false;
      for i := 0 to |reply.results|
        invariant (Now(), exception) == RemoveEach(old(Now()), clientHandles[..i], reply.results[..i])
      {
        assert clientHandles[..i + 1][..i] == clientHandles[..i] && reply.results[..i + 1][..i] == reply.results[..i];
        var clientHandle := clientHandles[i];
        if clientHandle in monitoredItems {
          if reply.results[i] {
            live := live - {monitoredItems[clientHandle].id};
            monitoredItems := monitoredItems - {clientHandle};
          } else {
            exception := true;
          }
        }
      }
      assert clientHandles[..|clientHandles|] == clientHandles && reply.results[..|reply.results|] == reply.results;
      if exception {
        return true;
      }
      if monitoredItems == map[] {
        thrown := DeleteSubscription(reply.deleteOk);
      } else {
        thrown := false;
      }
    }

    method RemoveAll(reply: RemoveReply) returns (thrown: bool)
      requires Fits(Now(), RemoveAllNodes(reply))
      modifies this
      ensures (Now(), thrown) == Subscriptions.RemoveAll(old(Now()), reply)
    {
      var nodeIds: seq<UaNodeId> := [];
      for h := 0 to clientHandleCounter
        invariant nodeIds == NodeIdsOf(Attributes(monitoredItems, h)) && Now() == old(Now())
      {
        if h in monitoredItems {
          nodeIds := nodeIds + [monitoredItems[h].attr.nodeId];
        }
      }
      thrown := Remove(nodeIds, reply);
    }

    /** After BadSubscriptionIdInvalid everything is monitored anew; an exception is only logged. */
    method SubscriptionExpired(deleteOk: bool, reply: AddReply)
      requires TableOk(Now()) && Fits(Now(), Expired(deleteOk, reply))
      modifies this
      ensures Now() == Expire(old(Now()), deleteOk, reply)
    {
      var attrs: seq<NodeAttributes> := [];
      var fields: map<UaNodeId, EventFields> := map[];
      for h := 0 to clientHandleCounter
        invariant attrs == Attributes(monitoredItems, h) && fields == FieldsByNode(monitoredItems, h)
        invariant Now() == old(Now())
      {
        if h in monitoredItems {
          var item := monitoredItems[h];
          attrs := attrs + [item.attr];
          if item.fields.Some? {
            fields := fields[item.attr.nodeId := item.fields.value];
          }
        }
      }
      FieldsByNodeCoverEvents(Now(), clientHandleCounter);
      monitoredItems := map[];
      live := map[];
      var failed := DeleteSubscription(deleteOk);
      if !failed {
        var _ := Add(attrs, fields, reply);
      }
    }

    method DataChange(notifications: seq<Notification>) returns (deliveries: seq<Delivery>)
      ensures deliveries == Delivered(Now(), notifications)
    {
      deliveries := [];
      for i := 0 to |notifications|
        invariant deliveries == Delivered(Now(), notifications[..i])
      {
        assert notifications[..i + 1][..i] == notifications[..i];
        var n := notifications[i];
        if n.handle in monitoredItems {
          var value := if n.good then Some(n.value) else None;
          deliveries := deliveries + [Delivery(monitoredItems[n.handle].attr.nodeId, value)];
        }
      }
      assert notifications[..|notifications|] == notifications;
    }
  }

  /** Once found, a handle stays the first one. */
  lemma {:induction false} FoundEarly(items: map<nat, MonitoredItem>, nodeId: UaNodeId, m: nat, n: nat)
    requires m <= n && FirstHandle(items, nodeId, m).Some?
    ensures FirstHandle(items, nodeId, n) == FirstHandle(items, nodeId, m)
  {
    if m < n {
      FoundEarly(items, nodeId, m, n - 1);
    }
  }

  lemma HandlesAreConsecutive(base: nat, handles: seq<nat>)
    requires forall j | 0 <= j < |handles| :: handles[j] == base + j
    ensures forall h :: h in handles <==> base <= h < base + |handles|
  {
    forall h | base <= h < base + |handles|
      ensures h in handles
    {
      assert handles[h - base] == h;
    }
  }

  lemma AllAccepted(table: map<nat, MonitoredItem>, base: nat, attrs: seq<NodeAttributes>,
      fields: map<UaNodeId, EventFields>, results: seq<Option<nat>>)
    requires (forall h | h in table :: h < base) && |results| == |attrs| && None !in results
    ensures table + Requested(base, attrs, fields) + Accepted(base, attrs, fields, results)
      == table + Accepted(base, attrs, fields, results)
  {
    assert forall i | 0 <= i < |results| :: results[i] in results;
    RefusedTakenBack(table, base, attrs, fields, results, {});
    var m := table + Requested(base, attrs, fields) + Accepted(base, attrs, fields, results);
    assert m - {} == m;
  }

  lemma EntriesMade(table: map<nat, MonitoredItem>, base: nat, attrs: seq<NodeAttributes>,
      fields: map<UaNodeId, EventFields>, handles: seq<nat>)
    requires |handles| == |attrs| && forall j | 0 <= j < |handles| :: handles[j] == base + j
    ensures var m := table + Requested(base, attrs, fields);
      forall j | 0 <= j < |handles| :: handles[j] in m && m[handles[j]] == NewItem(0, attrs[j], fields)
  {
    forall j | 0 <= j < |handles|
      ensures handles[j] in Requested(base, attrs, fields)
      ensures Requested(base, attrs, fields)[handles[j]] == NewItem(0, attrs[j], fields)
    {
      RequestedAt(base, attrs, fields, j);
    }
  }

  lemma {:induction false} RequestedAt(base: nat, attrs: seq<NodeAttributes>, fields: map<UaNodeId, EventFields>,
      j: nat)
    requires j < |attrs|
    ensures base + j in Requested(base, attrs, fields)
    ensures Requested(base, attrs, fields)[base + j] == NewItem(0, attrs[j], fields)
  {
    if j < |attrs| - 1 {
      RequestedAt(base, attrs[..|attrs| - 1], fields, j);
    }
  }

  lemma RequestOne(table: map<nat, MonitoredItem>, base: nat, attrs: seq<NodeAttributes>,
      fields: map<UaNodeId, EventFields>, i: nat)
    requires i < |attrs|
    ensures table + Requested(base, attrs[..i + 1], fields)
      == (table + Requested(base, attrs[..i], fields))[base + i := NewItem(0, attrs[i], fields)]
  {
    assert attrs[..i + 1][..i] == attrs[..i];
  }

  lemma AcceptOne(table: map<nat, MonitoredItem>, base: nat, attrs: seq<NodeAttributes>,
      fields: map<UaNodeId, EventFields>, results: seq<Option<nat>>, i: nat)
    requires i < |attrs| == |results|
    ensures table + Accepted(base, attrs[..i + 1], fields, results[..i + 1]) ==
      var before := table + Accepted(base, attrs[..i], fields, results[..i]);
      if results[i].Some? then before[base + i := NewItem(results[i].value, attrs[i], fields)] else before
  {
    assert attrs[..i + 1][..i] == attrs[..i] && results[..i + 1][..i] == results[..i];
  }

  /** Taking back all new entries leaves the old table. */
  lemma AllTakenBack(table: map<nat, MonitoredItem>, base: nat, attrs: seq<NodeAttributes>,
      fields: map<UaNodeId, EventFields>, added: set<nat>)
    requires forall h | h in table :: h < base
    requires forall h :: h in added <==> base <= h < base + |attrs|
    ensures table + Requested(base, attrs, fields) - added == table
  {
    RequestedAre(base, attrs, fields);
  }

  /** Taking back the refused entries leaves the old table and the accepted entries. */
  lemma RefusedTakenBack(table: map<nat, MonitoredItem>, base: nat, attrs: seq<NodeAttributes>,
      fields: map<UaNodeId, EventFields>, results: seq<Option<nat>>, refused: set<nat>)
    requires (forall h | h in table :: h < base) && |results| == |attrs|
    requires forall h :: h in refused <==> base <= h < base + |attrs| && results[h - base].None?
    ensures table + Requested(base, attrs, fields) + Accepted(base, attrs, fields, results) - refused
      == table + Accepted(base, attrs, fields, results)
  {
    RequestedAre(base, attrs, fields);
    AcceptedAre(base, attrs, fields, results);
  }
}
