/** What every step, and every run, of a subscription keeps. */
module SubscriptionRuns {
  import opened Wrappers
  import opened NodeIds
  import opened Subscriptions

  // ---- Every step, whatever the server answers ----

  /** Handles are below the counter, and event entries are those with event fields. */
  predicate TableOk(s: State) {
    && (forall h | h in s.items :: h < s.counter)
    && (forall h | h in s.items :: s.items[h].attr.isEventType <==> s.items[h].fields.Some?)
  }

  /** Between two states no handle is given to another node, none below the first counter comes
      back, and the counter never goes down. */
  predicate Continues(s: State, r: State) {
    && s.counter <= r.counter
    && (forall h | h in r.items && h < s.counter :: h in s.items && r.items[h] == s.items[h])
  }

  /** New entries come after all old ones. */
  lemma EntriesKeepTable(s: State, r: State, added: map<nat, MonitoredItem>)
    requires TableOk(s) && r.items == s.items + added && s.counter <= r.counter
    requires forall h | h in added ::
      s.counter <= h < r.counter && (added[h].attr.isEventType <==> added[h].fields.Some?)
    ensures TableOk(r) && Continues(s, r)
  {
  }

  /** The entries an add request leaves behind. */
  function NewEntries(s: State, attrs: seq<NodeAttributes>, fields: map<UaNodeId, EventFields>,
      reply: AddReply): map<nat, MonitoredItem>
    requires reply.callOk ==> |reply.results| == |attrs|
  {
    if attrs == [] then map[]
    else if !s.subscribed && !reply.createOk then Requested(s.counter, attrs, fields)
    else if reply.callOk then Accepted(s.counter, attrs, fields, reply.results)
    else map[]
  }

  /** An add request, even one that is refused wholly or in part, leaves the old table and exactly
      the new entries, and uses up one handle for each node. */
  lemma AddLeaves(s: State, attrs: seq<NodeAttributes>, fields: map<UaNodeId, EventFields>, reply: AddReply)
    requires reply.callOk ==> |reply.results| == |attrs|
    ensures Add(s, attrs, fields, reply).0.items == s.items + NewEntries(s, attrs, fields, reply)
    ensures Add(s, attrs, fields, reply).0.counter == s.counter + |attrs|
    ensures Add(s, attrs, fields, reply).1 <==>
      attrs != [] && ((!s.subscribed && !reply.createOk) || !reply.callOk || None in reply.results)
  {
  }

  lemma NewEntriesAre(s: State, attrs: seq<NodeAttributes>, fields: map<UaNodeId, EventFields>, reply: AddReply)
    requires Fits(s, AddNodes(attrs, fields, reply))
    ensures var added := NewEntries(s, attrs, fields, reply);
      forall h | h in added ::
        && s.counter <= h < s.counter + |attrs|
        && (added[h].attr.isEventType <==> added[h].fields.Some?)
  {
    RequestedAre(s.counter, attrs, fields);
    if reply.callOk {
      AcceptedAre(s.counter, attrs, fields, reply.results);
    }
    assert forall i | 0 <= i < |attrs| :: attrs[i] in attrs;
  }

  lemma AddKeepsTable(s: State, attrs: seq<NodeAttributes>, fields: map<UaNodeId, EventFields>, reply: AddReply)
    requires TableOk(s) && Fits(s, AddNodes(attrs, fields, reply))
    ensures TableOk(Add(s, attrs, fields, reply).0) && Continues(s, Add(s, attrs, fields, reply).0)
  {
    AddLeaves(s, attrs, fields, reply);
    NewEntriesAre(s, attrs, fields, reply);
    EntriesKeepTable(s, Add(s, attrs, fields, reply).0, NewEntries(s, attrs, fields, reply));
  }

  lemma {:induction false} RemoveEachMeaning(s: State, targets: seq<nat>, results: seq<bool>)
    requires |results| == |targets|
    ensures var (r, failed) := RemoveEach(s, targets, results);
      && r.counter == s.counter && r.subscribed == s.subscribed
      && (forall h :: h in r.items <==> h in s.items && !Deleted(targets, results, h))
      && (forall h | h in r.items :: r.items[h] == s.items[h])
  {
    if targets != [] {
      var n := |targets| - 1;
      RemoveEachMeaning(s, targets[..n], results[..n]);
      forall h
        ensures Deleted(targets, results, h) <==>
          Deleted(targets[..n], results[..n], h) || (h == targets[n] && results[n])
      {
        if h == targets[n] && results[n] {
          assert targets[n] == h && results[n];
        }
        if Deleted(targets, results, h) {
          var i :| 0 <= i < |targets| && targets[i] == h && results[i];
          assert i < n ==> targets[..n][i] == h && results[..n][i];
        }
        if Deleted(targets[..n], results[..n], h) {
          var i :| 0 <= i < n && targets[..n][i] == h && results[..n][i];
          assert targets[i] == h && results[i];
        }
      }
    }
  }

  predicate Deleted(targets: seq<nat>, results: seq<bool>, h: nat)
    requires |results| == |targets|
  {
    exists i :: 0 <= i < |targets| && targets[i] == h && results[i]
  }

  lemma RemoveKeepsTable(s: State, nodeIds: seq<UaNodeId>, reply: RemoveReply)
    requires TableOk(s) && Fits(s, RemoveNodes(nodeIds, reply))
    ensures TableOk(Remove(s, nodeIds, reply).0) && Continues(s, Remove(s, nodeIds, reply).0)
  {
    if reply.callOk {
      RemoveEachMeaning(s, Targets(s.items, nodeIds, s.counter), reply.results);
    }
  }

  lemma {:induction false} FieldsByNodeCoverEvents(s: State, n: nat)
    requires TableOk(s)
    ensures EventsCovered(Attributes(s.items, n), FieldsByNode(s.items, n))
  {
    if n > 0 {
      FieldsByNodeCoverEvents(s, n - 1);
    }
  }

  lemma ExpireKeepsTable(s: State, deleteOk: bool, reply: AddReply)
    requires TableOk(s) && Fits(s, Expired(deleteOk, reply))
    ensures TableOk(Expire(s, deleteOk, reply)) && Continues(s, Expire(s, deleteOk, reply))
  {
    var d := DeleteSubscription(s.(items := map[], live := map[]), deleteOk).0;
    var attrs, fields := Attributes(s.items, s.counter), FieldsByNode(s.items, s.counter);
    FieldsByNodeCoverEvents(s, s.counter);
    AddKeepsTable(d, attrs, fields, reply);
  }

  lemma StepKeepsTable(s: State, e: Event)
    requires TableOk(s) && Fits(s, e)
    ensures TableOk(Step(s, e)) && Continues(s, Step(s, e))
  {
    match e
    case AddNodes(attrs, fields, reply) => AddKeepsTable(s, attrs, fields, reply);
    case RemoveNodes(nodeIds, reply) => RemoveKeepsTable(s, nodeIds, reply);
    case RemoveAllNodes(reply) => RemoveKeepsTable(s, NodeIdsOf(Attributes(s.items, s.counter)), reply);
    case Expired(deleteOk, reply) => ExpireKeepsTable(s, deleteOk, reply);
  }

  lemma {:induction false} RunKeepsTable(s: State, es: seq<Event>)
    requires TableOk(s) && FitsAll(s, es)
    ensures TableOk(Run(s, es)) && Continues(s, Run(s, es))
    decreases |es|
  {
    if es != [] {
      StepKeepsTable(s, es[0]);
      RunKeepsTable(Step(s, es[0]), es[1..]);
    }
  }

  /** Main result (routing): whatever adds, removes and resubscriptions come between, a late
      notification for a handle is dropped or goes to the node the handle was first given. */
  lemma LateNotification(s: State, es: seq<Event>, handle: nat)
    requires TableOk(s) && FitsAll(s, es) && handle < s.counter
    ensures Route(Run(s, es), handle) in {None, Route(s, handle)}
    ensures handle !in s.items ==> Route(Run(s, es), handle) == None
  {
    RunKeepsTable(s, es);
  }

  /** The notifications whose handle is in the table. */
  function Known(s: State, ns: seq<Notification>): seq<Notification> {
    if ns == [] then []
    else
      var n := ns[|ns| - 1];
      Known(s, ns[..|ns| - 1]) + if n.handle in s.items then [n] else []
  }

  /** So what is delivered late is what would have been delivered at first, less the notifications
      whose entry is gone. */
  lemma {:induction false} LateDelivery(s: State, es: seq<Event>, ns: seq<Notification>)
    requires TableOk(s) && FitsAll(s, es) && forall n | n in ns :: n.handle < s.counter
    ensures Delivered(Run(s, es), ns) == Delivered(s, Known(Run(s, es), ns))
  {
    if ns != [] {
      var r, n, rest := Run(s, es), ns[|ns| - 1], ns[..|ns| - 1];
      assert forall m | m in rest :: m in ns;
      LateDelivery(s, es, rest);
      assert n in ns;
      LateNotification(s, es, n.handle);
      var known := Known(r, rest);
      if n.handle in r.items {
        assert Route(r, n.handle) == Route(s, n.handle);
        assert (known + [n])[..|known|] == known;
      } else {
        assert known + [] == known && Delivered(r, rest) + [] == Delivered(r, rest);
      }
    }
  }

  // ---- The mirror invariant ----

  /** The ids in the table are exactly the server's live items, handle by handle, and a table that
      is not empty has a subscription. */
  predicate Mirror(s: State) {
    && (forall h | h in s.items :: s.items[h].id in s.live && s.live[s.items[h].id] == h)
    && (forall id | id in s.live :: s.live[id] in s.items && s.items[s.live[id]].id == id)
    && (s.items != map[] ==> s.subscribed)
  }

  /** Handle `h` is the one that got id `id`. */
  predicate IsAnswer(base: nat, results: seq<Option<nat>>, h: nat, id: nat) {
    base <= h < base + |results| && results[h - base] == Some(id)
  }

  predicate Maps(live: map<nat, nat>, id: nat, h: nat) {
    id in live && live[id] == h
  }

  lemma {:induction false} GoLiveMeaning(live: map<nat, nat>, base: nat, results: seq<Option<nat>>)
    requires FreshIds(live, results)
    ensures forall id: nat, h: nat ::
      Maps(GoLive(live, base, results), id, h) <==> Maps(live, id, h) || IsAnswer(base, results, h, id)
  {
    if results != [] {
      var n := |results| - 1;
      var rest := results[..n];
      GoLiveMeaning(live, base, rest);
      forall id: nat, h: nat
        ensures Maps(GoLive(live, base, results), id, h) <==> Maps(live, id, h) || IsAnswer(base, results, h, id)
      {
        assert IsAnswer(base, results, h, id) <==>
          IsAnswer(base, rest, h, id) || (h == base + n && results[n] == Some(id));
        assert Maps(GoLive(live, base, rest), id, h) <==> Maps(live, id, h) || IsAnswer(base, rest, h, id);
        if results[n] == Some(id) {
          assert id !in live && !IsAnswer(base, rest, h, id);
        }
      }
    }
  }

  /** Accepting items adds the same ids to the table and to the server. */
  lemma AcceptedMirror(s: State, attrs: seq<NodeAttributes>, fields: map<UaNodeId, EventFields>,
      results: seq<Option<nat>>)
    requires TableOk(s) && Mirror(s) && |results| == |attrs| && FreshIds(s.live, results)
    ensures Mirror(s.(subscribed := true, items := s.items + Accepted(s.counter, attrs, fields, results),
      live := GoLive(s.live, s.counter, results)))
  {
    var added, live := Accepted(s.counter, attrs, fields, results), GoLive(s.live, s.counter, results);
    AcceptedAre(s.counter, attrs, fields, results);
    GoLiveMeaning(s.live, s.counter, results);
    var items := s.items + added;
    forall h | h in items
      ensures items[h].id in live && live[items[h].id] == h
    {
      if h in added {
        assert IsAnswer(s.counter, results, h, items[h].id);
      } else {
        assert Maps(s.live, s.items[h].id, h);
      }
      assert Maps(live, items[h].id, h);
    }
    forall id | id in live
      ensures live[id] in items && items[live[id]].id == id
    {
      var h := live[id];
      assert Maps(live, id, h);
      if !Maps(s.live, id, h) {
        assert IsAnswer(s.counter, results, h, id);
      }
    }
  }

  /** Main result: an add request keeps the mirror exactly unless it needs a subscription that
      cannot be created; then entries stay in the table that no server knows. */
  lemma AddMirror(s: State, attrs: seq<NodeAttributes>, fields: map<UaNodeId, EventFields>, reply: AddReply)
    requires TableOk(s) && Mirror(s) && Fits(s, AddNodes(attrs, fields, reply))
    ensures Mirror(Add(s, attrs, fields, reply).0) <==> attrs == [] || s.subscribed || reply.createOk
  {
    if attrs != [] {
      if !s.subscribed && !reply.createOk {
        RequestedAre(s.counter, attrs, fields);
        assert s.counter in Add(s, attrs, fields, reply).0.items;
      } else if reply.callOk {
        AcceptedMirror(s, attrs, fields, reply.results);
      }
    }
  }

  lemma {:induction false} RemoveEachMirror(s: State, targets: seq<nat>, results: seq<bool>)
    requires Mirror(s) && |results| == |targets|
    ensures Mirror(RemoveEach(s, targets, results).0)
  {
    if targets != [] {
      RemoveEachMirror(s, targets[..|targets| - 1], results[..|targets| - 1]);
      var r := RemoveEach(s, targets[..|targets| - 1], results[..|targets| - 1]).0;
      assert r.subscribed == s.subscribed by {
        RemoveEachMeaning(s, targets[..|targets| - 1], results[..|targets| - 1]);
      }
    }
  }

  lemma RemoveMirror(s: State, nodeIds: seq<UaNodeId>, reply: RemoveReply)
    requires Mirror(s) && Fits(s, RemoveNodes(nodeIds, reply))
    ensures Mirror(Remove(s, nodeIds, reply).0)
  {
    if reply.callOk {
      RemoveEachMirror(s, Targets(s.items, nodeIds, s.counter), reply.results);
    }
  }

  lemma ExpireMirror(s: State, deleteOk: bool, reply: AddReply)
    requires TableOk(s) && Mirror(s) && Fits(s, Expired(deleteOk, reply))
    ensures Mirror(Expire(s, deleteOk, reply)) <==>
      Attributes(s.items, s.counter) == [] || reply.createOk || (s.subscribed && !deleteOk)
  {
    var d := DeleteSubscription(s.(items := map[], live := map[]), deleteOk).0;
    var attrs, fields := Attributes(s.items, s.counter), FieldsByNode(s.items, s.counter);
    FieldsByNodeCoverEvents(s, s.counter);
    AddMirror(d, attrs, fields, reply);
  }

  /** Every subscription that is asked for is created. */
  predicate CreateOk(e: Event) {
    match e
    case AddNodes(_, _, reply) => reply.createOk
    case Expired(_, reply) => reply.createOk
    case _ => true
  }

  /** Main result (mirror): in every run in which subscriptions can be created, whatever else the
      server refuses, the table mirrors the server. */
  lemma {:induction false} RunMirror(s: State, es: seq<Event>)
    requires TableOk(s) && Mirror(s) && FitsAll(s, es)
    requires forall e | e in es :: CreateOk(e)
    ensures Mirror(Run(s, es))
    decreases |es|
  {
    if es != [] {
      StepKeepsTable(s, es[0]);
      assert CreateOk(es[0]);
      match es[0] {
        case AddNodes(attrs, fields, reply) => AddMirror(s, attrs, fields, reply);
        case RemoveNodes(nodeIds, reply) => RemoveMirror(s, nodeIds, reply);
        case RemoveAllNodes(reply) => RemoveMirror(s, NodeIdsOf(Attributes(s.items, s.counter)), reply);
        case Expired(deleteOk, reply) => ExpireMirror(s, deleteOk, reply);
      }
      RunMirror(Step(s, es[0]), es[1..]);
    }
  }

  /** A client that starts with no subscription mirrors the server in every such run. */
  lemma ReachableMirror(es: seq<Event>)
    requires FitsAll(INITIAL, es) && forall e | e in es :: CreateOk(e)
    ensures Mirror(Run(INITIAL, es)) && TableOk(Run(INITIAL, es))
  {
    RunMirror(INITIAL, es);
    RunKeepsTable(INITIAL, es);
  }

  // ---- A subscription exists exactly while something is monitored ----

  predicate Tight(s: State) {
    s.subscribed <==> s.items != map[]
  }

  predicate Distinct<T(==)>(xs: seq<T>) {
    forall i, j | 0 <= i < j < |xs| :: xs[i] != xs[j]
  }

  lemma {:induction false} FirstHandleMeaning(items: map<nat, MonitoredItem>, nodeId: UaNodeId, n: nat)
    ensures var f := FirstHandle(items, nodeId, n);
      && (f.Some? ==> f.value < n && f.value in items && items[f.value].attr.nodeId == nodeId)
      && forall h | h in items && h < n && items[h].attr.nodeId == nodeId :: f.Some? && f.value <= h
  {
    if n > 0 {
      FirstHandleMeaning(items, nodeId, n - 1);
    }
  }

  lemma {:induction false} TargetsMeaning(items: map<nat, MonitoredItem>, nodeIds: seq<UaNodeId>, n: nat)
    ensures forall h :: h in Targets(items, nodeIds, n) <==>
      exists i :: 0 <= i < |nodeIds| && FirstHandle(items, nodeIds[i], n) == Some(h)
    ensures Distinct(nodeIds) ==> Distinct(Targets(items, nodeIds, n))
  {
    if nodeIds != [] {
      var k := |nodeIds| - 1;
      var rest := nodeIds[..k];
      TargetsMeaning(items, rest, n);
      var f, ts := FirstHandle(items, nodeIds[k], n), Targets(items, rest, n);
      forall h
        ensures h in Targets(items, nodeIds, n) <==>
          exists i :: 0 <= i < |nodeIds| && FirstHandle(items, nodeIds[i], n) == Some(h)
      {
        if h in ts {
          var i :| 0 <= i < |rest| && FirstHandle(items, rest[i], n) == Some(h);
          assert nodeIds[i] == rest[i];
        }
        if i :| 0 <= i < |nodeIds| && FirstHandle(items, nodeIds[i], n) == Some(h) {
          assert i < k ==> nodeIds[i] == rest[i];
        }
      }
      if Distinct(nodeIds) && f.Some? {
        forall i | 0 <= i < |rest|
          ensures FirstHandle(items, rest[i], n) != f
        {
          FirstHandleMeaning(items, nodeIds[k], n);
          FirstHandleMeaning(items, rest[i], n);
          assert rest[i] == nodeIds[i];
        }
        assert f.value !in ts;
      }
    }
  }

  /** Without repetitions, an item that could not be removed is still in the table. */
  lemma {:induction false} StillThere(s: State, targets: seq<nat>, results: seq<bool>)
    requires |results| == |targets| && Distinct(targets) && RemoveEach(s, targets, results).1
    ensures exists h :: h in RemoveEach(s, targets, results).0.items && h in targets
  {
    var n := |targets| - 1;
    var (r, failed) := RemoveEach(s, targets[..n], results[..n]);
    if targets[n] in r.items && !results[n] {
      assert targets[n] in RemoveEach(s, targets, results).0.items && targets[n] in targets;
    } else {
      StillThere(s, targets[..n], results[..n]);
      var h :| h in r.items && h in targets[..n];
      var i :| 0 <= i < n && targets[i] == h;
      assert targets[i] != targets[n];
      assert h in RemoveEach(s, targets, results).0.items && h in targets;
    }
  }

  lemma AddTight(s: State, attrs: seq<NodeAttributes>, fields: map<UaNodeId, EventFields>, reply: AddReply)
    requires Tight(s) && Fits(s, AddNodes(attrs, fields, reply)) && reply.createOk && reply.deleteOk
    ensures Tight(Add(s, attrs, fields, reply).0)
  {
    if attrs != [] && reply.callOk && None !in reply.results {
      AcceptedAre(s.counter, attrs, fields, reply.results);
      assert reply.results[0] in reply.results;
      assert s.counter in Add(s, attrs, fields, reply).0.items;
    }
  }

  /** Some entry is not a target, or no target is named twice. */
  predicate SafeTargets(s: State, targets: seq<nat>) {
    Distinct(targets) || exists h :: h in s.items && h !in targets
  }

  /** Whatever fails, an entry is left. */
  lemma FailureLeavesEntry(s: State, targets: seq<nat>, results: seq<bool>)
    requires |results| == |targets| && SafeTargets(s, targets) && RemoveEach(s, targets, results).1
    ensures RemoveEach(s, targets, results).0.items != map[]
  {
    if Distinct(targets) {
      StillThere(s, targets, results);
    } else {
      RemoveEachMeaning(s, targets, results);
      var h :| h in s.items && h !in targets;
      assert h in RemoveEach(s, targets, results).0.items;
    }
  }

  lemma TargetIsEntry(s: State, nodeIds: seq<UaNodeId>, h: nat)
    requires h in Targets(s.items, nodeIds, s.counter)
    ensures h in s.items
  {
    TargetsMeaning(s.items, nodeIds, s.counter);
    var i :| 0 <= i < |nodeIds| && FirstHandle(s.items, nodeIds[i], s.counter) == Some(h);
    FirstHandleMeaning(s.items, nodeIds[i], s.counter);
  }

  lemma RemoveTight(s: State, nodeIds: seq<UaNodeId>, reply: RemoveReply)
    requires Tight(s) && Fits(s, RemoveNodes(nodeIds, reply)) && reply.deleteOk
    requires SafeTargets(s, Targets(s.items, nodeIds, s.counter))
    ensures Tight(Remove(s, nodeIds, reply).0)
  {
    var targets := Targets(s.items, nodeIds, s.counter);
    if targets != [] && reply.callOk {
      TargetIsEntry(s, nodeIds, targets[0]);
      RemoveEachMeaning(s, targets, reply.results);
      if RemoveEach(s, targets, reply.results).1 {
        FailureLeavesEntry(s, targets, reply.results);
      }
    }
  }

  lemma {:induction false} FailsAt(s: State, targets: seq<nat>, results: seq<bool>, i: nat)
    requires |results| == |targets| && i < |targets|
    requires !results[i] && targets[i] in s.items && targets[i] !in targets[..i]
    ensures RemoveEach(s, targets, results).1
  {
    var n := |targets| - 1;
    if i < n {
      assert targets[..n][..i] == targets[..i];
      FailsAt(s, targets[..n], results[..n], i);
    } else {
      RemoveEachMeaning(s, targets[..n], results[..n]);
      assert forall k | 0 <= k < n :: targets[..n][k] in targets[..n];
    }
  }

  lemma {:induction false} FirstOfRepeated(xs: seq<nat>) returns (i: nat, j: nat)
    requires !Distinct(xs)
    ensures i < j < |xs| && xs[i] == xs[j] && xs[i] !in xs[..i]
  {
    var n := |xs| - 1;
    var rest := xs[..n];
    if Distinct(rest) {
      i :| 0 <= i < n && xs[i] == xs[n];
      j := n;
      assert forall k | 0 <= k < i :: rest[k] == xs[k] && rest[i] == xs[i];
    } else {
      i, j := FirstOfRepeated(rest);
      assert rest[..i] == xs[..i];
    }
  }

  /** The answer that deletes every target but fails the first time it is named. */
  lemma RepeatedTargetBreaks(s: State, nodeIds: seq<UaNodeId>) returns (reply: RemoveReply)
    requires Tight(s) && !SafeTargets(s, Targets(s.items, nodeIds, s.counter))
    ensures Fits(s, RemoveNodes(nodeIds, reply)) && reply.deleteOk
    ensures var r := Remove(s, nodeIds, reply).0; r.items == map[] && r.subscribed
  {
    var targets := Targets(s.items, nodeIds, s.counter);
    var i, j := FirstOfRepeated(targets);
    var results := seq(|targets|, k requires 0 <= k < |targets| => k != i);
    reply := RemoveReply(true, results, true);
    TargetIsEntry(s, nodeIds, targets[i]);
    FailsAt(s, targets, results, i);
    RemoveEachMeaning(s, targets, results);
    forall h | h in s.items
      ensures Deleted(targets, results, h)
    {
      var k :| 0 <= k < |targets| && targets[k] == h;
      var k' := if k == i then j else k;
      assert targets[k'] == h && results[k'];
    }
  }

  /** A remove request keeps the subscription in step with the table, whatever the server answers
      to the deletes, exactly if some entry is not named or no entry is named twice. */
  lemma RemoveTightExactly(s: State, nodeIds: seq<UaNodeId>)
    requires Tight(s)
    ensures (forall reply | Fits(s, RemoveNodes(nodeIds, reply)) && reply.deleteOk ::
      Tight(Remove(s, nodeIds, reply).0))
      <==> SafeTargets(s, Targets(s.items, nodeIds, s.counter))
  {
    if SafeTargets(s, Targets(s.items, nodeIds, s.counter)) {
      forall reply | Fits(s, RemoveNodes(nodeIds, reply)) && reply.deleteOk
        ensures Tight(Remove(s, nodeIds, reply).0)
      {
        RemoveTight(s, nodeIds, reply);
      }
    } else {
      var reply := RepeatedTargetBreaks(s, nodeIds);
      assert !Tight(Remove(s, nodeIds, reply).0);
    }
  }

  lemma ExpireTight(s: State, deleteOk: bool, reply: AddReply)
    requires TableOk(s) && Fits(s, Expired(deleteOk, reply)) && deleteOk && reply.createOk && reply.deleteOk
    ensures Tight(Expire(s, deleteOk, reply))
  {
    var d := DeleteSubscription(s.(items := map[], live := map[]), deleteOk).0;
    FieldsByNodeCoverEvents(s, s.counter);
    AddTight(d, Attributes(s.items, s.counter), FieldsByNode(s.items, s.counter), reply);
  }

  /** Subscriptions are created and deleted when asked for, and no entry is named twice by a
      remove request that names them all. */
  predicate Clean(s: State, e: Event) {
    match e
    case AddNodes(_, _, reply) => reply.createOk && reply.deleteOk
    case RemoveNodes(nodeIds, reply) => reply.deleteOk && SafeTargets(s, Targets(s.items, nodeIds, s.counter))
    case RemoveAllNodes(reply) => reply.deleteOk
    case Expired(deleteOk, reply) => deleteOk && reply.createOk && reply.deleteOk
  }

  /** Nodes named once are targets named once. */
  lemma DistinctNodesAreSafe(s: State, nodeIds: seq<UaNodeId>)
    requires Distinct(nodeIds)
    ensures SafeTargets(s, Targets(s.items, nodeIds, s.counter))
  {
    TargetsMeaning(s.items, nodeIds, s.counter);
  }

  /** Removing all never names an entry twice and all entries: of a node that is monitored twice
      it only finds one entry. */
  lemma RemoveAllIsSafe(s: State)
    requires TableOk(s)
    ensures SafeTargets(s, Targets(s.items, NodeIdsOf(Attributes(s.items, s.counter)), s.counter))
  {
    AllTargeted(s.items, s.counter);
    if Distinct(NodeIdsOf(Attributes(s.items, s.counter))) {
      DistinctNodesAreSafe(s, NodeIdsOf(Attributes(s.items, s.counter)));
    }
  }

  ghost predicate CleanRun(s: State, es: seq<Event>)
    requires FitsAll(s, es)
    decreases |es|
  {
    es == [] || (Clean(s, es[0]) && CleanRun(Step(s, es[0]), es[1..]))
  }

  /** Main result (lazy subscription): in every clean run a subscription exists exactly while the
      table is not empty, although the server may refuse any item. */
  lemma {:induction false} RunTight(s: State, es: seq<Event>)
    requires TableOk(s) && Tight(s) && FitsAll(s, es) && CleanRun(s, es)
    ensures Tight(Run(s, es))
    decreases |es|
  {
    if es != [] {
      StepKeepsTable(s, es[0]);
      match es[0] {
        case AddNodes(attrs, fields, reply) => AddTight(s, attrs, fields, reply);
        case RemoveNodes(nodeIds, reply) => RemoveTight(s, nodeIds, reply);
        case RemoveAllNodes(reply) =>
          RemoveAllIsSafe(s);
          RemoveTight(s, NodeIdsOf(Attributes(s.items, s.counter)), reply);
        case Expired(deleteOk, reply) => ExpireTight(s, deleteOk, reply);
      }
      RunTight(Step(s, es[0]), es[1..]);
    }
  }

  // ---- removeAll ----

  lemma {:induction false} AttributesMeaning(items: map<nat, MonitoredItem>, n: nat)
    ensures forall i | 0 <= i < |Handles(items, n)| ::
      Handles(items, n)[i] in items && Attributes(items, n)[i] == items[Handles(items, n)[i]].attr
  {
    if n > 0 {
      AttributesMeaning(items, n - 1);
    }
  }

  lemma DistinctAllTargeted(items: map<nat, MonitoredItem>, n: nat, h: nat)
    requires (forall h | h in items :: h < n) && Distinct(NodeIdsOf(Attributes(items, n))) && h in items
    ensures h in Targets(items, NodeIdsOf(Attributes(items, n)), n)
  {
    var hs, nodeIds := Handles(items, n), NodeIdsOf(Attributes(items, n));
    HandlesAre(items, n);
    AttributesMeaning(items, n);
    var i :| 0 <= i < |hs| && hs[i] == h;
    FirstHandleMeaning(items, nodeIds[i], n);
    var f := FirstHandle(items, nodeIds[i], n).value;
    var j :| 0 <= j < |hs| && hs[j] == f;
    assert nodeIds[j] == nodeIds[i];
    TargetsMeaning(items, nodeIds, n);
  }

  lemma RepeatedNotTargeted(items: map<nat, MonitoredItem>, n: nat, i: nat, j: nat)
    requires i < j < |Handles(items, n)|
    requires NodeIdsOf(Attributes(items, n))[i] == NodeIdsOf(Attributes(items, n))[j]
    ensures Handles(items, n)[j] in items
    ensures Handles(items, n)[j] !in Targets(items, NodeIdsOf(Attributes(items, n)), n)
  {
    var hs, nodeIds := Handles(items, n), NodeIdsOf(Attributes(items, n));
    HandlesAre(items, n);
    AttributesMeaning(items, n);
    assert hs[i] < hs[j] && hs[i] in hs;
    forall k | 0 <= k < |nodeIds|
      ensures FirstHandle(items, nodeIds[k], n) != Some(hs[j])
    {
      FirstHandleMeaning(items, nodeIds[k], n);
    }
    TargetsMeaning(items, nodeIds, n);
  }

  /** The search by node id finds every entry exactly when no node is monitored twice. */
  lemma AllTargeted(items: map<nat, MonitoredItem>, n: nat)
    requires forall h | h in items :: h < n
    ensures (forall h | h in items :: h in Targets(items, NodeIdsOf(Attributes(items, n)), n))
      <==> Distinct(NodeIdsOf(Attributes(items, n)))
  {
    var nodeIds := NodeIdsOf(Attributes(items, n));
    if Distinct(nodeIds) {
      forall h | h in items
        ensures h in Targets(items, nodeIds, n)
      {
        DistinctAllTargeted(items, n, h);
      }
    } else {
      var i, j :| 0 <= i < j < |nodeIds| && nodeIds[i] == nodeIds[j];
      RepeatedNotTargeted(items, n, i, j);
    }
  }

  /** If every delete succeeds, exactly the targets leave the table. */
  lemma TargetsLeave(s: State, nodeIds: seq<UaNodeId>, reply: RemoveReply)
    requires Fits(s, RemoveNodes(nodeIds, reply)) && reply.callOk && false !in reply.results
    ensures forall h :: h in Remove(s, nodeIds, reply).0.items <==>
      h in s.items && h !in Targets(s.items, nodeIds, s.counter)
  {
    var targets := Targets(s.items, nodeIds, s.counter);
    RemoveEachMeaning(s, targets, reply.results);
    assert forall i | 0 <= i < |targets| :: reply.results[i] in reply.results;
    forall h: nat
      ensures Deleted(targets, reply.results, h) <==> h in targets
    {
      if i :| 0 <= i < |targets| && targets[i] == h {
        assert reply.results[i];
      }
    }
  }

  /** Main result (remove all): if every delete succeeds, the table is emptied exactly when no node
      is monitored twice. */
  lemma RemoveAllEmpties(s: State, reply: RemoveReply)
    requires TableOk(s) && Fits(s, RemoveAllNodes(reply)) && reply.callOk && false !in reply.results
    ensures RemoveAll(s, reply).0.items == map[] <==> Distinct(NodeIdsOf(Attributes(s.items, s.counter)))
  {
    TargetsLeave(s, NodeIdsOf(Attributes(s.items, s.counter)), reply);
    AllTargeted(s.items, s.counter);
  }

  // ---- Resubscription ----

  /** The attributes of the accepted items. */
  function Kept(attrs: seq<NodeAttributes>, results: seq<Option<nat>>): seq<NodeAttributes>
    requires |results| == |attrs|
  {
    if attrs == [] then []
    else
      var n := |attrs| - 1;
      Kept(attrs[..n], results[..n]) + if results[n].Some? then [attrs[n]] else []
  }

  lemma {:induction false} KeptAll(attrs: seq<NodeAttributes>, results: seq<Option<nat>>)
    requires |results| == |attrs| && None !in results
    ensures Kept(attrs, results) == attrs
  {
    if attrs != [] {
      var n := |attrs| - 1;
      assert results[n] in results;
      assert forall r | r in results[..n] :: r in results;
      KeptAll(attrs[..n], results[..n]);
    }
  }

  lemma {:induction false} AttributesAgree(a: map<nat, MonitoredItem>, b: map<nat, MonitoredItem>, n: nat)
    requires forall h | h < n :: (h in a <==> h in b) && (h in a ==> a[h].attr == b[h].attr)
    ensures Attributes(a, n) == Attributes(b, n)
  {
    if n > 0 {
      AttributesAgree(a, b, n - 1);
    }
  }

  lemma {:induction false} AttributesBelow(items: map<nat, MonitoredItem>, n: nat)
    requires forall h | h in items :: n <= h
    ensures Attributes(items, n) == []
  {
    if n > 0 {
      AttributesBelow(items, n - 1);
    }
  }

  lemma {:induction false} AttributesOfAccepted(base: nat, attrs: seq<NodeAttributes>,
      fields: map<UaNodeId, EventFields>, results: seq<Option<nat>>)
    requires |results| == |attrs|
    ensures Attributes(Accepted(base, attrs, fields, results), base + |attrs|) == Kept(attrs, results)
  {
    if attrs == [] {
      AttributesBelow(map[], base);
    } else {
      var n := |attrs| - 1;
      AcceptedAre(base, attrs[..n], fields, results[..n]);
      AttributesOfAccepted(base, attrs[..n], fields, results[..n]);
      AttributesAgree(Accepted(base, attrs, fields, results), Accepted(base, attrs[..n], fields, results[..n]),
        base + n);
    }
  }

  /** The state after the lost subscription was deleted. */
  function Cleared(s: State, deleteOk: bool): State {
    DeleteSubscription(s.(items := map[], live := map[]), deleteOk).0
  }

  /** The table after a resubscription holds the new entries and nothing else. */
  lemma ResubscribedTable(s: State, deleteOk: bool, reply: AddReply)
    requires TableOk(s) && Fits(s, Expired(deleteOk, reply)) && (deleteOk || !s.subscribed)
    ensures var r := Expire(s, deleteOk, reply);
      && r.items ==
           NewEntries(Cleared(s, deleteOk), Attributes(s.items, s.counter), FieldsByNode(s.items, s.counter), reply)
      && r.counter == s.counter + |Attributes(s.items, s.counter)|
  {
    AddLeaves(Cleared(s, deleteOk), Attributes(s.items, s.counter), FieldsByNode(s.items, s.counter), reply);
  }

  lemma AcceptedAbove(base: nat, attrs: seq<NodeAttributes>, fields: map<UaNodeId, EventFields>,
      results: seq<Option<nat>>)
    requires |results| == |attrs|
    ensures forall h | h in Accepted(base, attrs, fields, results) :: base <= h
  {
    AcceptedAre(base, attrs, fields, results);
  }

  lemma AcceptedTable(s: State, deleteOk: bool, reply: AddReply)
    requires TableOk(s) && Fits(s, Expired(deleteOk, reply))
    requires deleteOk && reply.createOk && reply.callOk
    ensures var r := Expire(s, deleteOk, reply);
      var attrs := Attributes(s.items, s.counter);
      && r.items == Accepted(s.counter, attrs, FieldsByNode(s.items, s.counter), reply.results)
      && r.counter == s.counter + |attrs|
  {
    ResubscribedTable(s, deleteOk, reply);
  }

  /** Main result (conservation): after the subscription has expired and a new one was created, the
      same nodes are monitored in the same order and kind, less those the server now refuses, all
      under new handles; nothing is lost if nothing is refused. */
  lemma ResubscriptionConserves(s: State, deleteOk: bool, reply: AddReply)
    requires TableOk(s) && Fits(s, Expired(deleteOk, reply))
    requires deleteOk && reply.createOk && reply.callOk
    ensures var r := Expire(s, deleteOk, reply);
      && Attributes(r.items, r.counter) == Kept(Attributes(s.items, s.counter), reply.results)
      && (None !in reply.results ==> Attributes(r.items, r.counter) == Attributes(s.items, s.counter))
      && (forall h | h in r.items :: s.counter <= h)
  {
    var attrs, fields := Attributes(s.items, s.counter), FieldsByNode(s.items, s.counter);
    AcceptedTable(s, deleteOk, reply);
    AcceptedAbove(s.counter, attrs, fields, reply.results);
    AttributesOfAccepted(s.counter, attrs, fields, reply.results);
    if None !in reply.results {
      KeptAll(attrs, reply.results);
    }
  }

  /** All entries of one node that have event fields have the same ones. */
  predicate SameFieldsPerNode(s: State) {
    forall g, h | g in s.items && h in s.items && s.items[g].attr.nodeId == s.items[h].attr.nodeId
      && s.items[g].fields.Some? && s.items[h].fields.Some? :: s.items[g].fields == s.items[h].fields
  }

  lemma {:induction false} FieldsOfNode(s: State, n: nat)
    requires SameFieldsPerNode(s)
    ensures forall h | h in s.items && h < n && s.items[h].fields.Some? ::
      s.items[h].attr.nodeId in FieldsByNode(s.items, n)
      && FieldsByNode(s.items, n)[s.items[h].attr.nodeId] == s.items[h].fields.value
  {
    if n > 0 {
      FieldsOfNode(s, n - 1);
    }
  }

  /** Two entries for the same node, kind and event fields. */
  predicate SameEntry(a: MonitoredItem, b: MonitoredItem) {
    a.attr == b.attr && a.fields == b.fields
  }

  lemma NewEntryIs(s: State, attrs: seq<NodeAttributes>, fields: map<UaNodeId, EventFields>, reply: AddReply, h: nat)
    requires reply.callOk ==> |reply.results| == |attrs|
    requires h in NewEntries(s, attrs, fields, reply)
    ensures s.counter <= h < s.counter + |attrs|
    ensures var item := NewEntries(s, attrs, fields, reply)[h];
      item == NewItem(item.id, attrs[h - s.counter], fields)
  {
    RequestedAre(s.counter, attrs, fields);
    if reply.callOk {
      AcceptedAre(s.counter, attrs, fields, reply.results);
    }
  }

  /** The attributes and event fields that are collected are those of an entry. */
  lemma CollectedFrom(s: State, i: nat) returns (g: nat)
    requires TableOk(s) && i < |Attributes(s.items, s.counter)| && SameFieldsPerNode(s)
    ensures g in s.items
    ensures s.items[g].attr == Attributes(s.items, s.counter)[i]
    ensures s.items[g].fields == FieldsFor(s.items[g].attr, FieldsByNode(s.items, s.counter))
  {
    AttributesMeaning(s.items, s.counter);
    FieldsOfNode(s, s.counter);
    g := Handles(s.items, s.counter)[i];
  }

  /** Event fields travel with their node, if all entries of a node have the same ones. */
  lemma ResubscriptionKeepsFields(s: State, deleteOk: bool, reply: AddReply, h: nat)
    requires TableOk(s) && Fits(s, Expired(deleteOk, reply)) && (deleteOk || !s.subscribed) && SameFieldsPerNode(s)
    requires h in Expire(s, deleteOk, reply).items
    ensures exists g :: g in s.items && SameEntry(s.items[g], Expire(s, deleteOk, reply).items[h])
  {
    var attrs, fields := Attributes(s.items, s.counter), FieldsByNode(s.items, s.counter);
    ResubscribedTable(s, deleteOk, reply);
    NewEntryIs(Cleared(s, deleteOk), attrs, fields, reply, h);
    var g := CollectedFrom(s, h - s.counter);
    assert SameEntry(s.items[g], Expire(s, deleteOk, reply).items[h]);
  }

  /** The entry that takes the place of the i-th old one, if everything is accepted. */
  lemma Successor(s: State, deleteOk: bool, reply: AddReply, i: nat)
    requires TableOk(s) && Fits(s, Expired(deleteOk, reply)) && (deleteOk || !s.subscribed)
    requires reply.createOk && reply.callOk && None !in reply.results
    requires i < |Handles(s.items, s.counter)|
    ensures var r, g := Expire(s, deleteOk, reply), Handles(s.items, s.counter)[i];
      && g in s.items && s.counter + i in r.items
      && r.items[s.counter + i].attr == s.items[g].attr
      && r.items[s.counter + i].fields == FieldsFor(s.items[g].attr, FieldsByNode(s.items, s.counter))
  {
    var attrs, fields := Attributes(s.items, s.counter), FieldsByNode(s.items, s.counter);
    AttributesMeaning(s.items, s.counter);
    ResubscribedTable(s, deleteOk, reply);
    AcceptedAre(s.counter, attrs, fields, reply.results);
    assert reply.results[i] in reply.results;
  }

  /** The i-th entry and the one that takes its place. */
  predicate KeepsAt(s: State, r: State, i: nat)
    requires i < |Handles(s.items, s.counter)|
  {
    var g := Handles(s.items, s.counter)[i];
    g in s.items && s.counter + i in r.items && SameEntry(s.items[g], r.items[s.counter + i])
  }

  predicate KeepsFields(s: State, r: State) {
    forall i: nat | i < |Handles(s.items, s.counter)| :: KeepsAt(s, r, i)
  }

  /** Each entry's event fields are what is collected for its node. */
  predicate CollectsOwn(s: State, h: nat)
    requires h in s.items
  {
    s.items[h].fields == FieldsFor(s.items[h].attr, FieldsByNode(s.items, s.counter))
  }

  predicate CollectsOwnFields(s: State) {
    forall h | h in s.items :: CollectsOwn(s, h)
  }

  lemma CollectsIffSame(s: State)
    requires TableOk(s)
    ensures CollectsOwnFields(s) <==> SameFieldsPerNode(s)
  {
    if SameFieldsPerNode(s) {
      FieldsOfNode(s, s.counter);
    }
  }

  lemma KeepsAtIffCollects(s: State, deleteOk: bool, reply: AddReply, i: nat)
    requires TableOk(s) && Fits(s, Expired(deleteOk, reply)) && (deleteOk || !s.subscribed)
    requires reply.createOk && reply.callOk && None !in reply.results
    requires i < |Handles(s.items, s.counter)|
    ensures Handles(s.items, s.counter)[i] in s.items
    ensures KeepsAt(s, Expire(s, deleteOk, reply), i) <==> CollectsOwn(s, Handles(s.items, s.counter)[i])
  {
    Successor(s, deleteOk, reply, i);
  }

  lemma KeepsIffCollects(s: State, deleteOk: bool, reply: AddReply)
    requires TableOk(s) && Fits(s, Expired(deleteOk, reply)) && (deleteOk || !s.subscribed)
    requires reply.createOk && reply.callOk && None !in reply.results
    ensures KeepsFields(s, Expire(s, deleteOk, reply)) <==> CollectsOwnFields(s)
  {
    var r, hs := Expire(s, deleteOk, reply), Handles(s.items, s.counter);
    forall i: nat | i < |hs|
      ensures hs[i] in s.items && (KeepsAt(s, r, i) <==> CollectsOwn(s, hs[i]))
    {
      KeepsAtIffCollects(s, deleteOk, reply, i);
    }
    HandlesAre(s.items, s.counter);
    forall h | h in s.items
      ensures exists i: nat :: i < |hs| && hs[i] == h
    {
      var i :| 0 <= i < |hs| && hs[i] == h;
    }
  }

  /** Main result (event fields): if everything is accepted anew, each entry keeps its event fields
      exactly if all entries of one node had the same ones. */
  lemma ResubscriptionKeepsFieldsExactly(s: State, deleteOk: bool, reply: AddReply)
    requires TableOk(s) && Fits(s, Expired(deleteOk, reply)) && (deleteOk || !s.subscribed)
    requires reply.createOk && reply.callOk && None !in reply.results
    ensures KeepsFields(s, Expire(s, deleteOk, reply)) <==> SameFieldsPerNode(s)
  {
    KeepsIffCollects(s, deleteOk, reply);
    CollectsIffSame(s);
  }

  // ---- What can be reached ----

  function OneNode(n: UaNodeId, ids: seq<nat>): Event {
    AddNodes(seq(|ids|, _ => NodeAttributes(n, false)), map[],
      AddReply(true, true, seq(|ids|, i requires 0 <= i < |ids| => Some(ids[i])), true))
  }

  lemma RunOne(s: State, e: Event)
    requires Fits(s, e)
    ensures FitsAll(s, [e]) && Run(s, [e]) == Step(s, e)
  {
    var rest := [e][1..];
    assert rest == [] && FitsAll(Step(s, e), rest) && Run(Step(s, e), rest) == Step(s, e);
  }

  lemma AddedOneNode(n: UaNodeId, ids: seq<nat>)
    requires Distinct(ids)
    ensures FitsAll(INITIAL, [OneNode(n, ids)])
    ensures var s := Run(INITIAL, [OneNode(n, ids)]);
      && s.counter == 1 + |ids| && (forall h :: h in s.items <==> 1 <= h <= |ids|)
      && forall h | h in s.items :: s.items[h].attr.nodeId == n
  {
    var e := OneNode(n, ids);
    RunOne(INITIAL, e);
    AddLeaves(INITIAL, e.attrs, e.fields, e.addReply);
    NewEntriesOf(INITIAL, e.attrs, e.fields, e.addReply);
  }

  lemma NewEntriesOf(s: State, attrs: seq<NodeAttributes>, fields: map<UaNodeId, EventFields>, reply: AddReply)
    requires reply.createOk && reply.callOk && |reply.results| == |attrs| && None !in reply.results
    ensures var added := NewEntries(s, attrs, fields, reply);
      && (forall h :: h in added <==> s.counter <= h < s.counter + |attrs|)
      && forall h | h in added :: added[h].attr == attrs[h - s.counter]
  {
    AcceptedAre(s.counter, attrs, fields, reply.results);
    assert forall i | 0 <= i < |attrs| :: reply.results[i] in reply.results;
  }

  /** A node can be monitored twice: then removing all does not empty the table. */
  lemma MonitoredTwice(n: UaNodeId)
    ensures FitsAll(INITIAL, [OneNode(n, [7, 8])])
    ensures var s := Run(INITIAL, [OneNode(n, [7, 8])]); !Distinct(NodeIdsOf(Attributes(s.items, s.counter)))
  {
    AddedOneNode(n, [7, 8]);
    var s := Run(INITIAL, [OneNode(n, [7, 8])]);
    AttributesMeaning(s.items, s.counter);
    HandlesAre(s.items, s.counter);
    assert 1 in s.items && 2 in s.items;
    var i :| 0 <= i < |Handles(s.items, s.counter)| && Handles(s.items, s.counter)[i] == 1;
    var j :| 0 <= j < |Handles(s.items, s.counter)| && Handles(s.items, s.counter)[j] == 2;
    assert NodeIdsOf(Attributes(s.items, s.counter))[i] == NodeIdsOf(Attributes(s.items, s.counter))[j];
  }

  /** A request that names the only node twice can leave the subscription behind. */
  lemma NamedTwice(n: UaNodeId)
    ensures FitsAll(INITIAL, [OneNode(n, [7])])
    ensures var s := Run(INITIAL, [OneNode(n, [7])]); !SafeTargets(s, Targets(s.items, [n, n], s.counter))
  {
    AddedOneNode(n, [7]);
    var s := Run(INITIAL, [OneNode(n, [7])]);
    FirstHandleMeaning(s.items, n, s.counter);
    assert 1 in s.items && FirstHandle(s.items, n, s.counter) == Some(1);
    assert [n, n][..1] == [n] && [n][..0] == [];
    assert Targets(s.items, [n], s.counter) == [] + [1] == [1];
    var targets := Targets(s.items, [n, n], s.counter);
    assert targets == [1] + [1] == [1, 1];
    assert targets[0] == targets[1] && forall h | h in s.items :: h == 1;
  }

  function OneEvent(n: UaNodeId, f: EventFields, id: nat): Event {
    AddNodes([NodeAttributes(n, true)], map[n := f], AddReply(true, true, [Some(id)], true))
  }

  lemma AddedOneEvent(s: State, n: UaNodeId, f: EventFields, id: nat)
    requires id !in s.live
    ensures Fits(s, OneEvent(n, f, id))
    ensures var r := Step(s, OneEvent(n, f, id));
      && r.counter == s.counter + 1 && (forall k | k in r.live :: k in s.live || k == id)
      && r.items == s.items[s.counter := MonitoredItem(id, NodeAttributes(n, true), Some(f))]
  {
    var e := OneEvent(n, f, id);
    AddLeaves(s, e.attrs, e.fields, e.addReply);
    AcceptedAre(s.counter, e.attrs, e.fields, e.addReply.results);
    assert e.addReply.results[..0] == [] && GoLive(s.live, s.counter, []) == s.live;
    assert None !in e.addReply.results;
  }

  /** A node can be monitored twice with different event fields, which a resubscription then loses. */
  lemma FieldsCanDiffer(n: UaNodeId, f: EventFields, f': EventFields)
    requires f != f'
    ensures FitsAll(INITIAL, [OneEvent(n, f, 7), OneEvent(n, f', 8)])
    ensures !SameFieldsPerNode(Run(INITIAL, [OneEvent(n, f, 7), OneEvent(n, f', 8)]))
  {
    var e, e' := OneEvent(n, f, 7), OneEvent(n, f', 8);
    AddedOneEvent(INITIAL, n, f, 7);
    var s := Step(INITIAL, e);
    AddedOneEvent(s, n, f', 8);
    RunOne(s, e');
    assert [e, e'][1..] == [e'];
    var r := Run(INITIAL, [e, e']);
    assert r == Step(s, e');
    assert r.items[1].fields == Some(f) && r.items[2].fields == Some(f');
  }
}
