/** What single requests and notifications of a subscription answer. */
module SubscriptionAnswers {
  import opened Wrappers
  import opened NodeIds
  import opened Subscriptions
  import opened SubscriptionRuns

  // ---- Notifications ----

  lemma {:induction false} KnownAre(s: State, ns: seq<Notification>, n: Notification)
    ensures n in Known(s, ns) <==> n in ns && n.handle in s.items
  {
    if ns != [] {
      KnownAre(s, ns[..|ns| - 1], n);
      assert ns == ns[..|ns| - 1] + [ns[|ns| - 1]];
    }
  }

  /** The k-th delivery belongs to the k-th notification whose handle is in the table: it goes to the
      node of the entry, with the value if the status is good, and with an exception otherwise. */
  lemma {:induction false} DeliveriesAre(s: State, ns: seq<Notification>)
    ensures |Delivered(s, ns)| == |Known(s, ns)|
    ensures forall k | 0 <= k < |Known(s, ns)| ::
      var n, d := Known(s, ns)[k], Delivered(s, ns)[k];
      && n.handle in s.items && d.nodeId == s.items[n.handle].attr.nodeId
      && (n.good ==> d.value == Some(n.value)) && (!n.good ==> d.value == None)
  {
    if ns != [] {
      DeliveriesAre(s, ns[..|ns| - 1]);
    }
  }

  /** No notification for an entry is lost. */
  lemma EachIsDelivered(s: State, ns: seq<Notification>, n: Notification)
    requires n in ns && n.handle in s.items
    ensures Delivery(s.items[n.handle].attr.nodeId, if n.good then Some(n.value) else None) in Delivered(s, ns)
  {
    KnownAre(s, ns, n);
    DeliveriesAre(s, ns);
    var k :| 0 <= k < |Known(s, ns)| && Known(s, ns)[k] == n;
    assert Delivered(s, ns)[k] in Delivered(s, ns);
  }

  // ---- Remove ----

  /** Each monitored node of the request is answered at its own position among the targets. */
  lemma {:induction false} TargetAt(items: map<nat, MonitoredItem>, nodeIds: seq<UaNodeId>, n: nat, i: nat)
    requires i < |nodeIds|
    ensures var before, f := |Targets(items, nodeIds[..i], n)|, FirstHandle(items, nodeIds[i], n);
      && before <= |Targets(items, nodeIds, n)|
      && (f.Some? ==> before < |Targets(items, nodeIds, n)| && Targets(items, nodeIds, n)[before] == f.value)
  {
    var last := |nodeIds| - 1;
    if i < last {
      TargetAt(items, nodeIds[..last], n, i);
      assert nodeIds[..last][..i] == nodeIds[..i];
    }
  }

  /** The server refuses to delete an item that is still in the table at its turn. */
  predicate Refused(targets: seq<nat>, results: seq<bool>)
    requires |results| == |targets|
  {
    exists i | 0 <= i < |targets| :: !results[i] && !Deleted(targets[..i], results[..i], targets[i])
  }

  lemma {:induction false} FailsIfRefused(s: State, targets: seq<nat>, results: seq<bool>)
    requires |results| == |targets| && forall h | h in targets :: h in s.items
    ensures RemoveEach(s, targets, results).1 <==> Refused(targets, results)
  {
    if targets != [] {
      var n := |targets| - 1;
      var ts, rs := targets[..n], results[..n];
      assert forall h | h in ts :: h in targets;
      FailsIfRefused(s, ts, rs);
      RemoveEachMeaning(s, ts, rs);
      assert targets[n] in targets;
      OneMoreTarget(targets, results);
    }
  }

  lemma OneMoreTarget(targets: seq<nat>, results: seq<bool>)
    requires |results| == |targets| > 0
    ensures var n := |targets| - 1;
      Refused(targets, results) <==>
        Refused(targets[..n], results[..n]) || (!results[n] && !Deleted(targets[..n], results[..n], targets[n]))
  {
    var n := |targets| - 1;
    forall i | 0 <= i < n
      ensures targets[..n][..i] == targets[..i] && results[..n][..i] == results[..i]
    {
    }
    if Refused(targets[..n], results[..n]) {
      var i :| 0 <= i < n && !results[..n][i] && !Deleted(targets[..n][..i], results[..n][..i], targets[..n][i]);
      assert !results[i] && !Deleted(targets[..i], results[..i], targets[i]);
    }
    if Refused(targets, results) {
      var i :| 0 <= i < |targets| && !results[i] && !Deleted(targets[..i], results[..i], targets[i]);
      if i < n {
        assert !results[..n][i] && !Deleted(targets[..n][..i], results[..n][..i], targets[..n][i]);
      }
    }
  }

  /** Every entry is deleted. */
  predicate Empties(s: State, targets: seq<nat>, results: seq<bool>)
    requires |results| == |targets|
  {
    forall h | h in s.items :: Deleted(targets, results, h)
  }

  /** What a remove request leaves and when it throws: exactly the entries whose delete succeeds are
      gone. It throws if the call fails, if an item that is still in the table is refused, or if the
      last entries go and the subscription cannot be deleted. It ends the subscription if nothing
      is left and nothing is thrown. */
  lemma RemoveAnswers(s: State, nodeIds: seq<UaNodeId>, reply: RemoveReply)
    requires Fits(s, RemoveNodes(nodeIds, reply))
    ensures var targets, (r, thrown) := Targets(s.items, nodeIds, s.counter), Remove(s, nodeIds, reply);
      && (forall h :: h in r.items <==> h in s.items && !(reply.callOk && Deleted(targets, reply.results, h)))
      && (forall h | h in r.items :: r.items[h] == s.items[h]) && r.counter == s.counter
      && (thrown <==>
            targets != [] &&
            (|| !reply.callOk || Refused(targets, reply.results)
             || (Empties(s, targets, reply.results) && s.subscribed && !reply.deleteOk)))
      && (r.subscribed <==>
            && s.subscribed
            && (thrown || targets == [] || !Empties(s, targets, reply.results)))
  {
    var targets := Targets(s.items, nodeIds, s.counter);
    forall h | h in targets
      ensures h in s.items
    {
      TargetIsEntry(s, nodeIds, h);
    }
    if targets != [] && reply.callOk {
      FailsIfRefused(s, targets, reply.results);
      RemoveEachMeaning(s, targets, reply.results);
      var r := RemoveEach(s, targets, reply.results).0;
      assert r.items == map[] <==> Empties(s, targets, reply.results) by {
        if r.items != map[] {
          var h :| h in r.items;
        }
        if !Empties(s, targets, reply.results) {
          var h :| h in s.items && !Deleted(targets, reply.results, h);
          assert h in r.items;
        }
      }
    }
  }

  // ---- Add ----

  /** The subscription after an add request: it is created if needed, and deleted again if items were
      refused and the table is then empty. */
  lemma AddSubscribes(s: State, attrs: seq<NodeAttributes>, fields: map<UaNodeId, EventFields>, reply: AddReply)
    requires Fits(s, AddNodes(attrs, fields, reply))
    ensures var (r, thrown) := Add(s, attrs, fields, reply);
      r.subscribed <==>
        if attrs == [] then s.subscribed
        else (s.subscribed || reply.createOk) && !(thrown && r.items == map[] && reply.deleteOk)
  {
  }

  // ---- Expiry ----

  /** A subscription that cannot be deleted stays, and the caller learns of it. */
  lemma DeleteAnswers(s: State, deleteOk: bool)
    ensures var (r, thrown) := DeleteSubscription(s, deleteOk);
      && (thrown <==> s.subscribed && !deleteOk) && r.subscribed == thrown
      && r.items == s.items && r.counter == s.counter
      && (if s.subscribed && deleteOk then r.live == map[] else r.live == s.live)
  {
  }

  /** If the lost subscription cannot be deleted, it is kept and nothing is monitored anew. */
  lemma ExpireRefused(s: State, deleteOk: bool, reply: AddReply)
    requires Fits(s, Expired(deleteOk, reply)) && s.subscribed && !deleteOk
    ensures Expire(s, deleteOk, reply) == State(s.counter, true, map[], map[])
  {
  }
}
