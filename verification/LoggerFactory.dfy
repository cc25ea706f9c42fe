/** The stack of logger factories. */
module LoggerFactories {
  import opened Wrappers

  /** The static state: the active factory, and the factories it replaced, if any. */
  datatype Statics<F> = Statics(active: Option<F>, previous: Option<seq<F>>)

  /** The list of replaced factories is NULL or not empty, and empty without an active factory. */
  predicate Consistent<F(==)>(s: Statics<F>) {
    s.previous.Some? ==> s.active.Some? && s.previous.value != []
  }

  function IndexOf<F(==)>(l: seq<F>, f: F): (i: nat)
    ensures i <= |l| && (i == |l| <==> f !in l)
    ensures i < |l| ==> l[i] == f
    ensures forall j | 0 <= j < i :: l[j] != f
  {
    if l == [] || l[0] == f then 0 else 1 + IndexOf(l[1..], f)
  }

  function RemoveAt<F>(l: seq<F>, i: nat): (r: seq<F>)
    requires i < |l|
    ensures |r| == |l| - 1
    ensures forall j {:trigger r[j]} | 0 <= j < |r| :: r[j] == if j < i then l[j] else l[j + 1]
  {
    l[..i] + l[i + 1..]
  }

  function ListOf<F>(s: Statics<F>): seq<F> {
    (if s.previous.Some? then s.previous.value else []) + (if s.active.Some? then [s.active.value] else [])
  }

  /** The statics when the given factories are alive, in the order of their construction. */
  function StaticsOf<F>(l: seq<F>): (s: Statics<F>)
    ensures ListOf(s) == l
  {
    if l == [] then Statics(None, None)
    else Statics(Some(l[|l| - 1]), if |l| == 1 then None else Some(l[..|l| - 1]))
  }

  function Constructed<F>(s: Statics<F>, f: F): Statics<F> {
    if s.active.None? then s.(active := Some(f))
    else Statics(Some(f), Some((if s.previous.Some? then s.previous.value else []) + [s.active.value]))
  }

  /** Destruction. `None` where the program's behavior is undefined. */
  function Destroyed<F(==)>(s: Statics<F>, f: F): Option<Statics<F>>
    requires Consistent(s)
  {
    if s.active == Some(f) then
      if s.previous.None? then Some(Statics(None, None))
      else
        var p := s.previous.value;
        Some(Statics(Some(p[|p| - 1]), if |p| == 1 then None else Some(p[..|p| - 1])))
    else if s.previous.None? then None
    else
      var p := s.previous.value;
      if |p| == 1 then Some(s.(previous := None))
      else if f !in p then None
      else Some(s.(previous := Some(RemoveAt(p, IndexOf(p, f)))))
  }

  /** The static members of `LoggerFactory`. */
  class LoggerFactory<F(==)> {
    var iloggerFactory: Option<F>
    var previous: Option<seq<F>>

    ghost function Now(): Statics<F>
      reads this
    {
      Statics(iloggerFactory, previous)
    }

    constructor ()
      ensures Now() == StaticsOf([])
    {
      iloggerFactory, previous := None, None;
    }

    method Construct(f: F)
      requires Consistent(Now())
      modifies this
      ensures Consistent(Now()) && Now() == Constructed(old(Now()), f)
    {
      if iloggerFactory.Some? {
        if previous.None? {
          previous := Some([]);
        }
        previous := Some(previous.value + [iloggerFactory.value]);
      }
      iloggerFactory := Some(f);
    }

    method Destroy(f: F)
      requires Consistent(Now()) && Destroyed(Now(), f).Some?
      modifies this
      ensures Consistent(Now()) && Some(Now()) == Destroyed(old(Now()), f)
    {
      if iloggerFactory == Some(f) {
        if previous.Some? {
          var p := previous.value;
          iloggerFactory := Some(p[|p| - 1]);
          previous := if |p| == 1 then None else Some(p[..|p| - 1]);
        } else {
          iloggerFactory := None;
        }
      } else {
        var p := previous.value;
        previous := if |p| == 1 then None else Some(RemoveAt(p, IndexOf(p, f)));
      }
    }
  }

  /** All elements from one position to another are the same. */
  predicate AllSame<F(==)>(l: seq<F>, from: nat, to: nat, f: F)
    requires to <= |l|
  {
    forall j | from <= j < to :: l[j] == f
  }

  /** The position that a destructor takes out. */
  function Taken<F(==)>(l: seq<F>, f: F): (k: nat)
    requires f in l
    ensures k < |l| && l[k] == f
  {
    if l[|l| - 1] == f then |l| - 1 else IndexOf(l, f)
  }

  lemma DestroyedTakes<F>(l: seq<F>, f: F)
    requires f in l
    ensures Destroyed(StaticsOf(l), f) == Some(StaticsOf(RemoveAt(l, Taken(l, f))))
  {
    var k, n := Taken(l, f), |l| - 1;
    if l[n] == f {
      assert RemoveAt(l, k) == l[..n];
    } else {
      EarlierTaken(l, f);
    }
  }

  /** Destroying a factory that is not in the list is undefined, unless exactly two are alive: the
      earlier one of them is then taken instead. */
  lemma UnknownFactory<F>(l: seq<F>, f: F)
    requires f !in l
    ensures Destroyed(StaticsOf(l), f).None? <==> |l| != 2
    ensures |l| == 2 ==> Destroyed(StaticsOf(l), f) == Some(StaticsOf([l[1]]))
  {
    if l != [] {
      assert l[|l| - 1] in l;
      assert forall x | x in l[..|l| - 1] :: x in l;
    }
  }

  /** A factory that is not active is taken out of the replaced ones. */
  lemma EarlierTaken<F>(l: seq<F>, f: F)
    requires f in l && l[|l| - 1] != f
    ensures var p, k := l[..|l| - 1], IndexOf(l, f);
      && k < |p| && f in p && IndexOf(p, f) == k
      && RemoveAt(l, k)[..|l| - 2] == RemoveAt(p, k) && RemoveAt(l, k)[|l| - 2] == l[|l| - 1]
  {
    var p, k := l[..|l| - 1], IndexOf(l, f);
    assert p[k] == f;
  }

  lemma {:induction false} RemovedAlike<F>(l: seq<F>, a: nat, b: nat)
    requires a <= b < |l|
    ensures RemoveAt(l, a) == RemoveAt(l, b) <==> AllSame(l, a, b, l[b])
    decreases b - a
  {
    var x, y := RemoveAt(l, a), RemoveAt(l, b);
    if a < b {
      var z := RemoveAt(l, a + 1);
      RemovedAlike(l, a + 1, b);
      assert x[a] == l[a + 1] && z[a] == l[a] && y[a] == l[a];
      if x == y || AllSame(l, a, b, l[b]) {
        forall j | a + 1 <= j < |z|
          ensures x[j] == z[j]
        {
        }
        if x == y {
          assert z == y by {
            assert forall j | 0 <= j < |z| :: z[j] == y[j];
          }
        }
        assert l[a + 1] == l[a];
        assert x == z;
      }
    }
  }

  /** One destruction, of the factory constructed at position i. The destructor looks the factory
      up by its address. It takes the right one exactly when only the same factory was constructed
      between the one it finds and its own. */
  lemma DestructionExact<F>(l: seq<F>, i: nat)
    requires i < |l|
    ensures var f := l[i];
      Destroyed(StaticsOf(l), f) == Some(StaticsOf(RemoveAt(l, i))) <==>
        if l[|l| - 1] == f then AllSame(l, i, |l|, f) else AllSame(l, IndexOf(l, f), i, f)
  {
    var f := l[i];
    var k := Taken(l, f);
    DestroyedTakes(l, f);
    assert ListOf(StaticsOf(RemoveAt(l, k))) == RemoveAt(l, k);
    assert ListOf(StaticsOf(RemoveAt(l, i))) == RemoveAt(l, i);
    if l[|l| - 1] == f {
      RemovedAlike(l, i, k);
    } else {
      RemovedAlike(l, k, i);
    }
  }

  // ---- runs ----

  datatype Event<F> = Construct(factory: F) | Destroy(factory: F)

  predicate Distinct<F(==)>(l: seq<F>) {
    forall i, j | 0 <= i < j < |l| :: l[i] != l[j]
  }

  function Live<F(==)>(events: seq<Event<F>>): seq<F> {
    if events == [] then []
    else
      var n := |events| - 1;
      var l := Live(events[..n]);
      match events[n]
      case Construct(f) => l + [f]
      case Destroy(f) => if f in l then RemoveAt(l, IndexOf(l, f)) else l
  }

  /** A factory that is alive is not constructed again, and only those alive are destroyed. */
  predicate Legal<F(==)>(events: seq<Event<F>>) {
    events == [] ||
    (var n := |events| - 1;
     && Legal(events[..n])
     && (events[n].Destroy? <==> events[n].factory in Live(events[..n])))
  }

  function Run<F(==)>(events: seq<Event<F>>): (s: Option<Statics<F>>)
    ensures s.Some? ==> Consistent(s.value)
  {
    if events == [] then Some(StaticsOf([]))
    else
      var n := |events| - 1;
      var s := Run(events[..n]);
      if s.None? then None
      else match events[n]
        case Construct(f) => Some(Constructed(s.value, f))
        case Destroy(f) => Destroyed(s.value, f)
  }

  lemma ConstructedAppends<F>(l: seq<F>, f: F)
    ensures Constructed(StaticsOf(l), f) == StaticsOf(l + [f])
  {
    assert (l + [f])[..|l|] == l;
    if l != [] {
      assert l[..|l| - 1] + [l[|l| - 1]] == l;
      assert |l| == 1 ==> [] + [l[0]] == l;
    }
  }

  lemma {:induction false} LiveDistinct<F>(events: seq<Event<F>>)
    requires Legal(events)
    ensures Distinct(Live(events))
  {
    if events != [] {
      LiveDistinct(events[..|events| - 1]);
    }
  }

  lemma TakenIfDistinct<F>(l: seq<F>, f: F)
    requires Distinct(l) && f in l
    ensures Taken(l, f) == IndexOf(l, f)
  {
  }

  /** In every run the statics represent the factories alive, in the order of construction. */
  lemma {:induction false} RunRefinesLive<F>(events: seq<Event<F>>)
    requires Legal(events)
    ensures Run(events) == Some(StaticsOf(Live(events)))
  {
    if events != [] {
      var n := |events| - 1;
      var l, f := Live(events[..n]), events[n].factory;
      RunRefinesLive(events[..n]);
      if events[n].Construct? {
        ConstructedAppends(l, f);
      } else {
        LiveDistinct(events[..n]);
        TakenIfDistinct(l, f);
        DestroyedTakes(l, f);
      }
    }
  }

  /** Position of the last occurrence of an event, or -1. */
  function Last<F(==)>(events: seq<Event<F>>, e: Event<F>): (k: int)
    ensures -1 <= k < |events|
  {
    if events == [] then -1
    else if events[|events| - 1] == e then |events| - 1
    else Last(events[..|events| - 1], e)
  }

  lemma {:induction false} LastMeaning<F>(events: seq<Event<F>>, e: Event<F>)
    ensures var k := Last(events, e);
      (k >= 0 ==> events[k] == e) && forall i | k < i < |events| :: events[i] != e
  {
    if events != [] && events[|events| - 1] != e {
      var rest := events[..|events| - 1];
      LastMeaning(rest, e);
      assert forall i | 0 <= i < |rest| :: events[i] == rest[i];
    }
  }

  /** Constructed, and not destroyed since. */
  predicate IsAlive<F(==)>(events: seq<Event<F>>, f: F) {
    Last(events, Construct(f)) > Last(events, Destroy(f))
  }

  lemma {:induction false} LiveMeansAlive<F>(events: seq<Event<F>>, f: F)
    requires Legal(events)
    ensures f in Live(events) <==> IsAlive(events, f)
  {
    if events != [] {
      var rest := events[..|events| - 1];
      LiveMeansAlive(rest, f);
      LiveDistinct(rest);
      var e := events[|rest|];
      if e.Destroy? {
        RemovedOne(Live(rest), e.factory, f);
      }
    }
  }

  lemma RemovedOne<F>(l: seq<F>, f: F, g: F)
    requires Distinct(l) && f in l
    ensures g in RemoveAt(l, IndexOf(l, f)) <==> g in l && g != f
  {
    if g in l && g != f {
      OtherStays(l, IndexOf(l, f), IndexOf(l, g));
    }
    if g in RemoveAt(l, IndexOf(l, f)) {
      OnlyOthersStay(l, IndexOf(l, f), IndexOf(RemoveAt(l, IndexOf(l, f)), g));
    }
  }

  lemma OtherStays<F>(l: seq<F>, i: nat, k: nat)
    requires i < |l| && k < |l| && i != k
    ensures l[k] in RemoveAt(l, i)
  {
    assert RemoveAt(l, i)[if k < i then k else k - 1] == l[k];
  }

  lemma OnlyOthersStay<F>(l: seq<F>, i: nat, k: nat)
    requires Distinct(l) && i < |l| && k < |l| - 1
    ensures RemoveAt(l, i)[k] in l && RemoveAt(l, i)[k] != l[i]
  {
    var k' := if k < i then k else k + 1;
    assert RemoveAt(l, i)[k] == l[k'] && k' != i;
  }

  lemma {:induction false} LiveInOrder<F>(events: seq<Event<F>>, p: nat, q: nat)
    requires Legal(events) && p < q < |Live(events)|
    ensures Last(events, Construct(Live(events)[p])) < Last(events, Construct(Live(events)[q]))
  {
    var n := |events| - 1;
    var rest := events[..n];
    var l, e, now := Live(rest), events[n], Live(events);
    if e.Destroy? {
      var i := IndexOf(l, e.factory);
      assert now == RemoveAt(l, i);
      var p', q' := if p < i then p else p + 1, if q < i then q else q + 1;
      LiveInOrder(rest, p', q');
      assert now[p] == l[p'] && now[q] == l[q'];
    } else {
      assert now == l + [e.factory] && now[p] == l[p] && l[p] in l;
      assert e != Construct(now[p]);
      if q < |l| {
        LiveInOrder(rest, p, q);
        assert now[q] == l[q] && l[q] in l;
        assert e != Construct(now[q]);
      }
    }
  }

  /** The active factory is the last one constructed among those alive; without one there is no
      active factory. */
  lemma ActiveIsLatestAlive<F(!new)>(events: seq<Event<F>>, f: F)
    requires Legal(events)
    ensures Run(events).Some?
    ensures Run(events).value.active == Some(f) <==>
      IsAlive(events, f) &&
      forall g | IsAlive(events, g) :: Last(events, Construct(g)) <= Last(events, Construct(f))
    ensures Run(events).value.active == None <==> forall g :: !IsAlive(events, g)
  {
    RunRefinesLive(events);
    var l := Live(events);
    if l == [] {
      NoneAlive(events);
    } else {
      LastIsLatest(events, l[|l| - 1]);
      LiveMeansAlive(events, f);
      if IsAlive(events, f) && f != l[|l| - 1] {
        LatestIsUnique(events, f);
      }
    }
  }

  lemma NoneAlive<F(!new)>(events: seq<Event<F>>)
    requires Legal(events) && Live(events) == []
    ensures forall g :: !IsAlive(events, g)
  {
    forall g
      ensures !IsAlive(events, g)
    {
      LiveMeansAlive(events, g);
    }
  }

  /** No live factory was constructed after the last one of the list. */
  lemma LiveBeforeLast<F>(events: seq<Event<F>>, g: F)
    requires Legal(events) && g in Live(events)
    ensures var f := Live(events)[|Live(events)| - 1];
      g != f ==> Last(events, Construct(g)) < Last(events, Construct(f))
  {
    var l := Live(events);
    var p :| 0 <= p < |l| && l[p] == g;
    if p < |l| - 1 {
      LiveInOrder(events, p, |l| - 1);
    }
  }

  /** The last of the live list is alive, and the latest. */
  lemma LastIsLatest<F(!new)>(events: seq<Event<F>>, f: F)
    requires Legal(events) && Live(events) != [] && f == Live(events)[|Live(events)| - 1]
    ensures IsAlive(events, f)
    ensures forall g | IsAlive(events, g) :: Last(events, Construct(g)) <= Last(events, Construct(f))
  {
    assert f in Live(events);
    LiveMeansAlive(events, f);
    forall g | IsAlive(events, g)
      ensures Last(events, Construct(g)) <= Last(events, Construct(f))
    {
      LiveMeansAlive(events, g);
      LiveBeforeLast(events, g);
    }
  }

  lemma LatestIsUnique<F(!new)>(events: seq<Event<F>>, f: F)
    requires Legal(events) && IsAlive(events, f) && Live(events) != [] && f != Live(events)[|Live(events)| - 1]
    ensures exists g :: IsAlive(events, g) && Last(events, Construct(g)) > Last(events, Construct(f))
  {
    LiveMeansAlive(events, f);
    LiveBeforeLast(events, f);
    LastIsLatest(events, Live(events)[|Live(events)| - 1]);
  }

  /** A factory that is constructed twice breaks this: destroying the first of its two objects
      deactivates the second. */
  lemma RepeatedFactory<F>(f: F, g: F)
    requires f != g
    ensures Destroyed(StaticsOf([f, g, f]), f) == Some(StaticsOf([f, g]))
    ensures StaticsOf([f, g]).active == Some(g) && StaticsOf(RemoveAt([f, g, f], 0)).active == Some(f)
  {
    var l := [f, g, f];
    DestroyedTakes(l, f);
    assert RemoveAt(l, 2) == [f, g];
    assert RemoveAt(l, 0) == [g, f];
  }
}
