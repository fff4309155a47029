/**
 * The engine used from outside, for its plainest purpose: locators are put for topics, the
 * map is merged, and two topics are one exactly when shared locators connect them.
 */
module MergedPuts {
  import opened Basics
  import opened Values
  import opened Facts
  import opened MergeSets
  import opened Components
  import opened Rounds
  import opened Closures
  import opened PropertyStores
  import opened OnePass
  import opened Survivors
  import opened Tables
  import opened TopicMaps

  const SIDP := Kind(true, TextSetType)

  /** The facts that the puts leave force two topics together exactly when locators connect them. */
  lemma ForcedIffConnected(h: seq<Call>, t: Topic, u: Topic)
    requires Calls(h)
    ensures Identified([SIDP], [PutAll(h)], t, u) <==> t == u || Connected(h, t, u)
  {
    if t == u {
    } else if Connected(h, t, u) {
      ConnectedForced(h, t, u);
    } else {
      ConnectedToClosed(h, t);
      ConnectedSelf(h, t);
      assert ConnectedTo(h, t)(t) != ConnectedTo(h, t)(u);
    }
  }

  /** The labelling that marks what is connected to t. */
  ghost function ConnectedTo(h: seq<Call>, t: Topic): Labelling {
    x => if Connected(h, t, x) then 1 else 0
  }

  lemma ConnectedToClosed(h: seq<Call>, t: Topic)
    requires Calls(h)
    ensures Closed(ConnectedTo(h, t), [SIDP], [PutAll(h)])
  {
    var m, f := PutAll(h), ConnectedTo(h, t);
    PutAllKept(h);
    forall x, y | x in m && y in m && Alike(f, m[x], m[y]) ensures f(x) == f(y) {
      assert m[x] == m[y];
      ComponentsOfPuts(h, x, y);
      Extends(h, t, x, y);
    }
    assert [PutAll(h)][0] == m;
  }

  lemma Extends(h: seq<Call>, t: Topic, x: Topic, y: Topic)
    requires Connected(h, x, y)
    ensures Connected(h, t, x) <==> Connected(h, t, y)
  {
    if Connected(h, t, x) { ConnectedTrans(h, t, x, y); }
    if Connected(h, t, y) {
      ConnectedSym(h, x, y);
      ConnectedTrans(h, t, y, x);
    }
  }

  lemma ConnectedForced(h: seq<Call>, t: Topic, u: Topic)
    requires Calls(h) && Connected(h, t, u) && t != u
    ensures Identified([SIDP], [PutAll(h)], t, u)
  {
    var m := PutAll(h);
    ConnectedHas(h, t, u);
    ComponentsOfPuts(h, t, u);
    PutAllKept(h);
    assert m[t].locs != {} && m[t] == m[u];
    forall f: Labelling | Closed(f, [SIDP], [PutAll(h)]) ensures f(t) == f(u) {
      assert ClosedOn(f, [PutAll(h)][0]);
      assert Alike(f, m[t], m[u]);
    }
  }

  /** Different connected topics have both been given locators. */
  lemma ConnectedHas(h: seq<Call>, t: Topic, u: Topic)
    requires Connected(h, t, u) && t != u
    ensures Given(h, t) != {} && Given(h, u) != {}
  {
    var p :| IsPath(h, p) && p[0] == t && p[|p| - 1] == u;
    assert Share(h, p[0], p[1]) && Share(h, p[|p| - 2], p[|p| - 1]);
  }

  lemma LocatorsOnly()
    ensures !DropProne([SIDP]) && TopicFree([SIDP]) && OnlyLocators([SIDP])
  {
  }

  /** A new map with the puts. */
  method Load(adds: seq<(Topic, seq<Locator>)>) returns (m: TopicMap)
    requires forall k :: 0 <= k < |adds| ==> adds[k].1 != [] && NoDup(adds[k].1)
    ensures fresh(m) && fresh(m.mergeLists) && fresh(m.Stores())
    ensures m.Valid() && m.Kinds() == [SIDP] && m.Vals() == [PutAll(CallsOf(adds))] && m.disposed == {}
    ensures NewAtLast(adds) ==> Last(m.Orders()[0], adds[|adds| - 1].0)
  {
    hide PutAll, CallsOf, NewAtLast, Last;
    var p := new PropertyStore(SIDP);
    m := new TopicMap([p]);
    assert m.Kinds() == [SIDP] && m.Vals() == [map[]];
    m.AddAllLocators(0, adds);
  }

  /** Each topic that is left has its own value, which is the value of all topics it stands for. */
  ghost predicate MergedInto(m: Facts, n: Facts, run: seq<Round>)
    requires NonEmptySets(run)
  {
    && (forall t :: t in m ==> RunRep(run, t) in n && n[RunRep(run, t)] == m[t])
    && (forall k :: k in n ==> k in m && RunRep(run, k) == k)
  }

  /** The first topic in the list of a value stands for all of them. */
  ghost predicate FirstsStay(lists: TopicLists, run: seq<Round>)
    requires NonEmptySets(run)
  {
    forall v, t :: v in lists && t in lists[v] ==> lists[v] != [] && RunRep(run, t) == lists[v][0]
  }

  /**
   * The puts and a full merge, which always succeeds. Topics are one exactly when locators
   * connect them, the topic that stays has all locators of its component, and it is the
   * first that the store lists for them: never the one that was put last, unless alone.
   */
  method MergeLocators(adds: seq<(Topic, seq<Locator>)>)
    returns (m: TopicMap, e: Outcome, ghost run: seq<Round>, ghost lists: TopicLists)
    requires forall k :: 0 <= k < |adds| ==> adds[k].1 != [] && NoDup(adds[k].1)
    ensures e == Ok && NonEmptySets(run)
    ensures forall t, u :: RunRep(run, t) == RunRep(run, u) <==> t == u || Connected(CallsOf(adds), t, u)
    ensures m.Valid() && m.disposed == AllGone(run)
    ensures |m.Vals()| == 1 && MergedInto(PutAll(CallsOf(adds)), m.Vals()[0], run)
    ensures GroupedBy(lists, PutAll(CallsOf(adds))) && FirstsStay(lists, run)
    ensures NewAtLast(adds) ==> Last(lists, adds[|adds| - 1].0)
    ensures NewAtLast(adds) ==>
              var t := adds[|adds| - 1].0;
              RunRep(run, t) == t <==> forall u :: Connected(CallsOf(adds), t, u) ==> u == t
  {
    hide *;
    m := Load(adds);
    ghost var last, orders;
    ghost var h := CallsOf(adds);
    lists := m.Orders()[0];
    e, run, last, orders := m.FullyMerge();
    LocatorsOnly();
    CallsGiven(adds);
    ClosureIsComponents(h, run);
    Results(h, run, m.Vals(), orders);
    if NewAtLast(adds) { NewestGoes(adds, run, lists); }
  }

  lemma Results(h: seq<Call>, run: seq<Round>, now: State, orders: seq<seq<TopicLists>>)
    requires Calls(h) && IsRun([SIDP], [PutAll(h)], run) && BusyButLast(run) && Passes([SIDP], [PutAll(h)], run, orders)
    requires Final([PutAll(h)], run) == now && |now| == 1 && Settled([SIDP], now) && NonEmptySets(run)
    requires forall t, u :: RunRep(run, t) == RunRep(run, u) <==> t == u || Connected(h, t, u)
    ensures MergedInto(PutAll(h), now[0], run)
    ensures |orders| > 0 && |orders[0]| == 1 && GroupedBy(orders[0][0], PutAll(h)) && FirstsStay(orders[0][0], run)
  {
    PutAllKept(h);
    assert Good([SIDP], [PutAll(h)]) && Grouped(orders[0], [PutAll(h)]);
    hide Connected, PutAll, RunRep, NonEmptySets, Calls, GroupedBy, IsRun, Final, Good;
    ValuesMerged(h, run, now);
    FirstsAre(h, run, now, orders);
  }

  lemma ValuesMerged(h: seq<Call>, run: seq<Round>, now: State)
    requires Calls(h) && Good([SIDP], [PutAll(h)]) && IsRun([SIDP], [PutAll(h)], run) && NonEmptySets(run)
    requires Final([PutAll(h)], run) == now && |now| == 1
    requires forall t, u :: RunRep(run, t) == RunRep(run, u) <==> t == u || Connected(h, t, u)
    ensures MergedInto(PutAll(h), now[0], run)
  {
    hide *;
    forall t | t in PutAll(h) ensures RunRep(run, t) in now[0] && now[0][RunRep(run, t)] == PutAll(h)[t] {
      ValueOfClass(h, run, now, t);
    }
    forall k | k in now[0] ensures k in PutAll(h) && RunRep(run, k) == k {
      KeyStays(h, run, now, k);
    }
    MadeOf(PutAll(h), now[0], run);
  }

  lemma MadeOf(m: Facts, n: Facts, run: seq<Round>)
    requires NonEmptySets(run)
    requires forall t :: t in m ==> RunRep(run, t) in n && n[RunRep(run, t)] == m[t]
    requires forall k :: k in n ==> k in m && RunRep(run, k) == k
    ensures MergedInto(m, n, run)
  {
  }

  lemma ValueOfClass(h: seq<Call>, run: seq<Round>, now: State, t: Topic)
    requires Calls(h) && Good([SIDP], [PutAll(h)]) && IsRun([SIDP], [PutAll(h)], run) && NonEmptySets(run)
    requires Final([PutAll(h)], run) == now && |now| == 1 && t in PutAll(h)
    requires forall u, w :: RunRep(run, u) == RunRep(run, w) <==> u == w || Connected(h, u, w)
    ensures RunRep(run, t) in now[0] && now[0][RunRep(run, t)] == PutAll(h)[t]
  {
    var m, n, s := PutAll(h), now[0], [PutAll(h)];
    var k := RunRep(run, t);
    RunGood([SIDP], s, run);
    assert IdFacts(n) && IdFacts(m) && s[0] == m;
    hide Connected, PutAll, RunRep, NonEmptySets, Calls, IsRun, Final, Good;
    RunCarries([SIDP], s, run, 0, t);
    forall l | l in Locs(n[k]) ensures l in Locs(m[t]) {
      var w := RunHeld([SIDP], s, run, 0, k, l);
      SameValue(h, t, w);
    }
    assert Locs(n[k]) == Locs(m[t]);
  }

  lemma KeyStays(h: seq<Call>, run: seq<Round>, now: State, k: Topic)
    requires Good([SIDP], [PutAll(h)]) && IsRun([SIDP], [PutAll(h)], run) && NonEmptySets(run)
    requires Final([PutAll(h)], run) == now && |now| == 1 && k in now[0]
    ensures k in PutAll(h) && RunRep(run, k) == k
  {
    var s := [PutAll(h)];
    assert k in Live(now);
    hide PutAll, RunRep, NonEmptySets, IsRun, Final, Good;
    RunLive([SIDP], s, run);
    RunRepStays(run, k);
    var i :| 0 <= i < |s| && k in s[i];
  }

  lemma SameValue(h: seq<Call>, t: Topic, w: Topic)
    requires Calls(h) && t in PutAll(h) && w in PutAll(h) && (t == w || Connected(h, t, w))
    ensures PutAll(h)[t] == PutAll(h)[w]
  {
    ComponentsOfPuts(h, t, w);
  }

  /** A topic that no pass replaces stands for itself. */
  lemma {:induction false} RunRepStays(run: seq<Round>, x: Topic)
    requires NonEmptySets(run) && x !in AllGone(run)
    ensures RunRep(run, x) == x
    decreases |run|
  {
    if run != [] {
      var sets, rest := run[0].sets, run[1..];
      assert NonEmpty(sets) && NonEmptySets(rest) by { assert forall k :: 0 <= k < |rest| ==> rest[k] == run[k + 1]; }
      if x !in AllTopics(sets) { RepOutside(sets, x); }
      RunRepStays(rest, x);
    }
  }

  lemma FirstsAre(h: seq<Call>, run: seq<Round>, now: State, orders: seq<seq<TopicLists>>)
    requires Good([SIDP], [PutAll(h)]) && IsRun([SIDP], [PutAll(h)], run) && BusyButLast(run) && NonEmptySets(run)
    requires Passes([SIDP], [PutAll(h)], run, orders)
    requires Final([PutAll(h)], run) == now && |now| == 1 && Settled([SIDP], now)
    ensures |orders| > 0 && |orders[0]| == 1 && FirstsStay(orders[0][0], run)
  {
    var s, lists := [PutAll(h)], orders[0][0];
    assert Grouped(orders[0], s) && GroupedBy(lists, s[0]);
    LocatorsOnly();
    ShortRun([SIDP], s, run);
    forall v, t | v in lists && t in lists[v] ensures lists[v] != [] && RunRep(run, t) == lists[v][0] {
      if run == [] {
        Single(lists, s[0], v, t);
      } else {
        hide GroupedBy, IsRun, Good, Settled;
        FirstStays([SIDP], orders[0], s, 0, v, t);
        assert run[0].sets == PassSets([SIDP], orders[0]);
      }
    }
  }

  /** Where no two topics share a value, each list has one topic. */
  lemma Single(lists: TopicLists, m: Facts, v: Vid, t: Topic)
    requires GroupedBy(lists, m) && Injective(m) && v in lists && t in lists[v]
    ensures lists[v] != [] && lists[v][0] == t
  {
    var u := lists[v][0];
    assert u in lists[v] && u in m && t in m;
    assert m[u] == m[t];
  }

  lemma NewestGoes(adds: seq<(Topic, seq<Locator>)>, run: seq<Round>, lists: TopicLists)
    requires Calls(CallsOf(adds)) && NewAtLast(adds) && Last(lists, adds[|adds| - 1].0)
    requires GroupedBy(lists, PutAll(CallsOf(adds))) && NonEmptySets(run) && FirstsStay(lists, run)
    ensures var t := adds[|adds| - 1].0;
            RunRep(run, t) == t <==> forall u :: Connected(CallsOf(adds), t, u) ==> u == t
  {
    var h, t := CallsOf(adds), adds[|adds| - 1].0;
    var m := PutAll(h);
    LastGiven(h);
    ComponentsOfPuts(h, t, t);
    hide PutAll, Connected, RunRep, Given, Calls;
    var v :| v in lists && t in lists[v];
    var x := lists[v][0];
    assert RunRep(run, t) == x && x in lists[v] && x in m;
    forall u | Connected(h, t, u) && u != t ensures x != t {
      ConnectedHas(h, t, u);
      ComponentsOfPuts(h, u, u);
      ComponentsOfPuts(h, t, u);
      assert u in lists[v];
    }
    ComponentsOfPuts(h, t, x);
  }

  lemma LastGiven(h: seq<Call>)
    requires Calls(h) && h != []
    ensures Given(h, h[|h| - 1].topic) != {}
  {
    var c := h[|h| - 1];
    assert c.locs != {};
    assert c.locs <= Given(h, c.topic);
  }

  lemma CallsGiven(adds: seq<(Topic, seq<Locator>)>)
    requires forall k :: 0 <= k < |adds| ==> adds[k].1 != [] && NoDup(adds[k].1)
    ensures Calls(CallsOf(adds))
  {
    forall k | 0 <= k < |adds| ensures CallsOf(adds)[k].locs != {} {
      assert adds[k].1[0] in Elems(adds[k].1);
    }
  }

  lemma ClosureIsComponents(h: seq<Call>, run: seq<Round>)
    requires Calls(h) && NonEmptySets(run) && IsClosure([SIDP], [PutAll(h)], run)
    ensures forall t, u :: RunRep(run, t) == RunRep(run, u) <==> t == u || Connected(h, t, u)
  {
    hide Connected, PutAll, Identified, RunRep, NonEmptySets, Calls;
    forall t, u ensures RunRep(run, t) == RunRep(run, u) <==> t == u || Connected(h, t, u) {
      ForcedIffConnected(h, t, u);
    }
  }
}
