/**
 * What a whole sequence of _pstore_put calls on a NOT_DISJOINT/union TextSet property
 * leaves in the store: the connected components of the graph that joins every topic to
 * the locators put for it.
 */
module Components {
  import opened Basics
  import opened Facts

  /** One call of _pstore_put. */
  datatype Call = Call(topic: Topic, locs: set<Locator>)

  /** The facts after all the calls, starting from an empty store. */
  function PutAll(h: seq<Call>): Facts {
    if h == [] then map[]
    else Put(PutAll(h[..|h| - 1]), h[|h| - 1].topic, h[|h| - 1].locs)
  }

  ghost predicate Calls(h: seq<Call>) {
    forall k :: 0 <= k < |h| ==> h[k].locs != {}
  }

  /** The locators put for t: its neighbours in the graph. */
  function Given(h: seq<Call>, t: Topic): set<Locator> {
    if h == [] then {}
    else Given(h[..|h| - 1], t) + if h[|h| - 1].topic == t then h[|h| - 1].locs else {}
  }

  /** Both topics were given some one locator. */
  predicate Share(h: seq<Call>, t: Topic, u: Topic) {
    Given(h, t) * Given(h, u) != {}
  }

  ghost predicate IsPath(h: seq<Call>, p: seq<Topic>) {
    && p != []
    && forall k :: 0 <= k < |p| - 1 ==> Share(h, p[k], p[k + 1])
  }

  /** A path of topics, each sharing a locator with the next, leads from t to u. */
  ghost predicate Connected(h: seq<Call>, t: Topic, u: Topic) {
    exists p :: IsPath(h, p) && p[0] == t && p[|p| - 1] == u
  }

  // --- paths ---------------------------------------------------------------------

  lemma ConnectedSelf(h: seq<Call>, t: Topic)
    ensures Connected(h, t, t)
  {
    assert IsPath(h, [t]);
  }

  lemma ConnectedStep(h: seq<Call>, t: Topic, u: Topic)
    requires Share(h, t, u)
    ensures Connected(h, t, u)
  {
    assert IsPath(h, [t, u]);
  }

  lemma ConnectedTrans(h: seq<Call>, t: Topic, u: Topic, v: Topic)
    requires Connected(h, t, u) && Connected(h, u, v)
    ensures Connected(h, t, v)
  {
    var p :| IsPath(h, p) && p[0] == t && p[|p| - 1] == u;
    var q :| IsPath(h, q) && q[0] == u && q[|q| - 1] == v;
    var r := p + q[1..];
    forall k | 0 <= k < |r| - 1 ensures Share(h, r[k], r[k + 1]) {
      if k >= |p| - 1 {
        var i := k - (|p| - 1);
        assert r[k] == q[i] && r[k + 1] == q[i + 1];
      }
    }
    assert IsPath(h, r);
  }

  lemma ConnectedSym(h: seq<Call>, t: Topic, u: Topic)
    requires Connected(h, t, u)
    ensures Connected(h, u, t)
  {
    var p :| IsPath(h, p) && p[0] == t && p[|p| - 1] == u;
    var r := seq(|p|, i requires 0 <= i < |p| => p[|p| - 1 - i]);
    forall k | 0 <= k < |r| - 1 ensures Share(h, r[k], r[k + 1]) {
      assert Share(h, p[|p| - 2 - k], p[|p| - 1 - k]);
    }
    assert IsPath(h, r);
  }

  lemma GivenGrows(h: seq<Call>, c: Call, t: Topic)
    ensures Given(h + [c], t) == Given(h, t) + if c.topic == t then c.locs else {}
  {
    assert (h + [c])[..|h|] == h;
  }

  /** More calls leave connected topics connected. */
  lemma ConnectedGrows(h: seq<Call>, c: Call, t: Topic, u: Topic)
    requires Connected(h, t, u)
    ensures Connected(h + [c], t, u)
  {
    var p :| IsPath(h, p) && p[0] == t && p[|p| - 1] == u;
    forall k | 0 <= k < |p| - 1 ensures Share(h + [c], p[k], p[k + 1]) {
      GivenGrows(h, c, p[k]);
      GivenGrows(h, c, p[k + 1]);
      assert Share(h, p[k], p[k + 1]);
      var l :| l in Given(h, p[k]) * Given(h, p[k + 1]);
      assert l in Given(h + [c], p[k]) * Given(h + [c], p[k + 1]);
    }
    assert IsPath(h + [c], p);
  }

  // --- the invariant of a sequence of calls --------------------------------------------

  /** Some topic connected to t was given l. */
  ghost predicate Reached(h: seq<Call>, t: Topic, l: Locator) {
    exists u :: Connected(h, t, u) && l in Given(h, u)
  }

  ghost predicate Kept(h: seq<Call>, m: Facts) {
    && IdFacts(m)
    && (forall t :: t in m <==> Given(h, t) != {})
    && (forall t :: t in m ==> Given(h, t) <= Locs(m[t]))
    && (forall t, l :: t in m && l in Locs(m[t]) ==> Reached(h, t, l))
  }

  function Had(m: Facts, t: Topic): set<Locator> {
    if t in m then Locs(m[t]) else {}
  }

  /** u is one of the topics that a put of ls for t makes t share its value with. */
  predicate Joined(m: Facts, t: Topic, ls: set<Locator>, u: Topic) {
    u in m && u != t && Locs(m[u]) * (Had(m, t) + ls) != {}
  }

  ghost predicate FromJoined(m: Facts, t: Topic, ls: set<Locator>, l: Locator) {
    exists u :: Joined(m, t, ls, u) && l in Locs(m[u])
  }

  lemma AbsorbIs(m: Facts, t: Topic, ls: set<Locator>, n: Facts)
    requires IdFacts(m) && ls != {} && t !in m && n == Absorb(m, t, ls)
    ensures IdFacts(n) && n.Keys == m.Keys + {t} && ls <= Locs(n[t])
    ensures forall u :: u in m && u !in Cluster(m, ls) ==> n[u] == m[u]
    ensures forall u :: u in Cluster(m, ls) ==> n[u] == n[t] && Locs(m[u]) <= Locs(n[u])
    ensures forall l :: l in Locs(n[t]) ==> l in ls || l in LocsOf(m, Cluster(m, ls))
  {
    hide IdFacts, LocsOf, Cluster;
    AbsorbId(m, t, ls);
    assert Cluster(m, ls) <= m.Keys by { ClusterKeys(m, ls); }
    forall u | u in Cluster(m, ls) ensures Locs(m[u]) <= LocsOf(m, Cluster(m, ls)) { AbsorbedValue(m, t, ls, u); }
  }

  lemma ClusterKeys(m: Facts, ls: set<Locator>)
    ensures Cluster(m, ls) <= m.Keys
  {
  }

  lemma ClusterJoined(m: Facts, t: Topic, ls: set<Locator>)
    ensures forall u :: u in Cluster(m - {t}, Had(m, t) + ls) <==> Joined(m, t, ls, u)
  {
  }

  lemma LocsOfJoined(m: Facts, t: Topic, ls: set<Locator>, l: Locator)
    requires l in LocsOf(m - {t}, Cluster(m - {t}, Had(m, t) + ls))
    ensures FromJoined(m, t, ls, l)
  {
    var rest := m - {t};
    var u :| u in Cluster(rest, Had(m, t) + ls) && u in rest && l in Locs(rest[u]);
    ClusterJoined(m, t, ls);
    assert Joined(m, t, ls, u);
  }

  /** A put gives t what it had, the new locators, and the values of the topics joined, which get the same value. */
  lemma PutIs(m: Facts, t: Topic, ls: set<Locator>)
    requires IdFacts(m) && ls != {}
    ensures IdFacts(Put(m, t, ls)) && Put(m, t, ls).Keys == m.Keys + {t}
    ensures Had(m, t) + ls <= Locs(Put(m, t, ls)[t])
    ensures forall u :: u in m && u != t && !Joined(m, t, ls, u) ==> Put(m, t, ls)[u] == m[u]
    ensures forall u :: Joined(m, t, ls, u) ==>
              Put(m, t, ls)[u] == Put(m, t, ls)[t] && Locs(m[u]) <= Locs(Put(m, t, ls)[u])
    ensures forall l :: l in Locs(Put(m, t, ls)[t]) ==> l in Had(m, t) + ls || FromJoined(m, t, ls, l)
  {
    var rest, all, n := m - {t}, Had(m, t) + ls, Put(m, t, ls);
    PutIsAbsorb(m, t, ls);
    RemoveId(m, {t});
    hide IdFacts, Absorb, Put, Cluster, LocsOf, Joined, FromJoined;
    AbsorbIs(rest, t, all, n);
    ClusterJoined(m, t, ls);
    forall l | l in LocsOf(rest, Cluster(rest, all)) ensures FromJoined(m, t, ls, l) { LocsOfJoined(m, t, ls, l); }
  }

  lemma PutIsAbsorb(m: Facts, t: Topic, ls: set<Locator>)
    ensures Put(m, t, ls) == Absorb(m - {t}, t, Had(m, t) + ls)
  {
    hide Absorb;
    assert {} + ls == ls;
    if t !in m { assert m - {t} == m; }
  }

  /** A topic whose value meets what t gets is connected to t by the call. */
  lemma JoinsNew(h: seq<Call>, m: Facts, c: Call, u: Topic, x: Locator)
    requires Kept(h, m) && u in m && x in Locs(m[u])
    requires x in c.locs || (c.topic in m && x in Locs(m[c.topic]))
    ensures Connected(h + [c], u, c.topic)
  {
    var h', t := h + [c], c.topic;
    assert Reached(h, u, x);
    var v :| Connected(h, u, v) && x in Given(h, v);
    ConnectedGrows(h, c, u, v);
    GivenGrows(h, c, v);
    if x in c.locs {
      GivenGrows(h, c, t);
      assert x in Given(h', v) * Given(h', t);
      ConnectedStep(h', v, t);
    } else {
      assert Reached(h, t, x);
      var w :| Connected(h, t, w) && x in Given(h, w);
      ConnectedGrows(h, c, t, w);
      GivenGrows(h, c, w);
      assert x in Given(h', v) * Given(h', w);
      ConnectedStep(h', v, w);
      ConnectedSym(h', t, w);
      ConnectedTrans(h', v, w, t);
    }
    ConnectedTrans(h', u, v, t);
  }

  lemma ReachedGrows(h: seq<Call>, c: Call, t: Topic, l: Locator)
    requires Reached(h, t, l)
    ensures Reached(h + [c], t, l)
  {
    var u :| Connected(h, t, u) && l in Given(h, u);
    ConnectedGrows(h, c, t, u);
    GivenGrows(h, c, u);
  }

  lemma ReachedFrom(h: seq<Call>, t: Topic, u: Topic, l: Locator)
    requires Connected(h, t, u) && Reached(h, u, l)
    ensures Reached(h, t, l)
  {
    var v :| Connected(h, u, v) && l in Given(h, v);
    ConnectedTrans(h, t, u, v);
  }

  /** The value t gets contains only locators of its component. */
  lemma NewValueReached(h: seq<Call>, m: Facts, c: Call, l: Locator)
    requires Kept(h, m) && c.locs != {}
    requires l in Locs(Put(m, c.topic, c.locs)[c.topic])
    ensures Reached(h + [c], c.topic, l)
  {
    var h', t := h + [c], c.topic;
    PutIs(m, t, c.locs);
    ConnectedSelf(h', t);
    GivenGrows(h, c, t);
    if l in c.locs {
    } else if t in m && l in Locs(m[t]) {
      ReachedGrows(h, c, t, l);
    } else {
      var u :| Joined(m, t, c.locs, u) && l in Locs(m[u]);
      var x :| x in Locs(m[u]) * (Had(m, t) + c.locs);
      JoinsNew(h, m, c, u, x);
      ConnectedSym(h', u, t);
      ReachedGrows(h, c, u, l);
      ReachedFrom(h', t, u, l);
    }
  }

  lemma ValueReached(h: seq<Call>, m: Facts, c: Call, u: Topic, l: Locator)
    requires Kept(h, m) && c.locs != {}
    requires u in Put(m, c.topic, c.locs) && l in Locs(Put(m, c.topic, c.locs)[u])
    ensures Reached(h + [c], u, l)
  {
    var t, n := c.topic, Put(m, c.topic, c.locs);
    PutIs(m, t, c.locs);
    if u == t {
      NewValueReached(h, m, c, l);
    } else if !Joined(m, t, c.locs, u) {
      ReachedGrows(h, c, u, l);
    } else {
      var x :| x in Locs(m[u]) * (Had(m, t) + c.locs);
      JoinsNew(h, m, c, u, x);
      NewValueReached(h, m, c, l);
      ReachedFrom(h + [c], u, t, l);
    }
  }

  lemma PutKept(h: seq<Call>, m: Facts, c: Call)
    requires Kept(h, m) && c.locs != {}
    ensures Kept(h + [c], Put(m, c.topic, c.locs))
  {
    hide Reached, Given, Put;
    var h', t, n := h + [c], c.topic, Put(m, c.topic, c.locs);
    PutIs(m, t, c.locs);
    forall u ensures Given(h', u) == Given(h, u) + if u == t then c.locs else {} { GivenGrows(h, c, u); }
    forall u, l | u in n && l in Locs(n[u]) ensures Reached(h', u, l) { ValueReached(h, m, c, u, l); }
    forall u | u in n ensures Given(h', u) <= Locs(n[u]) {
      assert u == t || u in m;
    }
  }

  lemma {:induction false} PutAllKept(h: seq<Call>)
    requires Calls(h)
    ensures Kept(h, PutAll(h))
    decreases |h|
  {
    if h != [] {
      var before := h[..|h| - 1];
      assert h == before + [h[|h| - 1]];
      PutAllKept(before);
      PutKept(before, PutAll(before), h[|h| - 1]);
    }
  }

  // --- the components --------------------------------------------------------------------

  lemma SharersEqual(h: seq<Call>, m: Facts, t: Topic, u: Topic)
    requires Kept(h, m) && Share(h, t, u)
    ensures t in m && u in m && m[t] == m[u]
  {
    var l :| l in Given(h, t) * Given(h, u);
    assert l in Locs(m[t]) && l in Locs(m[u]);
  }

  lemma {:induction false} PathEqual(h: seq<Call>, m: Facts, p: seq<Topic>)
    requires Kept(h, m) && IsPath(h, p) && p[0] in m
    ensures p[|p| - 1] in m && m[p[|p| - 1]] == m[p[0]]
    decreases |p|
  {
    hide Kept, Share;
    if |p| > 1 {
      assert Share(h, p[0], p[1]);
      SharersEqual(h, m, p[0], p[1]);
      PathTail(h, p);
      PathEqual(h, m, p[1..]);
    }
  }

  lemma PathTail(h: seq<Call>, p: seq<Topic>)
    requires IsPath(h, p) && |p| > 1
    ensures IsPath(h, p[1..])
  {
    hide Share;
    forall k | 0 <= k < |p| - 2 ensures Share(h, p[1..][k], p[1..][k + 1]) {
      assert Share(h, p[k + 1], p[k + 2]);
    }
  }

  lemma ConnectedEqual(h: seq<Call>, m: Facts, t: Topic, u: Topic)
    requires Kept(h, m) && Connected(h, t, u) && t in m
    ensures u in m && m[t] == m[u]
  {
    var p :| IsPath(h, p) && p[0] == t && p[|p| - 1] == u;
    PathEqual(h, m, p);
  }

  lemma ReachedHeld(h: seq<Call>, m: Facts, t: Topic, l: Locator)
    requires Kept(h, m) && Reached(h, t, l) && t in m
    ensures l in Locs(m[t])
  {
    hide Connected, Given;
    var u :| Connected(h, t, u) && l in Given(h, u);
    ConnectedEqual(h, m, t, u);
  }

  lemma EqualConnected(h: seq<Call>, m: Facts, t: Topic, u: Topic)
    requires Kept(h, m) && t in m && u in m && m[t] == m[u]
    ensures Connected(h, t, u)
  {
    hide Connected, Given;
    var l :| l in Locs(m[t]);
    assert Reached(h, t, l) && Reached(h, u, l);
    var a :| Connected(h, t, a) && l in Given(h, a);
    var b :| Connected(h, u, b) && l in Given(h, b);
    assert l in Given(h, a) * Given(h, b);
    ConnectedStep(h, a, b);
    ConnectedSym(h, u, b);
    ConnectedTrans(h, t, a, b);
    ConnectedTrans(h, t, b, u);
  }

  /**
   * After any sequence of puts the topics with a value are those something was put for;
   * two of them have one value exactly when they are connected; and a topic's value is
   * exactly what was put for the topics connected to it.
   */
  lemma ComponentsOfPuts(h: seq<Call>, t: Topic, u: Topic)
    requires Calls(h)
    ensures t in PutAll(h) <==> Given(h, t) != {}
    ensures t in PutAll(h) && u in PutAll(h) ==> (PutAll(h)[t] == PutAll(h)[u] <==> Connected(h, t, u))
    ensures t in PutAll(h) ==> forall l :: l in Locs(PutAll(h)[t]) <==> Reached(h, t, l)
  {
    hide PutAll, Connected, Reached, Given, Calls;
    var m := PutAll(h);
    PutAllKept(h);
    if t in m && u in m {
      if m[t] == m[u] { EqualConnected(h, m, t, u); }
      if Connected(h, t, u) { ConnectedEqual(h, m, t, u); }
    }
    if t in m {
      forall l | Reached(h, t, l) ensures l in Locs(m[t]) { ReachedHeld(h, m, t, l); }
    }
  }

  lemma {:induction false} SameGivenSamePaths(g: seq<Call>, h: seq<Call>, t: Topic, u: Topic)
    requires forall v :: Given(g, v) == Given(h, v)
    requires Connected(g, t, u)
    ensures Connected(h, t, u)
  {
    hide Given;
    var p :| IsPath(g, p) && p[0] == t && p[|p| - 1] == u;
    forall k | 0 <= k < |p| - 1 ensures Share(h, p[k], p[k + 1]) {
      assert Share(g, p[k], p[k + 1]);
    }
    assert IsPath(h, p);
  }

  lemma SameGivenReached(g: seq<Call>, h: seq<Call>, t: Topic, l: Locator)
    requires forall v :: Given(g, v) == Given(h, v)
    requires Reached(g, t, l)
    ensures Reached(h, t, l)
  {
    hide Given, Connected;
    var u :| Connected(g, t, u) && l in Given(g, u);
    SameGivenSamePaths(g, h, t, u);
  }

  /** So the outcome depends on what was put for which topic, not on the order or grouping of the calls. */
  lemma PutOrderIrrelevant(g: seq<Call>, h: seq<Call>)
    requires Calls(g) && Calls(h)
    requires forall v :: Given(g, v) == Given(h, v)
    ensures PutAll(g) == PutAll(h)
  {
    hide Given, Calls, PutAll, Connected, Reached;
    var m, n := PutAll(g), PutAll(h);
    PutAllKept(g);
    PutAllKept(h);
    forall t ensures t in m <==> t in n {
      ComponentsOfPuts(g, t, t);
      ComponentsOfPuts(h, t, t);
    }
    forall t | t in m ensures m[t] == n[t] {
      ComponentsOfPuts(g, t, t);
      ComponentsOfPuts(h, t, t);
      forall l ensures l in Locs(m[t]) <==> l in Locs(n[t]) {
        if l in Locs(m[t]) { SameGivenReached(g, h, t, l); }
        if l in Locs(n[t]) { SameGivenReached(h, g, t, l); }
      }
      assert Locs(m[t]) == Locs(n[t]);
    }
  }
}
