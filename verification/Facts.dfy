/**
 * One property as a set of facts "topic t has value v", and what storing a value and
 * replacing topics do to it. Value IDs and list orders do not appear at this level;
 * PropertyStores.dfy shows that the stores implement these functions.
 */
module Facts {
  import opened Basics
  import opened Values
  import opened MergeSets

  type Facts = map<Topic, Value>

  /** Facts of a TextSet property under NOT_DISJOINT equality: values are equal or disjoint. */
  ghost predicate IdFacts(m: Facts) {
    && (forall t :: t in m ==> m[t].Locators? && m[t].locs != {})
    && (forall t, u :: t in m && u in m && m[t] != m[u] ==> m[t].locs !! m[u].locs)
  }

  /** Facts of a property that defines neither equality nor combination. */
  ghost predicate PlainFacts(m: Facts) {
    forall t :: t in m ==> !m[t].Locators? && Canonical(m[t])
  }

  ghost predicate WellFormed(m: Facts) {
    IdFacts(m) || PlainFacts(m)
  }

  function Locs(v: Value): set<Locator> {
    if v.Locators? then v.locs else {}
  }

  /** The topics whose value overlaps ls. */
  function Cluster(m: Facts, ls: set<Locator>): set<Topic> {
    set u | u in m && Locs(m[u]) * ls != {}
  }

  function LocsOf(m: Facts, c: set<Topic>): set<Locator> {
    set u, l | u in c && u in m && l in Locs(m[u]) :: l
  }

  /**
   * Storing ls for t under NOT_DISJOINT/union (_pstore_vput followed by the insert of t):
   * t and all topics whose value overlaps ls end up with the union.
   */
  function Absorb(m: Facts, t: Topic, ls: set<Locator>): Facts {
    var c := Cluster(m, ls);
    map u | u in m.Keys + {t} :: if u == t || u in c then Locators(ls + LocsOf(m, c)) else m[u]
  }

  /** Adding ls to what t has (_pstore_put on a NOT_DISJOINT/union property). */
  function Put(m: Facts, t: Topic, ls: set<Locator>): Facts {
    if t in m then Absorb(m - {t}, t, Locs(m[t]) + ls) else Absorb(m, t, ls)
  }

  /** Replacement of the key d by s: one iteration of _pstore_replace_topics. */
  function ReplaceOne(m: Facts, s: Topic, d: Topic): Facts {
    if d !in m then m
    else if s !in m then (m - {d})[s := m[d]]
    else if m[s] == m[d] then m - {d}
    else if m[s].Locators? then Absorb(m - {s, d}, s, Locs(m[s]) + Locs(m[d]))
    else m - {d}
  }

  function ReplaceFrom(m: Facts, ts: seq<Topic>, i: nat): Facts
    requires ts != [] && i <= |ts|
    decreases |ts| - i
  {
    if i == |ts| then m else ReplaceFrom(ReplaceOne(m, ts[0], ts[i]), ts, i + 1)
  }

  /** Replacement of every topic of a merge set by its first one. */
  function ReplaceSet(m: Facts, ts: seq<Topic>): Facts
    requires ts != []
  {
    ReplaceFrom(m, ts, 1)
  }

  ghost predicate NonEmpty(lists: seq<seq<Topic>>) {
    forall i :: 0 <= i < |lists| ==> lists[i] != []
  }

  function ReplaceSets(m: Facts, lists: seq<seq<Topic>>): Facts
    requires NonEmpty(lists)
    decreases |lists|
  {
    if lists == [] then m
    else assert lists[0] != []; ReplaceSets(ReplaceSet(m, lists[0]), lists[1..])
  }

  /** The topic that a merge set puts in place of t. */
  function At(ts: seq<Topic>, t: Topic): Topic
    requires ts != []
  {
    if t in ts then ts[0] else t
  }

  function Rep(lists: seq<seq<Topic>>, t: Topic): Topic
    requires NonEmpty(lists)
  {
    if lists == [] then t
    else assert lists[0] != []; Rep(lists[1..], At(lists[0], t))
  }

  function RepFun(lists: seq<seq<Topic>>): Topic -> Topic
    requires NonEmpty(lists)
  {
    t => Rep(lists, t)
  }

  function Images(m: Facts, r: Topic -> Topic): Facts {
    map t | t in m :: Image(r, m[t])
  }

  ghost predicate AnyCollides(m: Facts, r: Topic -> Topic) {
    exists t :: t in m && Collides(r, m[t])
  }

  /** n keeps exactly one topic of m for every value. */
  ghost predicate OneEach(m: Facts, n: Facts) {
    && (forall k :: k in n ==> k in m && n[k] == m[k])
    && Injective(n)
    && (forall t :: t in m ==> HasValue(n, m[t]))
  }

  ghost predicate HasValue(n: Facts, v: Value) {
    exists k :: k in n && n[k] == v
  }

  ghost predicate Injective(n: Facts) {
    forall k, k' :: k in n && k' in n && n[k] == n[k'] ==> k == k'
  }

  /** f identifies topics that the facts identify. */
  ghost predicate ClosedOn(f: Labelling, m: Facts) {
    forall t, u :: t in m && u in m && Alike(f, m[t], m[u]) ==> f(t) == f(u)
  }

  /** Replacement of d by s puts s into the store anew: it had no value, or gets a combined one. */
  predicate Rekeyed(m: Facts, s: Topic, d: Topic) {
    d in m && (s !in m || (m[s] != m[d] && m[s].Locators?))
  }

  predicate RekeyedFrom(m: Facts, ts: seq<Topic>, i: nat)
    requires ts != [] && i <= |ts|
    decreases |ts| - i
  {
    i < |ts| && (Rekeyed(m, ts[0], ts[i]) || RekeyedFrom(ReplaceOne(m, ts[0], ts[i]), ts, i + 1))
  }

  /** Replacing the keys of the merge sets puts some topic into the store anew. */
  predicate RekeyedSets(m: Facts, lists: seq<seq<Topic>>)
    requires NonEmpty(lists)
    decreases |lists|
  {
    lists != []
    && (assert lists[0] != [];
        RekeyedFrom(m, lists[0], 1) || RekeyedSets(ReplaceSet(m, lists[0]), lists[1..]))
  }

  // --- storing a value --------------------------------------------------------

  lemma AbsorbedValue(m: Facts, t: Topic, ls: set<Locator>, u: Topic)
    requires u in Cluster(m, ls)
    ensures Locs(m[u]) <= LocsOf(m, Cluster(m, ls))
  {
    var c := Cluster(m, ls);
    forall l | l in Locs(m[u]) ensures l in LocsOf(m, c) { assert u in c && u in m; }
  }

  /** A value outside the cluster is disjoint from everything the cluster combines. */
  lemma OutsideCluster(m: Facts, ls: set<Locator>, x: Topic)
    requires IdFacts(m) && x in m && x !in Cluster(m, ls)
    ensures m[x].locs !! ls + LocsOf(m, Cluster(m, ls))
  {
    var c := Cluster(m, ls);
    assert m[x].locs * ls == {};
    forall l | l in m[x].locs ensures l !in ls + LocsOf(m, c) {
      assert l !in m[x].locs * ls;
    }
  }

  lemma AbsorbId(m: Facts, t: Topic, ls: set<Locator>)
    requires IdFacts(m) && t !in m && ls != {}
    ensures IdFacts(Absorb(m, t, ls))
  {
    var n := Absorb(m, t, ls);
    forall x, y | x in n && y in n && n[x] != n[y] ensures n[x].locs !! n[y].locs {
      var c := Cluster(m, ls);
      if x != t && x !in c { OutsideCluster(m, ls, x); }
      if y != t && y !in c { OutsideCluster(m, ls, y); }
    }
  }

  lemma AbsorbClosed(f: Labelling, m: Facts, t: Topic, ls: set<Locator>)
    requires IdFacts(m) && t !in m && ls != {} && ClosedOn(f, m)
    requires forall u :: u in Cluster(m, ls) ==> f(u) == f(t)
    ensures ClosedOn(f, Absorb(m, t, ls))
  {
    var n, c := Absorb(m, t, ls), Cluster(m, ls);
    forall x, y | x in n && y in n && Alike(f, n[x], n[y]) ensures f(x) == f(y) {
      if x != t && x !in c { OutsideCluster(m, ls, x); }
      if y != t && y !in c { OutsideCluster(m, ls, y); }
    }
  }

  // --- replacing one key -------------------------------------------------------

  lemma RemoveId(m: Facts, d: set<Topic>)
    requires IdFacts(m)
    ensures IdFacts(m - d)
  {
  }

  lemma ReplaceOneWellFormed(m: Facts, s: Topic, d: Topic)
    requires s != d
    ensures IdFacts(m) ==> IdFacts(ReplaceOne(m, s, d))
    ensures PlainFacts(m) ==> PlainFacts(ReplaceOne(m, s, d))
  {
    if IdFacts(m) && d in m && s in m && m[s] != m[d] {
      RemoveId(m, {s, d});
      AbsorbId(m - {s, d}, s, Locs(m[s]) + Locs(m[d]));
    }
  }

  lemma ReplaceOneClosed(f: Labelling, m: Facts, s: Topic, d: Topic)
    requires s != d && f(s) == f(d)
    requires WellFormed(m) && ClosedOn(f, m)
    ensures ClosedOn(f, ReplaceOne(m, s, d))
  {
    if IdFacts(m) && d in m && s in m && m[s] != m[d] {
      var rest, ls := m - {s, d}, Locs(m[s]) + Locs(m[d]);
      RemoveId(m, {s, d});
      forall u | u in Cluster(rest, ls) ensures f(u) == f(s) {
        assert Alike(f, m[u], m[s]) || Alike(f, m[u], m[d]);
      }
      AbsorbClosed(f, rest, s, ls);
    } else {
      var n := ReplaceOne(m, s, d);
      forall x, y | x in n && y in n && Alike(f, n[x], n[y]) ensures f(x) == f(y) {
        var x0 := if x in m && n[x] == m[x] then x else d;
        var y0 := if y in m && n[y] == m[y] then y else d;
        assert Alike(f, m[x0], m[y0]);
      }
    }
  }

  lemma ReplaceOneKey(m: Facts, s: Topic, d: Topic, k: Topic) returns (t: Topic)
    requires s != d && k in ReplaceOne(m, s, d)
    ensures t in m && k == At([s, d], t)
  {
    t := if k in m then k else d;
  }

  /** Every locator a topic carries is carried by the topic that replaces it. */
  lemma ReplaceOneCarries(m: Facts, s: Topic, d: Topic, t: Topic)
    requires s != d && t in m && IdFacts(m)
    ensures var n, t' := ReplaceOne(m, s, d), At([s, d], t); t' in n && Locs(m[t]) <= Locs(n[t'])
  {
    if d in m && s in m && m[s] != m[d] {
      var rest, ls := m - {s, d}, Locs(m[s]) + Locs(m[d]);
      if t in Cluster(rest, ls) { AbsorbedValue(rest, s, ls, t); }
    }
  }

  lemma ReplaceOneKeepsValue(m: Facts, s: Topic, d: Topic, t: Topic)
    requires s != d && t in m && PlainFacts(m)
    requires s in m && d in m ==> m[s] == m[d]
    ensures var n, t' := ReplaceOne(m, s, d), At([s, d], t); t' in n && n[t'] == m[t]
  {
  }

  // --- replacing the topics of one merge set -----------------------------------

  /** ts with its elements from index i on replaced: those become ts[0]. */
  function AtFrom(ts: seq<Topic>, i: nat, t: Topic): Topic
    requires ts != [] && i <= |ts|
  {
    if t in ts[i..] then ts[0] else t
  }

  lemma AtFromStep(ts: seq<Topic>, i: nat, t: Topic)
    requires NoDup(ts) && 1 <= i < |ts|
    ensures AtFrom(ts, i + 1, At([ts[0], ts[i]], t)) == AtFrom(ts, i, t)
    ensures ts[0] != ts[i]
  {
    assert ts[i..] == [ts[i]] + ts[i + 1..];
  }

  lemma AtFromOne(ts: seq<Topic>, t: Topic)
    requires ts != []
    ensures AtFrom(ts, 1, t) == At(ts, t)
  {
    assert ts == [ts[0]] + ts[1..];
  }

  lemma {:induction false} ReplaceFromWellFormed(m: Facts, ts: seq<Topic>, i: nat)
    requires NoDup(ts) && 1 <= i <= |ts|
    ensures IdFacts(m) ==> IdFacts(ReplaceFrom(m, ts, i))
    ensures PlainFacts(m) ==> PlainFacts(ReplaceFrom(m, ts, i))
    decreases |ts| - i
  {
    if i < |ts| {
      ReplaceOneWellFormed(m, ts[0], ts[i]);
      ReplaceFromWellFormed(ReplaceOne(m, ts[0], ts[i]), ts, i + 1);
    }
  }

  lemma {:induction false} ReplaceFromClosed(f: Labelling, m: Facts, ts: seq<Topic>, i: nat)
    requires NoDup(ts) && 1 <= i <= |ts| && ConstantOn(f, ts)
    requires WellFormed(m) && ClosedOn(f, m)
    ensures ClosedOn(f, ReplaceFrom(m, ts, i))
    decreases |ts| - i
  {
    if i < |ts| {
      assert ts[0] in ts && ts[i] in ts;
      ReplaceOneWellFormed(m, ts[0], ts[i]);
      ReplaceOneClosed(f, m, ts[0], ts[i]);
      ReplaceFromClosed(f, ReplaceOne(m, ts[0], ts[i]), ts, i + 1);
    }
  }

  lemma {:induction false} ReplaceFromHas(m: Facts, ts: seq<Topic>, i: nat, t: Topic)
    requires NoDup(ts) && 1 <= i <= |ts| && t in m
    ensures AtFrom(ts, i, t) in ReplaceFrom(m, ts, i)
    decreases |ts| - i
  {
    if i < |ts| {
      AtFromStep(ts, i, t);
      ReplaceFromHas(ReplaceOne(m, ts[0], ts[i]), ts, i + 1, At([ts[0], ts[i]], t));
    }
  }

  /** Replacement creates no key out of nothing. */
  lemma {:induction false} ReplaceFromKey(m: Facts, ts: seq<Topic>, i: nat, k: Topic) returns (t: Topic)
    requires NoDup(ts) && 1 <= i <= |ts| && k in ReplaceFrom(m, ts, i)
    ensures t in m && k == AtFrom(ts, i, t)
    decreases |ts| - i
  {
    if i == |ts| {
      t := k;
    } else {
      var t' := ReplaceFromKey(ReplaceOne(m, ts[0], ts[i]), ts, i + 1, k);
      AtFromStep(ts, i, t');
      t := ReplaceOneKey(m, ts[0], ts[i], t');
      AtFromStep(ts, i, t);
    }
  }

  lemma {:induction false} ReplaceFromCarries(m: Facts, ts: seq<Topic>, i: nat, t: Topic)
    requires NoDup(ts) && 1 <= i <= |ts| && t in m && IdFacts(m)
    ensures var n, t' := ReplaceFrom(m, ts, i), AtFrom(ts, i, t); t' in n && Locs(m[t]) <= Locs(n[t'])
    decreases |ts| - i
  {
    if i < |ts| {
      AtFromStep(ts, i, t);
      ReplaceOneWellFormed(m, ts[0], ts[i]);
      ReplaceOneCarries(m, ts[0], ts[i], t);
      ReplaceFromCarries(ReplaceOne(m, ts[0], ts[i]), ts, i + 1, At([ts[0], ts[i]], t));
    }
  }

  /** The topics of ts that have a value all have the same one, so merging them contradicts and drops nothing. */
  ghost predicate Agree(m: Facts, ts: seq<Topic>) {
    forall x, y :: x in ts && y in ts && x in m && y in m ==> m[x] == m[y]
  }

  lemma {:induction false} ReplaceFromKeepsValue(m: Facts, ts: seq<Topic>, i: nat, t: Topic)
    requires NoDup(ts) && 1 <= i <= |ts| && t in m && PlainFacts(m) && Agree(m, ts)
    ensures var n, t' := ReplaceFrom(m, ts, i), AtFrom(ts, i, t); t' in n && n[t'] == m[t]
    decreases |ts| - i
  {
    if i < |ts| {
      assert ts[0] in ts && ts[i] in ts;
      var n := ReplaceOne(m, ts[0], ts[i]);
      AtFromStep(ts, i, t);
      ReplaceOneWellFormed(m, ts[0], ts[i]);
      ReplaceOneKeepsValue(m, ts[0], ts[i], t);
      ReplaceFromKeepsValue(n, ts, i + 1, At([ts[0], ts[i]], t));
    }
  }

  /** As long as nothing contradicts, replacement neither makes nor hides a disagreement. */
  lemma AgreeStep(m: Facts, ts: seq<Topic>, i: nat)
    requires NoDup(ts) && 1 <= i < |ts| && PlainFacts(m)
    requires ts[0] in m && ts[i] in m ==> m[ts[0]] == m[ts[i]]
    ensures Agree(ReplaceOne(m, ts[0], ts[i]), ts) <==> Agree(m, ts)
  {
    assert ts[0] in ts && ts[i] in ts;
    var n := ReplaceOne(m, ts[0], ts[i]);
    if Agree(n, ts) {
      forall x, y | x in ts && y in ts && x in m && y in m ensures m[x] == m[y] {
        var x', y' := if x == ts[i] then ts[0] else x, if y == ts[i] then ts[0] else y;
        assert n[x'] == n[y'];
      }
    }
  }

  // --- replacing the topics of all merge sets ----------------------------------

  lemma ReplaceSetWellFormed(m: Facts, ts: seq<Topic>)
    requires NoDup(ts) && ts != []
    ensures IdFacts(m) ==> IdFacts(ReplaceSet(m, ts))
    ensures PlainFacts(m) ==> PlainFacts(ReplaceSet(m, ts))
  {
    ReplaceFromWellFormed(m, ts, 1);
  }

  lemma {:induction false} ReplaceSetsWellFormed(m: Facts, lists: seq<seq<Topic>>)
    requires Partition(lists)
    ensures NonEmpty(lists)
    ensures IdFacts(m) ==> IdFacts(ReplaceSets(m, lists))
    ensures PlainFacts(m) ==> PlainFacts(ReplaceSets(m, lists))
    decreases |lists|
  {
    if lists != [] {
      ReplaceSetWellFormed(m, lists[0]);
      ReplaceSetsWellFormed(ReplaceSet(m, lists[0]), lists[1..]);
    }
  }

  lemma {:induction false} ReplaceSetsClosed(f: Labelling, m: Facts, lists: seq<seq<Topic>>)
    requires Partition(lists) && NonEmpty(lists) && Constant(f, lists)
    requires WellFormed(m) && ClosedOn(f, m)
    ensures ClosedOn(f, ReplaceSets(m, lists))
    decreases |lists|
  {
    if lists != [] {
      ReplaceSetWellFormed(m, lists[0]);
      ReplaceFromClosed(f, m, lists[0], 1);
      ReplaceSetsClosed(f, ReplaceSet(m, lists[0]), lists[1..]);
    }
  }

  lemma {:induction false} ReplaceSetsHas(m: Facts, lists: seq<seq<Topic>>, t: Topic)
    requires Partition(lists) && NonEmpty(lists) && t in m
    ensures Rep(lists, t) in ReplaceSets(m, lists)
    decreases |lists|
  {
    if lists != [] {
      AtFromOne(lists[0], t);
      ReplaceFromHas(m, lists[0], 1, t);
      ReplaceSetsHas(ReplaceSet(m, lists[0]), lists[1..], At(lists[0], t));
    }
  }

  lemma {:induction false} ReplaceSetsKey(m: Facts, lists: seq<seq<Topic>>, k: Topic) returns (t: Topic)
    requires Partition(lists) && NonEmpty(lists) && k in ReplaceSets(m, lists)
    ensures t in m && k == Rep(lists, t)
    decreases |lists|
  {
    if lists == [] {
      t := k;
    } else {
      var t' := ReplaceSetsKey(ReplaceSet(m, lists[0]), lists[1..], k);
      t := ReplaceFromKey(m, lists[0], 1, t');
      AtFromOne(lists[0], t);
    }
  }

  lemma {:induction false} ReplaceSetsCarries(m: Facts, lists: seq<seq<Topic>>, t: Topic)
    requires Partition(lists) && NonEmpty(lists) && t in m && IdFacts(m)
    ensures var n, t' := ReplaceSets(m, lists), Rep(lists, t); t' in n && Locs(m[t]) <= Locs(n[t'])
    decreases |lists|
  {
    if lists != [] {
      AtFromOne(lists[0], t);
      ReplaceFromCarries(m, lists[0], 1, t);
      ReplaceSetWellFormed(m, lists[0]);
      ReplaceSetsCarries(ReplaceSet(m, lists[0]), lists[1..], At(lists[0], t));
    }
  }

  ghost predicate AllAgree(m: Facts, lists: seq<seq<Topic>>) {
    forall i :: 0 <= i < |lists| ==> Agree(m, lists[i])
  }

  lemma {:induction false} ReplaceFromUntouched(m: Facts, ts: seq<Topic>, i: nat, t: Topic)
    requires NoDup(ts) && 1 <= i <= |ts| && PlainFacts(m) && t !in ts
    ensures t in ReplaceFrom(m, ts, i) <==> t in m
    ensures t in m ==> ReplaceFrom(m, ts, i)[t] == m[t]
    decreases |ts| - i
  {
    if i < |ts| {
      assert ts[0] in ts && ts[i] in ts;
      ReplaceOneWellFormed(m, ts[0], ts[i]);
      ReplaceFromUntouched(ReplaceOne(m, ts[0], ts[i]), ts, i + 1, t);
    }
  }

  /** Replacing one merge set leaves agreement about the topics of another alone. */
  lemma AgreeElsewhere(m: Facts, ts: seq<Topic>, us: seq<Topic>)
    requires NoDup(ts) && ts != [] && PlainFacts(m) && DisjointSeqs(ts, us)
    ensures Agree(ReplaceSet(m, ts), us) <==> Agree(m, us)
  {
    var n := ReplaceSet(m, ts);
    forall x | x in us ensures (x in n <==> x in m) && (x in m ==> n[x] == m[x]) {
      ReplaceFromUntouched(m, ts, 1, x);
    }
  }

  /** The set that t is in, if any, agrees about the property. */
  ghost predicate AgreeAt(m: Facts, lists: seq<seq<Topic>>, t: Topic) {
    forall i :: 0 <= i < |lists| && t in lists[i] ==> Agree(m, lists[i])
  }

  lemma {:induction false} ReplaceSetsKeepsValue(m: Facts, lists: seq<seq<Topic>>, t: Topic)
    requires Partition(lists) && NonEmpty(lists) && t in m && PlainFacts(m) && AgreeAt(m, lists, t)
    ensures var n, t' := ReplaceSets(m, lists), Rep(lists, t); t' in n && n[t'] == m[t]
    decreases |lists|
  {
    if lists != [] {
      var n, t' := ReplaceSet(m, lists[0]), At(lists[0], t);
      AtFromOne(lists[0], t);
      if t in lists[0] {
        ReplaceFromKeepsValue(m, lists[0], 1, t);
      } else {
        ReplaceFromUntouched(m, lists[0], 1, t);
      }
      ReplaceSetWellFormed(m, lists[0]);
      forall i | 0 <= i < |lists[1..]| && t' in lists[1..][i] ensures Agree(n, lists[1..][i]) {
        assert lists[1..][i] == lists[i + 1] && DisjointSeqs(lists[0], lists[i + 1]);
        assert lists[0][0] in lists[0];
        AgreeElsewhere(m, lists[0], lists[i + 1]);
      }
      ReplaceSetsKeepsValue(n, lists[1..], t');
    }
  }

  // --- representatives -----------------------------------------------------------

  lemma {:induction false} RepOutside(lists: seq<seq<Topic>>, t: Topic)
    requires NonEmpty(lists) && t !in AllTopics(lists)
    ensures Rep(lists, t) == t
    decreases |lists|
  {
    if lists != [] {
      AllTopicsTail(lists);
      assert t !in lists[0];
      RepOutside(lists[1..], t);
    }
  }

  /** A topic's representative is the first topic of its merge set. */
  lemma {:induction false} RepInside(lists: seq<seq<Topic>>, i: nat, t: Topic)
    requires Partition(lists) && NonEmpty(lists) && i < |lists| && t in lists[i]
    ensures Rep(lists, t) == lists[i][0]
    decreases |lists|
  {
    if i == 0 {
      forall k | 1 <= k < |lists| ensures lists[0][0] !in lists[k] {
        assert DisjointSeqs(lists[0], lists[k]) && lists[0][0] in lists[0];
      }
      assert lists[0][0] !in AllTopics(lists[1..]);
      RepOutside(lists[1..], lists[0][0]);
    } else {
      assert DisjointSeqs(lists[0], lists[i]);
      RepInside(lists[1..], i - 1, t);
    }
  }

  lemma RepConstant(lists: seq<seq<Topic>>)
    requires Partition(lists) && NonEmpty(lists)
    ensures Constant(RepFun(lists), lists)
  {
    forall i, x, y | 0 <= i < |lists| && x in lists[i] && y in lists[i]
      ensures Rep(lists, x) == Rep(lists, y)
    {
      RepInside(lists, i, x);
      RepInside(lists, i, y);
    }
  }

  /** Representatives represent themselves. */
  lemma RepIdempotent(lists: seq<seq<Topic>>, t: Topic)
    requires Partition(lists) && NonEmpty(lists)
    ensures Rep(lists, Rep(lists, t)) == Rep(lists, t)
  {
    if t in AllTopics(lists) {
      var i :| 0 <= i < |lists| && t in lists[i];
      RepInside(lists, i, t);
      RepInside(lists, i, lists[i][0]);
    } else {
      RepOutside(lists, t);
    }
  }

  /** A labelling that is constant on the merge sets does not see the replacement. */
  lemma RepInvisible(f: Labelling, lists: seq<seq<Topic>>, t: Topic)
    requires Partition(lists) && NonEmpty(lists) && Constant(f, lists)
    ensures f(Rep(lists, t)) == f(t)
  {
    if t in AllTopics(lists) {
      var i :| 0 <= i < |lists| && t in lists[i];
      RepInside(lists, i, t);
    } else {
      RepOutside(lists, t);
    }
  }

  // --- replacing topics inside values ----------------------------------------------

  function AtFun(ts: seq<Topic>): Topic -> Topic
    requires ts != []
  {
    t => At(ts, t)
  }

  /** In-value replacement of one merge set after the other. */
  function ImagesSets(m: Facts, lists: seq<seq<Topic>>): Facts
    requires NonEmpty(lists)
    decreases |lists|
  {
    if lists == [] then m
    else assert lists[0] != []; ImagesSets(Images(m, AtFun(lists[0])), lists[1..])
  }

  ghost predicate NoneCollides(m: Facts, lists: seq<seq<Topic>>)
    requires NonEmpty(lists)
    decreases |lists|
  {
    lists == [] ||
    (assert lists[0] != [];
     !AnyCollides(m, AtFun(lists[0])) && NoneCollides(Images(m, AtFun(lists[0])), lists[1..]))
  }

  lemma ImagesWellFormed(m: Facts, r: Topic -> Topic)
    requires !AnyCollides(m, r)
    ensures IdFacts(m) ==> IdFacts(Images(m, r))
    ensures PlainFacts(m) ==> PlainFacts(Images(m, r))
  {
    forall t | t in m ensures Canonical(Image(r, m[t])) { ImageCanonical(r, m[t]); }
  }

  /** Set-by-set replacement is one simultaneous replacement by representatives. */
  lemma {:induction false} ImagesSetsAt(m: Facts, lists: seq<seq<Topic>>, t: Topic)
    requires NonEmpty(lists) && t in m && WellFormed(m) && NoneCollides(m, lists)
    ensures t in ImagesSets(m, lists) && ImagesSets(m, lists)[t] == Image(RepFun(lists), m[t])
    ensures !Collides(RepFun(lists), m[t])
    ensures ImagesSets(m, lists).Keys == m.Keys
    decreases |lists|
  {
    if lists == [] {
      ImageFixed(RepFun(lists), m[t]);
    } else {
      assert lists[0] != [];
      var a, n := AtFun(lists[0]), Images(m, AtFun(lists[0]));
      ImagesWellFormed(m, a);
      ImagesSetsAt(n, lists[1..], t);
      RepImage(lists, m[t]);
    }
  }

  lemma RepImage(lists: seq<seq<Topic>>, v: Value)
    requires NonEmpty(lists) && lists != []
    requires !Collides(AtFun(lists[0]), v) && !Collides(RepFun(lists[1..]), Image(AtFun(lists[0]), v))
    ensures Image(RepFun(lists[1..]), Image(AtFun(lists[0]), v)) == Image(RepFun(lists), v)
    ensures !Collides(RepFun(lists), v)
  {
    hide Image, Collides;
    forall x ensures RepFun(lists)(x) == RepFun(lists[1..])(AtFun(lists[0])(x)) { }
    ImageComposeAs(AtFun(lists[0]), RepFun(lists[1..]), RepFun(lists), v);
  }

  lemma ImagePrintSame(f: Labelling, r: Topic -> Topic, v: Value)
    requires forall t :: f(r(t)) == f(t)
    ensures PrintOf(f, Image(r, v)) == PrintOf(f, v)
  {
    ImagePrint(f, r, v);
    PrintAgrees(x => f(r(x)), f, v);
  }

  lemma ImageAlike(f: Labelling, r: Topic -> Topic, v: Value, w: Value)
    requires forall t :: f(r(t)) == f(t)
    ensures Alike(f, Image(r, v), Image(r, w)) <==> Alike(f, v, w)
  {
    ImagePrintSame(f, r, v);
    ImagePrintSame(f, r, w);
  }

  lemma ImagesClosed(f: Labelling, m: Facts, r: Topic -> Topic)
    requires ClosedOn(f, m)
    requires forall t :: f(r(t)) == f(t)
    ensures ClosedOn(f, Images(m, r))
  {
    var n := Images(m, r);
    forall t, u | t in n && u in n && Alike(f, n[t], n[u]) ensures f(t) == f(u) {
      ImageAlike(f, r, m[t], m[u]);
    }
  }
}
