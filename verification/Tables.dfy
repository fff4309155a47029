/**
 * The tables of a property store and of the value store it drives, as plain maps, with
 * the invariant that couples them. PropertyStores.dfy holds the objects that own them.
 */
module Tables {
  import opened Basics
  import opened Values
  import opened MergeSets
  import opened Facts
  import opened Rounds

  /** vid_to_topiclist_array: the topics of each VID, in order of insertion. */
  type TopicLists = map<Vid, seq<Topic>>

  /** vid_by_topic_table. */
  type TopicVids = map<Topic, Vid>

  /** The live values of a value store. */
  type Contents = map<Vid, Value>

  /** Topic-to-VID and VID-to-topics are inverse; no list is empty or repeats a topic. */
  ghost predicate Inverse(lists: TopicLists, vids: TopicVids) {
    && (forall v :: v in lists ==> lists[v] != [] && NoDup(lists[v]))
    && (forall t :: t in vids ==> vids[t] in lists && t in lists[vids[t]])
    && (forall v, t :: v in lists && t in lists[v] ==> t in vids && vids[t] == v)
  }

  ghost predicate Singles(lists: TopicLists) {
    forall v :: v in lists ==> |lists[v]| == 1
  }

  /** One VID per value; for TextSets, disjoint values. */
  ghost predicate ContentsOk(vt: ValueType, c: Contents) {
    && (forall v :: v in c ==> v != 0 && OfType(vt, c[v]) && Canonical(c[v]) && (vt.TextSetType? ==> Locs(c[v]) != {}))
    && (forall v :: v in c ==> Indexable(c[v]))
    && (forall v, w :: v in c && w in c && v != w ==> c[v] != c[w] && Locs(c[v]) !! Locs(c[w]))
  }

  /** A value is live exactly when some topic has it, except for the VIDs in extra. */
  ghost predicate Coupled(vt: ValueType, c: Contents, lists: TopicLists, vids: TopicVids, extra: set<Vid>) {
    ContentsOk(vt, c) && Inverse(lists, vids) && lists.Keys + extra == c.Keys
  }

  function Append(lists: TopicLists, vid: Vid, t: Topic): TopicLists {
    lists[vid := (if vid in lists then lists[vid] else []) + [t]]
  }

  function Drop(lists: TopicLists, vid: Vid, i: nat): TopicLists
    requires vid in lists && i < |lists[vid]|
  {
    if |lists[vid]| == 1 then lists - {vid} else lists[vid := Without(lists[vid], i)]
  }

  /** t has been taken out of the list of vid. */
  ghost predicate Dropped(before: TopicLists, vid: Vid, t: Topic, after: TopicLists) {
    vid in before && exists i: nat :: i < |before[vid]| && before[vid][i] == t && after == Drop(before, vid, i)
  }

  lemma DroppedAt(lists: TopicLists, vid: Vid, i: nat)
    requires vid in lists && i < |lists[vid]|
    ensures Dropped(lists, vid, lists[vid][i], Drop(lists, vid, i))
  {
  }

  /** The facts the tables stand for. */
  function FactsOf(c: Contents, vids: TopicVids): Facts {
    map t | t in vids && vids[t] in c :: c[vids[t]]
  }

  lemma AppendInverse(lists: TopicLists, vids: TopicVids, vid: Vid, t: Topic)
    requires Inverse(lists, vids) && t !in vids
    ensures Inverse(Append(lists, vid, t), vids[t := vid])
  {
  }

  lemma WithoutElems(arr: seq<Topic>, i: nat)
    requires NoDup(arr) && i < |arr|
    ensures forall u :: u in Without(arr, i) <==> u in arr && u != arr[i]
    ensures NoDup(Without(arr, i))
  {
    var w := Without(arr, i);
    assert forall k :: 0 <= k < i ==> w[k] == arr[k];
    assert forall k :: i <= k < |w| ==> w[k] == arr[k + 1];
    forall u ensures u in w <==> u in arr && u != arr[i] {
      if u in arr && u != arr[i] {
        var k :| 0 <= k < |arr| && arr[k] == u;
        assert w[if k < i then k else k - 1] == u;
      }
    }
  }

  lemma DropInverse(lists: TopicLists, vids: TopicVids, vid: Vid, i: nat)
    requires Inverse(lists, vids) && vid in lists && i < |lists[vid]|
    ensures Inverse(Drop(lists, vid, i), vids - {lists[vid][i]})
    ensures Singles(lists) ==> Singles(Drop(lists, vid, i))
  {
    WithoutElems(lists[vid], i);
    var l, k, gone := Drop(lists, vid, i), vids - {lists[vid][i]}, lists[vid][i];
    assert gone in lists[vid];
    if |lists[vid]| == 1 { assert lists[vid] == [gone]; }
    forall v | v in l ensures l[v] != [] && NoDup(l[v]) {
      assert v == vid || l[v] == lists[v];
    }
    forall t | t in k ensures k[t] in l && t in l[k[t]] {
      assert t in lists[vids[t]];
    }
    forall v, t | v in l && t in l[v] ensures t in k && k[t] == v {
      if v == vid {
        assert l[v] == Without(lists[vid], i);
      } else {
        assert l[v] == lists[v] && vids[t] == v;
      }
    }
  }

  lemma Linked(vt: ValueType, c: Contents, lists: TopicLists, vids: TopicVids, extra: set<Vid>, t: Topic)
    requires Coupled(vt, c, lists, vids, extra) && t in vids
    ensures vids[t] in lists && vids[t] in c && t in lists[vids[t]] && vids[t] != 0
  {
    assert vids[t] in lists.Keys + extra;
  }

  /** Inserting a topic closes the window that creating its value opened. */
  lemma AppendCoupled(vt: ValueType, c: Contents, lists: TopicLists, vids: TopicVids, vid: Vid, t: Topic)
    requires Coupled(vt, c, lists, vids, {vid}) && t !in vids
    ensures Coupled(vt, c, Append(lists, vid, t), vids[t := vid], {})
  {
    AppendInverse(lists, vids, vid, t);
  }

  /** Removing a topic, and with the last topic of a value the value, keeps the stores coupled. */
  lemma DropCoupled(vt: ValueType, c: Contents, lists: TopicLists, vids: TopicVids, extra: set<Vid>, vid: Vid, i: nat)
    requires Coupled(vt, c, lists, vids, extra) && vid in lists && vid !in extra && i < |lists[vid]|
    ensures Coupled(vt, if |lists[vid]| == 1 then c - {vid} else c, Drop(lists, vid, i), vids - {lists[vid][i]}, extra)
    ensures Singles(lists) ==> Singles(Drop(lists, vid, i))
  {
    DropInverse(lists, vids, vid, i);
    FewerOk(vt, c, vid);
    hide Inverse, ContentsOk, Singles;
    var c' := if |lists[vid]| == 1 then c - {vid} else c;
    assert Drop(lists, vid, i).Keys + extra == c'.Keys;
  }

  lemma FewerOk(vt: ValueType, c: Contents, vid: Vid)
    requires ContentsOk(vt, c)
    ensures ContentsOk(vt, c - {vid})
  {
  }

  /** What the tables stand for is always a legal set of facts of the property's kind. */
  lemma FactsWellKinded(kind: Kind, c: Contents, vids: TopicVids)
    requires ContentsOk(kind.valueType, c)
    ensures WellKinded(kind, FactsOf(c, vids))
  {
    var m := FactsOf(c, vids);
    forall t, u | t in m && u in m && m[t] != m[u] ensures Locs(m[t]) !! Locs(m[u]) {
      assert vids[t] != vids[u];
    }
  }

  /** Equal values are the same VID. */
  lemma SameValueSameVid(vt: ValueType, c: Contents, vids: TopicVids, t: Topic, u: Topic)
    requires ContentsOk(vt, c)
    requires t in vids && u in vids && vids[t] in c && vids[u] in c
    ensures FactsOf(c, vids)[t] == FactsOf(c, vids)[u] <==> vids[t] == vids[u]
  {
  }

  // --- storing a TextSet value (_pstore_vput) ----------------------------------------

  function OverlapVids(c: Contents, ls: set<Locator>): set<Vid> {
    set v | v in c && Locs(c[v]) * ls != {}
  }

  function LocsIn(c: Contents, vs: set<Vid>): set<Locator> {
    set v, l | v in vs && v in c && l in Locs(c[v]) :: l
  }

  /** The topics that have one of the values vs. */
  function Holders(vids: TopicVids, vs: set<Vid>): set<Topic> {
    set t | t in vids && vids[t] in vs
  }

  function Rehomed(vids: TopicVids, vs: set<Vid>, vid: Vid): TopicVids {
    map t | t in vids :: if vids[t] in vs then vid else vids[t]
  }

  function Fused(c: Contents, ls: set<Locator>): set<Locator> {
    ls + LocsIn(c, OverlapVids(c, ls))
  }

  lemma FusedIs(c: Contents, ls: set<Locator>)
    ensures Fused(c, ls) == ls + LocsIn(c, OverlapVids(c, ls))
  {
  }

  lemma CoupledContents(vt: ValueType, c: Contents, lists: TopicLists, vids: TopicVids, extra: set<Vid>)
    requires Coupled(vt, c, lists, vids, extra)
    ensures ContentsOk(vt, c)
  {
  }

  /** One value in place of all overlapping ones, under a VID that was not in use. */
  function WithFused(c: Contents, ls: set<Locator>, vid: Vid): Contents {
    (c - OverlapVids(c, ls))[vid := Locators(Fused(c, ls))]
  }

  lemma AllLinked(vt: ValueType, c: Contents, lists: TopicLists, vids: TopicVids)
    requires Coupled(vt, c, lists, vids, {})
    ensures forall t :: t in vids ==> vids[t] in c && vids[t] in lists
    ensures forall v :: v in c ==> exists t :: t in vids && vids[t] == v
  {
    forall t | t in vids ensures vids[t] in c && vids[t] in lists { Linked(vt, c, lists, vids, {}, t); }
    forall v | v in c ensures exists t :: t in vids && vids[t] == v {
      assert v in lists.Keys + {};
      var t := lists[v][0];
      assert t in lists[v];
      assert t in vids && vids[t] == v;
    }
  }

  lemma ClusterIsHolders(c: Contents, vids: TopicVids, ls: set<Locator>)
    requires forall t :: t in vids ==> vids[t] in c
    requires forall v :: v in c ==> exists t :: t in vids && vids[t] == v
    ensures Cluster(FactsOf(c, vids), ls) == Holders(vids, OverlapVids(c, ls))
    ensures LocsOf(FactsOf(c, vids), Cluster(FactsOf(c, vids), ls)) == LocsIn(c, OverlapVids(c, ls))
  {
    var m, ov := FactsOf(c, vids), OverlapVids(c, ls);
    var cluster := Cluster(m, ls);
    forall l | l in LocsIn(c, ov) ensures l in LocsOf(m, cluster) {
      var v :| v in ov && v in c && l in Locs(c[v]);
      var u :| u in vids && vids[u] == v;
      assert u in cluster && u in m && l in Locs(m[u]);
    }
    forall l | l in LocsOf(m, cluster) ensures l in LocsIn(c, ov) {
      var u :| u in cluster && u in m && l in Locs(m[u]);
      assert vids[u] in ov;
    }
  }

  /** Fusing the overlapping values and re-homing their topics is absorption, at the level of facts. */
  lemma FusedIsAbsorb(vt: ValueType, c: Contents, lists: TopicLists, vids: TopicVids, ls: set<Locator>, vid: Vid,
                      t: Topic)
    requires Coupled(vt, c, lists, vids, {}) && t !in vids && vid !in c - OverlapVids(c, ls)
    ensures FactsOf(WithFused(c, ls, vid), Rehomed(vids, OverlapVids(c, ls), vid)[t := vid])
            == Absorb(FactsOf(c, vids), t, ls)
  {
    hide Coupled;
    AllLinked(vt, c, lists, vids);
    ClusterIsHolders(c, vids, ls);
    RehomedFacts(c, vids, OverlapVids(c, ls), Locators(Fused(c, ls)), vid, t);
  }

  lemma RehomedFacts(c: Contents, vids: TopicVids, ov: set<Vid>, w: Value, vid: Vid, t: Topic)
    requires forall u :: u in vids ==> vids[u] in c
    requires t !in vids && vid !in c - ov
    ensures FactsOf((c - ov)[vid := w], Rehomed(vids, ov, vid)[t := vid])
            == map u | u in vids.Keys + {t} :: if u == t || u in Holders(vids, ov) then w else c[vids[u]]
  {
  }

  /** The topics of a value are exactly the topics its list holds. */
  lemma ListHolds(lists: TopicLists, vids: TopicVids, vid: Vid, ts: seq<Topic>)
    requires Inverse(lists, vids) && vid in lists && NoDup(ts)
    requires forall t :: t in ts <==> t in vids && vids[t] == vid
    ensures |lists[vid]| == |ts|
  {
    assert Elems(lists[vid]) == Elems(ts);
    NoDupSize(lists[vid]);
    NoDupSize(ts);
  }

  lemma ListOf(vt: ValueType, c: Contents, lists: TopicLists, vids: TopicVids, extra: set<Vid>, vid: Vid)
    requires Coupled(vt, c, lists, vids, extra) && vid in c && vid !in extra
    ensures vid in lists && lists[vid] != [] && NoDup(lists[vid])
    ensures Elems(lists[vid]) == Holders(vids, {vid})
  {
    assert vid in lists.Keys + extra;
    assert forall t :: t in lists[vid] <==> t in Elems(lists[vid]);
  }

  /** A value with topics may also be the value of a window. */
  lemma Widen(vt: ValueType, c: Contents, lists: TopicLists, vids: TopicVids, vid: Vid)
    requires Coupled(vt, c, lists, vids, {}) && vid in c
    ensures Coupled(vt, c, lists, vids, {vid})
  {
    assert lists.Keys + {vid} == c.Keys;
  }

  /** A value that overlaps no live one may be added, and then waits for its topics. */
  lemma AddedCoupled(c: Contents, lists: TopicLists, vids: TopicVids, vid: Vid, ls: set<Locator>)
    requires Coupled(TextSetType, c, lists, vids, {}) && vid != 0 && vid !in c && ls != {}
    requires OverlapVids(c, ls) == {}
    ensures Coupled(TextSetType, c[vid := Locators(ls)], lists, vids, {vid})
  {
    forall v | v in c ensures Locs(c[v]) !! ls {
      assert v !in OverlapVids(c, ls);
      forall l | l in Locs(c[v]) ensures l !in ls { assert l !in Locs(c[v]) * ls; }
    }
    assert lists.Keys + {vid} == c[vid := Locators(ls)].Keys;
  }

  // --- moving all topics of a value ------------------------------------------------

  function SetVid(vids: TopicVids, ts: set<Topic>, vid: Vid): TopicVids {
    map t | t in vids.Keys + ts :: if t in ts then vid else vids[t]
  }

  lemma SetVidStep(vids: TopicVids, ts: seq<Topic>, k: nat, vid: Vid)
    requires NoDup(ts) && Elems(ts) !! vids.Keys && k < |ts|
    ensures ts[k] !in SetVid(vids, Elems(ts[..k]), vid)
    ensures SetVid(vids, Elems(ts[..k]), vid)[ts[k] := vid] == SetVid(vids, Elems(ts[..k + 1]), vid)
  {
    assert ts[..k + 1] == ts[..k] + [ts[k]];
    assert ts[k] in Elems(ts) && ts[k] !in ts[..k];
  }

  lemma SetVidNone(vids: TopicVids, vid: Vid)
    ensures SetVid(vids, Elems([]), vid) == vids
  {
  }

  /** Before the k-th removal, the list of the value still holds exactly the topics from k on. */
  lemma RestOfList(vt: ValueType, c: Contents, lists: TopicLists, vids: TopicVids, extra: set<Vid>, vid: Vid,
                   ts: seq<Topic>, k: nat)
    requires Coupled(vt, c, lists, vids, extra) && k < |ts| && NoDup(ts)
    requires forall t :: t in ts[k..] <==> t in vids && vids[t] == vid
    ensures ts[k] in vids && vids[ts[k]] == vid && vid in lists
    ensures |lists[vid]| == |ts| - k
  {
    assert ts[k] in ts[k..];
    ListHolds(lists, vids, vid, ts[k..]);
  }

  /** One step of Vput's loop over the overlapping VIDs. */
  lemma FuseStep(c: Contents, vids: TopicVids, vs: seq<Vid>, k: nat)
    requires k < |vs| && NoDup(vs) && vs[k] in c
    ensures Holders(vids, Elems(vs[..k + 1])) == Holders(vids, Elems(vs[..k])) + Holders(vids, {vs[k]})
    ensures Holders(vids, Elems(vs[..k])) !! Holders(vids, {vs[k]})
    ensures LocsIn(c, Elems(vs[..k + 1])) == LocsIn(c, Elems(vs[..k])) + Locs(c[vs[k]])
    ensures c - Elems(vs[..k + 1]) == c - Elems(vs[..k]) - {vs[k]}
    ensures vs[k] in c - Elems(vs[..k])
    ensures Holders(vids - Holders(vids, Elems(vs[..k])), {vs[k]}) == Holders(vids, {vs[k]})
  {
    assert vs[..k + 1] == vs[..k] + [vs[k]];
    assert Elems(vs[..k + 1]) == Elems(vs[..k]) + {vs[k]};
    assert vs[k] !in vs[..k];
    assert vs[k] !in Elems(vs[..k]);
    forall l | l in LocsIn(c, Elems(vs[..k + 1])) ensures l in LocsIn(c, Elems(vs[..k])) + Locs(c[vs[k]]) {
      var v :| v in Elems(vs[..k + 1]) && v in c && l in Locs(c[v]);
    }
    forall l | l in Locs(c[vs[k]]) ensures l in LocsIn(c, Elems(vs[..k + 1])) {
      assert vs[k] in Elems(vs[..k + 1]);
    }
    forall l | l in LocsIn(c, Elems(vs[..k])) ensures l in LocsIn(c, Elems(vs[..k + 1])) {
      var v :| v in Elems(vs[..k]) && v in c && l in Locs(c[v]);
      assert v in Elems(vs[..k + 1]);
    }
  }

  lemma FuseNone(c: Contents, vids: TopicVids)
    ensures Holders(vids, Elems([])) == {} && LocsIn(c, Elems([])) == {}
    ensures c - Elems([]) == c && vids - Holders(vids, Elems([])) == vids
  {
  }

  /** When the only overlapping value equals the new one, fusing changes nothing. */
  lemma OneEqual(vt: ValueType, c: Contents, lists: TopicLists, vids: TopicVids, ls: set<Locator>, vid: Vid)
    requires Coupled(vt, c, lists, vids, {}) && OverlapVids(c, ls) == {vid} && c[vid] == Locators(ls)
    ensures Coupled(vt, c, lists, vids, {vid}) && vid !in c - {vid}
    ensures WithFused(c, ls, vid) == c && Rehomed(vids, {vid}, vid) == vids
  {
    assert vid in OverlapVids(c, ls);
    Widen(vt, c, lists, vids, vid);
    FusedWithItself(c, ls, vid);
    hide Coupled, OverlapVids, Fused;
    assert (c - {vid})[vid := Locators(ls)] == c;
    RehomedInPlace(vids, vid);
  }

  lemma RehomedInPlace(vids: TopicVids, vid: Vid)
    ensures Rehomed(vids, {vid}, vid) == vids
  {
  }

  lemma FusedWithItself(c: Contents, ls: set<Locator>, vid: Vid)
    requires OverlapVids(c, ls) == {vid} && vid in c && c[vid] == Locators(ls)
    ensures Fused(c, ls) == ls
  {
  }

  lemma NotShared(c: Contents, ls: set<Locator>, v: Vid, l: Locator)
    requires OverlapVids(c, ls) == {} && v in c && l in ls
    ensures l !in Locs(c[v])
  {
    assert v !in OverlapVids(c, ls);
    assert l !in Locs(c[v]) * ls;
  }

  /** After all overlapping values are gone nothing overlaps what was combined. */
  lemma NothingOverlaps(vt: ValueType, c: Contents, ls: set<Locator>)
    requires ContentsOk(vt, c)
    ensures OverlapVids(c - OverlapVids(c, ls), Fused(c, ls)) == {}
  {
    var ov := OverlapVids(c, ls);
    forall v | v in c && v !in ov ensures Locs(c[v]) * Fused(c, ls) == {} {
      assert Locs(c[v]) * ls == {};
      forall l | l in Locs(c[v]) ensures l !in Fused(c, ls) {
        assert l !in Locs(c[v]) * ls;
      }
    }
  }

  lemma RehomedIsSetVid(vids: TopicVids, vs: set<Vid>, vid: Vid)
    ensures SetVid(vids - Holders(vids, vs), Holders(vids, vs), vid) == Rehomed(vids, vs, vid)
  {
  }

  // --- the order of the topic lists --------------------------------------------------------

  function AppendAll(lists: TopicLists, vid: Vid, ts: seq<Topic>): TopicLists {
    if ts == [] then lists else lists[vid := (if vid in lists then lists[vid] else []) + ts]
  }

  lemma AppendNext(lists: TopicLists, vid: Vid, ts: seq<Topic>, k: nat)
    requires k < |ts|
    ensures AppendAll(lists, vid, ts[..k + 1]) == Append(AppendAll(lists, vid, ts[..k]), vid, ts[k])
  {
    var before := if vid in lists then lists[vid] else [];
    assert ts[..k + 1] == ts[..k] + [ts[k]];
    assert before + ts[..k + 1] == (before + ts[..k]) + [ts[k]];
    if k == 0 { assert before + ts[..0] == before; }
    assert AppendAll(lists, vid, ts[..k + 1]) == lists[vid := (before + ts[..k]) + [ts[k]]];
  }

  /** The topics of the values vids, pushed one after the other. */
  function Collected(lists: TopicLists, vids: seq<Vid>): seq<Topic> {
    if vids == [] then []
    else
      var v := vids[|vids| - 1];
      PushAll(Collected(lists, vids[..|vids| - 1]), if v in lists then lists[v] else [])
  }

  lemma NoneCollected(lists: TopicLists)
    ensures Collected(lists, []) == [] && lists - Elems([]) == lists
  {
  }

  lemma CollectedNext(lists: TopicLists, vids: seq<Vid>, k: nat)
    requires k < |vids| && NoDup(vids) && vids[k] in lists
    ensures Collected(lists, vids[..k + 1]) == PushAll(Collected(lists, vids[..k]), lists[vids[k]])
    ensures vids[k] in lists - Elems(vids[..k])
    ensures lists - Elems(vids[..k + 1]) == lists - Elems(vids[..k]) - {vids[k]}
  {
    assert vids[..k + 1] == vids[..k] + [vids[k]];
    assert vids[..k + 1][..k] == vids[..k];
  }

  /**
   * The topic lists after _pstore_vput: vids are the overlapping values in the order of the
   * scan. Their topics move to the end of the list of vid, unless the only one is the value itself.
   */
  function Regrouped(c: Contents, lists: TopicLists, vids: seq<Vid>, ls: set<Locator>, vid: Vid): TopicLists {
    if |vids| == 1 && vids[0] in c && c[vids[0]] == Locators(ls) then lists
    else AppendAll(lists - Elems(vids), vid, Collected(lists, vids))
  }

  lemma RegroupedIs(c: Contents, lists: TopicLists, vids: seq<Vid>, ls: set<Locator>, vid: Vid)
    ensures Regrouped(c, lists, vids, ls, vid)
            == if |vids| == 1 && vids[0] in c && c[vids[0]] == Locators(ls) then lists
               else AppendAll(lists - Elems(vids), vid, Collected(lists, vids))
  {
  }

  lemma DroppedElsewhere(before: TopicLists, vid: Vid, t: Topic, after: TopicLists)
    requires Dropped(before, vid, t, after)
    ensures after - {vid} == before - {vid}
  {
  }

  lemma NoHolder(vt: ValueType, c: Contents, lists: TopicLists, vids: TopicVids, extra: set<Vid>, vid: Vid)
    requires Coupled(vt, c, lists, vids, extra) && forall t :: t in vids ==> vids[t] != vid
    ensures vid !in lists && lists - {vid} == lists
  {
    if vid in lists {
      var t := HolderIn(lists, vids, vid);
      assert false;
    }
  }

  lemma HolderIn(lists: TopicLists, vids: TopicVids, vid: Vid) returns (t: Topic)
    requires Inverse(lists, vids) && vid in lists
    ensures t in vids && vids[t] == vid
  {
    t := lists[vid][0];
    assert t in lists[vid];
  }

  /** The topic of the last put comes last in its list. */
  ghost predicate Last(lists: TopicLists, t: Topic) {
    forall v :: v in lists && t in lists[v] ==> lists[v][|lists[v]| - 1] == t
  }

  lemma AppendLast(lists: TopicLists, vids: TopicVids, vid: Vid, t: Topic)
    requires Inverse(lists, vids) && t !in vids
    ensures Last(Append(lists, vid, t), t)
  {
  }

  // --- the tables' operations as facts -------------------------------------------------

  lemma FactsKeys(vt: ValueType, c: Contents, lists: TopicLists, vids: TopicVids)
    requires Coupled(vt, c, lists, vids, {})
    ensures FactsOf(c, vids).Keys == vids.Keys
    ensures forall t :: t in vids ==> vids[t] in c && FactsOf(c, vids)[t] == c[vids[t]]
  {
    AllLinked(vt, c, lists, vids);
  }

  lemma RemoveFacts(vt: ValueType, c: Contents, lists: TopicLists, vids: TopicVids, c': Contents, t: Topic)
    requires Coupled(vt, c', lists, vids - {t}, {})
    requires forall v :: v in c' ==> v in c && c'[v] == c[v]
    ensures FactsOf(c', vids - {t}) == FactsOf(c, vids) - {t}
  {
    AllLinked(vt, c', lists, vids - {t});
  }

  /** Putting a value that the topic already has changes nothing. */
  lemma PutSame(m: Facts, t: Topic, ls: set<Locator>)
    requires IdFacts(m) && t in m && m[t] == Locators(ls)
    ensures Put(m, t, ls) == m
  {
    var rest := m - {t};
    var c := Cluster(rest, ls);
    assert ls + ls == ls;
    forall u | u in c ensures m[u] == m[t] { assert Locs(m[u]) * ls != {}; }
    assert ls + LocsOf(rest, c) == ls;
  }

  lemma InsertFacts(c: Contents, vids: TopicVids, t: Topic, vid: Vid)
    requires vid in c
    ensures FactsOf(c, vids[t := vid]) == FactsOf(c, vids)[t := c[vid]]
  {
  }

  lemma MoreContents(vt: ValueType, c: Contents, vid: Vid, value: Value)
    requires ContentsOk(vt, c) && vid != 0 && OfType(vt, value) && Canonical(value) && !vt.TextSetType?
    requires Indexable(value)
    requires vid !in c && forall v :: v in c ==> c[v] != value
    ensures ContentsOk(vt, c[vid := value])
  {
    hide Canonical;
  }

  lemma UnusedVid(c: Contents, vids: TopicVids, vid: Vid, value: Value)
    requires vid !in c && forall t :: t in vids ==> vids[t] in c
    ensures FactsOf(c[vid := value], vids) == FactsOf(c, vids)
  {
  }

  lemma OpenWindow(vt: ValueType, c: Contents, lists: TopicLists, vids: TopicVids, vid: Vid, value: Value)
    requires Coupled(vt, c, lists, vids, {}) && vid !in c && ContentsOk(vt, c[vid := value])
    ensures Coupled(vt, c[vid := value], lists, vids, {vid})
  {
    hide ContentsOk, Inverse;
    assert lists.Keys + {vid} == c[vid := value].Keys;
  }

  /** Looking a plain value up, or creating it, opens a window for its VID and changes no fact. */
  lemma LookedUp(vt: ValueType, c: Contents, lists: TopicLists, vids: TopicVids, vid: Vid, value: Value)
    requires Coupled(vt, c, lists, vids, {}) && vid != 0 && OfType(vt, value) && Canonical(value) && !vt.TextSetType?
    requires Indexable(value)
    requires vid in c ==> c[vid] == value
    requires vid !in c ==> forall v :: v in c ==> c[v] != value
    ensures vid in c ==> Coupled(vt, c, lists, vids, {vid})
    ensures vid !in c ==> Coupled(vt, c[vid := value], lists, vids, {vid})
    ensures vid !in c ==> FactsOf(c[vid := value], vids) == FactsOf(c, vids)
  {
    hide Coupled, ContentsOk, FactsOf, Canonical;
    if vid in c {
      Widen(vt, c, lists, vids, vid);
    } else {
      AllLinked(vt, c, lists, vids);
      CoupledContents(vt, c, lists, vids, {});
      MoreContents(vt, c, vid, value);
      OpenWindow(vt, c, lists, vids, vid, value);
      UnusedVid(c, vids, vid, value);
    }
  }

  lemma RehomedKeys(vids: TopicVids, vs: set<Vid>, vid: Vid)
    ensures Rehomed(vids, vs, vid).Keys == vids.Keys
  {
  }

  // --- replacing keys (_pstore_replace_topics) ------------------------------------------

  /** stays and disap have different values of a type that can neither combine nor be reconciled later. */
  ghost predicate Contradict(m: Facts, stays: Topic, disap: Topic) {
    stays in m && disap in m && m[stays].Text? && m[stays] != m[disap]
  }

  lemma FactsTyped(kind: Kind, c: Contents, vids: TopicVids)
    requires ContentsOk(kind.valueType, c)
    ensures WellKinded(kind, FactsOf(c, vids))
    ensures AllOfType(kind.valueType, FactsOf(c, vids))
    ensures !kind.valueType.TextSetType? ==> PlainFacts(FactsOf(c, vids))
  {
    FactsWellKinded(kind, c, vids);
  }

  lemma ContradictIff(kind: Kind, m: Facts, s: Topic, d: Topic)
    requires AllOfType(kind.valueType, m)
    ensures Contradict(m, s, d) <==> kind.valueType.TextType? && s in m && d in m && m[s] != m[d]
    ensures s in m ==> (m[s].Locators? <==> kind.valueType.TextSetType?)
  {
  }

  /** The cases of ReplaceOne, as the method reaches them. */
  lemma ReplaceOneCases(m: Facts, s: Topic, d: Topic)
    requires s != d
    ensures d !in m ==> ReplaceOne(m, s, d) == m
    ensures d in m && s !in m ==> ReplaceOne(m, s, d) == m[s := m[d]] - {d}
    ensures d in m && s in m && (m[s] == m[d] || !m[s].Locators?) ==> ReplaceOne(m, s, d) == m - {d}
    ensures d in m && s in m && m[s] != m[d] && m[s].Locators? ==>
              ReplaceOne(m, s, d) == Absorb(m - {s} - {d}, s, Locs(m[s]) + Locs(m[d]))
  {
    hide Absorb;
    assert m - {s} - {d} == m - {s, d};
    if d in m && s !in m { assert m[s := m[d]] - {d} == (m - {d})[s := m[d]]; }
  }

  lemma ContradictDisagree(m: Facts, ts: seq<Topic>, i: nat)
    requires 1 <= i < |ts| && Contradict(m, ts[0], ts[i])
    ensures !Agree(m, ts)
  {
    assert ts[0] in ts && ts[i] in ts;
  }

  lemma ReplacedKeys(m: Facts, ts: seq<Topic>, i: nat, n: Facts)
    requires NoDup(ts) && 1 <= i < |ts| && n == ReplaceOne(m, ts[0], ts[i])
    requires forall k :: 1 <= k < i ==> ts[k] !in m
    ensures forall k :: 1 <= k < i + 1 ==> ts[k] !in n
  {
  }

  lemma OneLeftAgrees(m: Facts, ts: seq<Topic>)
    requires forall k :: 1 <= k < |ts| ==> ts[k] !in m
    ensures Agree(m, ts)
  {
    forall x, y | x in ts && y in ts && x in m && y in m ensures x == y {
      var i :| 0 <= i < |ts| && ts[i] == x;
      var j :| 0 <= j < |ts| && ts[j] == y;
    }
  }

  // --- replacing topics inside values (_pstore_replace_topics_in_values) ------------------

  /** The live values that contain a disappearing topic. */
  function Including(c: Contents, gone: set<Topic>): set<Vid> {
    set v | v in c && TopicsOf(c[v]) * gone != {}
  }

  /**
   * While the loop is under way: topics whose value has been processed have its image,
   * the others still have their old VID, and the values still to come are untouched.
   */
  ghost predicate Underway(r: Topic -> Topic, c0: Contents, vids0: TopicVids, c: Contents, vids: TopicVids,
                           done: set<Vid>, todo: set<Vid>) {
    && vids.Keys == vids0.Keys
    && (forall t :: t in vids0 ==> vids0[t] in c0 && vids[t] in c)
    && (forall t :: t in vids0 && vids0[t] in done ==> c[vids[t]] == Image(r, c0[vids0[t]]) && vids[t] !in todo)
    && (forall t :: t in vids0 && vids0[t] !in done ==> vids[t] == vids0[t] && c[vids[t]] == c0[vids0[t]])
    && (forall v :: v in todo ==> v in c0 && v in c && c[v] == c0[v] && v !in done)
  }

  lemma UnderwayStart(r: Topic -> Topic, vt: ValueType, c: Contents, lists: TopicLists, vids: TopicVids, todo: set<Vid>)
    requires Coupled(vt, c, lists, vids, {}) && todo <= c.Keys
    ensures Underway(r, c, vids, c, vids, {}, todo)
  {
    AllLinked(vt, c, lists, vids);
  }

  /** Processing one value: its topics move to the VID of its image. */
  lemma UnderwayStep(r: Topic -> Topic, c0: Contents, vids0: TopicVids, c: Contents, vids: TopicVids, done: set<Vid>,
                     todo: set<Vid>,
                     vid: Vid, c1: Contents, newVid: Vid)
    requires Underway(r, c0, vids0, c, vids, done, todo) && vid in todo
    requires newVid in c1 && c1[newVid] == Image(r, c0[vid]) && newVid !in todo
    requires c1 == c || (newVid !in c && c1 == c[newVid := c1[newVid]])
    ensures Underway(r, c0, vids0, c1 - {vid}, SetVid(vids, Holders(vids, {vid}), newVid), done + {vid}, todo - {vid})
  {
    SetVidIs(vids, vid, newVid);
    hide SetVid, Holders, Image;
    var c2, vids2 := c1 - {vid}, SetVid(vids, Holders(vids, {vid}), newVid);
    forall t | t in vids0
      ensures vids0[t] in c0 && vids2[t] in c2
      ensures vids0[t] in done + {vid} ==> c2[vids2[t]] == Image(r, c0[vids0[t]]) && vids2[t] !in todo - {vid}
      ensures vids0[t] !in done + {vid} ==> vids2[t] == vids0[t] && c2[vids2[t]] == c0[vids0[t]]
    {
      if vids[t] == vid { assert vids0[t] == vid; }
    }
  }

  lemma SetVidIs(vids: TopicVids, vid: Vid, newVid: Vid)
    ensures var vids1 := SetVid(vids, Holders(vids, {vid}), newVid);
            && vids1.Keys == vids.Keys
            && forall t :: t in vids ==> vids1[t] == if vids[t] == vid then newVid else vids[t]
  {
  }

  /** At the end every value is its image, values without disappearing topics trivially so. */
  lemma UnderwayEnd(ts: seq<Topic>, c0: Contents, vids0: TopicVids, c: Contents, vids: TopicVids, vt: ValueType)
    requires ts != [] && ContentsOk(vt, c0)
    requires Underway(AtFun(ts), c0, vids0, c, vids, Including(c0, Elems(ts[1..])), {})
    requires forall v :: v in Including(c0, Elems(ts[1..])) ==> !Collides(AtFun(ts), c0[v])
    ensures FactsOf(c, vids) == Images(FactsOf(c0, vids0), AtFun(ts))
    ensures !AnyCollides(FactsOf(c0, vids0), AtFun(ts))
  {
    hide FactsOf, Images, AnyCollides, Including, Collides, Canonical, OfType;
    UnderwayImages(ts, c0, vids0, c, vids, vt);
    FactsImages(c0, vids0, c, vids, AtFun(ts));
  }

  lemma UnderwayImages(ts: seq<Topic>, c0: Contents, vids0: TopicVids, c: Contents, vids: TopicVids, vt: ValueType)
    requires ts != [] && ContentsOk(vt, c0)
    requires Underway(AtFun(ts), c0, vids0, c, vids, Including(c0, Elems(ts[1..])), {})
    requires forall v :: v in Including(c0, Elems(ts[1..])) ==> !Collides(AtFun(ts), c0[v])
    ensures forall t :: t in vids0 ==> t in vids && vids0[t] in c0 && vids[t] in c
    ensures forall t :: t in vids0 ==> c[vids[t]] == Image(AtFun(ts), c0[vids0[t]])
    ensures forall t :: t in vids0 ==> !Collides(AtFun(ts), c0[vids0[t]])
    ensures vids.Keys == vids0.Keys
  {
    hide Image, Collides, Canonical, OfType;
    var inc := Including(c0, Elems(ts[1..]));
    forall t | t in vids0
      ensures c[vids[t]] == Image(AtFun(ts), c0[vids0[t]]) && !Collides(AtFun(ts), c0[vids0[t]])
    {
      if vids0[t] !in inc { Unaffected(ts, c0[vids0[t]]); }
    }
  }

  lemma FactsImages(c0: Contents, vids0: TopicVids, c: Contents, vids: TopicVids, r: Topic -> Topic)
    requires vids.Keys == vids0.Keys
    requires forall t :: t in vids0 ==> t in vids && vids0[t] in c0 && vids[t] in c
    requires forall t :: t in vids0 ==> c[vids[t]] == Image(r, c0[vids0[t]])
    requires forall t :: t in vids0 ==> !Collides(r, c0[vids0[t]])
    ensures FactsOf(c, vids) == Images(FactsOf(c0, vids0), r)
    ensures !AnyCollides(FactsOf(c0, vids0), r)
  {
    hide Image, Collides;
  }

  lemma Unaffected(ts: seq<Topic>, v: Value)
    requires ts != [] && Canonical(v) && TopicsOf(v) * Elems(ts[1..]) == {}
    ensures Image(AtFun(ts), v) == v && !Collides(AtFun(ts), v)
  {
    forall t | t in TopicsOf(v) ensures At(ts, t) == t {
      assert t !in TopicsOf(v) * Elems(ts[1..]);
      assert ts == [ts[0]] + ts[1..];
    }
    ImageFixed(AtFun(ts), v);
  }

  /** An image contains no disappearing topic, so it is none of the values still to come. */
  lemma ImageNotIncluding(ts: seq<Topic>, v: Value)
    requires ts != [] && NoDup(ts)
    ensures TopicsOf(Image(AtFun(ts), v)) * Elems(ts[1..]) == {}
  {
    ImageTopics(AtFun(ts), v);
    assert ts == [ts[0]] + ts[1..];
    assert forall k :: 0 <= k < |ts[1..]| ==> ts[1..][k] == ts[k + 1] != ts[0];
    forall t ensures At(ts, t) !in Elems(ts[1..]) {
      assert ts[0] !in ts[1..];
    }
  }

  lemma HolderCollides(vt: ValueType, c: Contents, lists: TopicLists, vids: TopicVids, vid: Vid, r: Topic -> Topic)
    requires Coupled(vt, c, lists, vids, {}) && vid in c && Collides(r, c[vid])
    ensures AnyCollides(FactsOf(c, vids), r)
  {
    AllLinked(vt, c, lists, vids);
    var t :| t in vids && vids[t] == vid;
    assert FactsOf(c, vids)[t] == c[vid];
  }

  /** Values that contain no topics are their own images. */
  lemma NoTopicsInside(m: Facts, r: Topic -> Topic)
    requires forall t :: t in m ==> m[t].Locators? || m[t].Text?
    ensures Images(m, r) == m && !AnyCollides(m, r)
  {
  }

  lemma Todo(r: Topic -> Topic, c0: Contents, vids0: TopicVids, c: Contents, vids: TopicVids, todo: seq<Vid>, k: nat,
             ts: seq<Topic>)
    requires k < |todo| && ts != [] && Elems(todo) == Including(c0, Elems(ts[1..]))
    requires Underway(r, c0, vids0, c, vids, Elems(todo[..k]), Elems(todo[k..]))
    ensures todo[k] in c0 && todo[k] in c && c[todo[k]] == c0[todo[k]]
    ensures forall v :: v in todo[k..] ==> v in c0 && v in c && c[v] == c0[v]
    ensures TopicsOf(c0[todo[k]]) * Elems(ts[1..]) != {}
  {
    assert forall v :: v in todo[k..] ==> v in Elems(todo[k..]);
    assert todo[k] == todo[k..][0];
    assert todo[k] in Elems(todo);
  }

  lemma ValueIs(vt: ValueType, c: Contents, lists: TopicLists, vids: TopicVids, vid: Vid)
    requires Coupled(vt, c, lists, vids, {}) && vid in c
    ensures OfType(vt, c[vid]) && Canonical(c[vid]) && Indexable(c[vid]) && vid != 0
  {
  }

  lemma NewNotTodo(ts: seq<Topic>, c0: Contents, c: Contents, c1: Contents, todo: seq<Vid>, k: nat, newVid: Vid,
                   image: Value)
    requires ts != [] && k < |todo| && Elems(todo) == Including(c0, Elems(ts[1..]))
    requires forall v :: v in todo[k..] ==> v in c0 && v in c && c[v] == c0[v]
    requires newVid in c1 && c1[newVid] == image && TopicsOf(image) * Elems(ts[1..]) == {}
    requires c1 == c || (newVid !in c && c1 == c[newVid := image])
    ensures newVid !in Elems(todo[k..]) && newVid != todo[k]
  {
    assert todo[k] == todo[k..][0];
    forall v | v in todo[k..] ensures v != newVid {
      var i :| 0 <= i < |todo[k..]| && todo[k..][i] == v;
      assert todo[k + i] == v && v in Elems(todo);
    }
  }

  // --- the order in which moved topics arrive ------------------------------------------------

  /** The topics that moved to the value w, that is those of the VIDs whose value became w, in the order of the VIDs. */
  function Moved(r: Topic -> Topic, c: Contents, lists: TopicLists, vids: seq<Vid>, w: Value): seq<Topic> {
    if vids == [] then []
    else
      var v := vids[|vids| - 1];
      Moved(r, c, lists, vids[..|vids| - 1], w)
      + if v in c && v in lists && Image(r, c[v]) == w then PushAll([], lists[v]) else []
  }

  /** v has the value w, and none of the VIDs vids is v. */
  predicate Stays(c: Contents, lists: TopicLists, vids: seq<Vid>, w: Value, v: Vid) {
    v in c && v in lists && c[v] == w && v !in vids
  }

  /** The list of the value w before, if there was one that is not to move. */
  ghost function Stayed(c: Contents, lists: TopicLists, vids: seq<Vid>, w: Value): seq<Topic> {
    if v :| Stays(c, lists, vids, w, v) then lists[v] else []
  }

  /** Values still to be processed have their lists; the others those who stayed, then those who moved there. */
  ghost predicate Rearranged(r: Topic -> Topic, c0: Contents, lists0: TopicLists, vids: seq<Vid>, k: nat, c: Contents,
                             lists: TopicLists)
  {
    k <= |vids| && forall v :: v in lists ==> ArrangedAt(r, c0, lists0, vids, k, c, lists, v)
  }

  ghost predicate ArrangedAt(r: Topic -> Topic, c0: Contents, lists0: TopicLists, vids: seq<Vid>, k: nat, c: Contents,
                             lists: TopicLists, v: Vid)
  {
    && k <= |vids| && v in lists && v in c
    && if v in vids[k..] then v in lists0 && lists[v] == lists0[v]
       else lists[v] == Stayed(c0, lists0, vids, c[v]) + Moved(r, c0, lists0, vids[..k], c[v])
  }

  lemma StayedIs(vt: ValueType, c: Contents, lists: TopicLists, vids: seq<Vid>, w: Value, v: Vid)
    requires ContentsOk(vt, c) && Stays(c, lists, vids, w, v)
    ensures Stayed(c, lists, vids, w) == lists[v]
  {
    forall u | Stays(c, lists, vids, w, u) ensures u == v { assert c[u] == c[v]; }
  }

  lemma RearrangedStart(r: Topic -> Topic, vt: ValueType, c: Contents, lists: TopicLists, t: TopicVids, vids: seq<Vid>)
    requires Coupled(vt, c, lists, t, {})
    ensures Rearranged(r, c, lists, vids, 0, c, lists)
  {
    assert lists.Keys + {} == c.Keys;
    assert vids[0..] == vids;
    forall v | v in lists ensures ArrangedAt(r, c, lists, vids, 0, c, lists, v) {
      if v !in vids { StayedIs(vt, c, lists, vids, c[v], v); }
    }
  }

  lemma MovedNext(r: Topic -> Topic, c: Contents, lists: TopicLists, vids: seq<Vid>, k: nat, w: Value)
    requires k < |vids|
    ensures Moved(r, c, lists, vids[..k + 1], w)
            == Moved(r, c, lists, vids[..k], w)
               + if vids[k] in c && vids[k] in lists
               && Image(r, c[vids[k]]) == w then PushAll([], lists[vids[k]]) else []
  {
    assert vids[..k + 1][..k] == vids[..k];
  }

  /** Whoever moved to w has the value w now. */
  lemma {:induction false} MovedHolder(r: Topic -> Topic, c: Contents, lists: TopicLists, vids: seq<Vid>, w: Value)
    returns (v: Vid)
    requires Moved(r, c, lists, vids, w) != []
    ensures v in vids && v in c && v in lists && Image(r, c[v]) == w
  {
    var last := vids[|vids| - 1];
    if last in c && last in lists && Image(r, c[last]) == w {
      v := last;
    } else {
      v := MovedHolder(r, c, lists, vids[..|vids| - 1], w);
    }
  }

  /** A value that is not live yet has nobody who stayed or moved there. */
  lemma NobodyThere(r: Topic -> Topic, vt: ValueType, c0: Contents, lists0: TopicLists, vids0: TopicVids,
                    vids: seq<Vid>, k: nat, c: Contents, vidsNow: TopicVids, w: Value)
    requires k <= |vids| && Coupled(vt, c0, lists0, vids0, {}) && forall v :: v in c ==> c[v] != w
    requires Underway(r, c0, vids0, c, vidsNow, Elems(vids[..k]), Elems(vids[k..]))
    ensures Stayed(c0, lists0, vids, w) == [] && Moved(r, c0, lists0, vids[..k], w) == []
  {
    CoupledInverse(vt, c0, lists0, vids0, {});
    hide Coupled, Image;
    if v :| Stays(c0, lists0, vids, w, v) {
      var t := HolderIn(lists0, vids0, v);
      assert false;
    }
    if Moved(r, c0, lists0, vids[..k], w) != [] {
      var v := MovedHolder(r, c0, lists0, vids[..k], w);
      var t := HolderIn(lists0, vids0, v);
      assert false;
    }
  }

  /** Processing vids[k]: its topics go to the end of the list of newVid, which has its image. */
  lemma RearrangedStep(r: Topic -> Topic, c0: Contents, lists0: TopicLists, vids: seq<Vid>, k: nat, c: Contents,
                       lists: TopicLists, c1: Contents, newVid: Vid, lists1: TopicLists)
    requires k < |vids| && Rearranged(r, c0, lists0, vids, k, c, lists)
    requires vids[k] in lists && vids[k] in c0 && newVid in c1 && newVid !in vids[k..]
    requires c1[newVid] == Image(r, c0[vids[k]]) && forall v :: v in c1 && v != newVid ==> c1[v] != c1[newVid]
    requires c1 == c || (newVid !in c && c1 == c[newVid := c1[newVid]])
    requires newVid !in lists ==>
               Stayed(c0, lists0, vids, c1[newVid]) == [] && Moved(r, c0, lists0, vids[..k], c1[newVid]) == []
    requires lists1 == AppendAll(lists - {vids[k]}, newVid, PushAll([], lists[vids[k]]))
    ensures Rearranged(r, c0, lists0, vids, k + 1, c1 - {vids[k]}, lists1)
  {
    hide ArrangedAt, AppendAll, PushAll, Image, Stayed, Moved;
    forall v | v in lists1 ensures ArrangedAt(r, c0, lists0, vids, k + 1, c1 - {vids[k]}, lists1, v) {
      hide *;
      if v == newVid {
        NewList(r, c0, lists0, vids, k, c, lists, c1, newVid, lists1);
      } else {
        OtherList(r, c0, lists0, vids, k, c, lists, c1, newVid, lists1, v);
      }
    }
  }

  lemma NewList(r: Topic -> Topic, c0: Contents, lists0: TopicLists, vids: seq<Vid>, k: nat, c: Contents,
                lists: TopicLists, c1: Contents, newVid: Vid, lists1: TopicLists)
    requires k < |vids| && vids[k] in lists && ArrangedAt(r, c0, lists0, vids, k, c, lists, vids[k])
    requires newVid in lists ==> ArrangedAt(r, c0, lists0, vids, k, c, lists, newVid)
    requires vids[k] in c0 && newVid in c1 && newVid !in vids[k..] && newVid in lists1
    requires c1[newVid] == Image(r, c0[vids[k]])
    requires c1 == c || (newVid !in c && c1 == c[newVid := c1[newVid]])
    requires newVid !in lists ==>
               Stayed(c0, lists0, vids, c1[newVid]) == [] && Moved(r, c0, lists0, vids[..k], c1[newVid]) == []
    requires lists1 == AppendAll(lists - {vids[k]}, newVid, PushAll([], lists[vids[k]]))
    ensures ArrangedAt(r, c0, lists0, vids, k + 1, c1 - {vids[k]}, lists1, newVid)
  {
    hide Stayed, Moved, PushAll, Image, AppendAll;
    assert vids[k] == vids[k..][0];
    assert vids[k + 1..] == vids[k..][1..];
    Arrived(r, c0, lists0, vids, k, lists, c1[newVid], newVid, lists1);
  }

  lemma OtherList(r: Topic -> Topic, c0: Contents, lists0: TopicLists, vids: seq<Vid>, k: nat, c: Contents,
                  lists: TopicLists, c1: Contents, newVid: Vid, lists1: TopicLists, v: Vid)
    requires k < |vids| && vids[k] in lists && vids[k] in c0 && v in lists1 && v != newVid
    requires v in lists ==> ArrangedAt(r, c0, lists0, vids, k, c, lists, v)
    requires newVid in c1 && c1[newVid] == Image(r, c0[vids[k]])
    requires forall w :: w in c1 && w != newVid ==> c1[w] != c1[newVid]
    requires c1 == c || (newVid !in c && c1 == c[newVid := c1[newVid]])
    requires lists1 == AppendAll(lists - {vids[k]}, newVid, PushAll([], lists[vids[k]]))
    ensures ArrangedAt(r, c0, lists0, vids, k + 1, c1 - {vids[k]}, lists1, v)
  {
    hide Stayed, Moved, PushAll, Image;
    assert v != vids[k] && v in lists && lists1[v] == lists[v] && c1[v] == c[v];
    assert vids[k..] == [vids[k]] + vids[k + 1..];
    MovedNext(r, c0, lists0, vids, k, c1[v]);
  }

  /** What the list of newVid has become. */
  lemma Arrived(r: Topic -> Topic, c0: Contents, lists0: TopicLists, vids: seq<Vid>, k: nat, lists: TopicLists,
                w: Value, newVid: Vid, lists1: TopicLists)
    requires k < |vids| && vids[k] in lists && vids[k] in lists0 && vids[k] in c0 && newVid != vids[k]
    requires lists[vids[k]] == lists0[vids[k]] && Image(r, c0[vids[k]]) == w && newVid in lists1
    requires if newVid in lists then lists[newVid] == Stayed(c0, lists0, vids, w) + Moved(r, c0, lists0, vids[..k], w)
             else Stayed(c0, lists0, vids, w) == [] && Moved(r, c0, lists0, vids[..k], w) == []
    requires lists1 == AppendAll(lists - {vids[k]}, newVid, PushAll([], lists[vids[k]]))
    ensures lists1[newVid] == Stayed(c0, lists0, vids, w) + Moved(r, c0, lists0, vids[..k + 1], w)
  {
    hide Stayed, Moved, PushAll, Image;
    MovedNext(r, c0, lists0, vids, k, w);
    var stayed, moved, more := Stayed(c0, lists0, vids, w), Moved(r, c0, lists0, vids[..k], w),
                               PushAll([], lists[vids[k]]);
    assert (stayed + moved) + more == stayed + (moved + more);
    assert lists1[newVid] == (if newVid in lists then lists[newVid] else []) + more;
  }

  lemma ArrivesAt(r: Topic -> Topic, vt: ValueType, c0: Contents, lists0: TopicLists, vids0: TopicVids, vids: seq<Vid>,
                  k: nat, c: Contents, lists: TopicLists, vidsNow: TopicVids, c1: Contents, newVid: Vid)
    requires Coupled(vt, c0, lists0, vids0, {}) && Coupled(vt, c, lists, vidsNow, {}) && ContentsOk(vt, c1)
    requires k <= |vids| && Underway(r, c0, vids0, c, vidsNow, Elems(vids[..k]), Elems(vids[k..]))
    requires newVid in c1 && (c1 == c || (newVid !in c && c1 == c[newVid := c1[newVid]]))
    ensures forall v :: v in c1 && v != newVid ==> c1[v] != c1[newVid]
    ensures newVid !in lists ==>
              Stayed(c0, lists0, vids, c1[newVid]) == [] && Moved(r, c0, lists0, vids[..k], c1[newVid]) == []
  {
    if newVid !in lists {
      assert newVid !in c by { assert lists.Keys + {} == c.Keys; }
      forall v | v in c ensures c[v] != c1[newVid] { assert c1[v] == c[v]; }
      NobodyThere(r, vt, c0, lists0, vids0, vids, k, c, vidsNow, c1[newVid]);
    }
  }

  lemma RearrangedAll(r: Topic -> Topic, c0: Contents, lists0: TopicLists, vids: seq<Vid>, c: Contents,
                      lists: TopicLists)
    requires Rearranged(r, c0, lists0, vids, |vids|, c, lists)
    ensures forall v :: v in lists ==>
              v in c && lists[v] == Stayed(c0, lists0, vids, c[v]) + Moved(r, c0, lists0, vids, c[v])
  {
    assert vids[..|vids|] == vids && vids[|vids|..] == [];
    assert forall v :: v in lists ==> ArrangedAt(r, c0, lists0, vids, |vids|, c, lists, v);
  }

  lemma HoldersWithin(vids: TopicVids, vs: set<Vid>)
    ensures Holders(vids, vs) <= vids.Keys
  {
  }

  lemma MovedAway(vids: TopicVids, ts: seq<Topic>)
    ensures Elems(ts) !! (vids - Elems(ts)).Keys
  {
  }

  lemma SetVidBack(vids: TopicVids, ts: set<Topic>, vid: Vid)
    requires ts <= vids.Keys
    ensures SetVid(vids - ts, ts, vid) == SetVid(vids, ts, vid)
  {
  }

  lemma SplitAt(vs: seq<Vid>, k: nat)
    requires k < |vs| && NoDup(vs)
    ensures Elems(vs[..k + 1]) == Elems(vs[..k]) + {vs[k]}
    ensures Elems(vs[k + 1..]) == Elems(vs[k..]) - {vs[k]}
    ensures vs[k] in Elems(vs[k..])
  {
    assert vs[..k + 1] == vs[..k] + [vs[k]];
    assert vs[k..] == [vs[k]] + vs[k + 1..];
    assert vs[k] !in vs[k + 1..];
  }

  // --- normalization (_mempropertystore_normalize) -----------------------------------------

  /** The lists with those of VIDs below n cut down to their first topic. */
  function KeptLists(lists: TopicLists, n: Vid): TopicLists {
    map v | v in lists :: if v < n && lists[v] != [] then [lists[v][0]] else lists[v]
  }

  /** after has the first topic of every list of before. */
  ghost predicate Firsts(before: TopicLists, after: TopicLists) {
    after.Keys == before.Keys && forall v :: v in before ==> before[v] != [] && after[v] == [before[v][0]]
  }

  lemma KeptFirsts(vt: ValueType, c: Contents, lists: TopicLists, vids: TopicVids, n: Vid)
    requires Coupled(vt, c, lists, vids, {}) && forall v :: v in c ==> v < n
    ensures Firsts(lists, KeptLists(lists, n))
  {
    forall v | v in lists ensures v < n && lists[v] != [] {
      assert v in lists.Keys + {};
    }
  }

  lemma SinglesFirsts(vt: ValueType, c: Contents, lists: TopicLists, vids: TopicVids)
    requires Coupled(vt, c, lists, vids, {}) && Singles(lists)
    ensures Firsts(lists, lists)
  {
    forall v | v in lists ensures lists[v] == [lists[v][0]] { }
  }

  function KeptVids(lists: TopicLists, vids: TopicVids, n: Vid): TopicVids {
    map t | t in vids
    && (vids[t] >= n || vids[t] !in lists || lists[vids[t]] == [] || lists[vids[t]][0] == t) :: vids[t]
  }

  /** The topic lists that normalization submits: those of the VIDs below n with several topics, in order. */
  function SharedLists(lists: TopicLists, n: Vid): seq<seq<Topic>> {
    if n == 0 then []
    else SharedLists(lists, n - 1) + if n - 1 in lists && |lists[n - 1]| > 1 then [lists[n - 1]] else []
  }

  /** A number above all VIDs that have a list. */
  ghost function Top(lists: TopicLists): (n: Vid)
    ensures forall v :: v in lists ==> v < n
    decreases lists.Keys
  {
    if lists == map[] then 0
    else
      var v :| v in lists;
      var n := Top(lists - {v});
      assert forall w :: w in lists && w != v ==> w in lists - {v};
      if v < n then n else v + 1
  }

  /** What normalization submits: nothing for other properties, the lists of several topics for identifying ones. */
  ghost function Submission(kind: Kind, lists: TopicLists): seq<seq<Topic>> {
    if kind.sidp then SharedLists(lists, Top(lists)) else []
  }

  lemma {:induction false} SharedAbove(lists: TopicLists, n: Vid, m: Vid)
    requires m <= n && forall v :: v in lists ==> v < m
    ensures SharedLists(lists, n) == SharedLists(lists, m)
    decreases n - m
  {
    if m < n { SharedAbove(lists, n - 1, m); }
  }

  lemma SharedAll(kind: Kind, lists: TopicLists, n: Vid)
    requires kind.sidp && forall v :: v in lists ==> v < n
    ensures SharedLists(lists, n) == Submission(kind, lists)
  {
    if n <= Top(lists) { SharedAbove(lists, Top(lists), n); } else { SharedAbove(lists, n, Top(lists)); }
  }

  /** Every list of several topics is submitted, as it is. */
  lemma {:induction false} SharedHas(lists: TopicLists, n: Vid, v: Vid)
    requires v in lists && v < n && |lists[v]| > 1
    ensures lists[v] in SharedLists(lists, n)
  {
    if v < n - 1 { SharedHas(lists, n - 1, v); }
  }

  lemma NoneSubmitted(kind: Kind, lists: TopicLists)
    requires kind.sidp ==> Singles(lists)
    ensures Submission(kind, lists) == []
  {
    if kind.sidp && Submission(kind, lists) != [] {
      var v := SharedFrom(lists, Top(lists), 0);
      assert false;
    }
  }

  lemma SharedStep(lists: TopicLists, n: Vid)
    ensures n in lists && |lists[n]| > 1 ==> SharedLists(lists, n + 1) == SharedLists(lists, n) + [lists[n]]
    ensures n !in lists || |lists[n]| <= 1 ==> SharedLists(lists, n + 1) == SharedLists(lists, n)
  {
  }

  lemma NoneShared(lists: TopicLists, vids: TopicVids, ml: seq<seq<Topic>>)
    requires 0 !in lists
    ensures FuseAll(ml, SharedLists(lists, 1)) == ml
  {
  }

  lemma {:induction false} SharedFrom(lists: TopicLists, n: Vid, k: nat) returns (v: Vid)
    requires k < |SharedLists(lists, n)|
    ensures v < n && v in lists && lists[v] == SharedLists(lists, n)[k] && |lists[v]| > 1
  {
    if k < |SharedLists(lists, n - 1)| {
      v := SharedFrom(lists, n - 1, k);
    } else {
      v := n - 1;
    }
  }

  /** They are disjoint, since no topic has two values. */
  lemma {:induction false} SharedPartition(lists: TopicLists, vids: TopicVids, n: Vid)
    requires Inverse(lists, vids)
    ensures Partition(SharedLists(lists, n))
  {
    if n > 0 {
      var before, all := SharedLists(lists, n - 1), SharedLists(lists, n);
      SharedPartition(lists, vids, n - 1);
      forall i, j | 0 <= i < j < |all| ensures DisjointSeqs(all[i], all[j]) {
        if j == |before| {
          var v := SharedFrom(lists, n - 1, i);
          assert all[i] == before[i] == lists[v] && all[j] == lists[n - 1];
          forall x | x in lists[v] ensures x !in lists[n - 1] { assert vids[x] == v; }
        }
      }
    }
  }

  /** f is constant on the lists of VIDs below n. */
  ghost predicate ConstantBelow(f: Labelling, lists: TopicLists, n: Vid) {
    forall v :: v in lists && v < n ==> ConstantOn(f, lists[v])
  }

  lemma KeptInverse(lists: TopicLists, vids: TopicVids, n: Vid)
    requires Inverse(lists, vids)
    ensures Inverse(KeptLists(lists, n), KeptVids(lists, vids, n))
    ensures KeptLists(lists, n).Keys == lists.Keys
  {
    var l, k := KeptLists(lists, n), KeptVids(lists, vids, n);
    forall v, t | v in l && t in l[v] ensures t in k && k[t] == v {
      assert t in lists[v];
    }
    forall t | t in k ensures k[t] in l && t in l[k[t]] {
      KeptListed(lists, vids, n, t);
    }
  }

  lemma KeptListed(lists: TopicLists, vids: TopicVids, n: Vid, t: Topic)
    requires Inverse(lists, vids) && t in KeptVids(lists, vids, n)
    ensures vids[t] in KeptLists(lists, n) && t in KeptLists(lists, n)[vids[t]]
  {
    assert t in lists[vids[t]];
  }

  lemma KeptStart(lists: TopicLists, vids: TopicVids)
    requires Inverse(lists, vids) && 0 !in lists
    ensures KeptLists(lists, 1) == lists && KeptVids(lists, vids, 1) == vids
  {
  }

  /** Nothing is cut where the list has one topic, or there is none. */
  lemma KeptSkip(lists: TopicLists, vids: TopicVids, n: Vid)
    requires Inverse(lists, vids) && (n in lists ==> |lists[n]| == 1)
    ensures KeptLists(lists, n + 1) == KeptLists(lists, n) && KeptVids(lists, vids, n + 1) == KeptVids(lists, vids, n)
    ensures forall f: Labelling :: ConstantBelow(f, lists, n + 1) <==> ConstantBelow(f, lists, n)
  {
    KeptSkipLists(lists, vids, n);
    hide Inverse, KeptLists, KeptVids;
    forall f: Labelling ensures ConstantBelow(f, lists, n + 1) <==> ConstantBelow(f, lists, n) {
      if n in lists { assert ConstantOn(f, lists[n]); }
    }
  }

  lemma KeptSkipLists(lists: TopicLists, vids: TopicVids, n: Vid)
    requires Inverse(lists, vids) && (n in lists ==> |lists[n]| == 1)
    ensures KeptLists(lists, n + 1) == KeptLists(lists, n) && KeptVids(lists, vids, n + 1) == KeptVids(lists, vids, n)
  {
    if n in lists { assert lists[n] == [lists[n][0]]; }
    assert KeptLists(lists, n + 1) == KeptLists(lists, n);
    forall t | t in vids && vids[t] == n ensures lists[n][0] == t { assert t in lists[n]; }
  }

  lemma KeptCut(lists: TopicLists, vids: TopicVids, n: Vid)
    requires Inverse(lists, vids) && n in lists
    ensures KeptLists(lists, n)[n] == lists[n]
    ensures KeptLists(lists, n + 1) == KeptLists(lists, n)[n := [lists[n][0]]]
    ensures KeptVids(lists, vids, n + 1) == KeptVids(lists, vids, n) - Elems(lists[n][1..])
    ensures forall f: Labelling ::
              ConstantBelow(f, lists, n + 1) <==> ConstantBelow(f, lists, n) && ConstantOn(f, lists[n])
  {
    VidsCut(lists, vids, n);
    hide Inverse, KeptVids, ConstantOn;
  }

  lemma VidsCut(lists: TopicLists, vids: TopicVids, n: Vid)
    requires Inverse(lists, vids) && n in lists
    ensures lists[n] != []
    ensures KeptVids(lists, vids, n + 1) == KeptVids(lists, vids, n) - Elems(lists[n][1..])
  {
    var a := lists[n];
    assert a == [a[0]] + a[1..];
    assert a[0] !in a[1..];
    forall t | t in vids ensures vids[t] == n && t != a[0] <==> t in a[1..] {
      if t in a[1..] { assert t in a; }
    }
  }

  /** After the last VID every list is a single topic, and one topic is kept for each value. */
  lemma KeptAll(kind: Kind, c: Contents, lists: TopicLists, vids: TopicVids, n: Vid)
    requires Coupled(kind.valueType, c, lists, vids, {}) && forall v :: v in c ==> v < n
    ensures Coupled(kind.valueType, c, KeptLists(lists, n), KeptVids(lists, vids, n), {})
    ensures Singles(KeptLists(lists, n))
    ensures OneEach(FactsOf(c, vids), FactsOf(c, KeptVids(lists, vids, n)))
  {
    hide ContentsOk, Inverse;
    KeptInverse(lists, vids, n);
    CoupledInverse(kind.valueType, c, lists, vids, {});
    ListsBelow(kind.valueType, c, lists, vids, n);
    KeptSingles(lists, vids, n);
    KeptOneEach(kind, c, lists, vids, n);
  }

  lemma KeptSingles(lists: TopicLists, vids: TopicVids, n: Vid)
    requires Inverse(lists, vids) && forall v :: v in lists ==> v < n
    ensures Singles(KeptLists(lists, n))
  {
  }

  lemma KeptOneEach(kind: Kind, c: Contents, lists: TopicLists, vids: TopicVids, n: Vid)
    requires Coupled(kind.valueType, c, lists, vids, {}) && forall v :: v in c ==> v < n
    requires Coupled(kind.valueType, c, KeptLists(lists, n), KeptVids(lists, vids, n), {})
    ensures OneEach(FactsOf(c, vids), FactsOf(c, KeptVids(lists, vids, n)))
  {
    hide FactsOf, ContentsOk, Coupled;
    var k := KeptVids(lists, vids, n);
    VidsAreValues(kind.valueType, c, KeptLists(lists, n), k);
    FactsKeys(kind.valueType, c, KeptLists(lists, n), k);
    FactsKeys(kind.valueType, c, lists, vids);
    CoupledInverse(kind.valueType, c, lists, vids, {});
    ListsBelow(kind.valueType, c, lists, vids, n);
    FirstsKept(c, lists, vids, n, FactsOf(c, vids), FactsOf(c, k));
  }

  lemma FirstsKept(c: Contents, lists: TopicLists, vids: TopicVids, n: Vid, m: Facts, kept: Facts)
    requires Inverse(lists, vids) && forall v :: v in lists ==> v < n
    requires m.Keys == vids.Keys && kept.Keys == KeptVids(lists, vids, n).Keys
    requires forall t :: t in vids ==> vids[t] in c && m[t] == c[vids[t]]
    requires forall t :: t in kept ==> kept[t] == m[t]
    requires forall t, u :: t in kept && u in kept ==> (kept[t] == kept[u] <==> vids[t] == vids[u])
    ensures OneEach(m, kept)
  {
    forall t | t in m ensures HasValue(kept, m[t]) {
      var u := lists[vids[t]][0];
      assert u in lists[vids[t]];
      assert u in kept && kept[u] == m[t];
    }
  }

  /** At the level of facts, topics with one VID are topics with one value. */
  lemma VidsAreValues(vt: ValueType, c: Contents, lists: TopicLists, vids: TopicVids)
    requires Coupled(vt, c, lists, vids, {})
    ensures FactsOf(c, vids).Keys == vids.Keys
    ensures forall t, u :: t in vids && u in vids ==>
              (FactsOf(c, vids)[t] == FactsOf(c, vids)[u] <==> vids[t] == vids[u])
  {
    hide FactsOf, ContentsOk, Coupled, Inverse;
    FactsKeys(vt, c, lists, vids);
    CoupledContents(vt, c, lists, vids, {});
    forall t, u | t in vids && u in vids ensures FactsOf(c, vids)[t] == FactsOf(c, vids)[u] <==> vids[t] == vids[u] {
      SameValueSameVid(vt, c, vids, t, u);
    }
  }

  /** Sharing a list is sharing a value. */
  lemma ListsAreValues(kind: Kind, c: Contents, lists: TopicLists, vids: TopicVids, n: Vid, f: Labelling)
    requires Coupled(kind.valueType, c, lists, vids, {}) && forall v :: v in c ==> v < n
    ensures ConstantBelow(f, lists, n) <==> RespectsValues(f, FactsOf(c, vids))
  {
    hide FactsOf, ContentsOk, Coupled;
    VidsAreValues(kind.valueType, c, lists, vids);
    CoupledInverse(kind.valueType, c, lists, vids, {});
    ListsBelow(kind.valueType, c, lists, vids, n);
    ListsRespect(lists, vids, n, f, FactsOf(c, vids));
  }

  lemma ListsAllValues(kind: Kind, c: Contents, lists: TopicLists, vids: TopicVids, n: Vid)
    requires Coupled(kind.valueType, c, lists, vids, {}) && forall v :: v in c ==> v < n
    ensures forall f: Labelling :: ConstantBelow(f, lists, n) <==> RespectsValues(f, FactsOf(c, vids))
  {
    hide *;
    forall f: Labelling ensures ConstantBelow(f, lists, n) <==> RespectsValues(f, FactsOf(c, vids)) {
      ListsAreValues(kind, c, lists, vids, n, f);
    }
  }

  lemma ListsBelow(vt: ValueType, c: Contents, lists: TopicLists, vids: TopicVids, n: Vid)
    requires Coupled(vt, c, lists, vids, {}) && forall v :: v in c ==> v < n
    ensures forall v :: v in lists ==> v < n
  {
    hide ContentsOk, Inverse;
    assert lists.Keys <= c.Keys;
  }

  lemma ListsRespect(lists: TopicLists, vids: TopicVids, n: Vid, f: Labelling, m: Facts)
    requires Inverse(lists, vids) && m.Keys == vids.Keys && forall v :: v in lists ==> v < n
    requires forall t, u :: t in vids && u in vids ==> (m[t] == m[u] <==> vids[t] == vids[u])
    ensures ConstantBelow(f, lists, n) <==> RespectsValues(f, m)
  {
    if ConstantBelow(f, lists, n) {
      forall t, u | t in m && u in m && m[t] == m[u] ensures f(t) == f(u) {
        assert vids[t] == vids[u];
        assert ConstantOn(f, lists[vids[t]]);
      }
    }
  }

  /** A store with one topic per value already is normalized: nothing to merge, nothing to cut. */
  lemma SinglesAreNormal(kind: Kind, c: Contents, lists: TopicLists, vids: TopicVids)
    requires Coupled(kind.valueType, c, lists, vids, {}) && Singles(lists)
    ensures OneEach(FactsOf(c, vids), FactsOf(c, vids))
    ensures forall f: Labelling :: RespectsValues(f, FactsOf(c, vids))
  {
    hide FactsOf, ContentsOk, Coupled;
    VidsAreValues(kind.valueType, c, lists, vids);
    CoupledInverse(kind.valueType, c, lists, vids, {});
    SinglesInjective(lists, vids, FactsOf(c, vids));
  }

  lemma SinglesInjective(lists: TopicLists, vids: TopicVids, m: Facts)
    requires Inverse(lists, vids) && Singles(lists) && m.Keys == vids.Keys
    requires forall t, u :: t in vids && u in vids ==> (m[t] == m[u] <==> vids[t] == vids[u])
    ensures OneEach(m, m) && forall f: Labelling :: RespectsValues(f, m)
  {
    forall t, u | t in m && u in m && m[t] == m[u] ensures t == u {
      assert t in lists[vids[t]] && u in lists[vids[t]];
    }
  }

  lemma CoupledInverse(vt: ValueType, c: Contents, lists: TopicLists, vids: TopicVids, extra: set<Vid>)
    requires Coupled(vt, c, lists, vids, extra)
    ensures Inverse(lists, vids) && 0 !in lists
  {
    assert lists.Keys <= c.Keys;
  }

  lemma BelowOne(lists: TopicLists)
    requires 0 !in lists
    ensures forall f: Labelling :: ConstantBelow(f, lists, 1)
  {
  }

  lemma ListFacts(lists: TopicLists, vids: TopicVids, vid: Vid)
    requires Inverse(lists, vids) && vid in lists
    ensures NoDup(lists[vid]) && |lists[vid]| > 0 && Elems(lists[vid]) <= vids.Keys
  {
  }
}
