/**
 * Which topic of a merge set stays (src/topicmap.c:567, 688, 530): the first one, and which
 * one that is, given the order in which the property stores list their topics.
 */
module Survivors {
  import opened Basics
  import opened MergeSets
  import opened Facts
  import opened Rounds
  import opened Tables

  /** What the stores submit, property by property, the one loaded last first, down to property i. */
  ghost function Submissions(kinds: seq<Kind>, orders: seq<TopicLists>, i: nat): seq<seq<Topic>>
    decreases |kinds| - i
  {
    if i >= |kinds| || i >= |orders| then [] else Submissions(kinds, orders, i + 1) + Submission(kinds[i], orders[i])
  }

  /** The merge sets of a pass that finds the topic lists orders. */
  ghost function PassSets(kinds: seq<Kind>, orders: seq<TopicLists>): seq<seq<Topic>> {
    FuseAll([], Submissions(kinds, orders, 0))
  }

  // --- topic lists and facts -------------------------------------------------------------

  /** Each list has the topics of one value, and every topic is in one list. */
  ghost predicate GroupedBy(lists: TopicLists, m: Facts) {
    && (forall v :: v in lists ==> lists[v] != [] && NoDup(lists[v]))
    && (forall v, t :: v in lists && t in lists[v] ==> t in m)
    && (forall t :: t in m ==> Listed(lists, t))
    && (forall v, w, t :: v in lists && w in lists && t in lists[v] && t in lists[w] ==> v == w)
    && (forall v, t, u :: v in lists && t in lists[v] && u in m ==> (u in lists[v] <==> m[u] == m[t]))
  }

  ghost predicate Listed(lists: TopicLists, t: Topic) {
    exists v :: v in lists && t in lists[v]
  }

  ghost predicate Grouped(orders: seq<TopicLists>, s: State) {
    |orders| == |s| && forall i :: 0 <= i < |s| ==> GroupedBy(orders[i], s[i])
  }

  lemma CoupledGrouped(vt: ValueType, c: Contents, lists: TopicLists, vids: TopicVids)
    requires Coupled(vt, c, lists, vids, {})
    ensures GroupedBy(lists, FactsOf(c, vids))
  {
    VidsAreValues(vt, c, lists, vids);
    CoupledInverse(vt, c, lists, vids, {});
    hide FactsOf, Coupled;
    InverseGrouped(lists, vids, FactsOf(c, vids));
  }

  lemma InverseGrouped(lists: TopicLists, vids: TopicVids, m: Facts)
    requires Inverse(lists, vids) && m.Keys == vids.Keys
    requires forall t, u :: t in vids && u in vids ==> (m[t] == m[u] <==> vids[t] == vids[u])
    ensures GroupedBy(lists, m)
  {
    forall t | t in m ensures Listed(lists, t) { assert t in lists[vids[t]]; }
    forall v, w, t | v in lists && w in lists && t in lists[v] && t in lists[w] ensures v == w {
      assert vids[t] == v;
    }
    forall v, t, u | v in lists && t in lists[v] && u in m ensures u in lists[v] <==> m[u] == m[t] {
      assert vids[t] == v && u in lists[vids[u]];
    }
  }

  /** The merge sets of pass k are those that the topic lists in orders[k], which it finds, lead to. */
  ghost predicate Passes(kinds: seq<Kind>, s: State, run: seq<Round>, orders: seq<seq<TopicLists>>)
    decreases |run|
  {
    && |orders| == |run| + 1 && |orders[0]| == |kinds| && Grouped(orders[0], s)
    && (run == [] || (run[0].sets == PassSets(kinds, orders[0]) && Passes(kinds, run[0].after, run[1..], orders[1..])))
  }

  lemma {:induction false} PassesAppend(kinds: seq<Kind>, s: State, run: seq<Round>, orders: seq<seq<TopicLists>>,
                                        r: Round, lists: seq<TopicLists>)
    requires Passes(kinds, s, run, orders) && |orders[|run|]| == |kinds| == |lists|
    requires r.sets == PassSets(kinds, orders[|run|]) && Grouped(lists, r.after)
    ensures Passes(kinds, s, run + [r], orders + [lists])
    decreases |run|
  {
    hide PassSets, Grouped;
    var longer, more := run + [r], orders + [lists];
    assert longer[0] == (run + [r])[0] && more[0] == orders[0];
    if run == [] {
      assert longer[1..] == [] && more[1..] == [lists];
      assert Passes(kinds, r.after, [], [lists]);
    } else {
      PassesAppend(kinds, run[0].after, run[1..], orders[1..], r, lists);
      assert longer[1..] == run[1..] + [r] && more[1..] == orders[1..] + [lists];
    }
  }

  lemma {:induction false} PassesSizes(kinds: seq<Kind>, s: State, run: seq<Round>, orders: seq<seq<TopicLists>>)
    requires Passes(kinds, s, run, orders)
    ensures |orders| == |run| + 1 && |s| == |kinds| && forall k :: 0 <= k <= |run| ==> |orders[k]| == |kinds|
    decreases |run|
  {
    if run != [] {
      PassesSizes(kinds, run[0].after, run[1..], orders[1..]);
      assert forall k :: 1 <= k <= |run| ==> orders[k] == orders[1..][k - 1];
    }
  }

  /** Every pass builds a merge set. */
  ghost predicate Busy(run: seq<Round>) {
    forall k :: 0 <= k < |run| ==> run[k].sets != []
  }

  ghost predicate BusyButLast(run: seq<Round>) {
    forall k :: 0 <= k < |run| - 1 ==> run[k].sets != []
  }

  lemma BusyMore(run: seq<Round>, r: Round)
    requires Busy(run)
    ensures BusyButLast(run + [r]) && (r.sets != [] ==> Busy(run + [r]))
  {
  }

  // --- which topic stays -------------------------------------------------------------------

  ghost function VidIn(lists: TopicLists, t: Topic): (v: Vid)
    requires Listed(lists, t)
    ensures v in lists && t in lists[v]
  {
    var v :| v in lists && t in lists[v];
    v
  }

  lemma GroupedInverse(lists: TopicLists, m: Facts) returns (vids: TopicVids)
    requires GroupedBy(lists, m)
    ensures Inverse(lists, vids) && vids.Keys == m.Keys
  {
    vids := map t | t in m && Listed(lists, t) :: VidIn(lists, t);
    assert forall t :: t in vids <==> t in m;
  }

  lemma SubmissionPartition(kind: Kind, lists: TopicLists, m: Facts)
    requires GroupedBy(lists, m)
    ensures Partition(Submission(kind, lists))
  {
    var vids := GroupedInverse(lists, m);
    if kind.sidp { SharedPartition(lists, vids, Top(lists)); }
  }

  /** What is submitted in a pass are arrays without repetitions and with two topics at least. */
  lemma {:induction false} SubmissionsClean(kinds: seq<Kind>, orders: seq<TopicLists>, s: State, i: nat)
    requires Grouped(orders, s)
    ensures Clean(Submissions(kinds, orders, i))
    decreases |kinds| - i
  {
    if i < |kinds| && i < |orders| {
      SubmissionsClean(kinds, orders, s, i + 1);
      SubmissionPartition(kinds[i], orders[i], s[i]);
      CleanMore(Submissions(kinds, orders, i + 1), Submission(kinds[i], orders[i]));
    }
  }

  lemma CleanSubmittable(arrs: seq<seq<Topic>>)
    requires Clean(arrs)
    ensures Submittable(arrs)
  {
    forall i | 0 <= i < |arrs| ensures |AddTopics([], arrs[i])| >= 2 { SetOf(arrs[i]); }
  }

  /** So the merge sets of a pass are disjoint, and the first topic of each stands for all of it. */
  lemma PassPartition(kinds: seq<Kind>, orders: seq<TopicLists>, s: State)
    requires Grouped(orders, s)
    ensures Partition(PassSets(kinds, orders)) && NonEmpty(PassSets(kinds, orders))
    ensures forall k, t :: 0 <= k < |PassSets(kinds, orders)| && t in PassSets(kinds, orders)[k] ==>
              Rep(PassSets(kinds, orders), t) == PassSets(kinds, orders)[k][0]
  {
    SubmissionsClean(kinds, orders, s, 0);
    CleanSubmittable(Submissions(kinds, orders, 0));
    FuseAllMeans([], Submissions(kinds, orders, 0));
    var sets := PassSets(kinds, orders);
    forall k, t | 0 <= k < |sets| && t in sets[k] ensures Rep(sets, t) == sets[k][0] { RepInside(sets, k, t); }
  }

  lemma {:induction false} FusionApart(kept: seq<seq<Topic>>, rest: seq<seq<Topic>>, fused: seq<Topic>)
    requires forall i :: 0 <= i < |rest| ==> DisjointSeqs(rest[i], fused)
    ensures Fusion(kept, rest, fused) == [fused] + (kept + rest)
    decreases |rest|
  {
    if rest == [] {
      assert kept + rest == kept;
    } else {
      MeetsElems(rest[0], fused);
      FusionApart(kept + [rest[0]], rest[1..], fused);
      assert (kept + [rest[0]]) + rest[1..] == kept + rest;
    }
  }

  /** Disjoint arrays become sets as they are. */
  lemma {:induction false} ApartStay(lists: seq<seq<Topic>>, arrs: seq<seq<Topic>>)
    requires Partition(arrs)
    requires forall i, k :: 0 <= i < |lists| && 0 <= k < |arrs| ==> DisjointSeqs(lists[i], arrs[k])
    ensures forall x :: x in FuseAll(lists, arrs) <==> x in lists || x in arrs
    decreases |arrs|
  {
    if arrs != [] {
      var arr, more := arrs[0], arrs[1..];
      SetOf(arr);
      FusionApart([], lists, arr);
      var next := [arr] + lists;
      assert [] + lists == lists;
      forall i, k | 0 <= i < |next| && 0 <= k < |more| ensures DisjointSeqs(next[i], more[k]) {
        assert more[k] == arrs[k + 1];
        if i > 0 { assert next[i] == lists[i - 1]; }
      }
      hide DisjointSeqs, AddTopics;
      PartitionTail(arrs);
      ApartStay(next, more);
      assert arrs == [arr] + more;
    }
  }

  lemma {:induction false} OnlyOneSubmits(kinds: seq<Kind>, orders: seq<TopicLists>, i: nat, k: nat)
    requires |kinds| == |orders| && k <= |kinds| && i < |kinds|
    requires forall j :: 0 <= j < |kinds| && kinds[j].sidp ==> j == i
    ensures Submissions(kinds, orders, k) == if k <= i then Submission(kinds[i], orders[i]) else []
    decreases |kinds| - k
  {
    if k < |kinds| { OnlyOneSubmits(kinds, orders, i, k + 1); }
  }

  /**
   * Where one property identifies subjects, a pass replaces every topic by the one that
   * was put first among those with its value, as the stores list them.
   */
  lemma FirstStays(kinds: seq<Kind>, orders: seq<TopicLists>, s: State, i: nat, v: Vid, t: Topic)
    requires |kinds| == |s| && Grouped(orders, s) && i < |kinds| && kinds[i].sidp
    requires forall j :: 0 <= j < |kinds| && kinds[j].sidp ==> j == i
    requires v in orders[i] && t in orders[i][v]
    ensures NonEmpty(PassSets(kinds, orders)) && orders[i][v] != []
    ensures Rep(PassSets(kinds, orders), t) == orders[i][v][0]
  {
    var sets, arrs, lists := PassSets(kinds, orders), Submission(kinds[i], orders[i]), orders[i];
    assert GroupedBy(lists, s[i]);
    OnlyOneSubmits(kinds, orders, i, 0);
    PassPartition(kinds, orders, s);
    SubmissionPartition(kinds[i], lists, s[i]);
    ApartStay([], arrs);
    hide FuseAll, Partition;
    if |lists[v]| > 1 {
      SharedHas(lists, Top(lists), v);
      var k :| 0 <= k < |sets| && sets[k] == lists[v];
    } else {
      assert lists[v] == [t];
      if t in AllTopics(sets) {
        var k :| 0 <= k < |sets| && t in sets[k];
        assert sets[k] in arrs;
        var n :| 0 <= n < |arrs| && arrs[n] == sets[k];
        var w := SharedFrom(lists, Top(lists), n);
        assert false;
      }
      RepOutside(sets, t);
    }
  }

  /** A topic without a value of that property stays. */
  lemma OthersStay(kinds: seq<Kind>, orders: seq<TopicLists>, s: State, i: nat, t: Topic)
    requires |kinds| == |s| && Grouped(orders, s) && i < |kinds| && kinds[i].sidp
    requires forall j :: 0 <= j < |kinds| && kinds[j].sidp ==> j == i
    requires t !in s[i]
    ensures NonEmpty(PassSets(kinds, orders)) && Rep(PassSets(kinds, orders), t) == t
  {
    var sets, arrs, lists := PassSets(kinds, orders), Submission(kinds[i], orders[i]), orders[i];
    assert GroupedBy(lists, s[i]);
    OnlyOneSubmits(kinds, orders, i, 0);
    PassPartition(kinds, orders, s);
    SubmissionPartition(kinds[i], lists, s[i]);
    ApartStay([], arrs);
    hide FuseAll, Partition;
    if t in AllTopics(sets) {
      var k :| 0 <= k < |sets| && t in sets[k];
      assert sets[k] in arrs;
      var n :| 0 <= n < |arrs| && arrs[n] == sets[k];
      var w := SharedFrom(lists, Top(lists), n);
      assert false;
    }
    RepOutside(sets, t);
  }

  // --- the order of submission -----------------------------------------------------------------

  /** A store submits its lists by increasing VID. */
  lemma {:induction false} SubmittedInOrder(lists: TopicLists, n: Vid, i: nat, j: nat) returns (v: Vid, w: Vid)
    requires i < j < |SharedLists(lists, n)|
    ensures v < w < n && v in lists && w in lists
    ensures lists[v] == SharedLists(lists, n)[i] && lists[w] == SharedLists(lists, n)[j]
  {
    if j < |SharedLists(lists, n - 1)| {
      v, w := SubmittedInOrder(lists, n - 1, i, j);
    } else {
      v := SharedFrom(lists, n - 1, i);
      w := n - 1;
    }
  }

  lemma OneShared(kind: Kind, t: Topic, u: Topic)
    requires kind.sidp
    ensures Submission(kind, map[1 := [t, u]]) == [[t, u]]
  {
    var lists: TopicLists := map[1 := [t, u]];
    SharedAll(kind, lists, 2);
    SharedStep(lists, 1);
    SharedStep(lists, 0);
    assert SharedLists(lists, 0) == [];
  }

  /**
   * Two properties: 1 and 2 share a value of the one loaded first, 2 and 3 of the other. That
   * submits first, the array [1, 2] meets its set, and 2 is the topic that stays.
   */
  lemma SubmissionExample(kind: Kind, kind': Kind)
    requires kind.sidp && kind'.sidp
    ensures PassSets([kind, kind'], [map[1 := [1, 2]], map[1 := [2, 3]]]) == [[2, 3, 1]]
  {
    var kinds, orders := [kind, kind'], [map[1 := [1, 2]], map[1 := [2, 3]]];
    var one: seq<Topic>, two: seq<Topic> := [1, 2], [2, 3];
    OneShared(kind, 1, 2);
    OneShared(kind', 2, 3);
    assert Submissions(kinds, orders, 0) == [two, one] by { BothSubmitted(kinds, orders, one, two); }
    hide *;
    FusedTwice(one, two);
    PassIs(kinds, orders, [two, one]);
  }

  lemma PassIs(kinds: seq<Kind>, orders: seq<TopicLists>, arrs: seq<seq<Topic>>)
    requires Submissions(kinds, orders, 0) == arrs
    ensures PassSets(kinds, orders) == FuseAll([], arrs)
  {
  }

  lemma BothSubmitted(kinds: seq<Kind>, orders: seq<TopicLists>, one: seq<Topic>, two: seq<Topic>)
    requires |kinds| == |orders| == 2
    requires Submission(kinds[0], orders[0]) == [one] && Submission(kinds[1], orders[1]) == [two]
    ensures Submissions(kinds, orders, 0) == [two, one]
  {
    assert Submissions(kinds, orders, 2) == [];
    assert Submissions(kinds, orders, 1) == [two];
  }

  lemma FusedTwice(one: seq<Topic>, two: seq<Topic>)
    requires one == [1, 2] && two == [2, 3]
    ensures FuseAll([], [two, one]) == [[2, 3, 1]]
  {
    SetOf(one);
    SetOf(two);
    Joined(one, two);
    hide AddTopics, Fusion;
    assert Fusion([], [], two) == [two] by { FirstSet(two); }
    assert [two, one][1..] == [one] && [one][1..] == [];
    assert FuseAll([], [two, one]) == FuseAll([two], [one]);
    assert FuseAll([two], [one]) == FuseAll([[2, 3, 1]], []);
  }

  lemma FirstSet(arr: seq<Topic>)
    ensures Fusion([], [], arr) == [arr]
  {
    assert [arr] + [] == [arr];
  }

  lemma Joined(one: seq<Topic>, two: seq<Topic>)
    requires one == [1, 2] && two == [2, 3]
    ensures Fusion([], [two], one) == [[2, 3, 1]]
  {
    assert 2 in Elems(two) * Elems(one);
    assert one[1..] == [2] && one[1..][1..] == [] && [two][1..] == [];
    assert AddTopics(two, one) == AddTopics([2, 3, 1], [2]);
    assert AddTopics([2, 3, 1], [2]) == [2, 3, 1];
    hide AddTopics, Elems;
    FirstSet([2, 3, 1]);
  }
}
