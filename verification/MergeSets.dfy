/**
 * The list of merge sets that store normalization builds up
 * (tm_topicmap_add_mergelist), with the three repairs README.md records.
 */
module MergeSets {
  import opened Basics
  import opened TopicSets

  /** f identifies all topics inside each set. */
  ghost predicate Constant(f: Labelling, lists: seq<seq<Topic>>) {
    forall i :: 0 <= i < |lists| ==> ConstantOn(f, lists[i])
  }

  /** Merge sets are duplicate-free, have a topic that stays and one that disappears, and are pairwise disjoint. */
  ghost predicate Partition(lists: seq<seq<Topic>>) {
    && (forall i :: 0 <= i < |lists| ==> NoDup(lists[i]) && |lists[i]| >= 2)
    && (forall i, j :: 0 <= i < j < |lists| ==> DisjointSeqs(lists[i], lists[j]))
  }

  function AllTopics(lists: seq<seq<Topic>>): set<Topic> {
    set i, x | 0 <= i < |lists| && x in lists[i] :: x
  }

  lemma AllTopicsTail(lists: seq<seq<Topic>>)
    requires lists != []
    ensures AllTopics(lists) == Elems(lists[0]) + AllTopics(lists[1..])
  {
    assert forall i :: 0 <= i < |lists| - 1 ==> lists[1..][i] == lists[i + 1];
    forall x | x in AllTopics(lists) ensures x in Elems(lists[0]) + AllTopics(lists[1..]) {
      var i :| 0 <= i < |lists| && x in lists[i];
      if i > 0 { assert x in lists[1..][i - 1]; }
    }
  }

  lemma ConstantPush(f: Labelling, s: seq<Topic>, lists: seq<seq<Topic>>)
    ensures Constant(f, [s] + lists) <==> ConstantOn(f, s) && Constant(f, lists)
  {
    var l := [s] + lists;
    assert l[0] == s;
    assert forall i :: 0 <= i < |lists| ==> lists[i] == l[i + 1];
  }

  lemma ConstantOnUnion(f: Labelling, s: seq<Topic>, t: seq<Topic>)
    requires !DisjointSeqs(s, t)
    ensures ConstantOn(f, AddTopics(s, t)) <==> ConstantOn(f, s) && ConstantOn(f, t)
  {
    var u := AddTopics(s, t);
    assert forall x :: x in u <==> x in Elems(u);
    assert forall x :: x in s <==> x in Elems(s);
    assert forall x :: x in t <==> x in Elems(t);
    var c :| c in s && c in t;
    if ConstantOn(f, s) && ConstantOn(f, t) {
      assert forall x :: x in u ==> f(x) == f(c);
    }
  }

  lemma AllTopicsPush(s: seq<Topic>, lists: seq<seq<Topic>>)
    ensures AllTopics([s] + lists) == Elems(s) + AllTopics(lists)
  {
    assert ([s] + lists)[1..] == lists;
    AllTopicsTail([s] + lists);
  }

  lemma PushPartition(s: seq<Topic>, lists: seq<seq<Topic>>)
    requires Partition(lists) && NoDup(s) && |s| >= 2
    requires forall k :: 0 <= k < |lists| ==> DisjointSeqs(lists[k], s)
    ensures Partition([s] + lists)
  {
    hide NoDup, DisjointSeqs;
    var l := [s] + lists;
    forall i | 0 <= i < |l| ensures NoDup(l[i]) && |l[i]| >= 2 {
      if i > 0 { assert l[i] == lists[i - 1]; }
    }
    forall i, j | 0 <= i < j < |l| ensures DisjointSeqs(l[i], l[j]) {
      assert l[j] == lists[j - 1];
      if i > 0 { assert l[i] == lists[i - 1]; } else { ApartBothWays(lists[j - 1], s); }
    }
  }

  lemma ApartBothWays(s: seq<Topic>, t: seq<Topic>)
    requires DisjointSeqs(s, t)
    ensures DisjointSeqs(t, s)
  {
  }

  // --- fusing one array in ------------------------------------------------------------

  /**
   * The lists that result: kept are those passed by, rest those still to come. A list that
   * meets the new set takes its elements in and becomes the set; the result goes in front.
   */
  function Fusion(kept: seq<seq<Topic>>, rest: seq<seq<Topic>>, fused: seq<Topic>): seq<seq<Topic>>
    decreases |rest|
  {
    if rest == [] then [fused] + kept
    else if Elems(rest[0]) * Elems(fused) == {} then Fusion(kept + [rest[0]], rest[1..], fused)
    else Fusion(kept, rest[1..], AddTopics(rest[0], fused))
  }

  lemma MeetsElems(s: seq<Topic>, t: seq<Topic>)
    ensures Elems(s) * Elems(t) == {} <==> DisjointSeqs(s, t)
  {
    if x :| x in s && x in t { assert x in Elems(s) * Elems(t); }
  }

  /** Taking one list off the rest, for a labelling and for the topics. */
  lemma MoveOn(f: Labelling, kept: seq<seq<Topic>>, rest: seq<seq<Topic>>)
    requires rest != []
    ensures Constant(f, rest) <==> ConstantOn(f, rest[0]) && Constant(f, rest[1..])
    ensures Constant(f, kept + [rest[0]]) <==> Constant(f, kept) && ConstantOn(f, rest[0])
  {
    assert [rest[0]] + rest[1..] == rest;
    ConstantPush(f, rest[0], rest[1..]);
    var k := kept + [rest[0]];
    assert forall i :: 0 <= i < |kept| ==> k[i] == kept[i];
    assert k[|kept|] == rest[0];
  }

  /** A labelling is constant on the result exactly when it is constant on all that went in. */
  lemma {:induction false} FusionConstant(f: Labelling, kept: seq<seq<Topic>>, rest: seq<seq<Topic>>, fused: seq<Topic>)
    ensures Constant(f, Fusion(kept, rest, fused)) <==> Constant(f, kept) && Constant(f, rest) && ConstantOn(f, fused)
    decreases |rest|
  {
    if rest == [] {
      ConstantPush(f, fused, kept);
    } else {
      MoveOn(f, kept, rest);
      MeetsElems(rest[0], fused);
      if DisjointSeqs(rest[0], fused) {
        FusionConstant(f, kept + [rest[0]], rest[1..], fused);
      } else {
        ConstantOnUnion(f, rest[0], fused);
        FusionConstant(f, kept, rest[1..], AddTopics(rest[0], fused));
      }
    }
  }

  lemma {:induction false} FusionTopics(kept: seq<seq<Topic>>, rest: seq<seq<Topic>>, fused: seq<Topic>)
    ensures AllTopics(Fusion(kept, rest, fused)) == AllTopics(kept) + AllTopics(rest) + Elems(fused)
    decreases |rest|
  {
    if rest == [] {
      AllTopicsPush(fused, kept);
    } else {
      AllTopicsTail(rest);
      if Elems(rest[0]) * Elems(fused) == {} {
        AllTopicsConcat(kept, [rest[0]]);
        AllTopicsPush(rest[0], []);
        assert [rest[0]] + [] == [rest[0]];
        FusionTopics(kept + [rest[0]], rest[1..], fused);
      } else {
        FusionTopics(kept, rest[1..], AddTopics(rest[0], fused));
      }
    }
  }

  lemma AllTopicsConcat(a: seq<seq<Topic>>, b: seq<seq<Topic>>)
    ensures AllTopics(a + b) == AllTopics(a) + AllTopics(b)
  {
    forall x | x in AllTopics(a + b) ensures x in AllTopics(a) + AllTopics(b) {
      var i :| 0 <= i < |a + b| && x in (a + b)[i];
      if i < |a| { assert x in a[i]; } else { assert x in b[i - |a|]; }
    }
    forall x | x in AllTopics(a) ensures x in AllTopics(a + b) {
      var i :| 0 <= i < |a| && x in a[i];
      assert (a + b)[i] == a[i];
    }
    forall x | x in AllTopics(b) ensures x in AllTopics(a + b) {
      var i :| 0 <= i < |b| && x in b[i];
      assert (a + b)[|a| + i] == b[i];
    }
  }

  /** The result is duplicate-free and disjoint. */
  lemma {:induction false} FusionPartition(kept: seq<seq<Topic>>, rest: seq<seq<Topic>>, fused: seq<Topic>)
    requires Partition(kept + rest) && NoDup(fused) && |fused| >= 2
    requires forall k :: 0 <= k < |kept| ==> DisjointSeqs(kept[k], fused)
    ensures Partition(Fusion(kept, rest, fused))
    decreases |rest|
  {
    if rest == [] {
      assert kept + rest == kept;
      PushPartition(fused, kept);
    } else {
      MeetsElems(rest[0], fused);
      if DisjointSeqs(rest[0], fused) {
        assert kept + rest == (kept + [rest[0]]) + rest[1..];
        FusionPartition(kept + [rest[0]], rest[1..], fused);
      } else {
        FusePartition(kept, rest, fused);
        FusionPartition(kept, rest[1..], AddTopics(rest[0], fused));
      }
    }
  }

  lemma FusePartition(kept: seq<seq<Topic>>, rest: seq<seq<Topic>>, fused: seq<Topic>)
    requires rest != [] && Partition(kept + rest) && NoDup(fused)
    requires forall k :: 0 <= k < |kept| ==> DisjointSeqs(kept[k], fused)
    ensures Partition(kept + rest[1..])
    ensures NoDup(AddTopics(rest[0], fused)) && |AddTopics(rest[0], fused)| >= 2
    ensures forall k :: 0 <= k < |kept| ==> DisjointSeqs(kept[k], AddTopics(rest[0], fused))
  {
    var all, w, u := kept + rest, kept + rest[1..], AddTopics(rest[0], fused);
    assert all[|kept|] == rest[0];
    AddTopicsNoDup(rest[0], fused);
    assert forall x :: x in u <==> x in Elems(u);
    assert forall k :: 0 <= k < |kept| ==> w[k] == all[k] == kept[k];
    assert forall k :: |kept| <= k < |w| ==> w[k] == all[k + 1];
  }

  // --- which topic comes first ---------------------------------------------------------

  /** The first topic of the last list that meets the array, or head when none does. */
  ghost function Heir(lists: seq<seq<Topic>>, arr: seq<Topic>, head: Topic): Topic
    decreases |lists|
  {
    if lists == [] then head
    else Heir(lists[1..], arr, if lists[0] == [] || DisjointSeqs(lists[0], arr) then head else lists[0][0])
  }

  lemma {:induction false} FusionHead(kept: seq<seq<Topic>>, rest: seq<seq<Topic>>, fused: seq<Topic>, arr: seq<Topic>)
    requires Partition(rest) && fused != []
    requires forall i :: 0 <= i < |rest| ==> (DisjointSeqs(rest[i], fused) <==> DisjointSeqs(rest[i], arr))
    ensures Fusion(kept, rest, fused) != [] && Fusion(kept, rest, fused)[0] != []
    ensures Fusion(kept, rest, fused)[0][0] == Heir(rest, arr, fused[0])
    decreases |rest|
  {
    if rest != [] {
      var first, more := rest[0], rest[1..];
      MeetsElems(first, fused);
      assert forall i :: 0 <= i < |more| ==> more[i] == rest[i + 1];
      if DisjointSeqs(first, fused) {
        FusionHead(kept + [first], more, fused, arr);
      } else {
        var u := AddTopics(first, fused);
        assert u[0] == u[..|first|][0] == first[0];
        forall i | 0 <= i < |more| ensures DisjointSeqs(more[i], u) <==> DisjointSeqs(more[i], fused) {
          assert DisjointSeqs(first, more[i]);
          UnionApart(first, fused, more[i]);
        }
        hide AddTopics, DisjointSeqs, Partition;
        assert Partition(more) by { PartitionTail(rest); }
        FusionHead(kept, more, u, arr);
      }
    }
  }

  lemma PartitionTail(lists: seq<seq<Topic>>)
    requires Partition(lists) && lists != []
    ensures Partition(lists[1..])
  {
  }

  lemma UnionApart(s: seq<Topic>, t: seq<Topic>, other: seq<Topic>)
    requires DisjointSeqs(s, other)
    ensures DisjointSeqs(other, AddTopics(s, t)) <==> DisjointSeqs(other, t)
  {
    var u := AddTopics(s, t);
    assert forall x :: x in u <==> x in Elems(u);
    assert forall x :: x in s <==> x in Elems(s);
    assert forall x :: x in t <==> x in Elems(t);
  }

  /** All sets but the new one are old sets as they were. */
  lemma {:induction false} FusionOthers(kept: seq<seq<Topic>>, rest: seq<seq<Topic>>, fused: seq<Topic>)
    ensures Fusion(kept, rest, fused) != []
    ensures forall k :: 1 <= k < |Fusion(kept, rest, fused)| ==>
              Fusion(kept, rest, fused)[k] in kept || Fusion(kept, rest, fused)[k] in rest
    decreases |rest|
  {
    if rest != [] {
      var next := if Elems(rest[0]) * Elems(fused) == {} then Fusion(kept + [rest[0]], rest[1..], fused)
                  else Fusion(kept, rest[1..], AddTopics(rest[0], fused));
      if Elems(rest[0]) * Elems(fused) == {} {
        FusionOthers(kept + [rest[0]], rest[1..], fused);
      } else {
        FusionOthers(kept, rest[1..], AddTopics(rest[0], fused));
      }
      assert next == Fusion(kept, rest, fused);
    }
  }

  lemma FirstAdded(arr: seq<Topic>)
    requires arr != []
    ensures AddTopics([], arr) != [] && AddTopics([], arr)[0] == arr[0]
  {
    var one: seq<Topic> := AddTopic([], arr[0]);
    assert one == [arr[0]];
    assert AddTopics([], arr) == AddTopics(one, arr[1..]);
    assert AddTopics(one, arr[1..])[..1] == one;
  }

  /**
   * The first topic of a set is the one that stays. Fusing an array in decides about one
   * set only: first in it is the first topic of the last set that the array meets, the
   * array's own first topic only if it meets none.
   */
  lemma StaysAfter(lists: seq<seq<Topic>>, arr: seq<Topic>)
    requires Partition(lists) && |AddTopics([], arr)| >= 2
    ensures var next := Fusion([], lists, AddTopics([], arr));
            && next != [] && next[0] != [] && next[0][0] == Heir(lists, arr, arr[0])
            && forall k :: 1 <= k < |next| ==> next[k] in lists
  {
    SetOf(arr);
    var u := AddTopics([], arr);
    FusionOthers([], lists, u);
    assert arr != [];
    assert u[0] == arr[0] by {
      FirstAdded(arr);
    }
    forall i | 0 <= i < |lists| ensures DisjointSeqs(lists[i], u) <==> DisjointSeqs(lists[i], arr) {
      MeetsElems(lists[i], u);
      MeetsElems(lists[i], arr);
    }
    hide AddTopics, Fusion, DisjointSeqs;
    FusionHead([], lists, u, arr);
  }

  /** The merge_lists field of the topic map and the operation that keeps its sets disjoint. */
  class MergeLists {
    var lists: seq<seq<Topic>>

    constructor ()
      ensures lists == []
    {
      lists := [];
    }

    ghost predicate Valid()
      reads this
    {
      Partition(lists)
    }

    /**
     * Fuses the set of the array's topics with every set it overlaps. A labelling is
     * constant on the new sets exactly when it is constant on the old ones and on the
     * array: the sets are the classes of the equivalence that everything submitted generates.
     */
    method Add(arr: seq<Topic>)
      requires Valid() && |AddTopics([], arr)| >= 2
      modifies this
      ensures Valid()
      ensures forall f: Labelling :: Constant(f, lists) <==> Constant(f, old(lists)) && ConstantOn(f, arr)
      ensures AllTopics(lists) == AllTopics(old(lists)) + Elems(arr)
      ensures lists == Fusion([], old(lists), AddTopics([], arr))
    {
      Meaning(lists, arr);
      var fused := AddTopics([], arr);
      hide Fusion;
      assert lists[..0] == [] && lists[0..] == lists;
      var i := 0;
      while i < |lists|
        invariant 0 <= i <= |lists|
        invariant Fusion(lists[..i], lists[i..], fused) == Fusion([], old(lists), AddTopics([], arr))
        decreases |lists| - i
      {
        var apart := Disjoint(lists[i], fused);
        FusionStep(lists, i, fused);
        if apart {
          i := i + 1;
        } else {
          fused, lists := AddTopics(lists[i], fused), Without(lists, i);
        }
      }
      FusionEnd(lists, fused);
      lists := [fused] + lists;
    }
  }

  lemma FusionStep(lists: seq<seq<Topic>>, i: nat, fused: seq<Topic>)
    requires i < |lists|
    ensures DisjointSeqs(lists[i], fused)
            ==> Fusion(lists[..i], lists[i..], fused) == Fusion(lists[..i + 1], lists[i + 1..], fused)
    ensures !DisjointSeqs(lists[i], fused) ==>
              var w := Without(lists, i);
              Fusion(lists[..i], lists[i..], fused) == Fusion(w[..i], w[i..], AddTopics(lists[i], fused))
  {
    MeetsElems(lists[i], fused);
    hide AddTopics;
    assert lists[i..][0] == lists[i] && lists[i..][1..] == lists[i + 1..];
    assert lists[..i] + [lists[i]] == lists[..i + 1];
    assert Without(lists, i)[..i] == lists[..i] && Without(lists, i)[i..] == lists[i + 1..];
  }

  lemma FusionEnd(lists: seq<seq<Topic>>, fused: seq<Topic>)
    ensures Fusion(lists[..|lists|], lists[|lists|..], fused) == [fused] + lists
  {
    assert lists[..|lists|] == lists;
  }

  /** A set and the array it is made of have the same elements. */
  lemma SetOf(arr: seq<Topic>)
    ensures NoDup(AddTopics([], arr)) && Elems(AddTopics([], arr)) == Elems(arr)
    ensures forall f: Labelling :: ConstantOn(f, AddTopics([], arr)) <==> ConstantOn(f, arr)
    ensures NoDup(arr) ==> AddTopics([], arr) == arr
  {
    var u := AddTopics([], arr);
    AddTopicsNoDup([], arr);
    if NoDup(arr) {
      assert [] + arr == arr;
      AddTopicsNew([], arr);
    }
    SameElements(u, arr);
  }

  lemma SameElements(s: seq<Topic>, t: seq<Topic>)
    requires Elems(s) == Elems(t)
    ensures forall f: Labelling :: ConstantOn(f, s) <==> ConstantOn(f, t)
  {
    assert forall x :: x in s <==> x in Elems(s);
    assert forall x :: x in t <==> x in Elems(t);
  }

  /** What fusing an array into disjoint sets makes of them. */
  lemma Meaning(lists: seq<seq<Topic>>, arr: seq<Topic>)
    requires Partition(lists) && |AddTopics([], arr)| >= 2
    ensures Partition(Fusion([], lists, AddTopics([], arr)))
    ensures AllTopics(Fusion([], lists, AddTopics([], arr))) == AllTopics(lists) + Elems(arr)
    ensures forall f: Labelling ::
              Constant(f, Fusion([], lists, AddTopics([], arr))) <==> Constant(f, lists) && ConstantOn(f, arr)
  {
    SetOf(arr);
    var u := AddTopics([], arr);
    assert [] + lists == lists;
    hide Fusion, AddTopics;
    FusionPartition([], lists, u);
    FusionTopics([], lists, u);
    forall f: Labelling ensures Constant(f, Fusion([], lists, u)) <==> Constant(f, lists) && ConstantOn(f, u) {
      FusionConstant(f, [], lists, u);
    }
  }

  // --- any sequence of arrays ------------------------------------------------------------

  /** The merge lists after the arrays have been submitted one after the other. */
  function FuseAll(lists: seq<seq<Topic>>, arrs: seq<seq<Topic>>): seq<seq<Topic>>
    decreases |arrs|
  {
    if arrs == [] then lists else FuseAll(Fusion([], lists, AddTopics([], arrs[0])), arrs[1..])
  }

  /** Arrays of at least two different topics, as store normalization submits them. */
  ghost predicate Submittable(arrs: seq<seq<Topic>>) {
    forall i :: 0 <= i < |arrs| ==> |AddTopics([], arrs[i])| >= 2
  }

  lemma {:induction false} FuseAllMeans(lists: seq<seq<Topic>>, arrs: seq<seq<Topic>>)
    requires Partition(lists) && Submittable(arrs)
    ensures Partition(FuseAll(lists, arrs))
    ensures AllTopics(FuseAll(lists, arrs)) == AllTopics(lists) + AllTopics(arrs)
    ensures forall f: Labelling :: Constant(f, FuseAll(lists, arrs)) <==> Constant(f, lists) && Constant(f, arrs)
    decreases |arrs|
  {
    if arrs != [] {
      var next := Fusion([], lists, AddTopics([], arrs[0]));
      assert Submittable(arrs[1..]);
      Meaning(lists, arrs[0]);
      hide Fusion, AddTopics, Partition, ConstantOn;
      FuseAllMeans(next, arrs[1..]);
      AllTopicsTail(arrs);
      forall f: Labelling ensures Constant(f, arrs) <==> ConstantOn(f, arrs[0]) && Constant(f, arrs[1..]) {
        MoveOn(f, [], arrs);
      }
    }
  }

  lemma {:induction false} FuseAllConcat(lists: seq<seq<Topic>>, a: seq<seq<Topic>>, b: seq<seq<Topic>>)
    ensures FuseAll(lists, a + b) == FuseAll(FuseAll(lists, a), b)
    decreases |a|
  {
    if a == [] {
      assert a + b == b;
    } else {
      hide Fusion, AddTopics;
      assert (a + b)[0] == a[0] && (a + b)[1..] == a[1..] + b;
      FuseAllConcat(Fusion([], lists, AddTopics([], a[0])), a[1..], b);
    }
  }

  lemma FuseAllPush(lists: seq<seq<Topic>>, arrs: seq<seq<Topic>>, arr: seq<Topic>)
    ensures FuseAll(lists, arrs + [arr]) == Fusion([], FuseAll(lists, arrs), AddTopics([], arr))
  {
    FuseAllConcat(lists, arrs, [arr]);
    var next := Fusion([], FuseAll(lists, arrs), AddTopics([], arr));
    assert [arr][1..] == [];
    assert FuseAll(next, []) == next;
  }

  /** Arrays without repetitions and with two topics at least. */
  ghost predicate Clean(arrs: seq<seq<Topic>>) {
    forall i :: 0 <= i < |arrs| ==> NoDup(arrs[i]) && |arrs[i]| >= 2
  }

  lemma CleanMore(a: seq<seq<Topic>>, b: seq<seq<Topic>>)
    requires Clean(a) && Partition(b)
    ensures Clean(a + b)
  {
  }

  /** t and u are in one merge set. */
  ghost predicate Together(lists: seq<seq<Topic>>, t: Topic, u: Topic) {
    exists i :: 0 <= i < |lists| && t in lists[i] && u in lists[i]
  }

  /** Different topics are in one merge set exactly when every labelling that the merge sets allow identifies them. */
  lemma TogetherIff(lists: seq<seq<Topic>>, t: Topic, u: Topic)
    requires Partition(lists) && t != u
    ensures Together(lists, t, u) <==> forall f: Labelling :: Constant(f, lists) ==> f(t) == f(u)
  {
    if forall f: Labelling :: Constant(f, lists) ==> f(t) == f(u) {
      var c: set<Topic> := set x | x in AllTopics(lists) + {t} && (x == t || Together(lists, t, x));
      var f: Labelling := x => if x in c then 0 else 1;
      forall i | 0 <= i < |lists| ensures ConstantOn(f, lists[i]) {
        SetInOrOut(lists, i, t, c);
      }
      assert Constant(f, lists);
      assert f(t) == f(u);
    }
  }

  lemma InOneSet(lists: seq<seq<Topic>>, i: nat, j: nat, x: Topic)
    requires Partition(lists) && i < |lists| && j < |lists| && x in lists[i] && x in lists[j]
    ensures i == j
  {
    assert i < j ==> DisjointSeqs(lists[i], lists[j]);
    assert j < i ==> DisjointSeqs(lists[j], lists[i]);
  }

  lemma SetInOrOut(lists: seq<seq<Topic>>, i: nat, t: Topic, c: set<Topic>)
    requires Partition(lists) && i < |lists|
    requires forall x :: x in c <==> x == t || Together(lists, t, x)
    ensures (forall x :: x in lists[i] ==> x in c) || (forall x :: x in lists[i] ==> x !in c)
  {
    if t in lists[i] {
      assert forall x :: x in lists[i] ==> Together(lists, t, x);
    } else if x :| x in lists[i] && x in c {
      var j :| 0 <= j < |lists| && t in lists[j] && x in lists[j];
      InOneSet(lists, i, j, x);
      assert false;
    }
  }

  /**
   * The merge sets are the classes of the equivalence that the submitted arrays generate:
   * two topics end up in one set exactly when every labelling that is constant on each
   * array identifies them.
   */
  lemma MergeSetsAreClasses(arrs: seq<seq<Topic>>, t: Topic, u: Topic)
    requires Submittable(arrs) && t != u
    ensures Together(FuseAll([], arrs), t, u) <==> forall f: Labelling :: Constant(f, arrs) ==> f(t) == f(u)
  {
    FuseAllMeans([], arrs);
    TogetherIff(FuseAll([], arrs), t, u);
    assert forall f: Labelling :: Constant(f, []);
  }

  function Classes(lists: seq<seq<Topic>>): set<set<Topic>> {
    set i | 0 <= i < |lists| :: Elems(lists[i])
  }

  /** Disjoint merge sets are determined, up to order, by the topics they put together. */
  lemma ClassIn(a: seq<seq<Topic>>, b: seq<seq<Topic>>, i: nat)
    requires Partition(a) && Partition(b) && i < |a|
    requires forall t, u :: t != u ==> (Together(a, t, u) <==> Together(b, t, u))
    ensures Elems(a[i]) in Classes(b)
  {
    var t, u := a[i][0], a[i][1];
    assert t in a[i] && u in a[i] && Together(a, t, u);
    var j :| 0 <= j < |b| && t in b[j] && u in b[j];
    SetOfTopic(a, i, t);
    SetOfTopic(b, j, t);
    assert Elems(a[i]) == Elems(b[j]);
  }

  lemma SetOfTopic(lists: seq<seq<Topic>>, i: nat, t: Topic)
    requires Partition(lists) && i < |lists| && t in lists[i]
    ensures forall x :: x in Elems(lists[i]) <==> x == t || Together(lists, t, x)
  {
    forall x | x != t && Together(lists, t, x) ensures x in lists[i] {
      var j :| 0 <= j < |lists| && t in lists[j] && x in lists[j];
      InOneSet(lists, i, j, t);
    }
  }

  /** Disjoint merge sets that allow the same labellings have the same classes. */
  lemma SameLabellingsSameClasses(a: seq<seq<Topic>>, b: seq<seq<Topic>>)
    requires Partition(a) && Partition(b)
    requires forall f: Labelling :: Constant(f, a) <==> Constant(f, b)
    ensures Classes(a) == Classes(b)
  {
    forall t, u | t != u ensures Together(a, t, u) <==> Together(b, t, u) {
      TogetherIff(a, t, u);
      TogetherIff(b, t, u);
    }
    forall i | 0 <= i < |a| ensures Elems(a[i]) in Classes(b) { ClassIn(a, b, i); }
    forall i | 0 <= i < |b| ensures Elems(b[i]) in Classes(a) { ClassIn(b, a, i); }
  }

  /**
   * The order in which the stores submit their arrays does not matter, nor does submitting
   * one twice: the classes depend only on which arrays were submitted.
   */
  lemma SubmissionOrderIrrelevant(a: seq<seq<Topic>>, b: seq<seq<Topic>>)
    requires Submittable(a) && Elems(a) == Elems(b)
    ensures Classes(FuseAll([], a)) == Classes(FuseAll([], b))
  {
    SameArrays(a, b);
    FuseAllMeans([], a);
    FuseAllMeans([], b);
    hide FuseAll, Partition;
    SameLabellingsSameClasses(FuseAll([], a), FuseAll([], b));
  }

  lemma SameArrays(a: seq<seq<Topic>>, b: seq<seq<Topic>>)
    requires Submittable(a) && Elems(a) == Elems(b)
    ensures Submittable(b) && forall f: Labelling :: Constant(f, a) <==> Constant(f, b)
  {
    forall x ensures x in a <==> x in b {
      assert x in a <==> x in Elems(a);
      assert x in b <==> x in Elems(b);
    }
    forall i | 0 <= i < |b| ensures b[i] in a { assert b[i] in b; }
    forall i | 0 <= i < |a| ensures a[i] in b { assert a[i] in a; }
  }
}
