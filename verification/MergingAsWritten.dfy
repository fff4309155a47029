/**
 * Full merging with tm_topicmap_add_mergelist as it stands: which sequences of submissions
 * it survives, and when the merge that follows is the one that TopicMaps models.
 */
module MergingAsWritten {
  import opened Basics
  import opened MergeSets
  import opened Facts
  import opened Rounds
  import opened Closures
  import opened AddMergeListAsWritten
  import opened Survivors

  /** The calls of one pass, one after the other, up to the first that fails. */
  function WrittenAll(lists: seq<seq<Topic>>, arrs: seq<seq<Topic>>): AddResult
    decreases |arrs|
  {
    if arrs == [] then Added(lists)
    else
      var r := Written(lists, arrs[0]);
      if r.Added? then WrittenAll(r.lists, arrs[1..]) else r
  }

  /** Each call leaves the sets that those before it and its array generate. */
  ghost predicate EachIntended(lists: seq<seq<Topic>>, arrs: seq<seq<Topic>>)
    decreases |arrs|
  {
    arrs == []
    || (AsIntended(lists, arrs[0], Written(lists, arrs[0])) && EachIntended(Written(lists, arrs[0]).lists, arrs[1..]))
  }

  predicate AllHandled(lists: seq<seq<Topic>>, arrs: seq<seq<Topic>>)
    decreases |arrs|
  {
    arrs == []
    || (Handled(lists, arrs[0]) && Written(lists, arrs[0]).Added?
        && AllHandled(Written(lists, arrs[0]).lists, arrs[1..]))
  }

  /** What one call as intended leaves is again disjoint. */
  lemma WrittenPartition(lists: seq<seq<Topic>>, arr: seq<Topic>)
    requires Partition(lists) && |AddTopics([], arr)| >= 2 && AsIntended(lists, arr, Written(lists, arr))
    ensures Partition(Written(lists, arr).lists)
  {
    if NoDup(arr) {
      SetOf(arr);
      WrittenAgreesWithRepaired(lists, arr);
    } else {
      RepeatsExactly(lists, arr);
      RepeatsScan(lists, arr);
      MissedPartition(lists, arr);
    }
  }

  lemma MissedPartition(lists: seq<seq<Topic>>, arr: seq<Topic>)
    requires Partition(lists) && |AddTopics([], arr)| >= 2 && Misses(lists, arr)
    ensures Partition([AddTopics([], arr)] + lists)
  {
    SetOf(arr);
    var u := AddTopics([], arr);
    hide AddTopics;
    forall k | 0 <= k < |lists| ensures DisjointSeqs(lists[k], u) {
      assert !Overlap(lists[k], arr);
      MeetsElems(lists[k], u);
    }
    PushPartition(u, lists);
  }

  /**
   * A sequence of calls does what is intended, call by call, exactly when each array
   * meets the condition on the sets that the calls before it left.
   */
  lemma {:induction false} SequenceExactly(lists: seq<seq<Topic>>, arrs: seq<seq<Topic>>)
    requires Partition(lists) && Submittable(arrs)
    ensures EachIntended(lists, arrs) <==> AllHandled(lists, arrs)
    decreases |arrs|
  {
    if arrs != [] {
      AddMergeListExactly(lists, arrs[0]);
      hide Handled, Written, AddTopics, Partition;
      if Handled(lists, arrs[0]) {
        AddedOne(lists, arrs[0]);
        WrittenPartition(lists, arrs[0]);
        SequenceExactly(Written(lists, arrs[0]).lists, arrs[1..]);
      }
    }
  }

  lemma AddedOne(lists: seq<seq<Topic>>, arr: seq<Topic>)
    requires AsIntended(lists, arr, Written(lists, arr))
    ensures Written(lists, arr).Added?
    ensures forall f: Labelling :: Constant(f, Written(lists, arr).lists) <==> Constant(f, lists) && ConstantOn(f, arr)
  {
    hide Written;
  }

  /** Then the sets are disjoint and allow exactly the labellings that identify inside every array. */
  lemma {:induction false} IntendedMeans(lists: seq<seq<Topic>>, arrs: seq<seq<Topic>>)
    requires Partition(lists) && Submittable(arrs) && EachIntended(lists, arrs)
    ensures var r := WrittenAll(lists, arrs);
            && r.Added? && Partition(r.lists)
            && forall f: Labelling :: Constant(f, r.lists) <==> Constant(f, lists) && Constant(f, arrs)
    decreases |arrs|
  {
    if arrs != [] {
      AddedOne(lists, arrs[0]);
      WrittenPartition(lists, arrs[0]);
      hide Written, AddTopics, Partition, AsIntended, ConstantOn;
      IntendedMeans(Written(lists, arrs[0]).lists, arrs[1..]);
      forall f: Labelling ensures Constant(f, arrs) <==> ConstantOn(f, arrs[0]) && Constant(f, arrs[1..]) {
        MoveOn(f, [], arrs);
      }
    }
  }

  /** The calls of a pass end with the merge sets of the repaired loop, up to order. */
  ghost predicate EndsRepaired(arrs: seq<seq<Topic>>) {
    var r := WrittenAll([], arrs);
    r.Added? && Partition(r.lists) && Classes(r.lists) == Classes(FuseAll([], arrs))
  }

  lemma HandledEndsRepaired(arrs: seq<seq<Topic>>)
    requires Submittable(arrs) && AllHandled([], arrs)
    ensures EndsRepaired(arrs)
  {
    SequenceExactly([], arrs);
    IntendedMeans([], arrs);
    FuseAllMeans([], arrs);
    hide Partition, WrittenAll, FuseAll, Classes;
    SameLabellingsSameClasses(WrittenAll([], arrs).lists, FuseAll([], arrs));
  }

  /** Disjoint arrays, such as one property submits, cause no trouble. */
  lemma {:induction false} DisjointHandled(lists: seq<seq<Topic>>, arrs: seq<seq<Topic>>)
    requires Partition(lists) && Partition(arrs)
    requires forall i, k :: 0 <= i < |lists| && 0 <= k < |arrs| ==> !Overlap(lists[i], arrs[k])
    ensures AllHandled(lists, arrs)
    decreases |arrs|
  {
    if arrs != [] {
      var arr := arrs[0];
      MissedWritten(lists, arr);
      SetOf(arr);
      MissedPartition(lists, arr);
      StillApart(lists, arrs);
      hide Written, Overlap, AddTopics, Handled;
      DisjointHandled([arr] + lists, arrs[1..]);
    }
  }

  lemma StillApart(lists: seq<seq<Topic>>, arrs: seq<seq<Topic>>)
    requires Partition(arrs) && arrs != []
    requires forall i, k :: 0 <= i < |lists| && 0 <= k < |arrs| ==> !Overlap(lists[i], arrs[k])
    ensures forall i, k :: 0 <= i < |[arrs[0]] + lists| && 0 <= k < |arrs[1..]|
              ==> !Overlap(([arrs[0]] + lists)[i], arrs[1..][k])
  {
    var next := [arrs[0]] + lists;
    forall i, k | 0 <= i < |next| && 0 <= k < |arrs[1..]| ensures !Overlap(next[i], arrs[1..][k]) {
      if i == 0 {
        assert DisjointSeqs(arrs[0], arrs[k + 1]);
        MeetsElems(arrs[0], arrs[k + 1]);
      } else {
        assert next[i] == lists[i - 1] && arrs[1..][k] == arrs[k + 1];
      }
    }
  }

  lemma MissedWritten(lists: seq<seq<Topic>>, arr: seq<Topic>)
    requires NoDup(arr) && Misses(lists, arr)
    ensures Handled(lists, arr) && Written(lists, arr) == Added([arr] + lists)
  {
    assert !Repeats(arr);
    assert lists != [] ==> !Overlap(lists[0], arr);
    hide NoDup, Overlap, AddTopics, Scan, Carried, Repeats;
    WrittenScan(lists, arr);
    MissedScan([], lists, arr, |arr|);
    NoOverlapCarried(lists, arr, arr, |arr|);
    assert [] + lists == lists;
  }

  lemma {:induction false} MissedScan(passed: seq<seq<Topic>>, rest: seq<seq<Topic>>, fused: seq<Topic>, len: nat)
    requires Misses(rest, fused)
    ensures Scan(passed, rest, fused, len) == Added([fused] + (passed + rest))
    decreases |rest|
  {
    if rest == [] {
      assert passed + rest == passed;
    } else {
      MissedScan(passed + [rest[0]], rest[1..], fused, len);
      assert (passed + [rest[0]]) + rest[1..] == passed + rest;
    }
  }

  /** An array that overlaps the head, which every call puts in front, of several sets ends the merge. */
  lemma HeadOverlapFails(lists: seq<seq<Topic>>, arr: seq<Topic>, later: seq<seq<Topic>>)
    requires |lists| >= 2 && Overlap(lists[0], arr)
    ensures !WrittenAll(lists, [arr] + later).Added?
  {
    var u := AddTopics([], arr);
    SetOf(arr);
    assert Overlap(lists[0], u);
    assert ([arr] + later)[0] == arr;
    hide Overlap, AddTopics;
    assert !Written(lists, arr).Added?;
  }

  // --- which topics stay -------------------------------------------------------------------

  /** Position by position the same topics with the same one in front. */
  ghost predicate SameUpToTails(a: seq<seq<Topic>>, b: seq<seq<Topic>>) {
    |a| == |b| && forall i :: 0 <= i < |a| ==> SameFirst(a[i], b[i])
  }

  ghost predicate SameFirst(s: seq<Topic>, t: seq<Topic>) {
    s != [] && t != [] && s[0] == t[0] && Elems(s) == Elems(t)
  }

  /** The lists that the array does not meet. */
  function Unmet(lists: seq<seq<Topic>>, arr: seq<Topic>): seq<seq<Topic>> {
    if lists == [] then [] else (if Overlap(lists[0], arr) then [] else [lists[0]]) + Unmet(lists[1..], arr)
  }

  /** The topics of the lists that it meets. */
  function Met(lists: seq<seq<Topic>>, arr: seq<Topic>): set<Topic> {
    if lists == [] then {} else (if Overlap(lists[0], arr) then Elems(lists[0]) else {}) + Met(lists[1..], arr)
  }

  lemma {:induction false} ScanRest(lists: seq<seq<Topic>>, arr: seq<Topic>, passed: seq<seq<Topic>>,
                                    rest: seq<seq<Topic>>, absorbed: seq<Topic>, left: seq<Topic>)
    requires Ready(lists, arr, passed, rest, absorbed, left)
    ensures var r := Scan(passed, rest, absorbed + left, |arr|);
            r.Added? && r.lists != [] && r.lists[1..] == passed + Unmet(rest, arr)
    decreases |rest|
  {
    ScanHead(lists, arr, passed, rest, absorbed, left);
    if rest == [] {
      assert passed + Unmet(rest, arr) == passed;
    } else {
      var first, more := rest[0], rest[1..];
      assert Unmet(rest, arr) == if Overlap(first, arr) then Unmet(more, arr) else [first] + Unmet(more, arr);
      hide *;
      if Overlap(first, arr) {
        HeadInto(lists, arr, passed, rest, absorbed, left);
        ScanRest(lists, arr, passed, more, first + absorbed, Kept(arr, absorbed, left, first));
      } else {
        HeadPast(lists, arr, passed, rest, absorbed, left);
        ScanRest(lists, arr, passed + [first], more, absorbed, left);
        PushBack(passed, first, Unmet(more, arr));
      }
    }
  }

  /** The working set meets the same lists as the array alone. */
  ghost predicate SeesSame(rest: seq<seq<Topic>>, fused: seq<Topic>, arr: seq<Topic>) {
    forall i :: 0 <= i < |rest| ==> (DisjointSeqs(rest[i], fused) <==> DisjointSeqs(rest[i], arr))
  }

  lemma {:induction false} FusionRest(kept: seq<seq<Topic>>, rest: seq<seq<Topic>>, fused: seq<Topic>, arr: seq<Topic>)
    requires Partition(rest) && SeesSame(rest, fused, arr)
    ensures Fusion(kept, rest, fused) != [] && Fusion(kept, rest, fused)[1..] == kept + Unmet(rest, arr)
    decreases |rest|
  {
    if rest == [] {
      assert kept + Unmet(rest, arr) == kept;
    } else {
      var first, more := rest[0], rest[1..];
      FusionUnfolds(kept, rest, fused, arr);
      PartitionTail(rest);
      StillSame(rest, fused, arr);
      hide *;
      if Overlap(first, arr) {
        FusionRest(kept, more, AddTopics(first, fused), arr);
      } else {
        FusionRest(kept + [first], more, fused, arr);
        PushBack(kept, first, Unmet(more, arr));
      }
    }
  }

  lemma PushBack(kept: seq<seq<Topic>>, first: seq<Topic>, more: seq<seq<Topic>>)
    ensures (kept + [first]) + more == kept + ([first] + more)
  {
  }

  lemma {:induction false} FusionFront(kept: seq<seq<Topic>>, rest: seq<seq<Topic>>, fused: seq<Topic>, arr: seq<Topic>)
    requires Partition(rest) && SeesSame(rest, fused, arr)
    ensures Fusion(kept, rest, fused) != [] && Elems(Fusion(kept, rest, fused)[0]) == Elems(fused) + Met(rest, arr)
    decreases |rest|
  {
    if rest != [] {
      var first, more := rest[0], rest[1..];
      FusionUnfolds(kept, rest, fused, arr);
      PartitionTail(rest);
      StillSame(rest, fused, arr);
      hide *;
      if Overlap(first, arr) {
        FusionFront(kept, more, AddTopics(first, fused), arr);
      } else {
        FusionFront(kept + [first], more, fused, arr);
      }
    }
  }

  lemma FusionUnfolds(kept: seq<seq<Topic>>, rest: seq<seq<Topic>>, fused: seq<Topic>, arr: seq<Topic>)
    requires rest != [] && SeesSame(rest, fused, arr)
    ensures Fusion(kept, rest, fused)
            == if Overlap(rest[0], arr) then Fusion(kept, rest[1..], AddTopics(rest[0], fused))
               else Fusion(kept + [rest[0]], rest[1..], fused)
    ensures Unmet(rest, arr)
            == if Overlap(rest[0], arr) then Unmet(rest[1..], arr) else [rest[0]] + Unmet(rest[1..], arr)
    ensures Met(rest, arr) == if Overlap(rest[0], arr) then Elems(rest[0])
            + Met(rest[1..], arr) else Met(rest[1..], arr)
    ensures Elems(AddTopics(rest[0], fused)) == Elems(rest[0]) + Elems(fused)
  {
    MeetsElems(rest[0], fused);
    MeetsElems(rest[0], arr);
  }

  lemma StillSame(rest: seq<seq<Topic>>, fused: seq<Topic>, arr: seq<Topic>)
    requires Partition(rest) && rest != [] && SeesSame(rest, fused, arr)
    ensures SeesSame(rest[1..], fused, arr) && SeesSame(rest[1..], AddTopics(rest[0], fused), arr)
  {
    var u, more := AddTopics(rest[0], fused), rest[1..];
    forall i | 0 <= i < |more| ensures DisjointSeqs(more[i], u) <==> DisjointSeqs(more[i], arr) {
      assert DisjointSeqs(rest[0], more[i]) && more[i] == rest[i + 1];
      UnionApart(rest[0], fused, more[i]);
    }
  }

  /** The same for a whole array. */
  lemma FusionParts(lists: seq<seq<Topic>>, arr: seq<Topic>)
    requires Partition(lists) && NoDup(arr) && |arr| >= 2
    ensures var r := Fusion([], lists, AddTopics([], arr));
            && r != [] && r[1..] == Unmet(lists, arr) && Elems(r[0]) == Elems(arr) + Met(lists, arr)
            && r[0] != [] && r[0][0] == Heir(lists, arr, arr[0])
  {
    SetOf(arr);
    StaysAfter(lists, arr);
    assert [] + Unmet(lists, arr) == Unmet(lists, arr);
    FusionRest([], lists, arr, arr);
    FusionFront([], lists, arr, arr);
  }

  lemma {:induction false} SameTails(a: seq<seq<Topic>>, b: seq<seq<Topic>>, arr: seq<Topic>, head: Topic)
    requires SameUpToTails(a, b)
    ensures SameUpToTails(Unmet(a, arr), Unmet(b, arr)) && Met(a, arr) == Met(b, arr)
    ensures Heir(a, arr, head) == Heir(b, arr, head)
    decreases |a|
  {
    if a != [] {
      MeetsElems(a[0], arr);
      MeetsElems(b[0], arr);
      assert SameFirst(a[0], b[0]);
      assert SameUpToTails(a[1..], b[1..]) by {
        forall i | 0 <= i < |a[1..]| ensures SameFirst(a[1..][i], b[1..][i]) { assert SameFirst(a[i + 1], b[i + 1]); }
      }
      hide SameFirst;
      var next := if Overlap(a[0], arr) then a[0][0] else head;
      SameTails(a[1..], b[1..], arr, next);
    }
  }

  /** Fusing the same array into such lists leaves such lists. */
  lemma FusionSame(a: seq<seq<Topic>>, b: seq<seq<Topic>>, arr: seq<Topic>)
    requires Partition(a) && Partition(b) && NoDup(arr) && |arr| >= 2 && SameUpToTails(a, b)
    ensures SameUpToTails(Fusion([], a, AddTopics([], arr)), Fusion([], b, AddTopics([], arr)))
  {
    FusionParts(a, arr);
    FusionParts(b, arr);
    SameTails(a, b, arr, arr[0]);
    var r, s := Fusion([], a, AddTopics([], arr)), Fusion([], b, AddTopics([], arr));
    hide Fusion, AddTopics, Unmet, Met, Heir, Partition;
    FrontAndTails(r, s);
  }

  lemma FrontAndTails(r: seq<seq<Topic>>, s: seq<seq<Topic>>)
    requires r != [] && s != [] && SameFirst(r[0], s[0]) && SameUpToTails(r[1..], s[1..])
    ensures SameUpToTails(r, s)
  {
    forall i | 0 <= i < |r| ensures SameFirst(r[i], s[i]) {
      if i > 0 { assert SameFirst(r[1..][i - 1], s[1..][i - 1]); }
    }
  }

  /** A handled call leaves what the repaired one would, but for the order behind the first topic. */
  lemma WrittenSame(lists: seq<seq<Topic>>, arr: seq<Topic>)
    requires Partition(lists) && NoDup(arr) && |arr| >= 2 && Handled(lists, arr)
    ensures Written(lists, arr).Added? && Partition(Written(lists, arr).lists)
    ensures SameUpToTails(Written(lists, arr).lists, Fusion([], lists, AddTopics([], arr)))
  {
    SetOf(arr);
    AddMergeListExactly(lists, arr);
    WrittenAgreesWithRepaired(lists, arr);
    WrittenStaysAsRepaired(lists, arr);
    Meaning(lists, arr);
    WrittenTails(lists, arr);
    FusionParts(lists, arr);
    var a, b := Written(lists, arr).lists, Fusion([], lists, AddTopics([], arr));
    hide Written, Fusion, AddTopics, Handled, Heir, Partition, Unmet, Met, AsIntended;
    SameClassOf(a, b);
    TailsAlike(a[1..], b[1..], lists);
    FrontAndTails(a, b);
  }

  lemma TailsAlike(a: seq<seq<Topic>>, b: seq<seq<Topic>>, lists: seq<seq<Topic>>)
    requires a == b && Partition(lists) && forall x :: x in a ==> x in lists
    ensures SameUpToTails(a, b)
  {
    forall i | 0 <= i < |a| ensures SameFirst(a[i], b[i]) {
      assert a[i] in a;
      var k :| 0 <= k < |lists| && lists[k] == a[i];
    }
  }

  /** Sets with the same classes that begin with the same topic begin with the same class. */
  lemma SameClassOf(a: seq<seq<Topic>>, b: seq<seq<Topic>>)
    requires Partition(a) && Partition(b) && Classes(a) == Classes(b) && a != [] && b != []
    requires a[0] != [] && b[0] != [] && a[0][0] == b[0][0]
    ensures SameFirst(a[0], b[0])
  {
    var k := ClassAt(b, a, 0);
    assert a[0][0] in a[0] && a[0][0] in Elems(a[0]);
    assert b[0][0] in b[0] && b[0][0] in Elems(b[k]);
    InOneSet(b, 0, k, b[0][0]);
  }

  lemma WrittenTails(lists: seq<seq<Topic>>, arr: seq<Topic>)
    requires Partition(lists) && NoDup(arr) && |arr| >= 2 && Handled(lists, arr) && Written(lists, arr).Added?
    ensures Written(lists, arr).lists != [] && Written(lists, arr).lists[1..] == Unmet(lists, arr)
    ensures forall x :: x in Unmet(lists, arr) ==> x in lists
  {
    NotRepeated(lists, arr);
    hide *;
    UnmetOld(lists, arr);
    WrittenScan(lists, arr);
    if lists == [] {
      NoneTails(arr);
    } else if Overlap(lists[0], arr) {
      SoleTails(lists, arr);
    } else {
      PassedTails(lists, arr);
    }
  }

  lemma NotRepeated(lists: seq<seq<Topic>>, arr: seq<Topic>)
    requires NoDup(arr) && Handled(lists, arr)
    ensures (|lists| <= 1 || !Overlap(lists[0], arr)) && Carried(lists, arr, arr, |arr|)
  {
    hide Carried, Overlap;
    assert !Repeats(arr);
  }

  lemma NoneTails(arr: seq<Topic>)
    ensures Scan([], [], arr, |arr|) == Added([arr]) && Unmet([], arr) == []
  {
    assert [arr] + [] == [arr];
  }

  lemma SoleTails(lists: seq<seq<Topic>>, arr: seq<Topic>)
    requires |lists| == 1 && Overlap(lists[0], arr)
    ensures Scan([], lists, arr, |arr|) == Added([AddTopics(lists[0], arr)]) && Unmet(lists, arr) == []
  {
    SoleScan(lists[0], arr);
    assert lists == [lists[0]] && lists[1..] == [];
    assert Unmet(lists, arr) == Unmet([], arr);
  }

  lemma PassedTails(lists: seq<seq<Topic>>, arr: seq<Topic>)
    requires Partition(lists) && NoDup(arr) && arr != [] && lists != [] && !Overlap(lists[0], arr)
    requires Carried(lists, arr, arr, |arr|)
    ensures var r := Scan([], lists, arr, |arr|);
            r.Added? && r.lists != [] && r.lists[1..] == Unmet(lists, arr)
  {
    var first, rest := lists[0], lists[1..];
    assert Unmet(lists, arr) == [first] + Unmet(rest, arr);
    hide *;
    StartReady(lists, arr);
    ScanRest(lists, arr, [first], rest, [], arr);
  }

  lemma {:induction false} UnmetOld(lists: seq<seq<Topic>>, arr: seq<Topic>)
    ensures forall x :: x in Unmet(lists, arr) ==> x in lists
    decreases |lists|
  {
    if lists != [] {
      UnmetOld(lists[1..], arr);
      assert lists == [lists[0]] + lists[1..];
    }
  }

  lemma SameTransitive(a: seq<seq<Topic>>, b: seq<seq<Topic>>, c: seq<seq<Topic>>)
    requires SameUpToTails(a, b) && SameUpToTails(b, c)
    ensures SameUpToTails(a, c)
  {
    forall i | 0 <= i < |a| ensures SameFirst(a[i], c[i]) { assert SameFirst(a[i], b[i]) && SameFirst(b[i], c[i]); }
  }

  /** So do all the calls of a pass, as long as each is handled. */
  lemma {:induction false} WrittenAllSame(a: seq<seq<Topic>>, b: seq<seq<Topic>>, arrs: seq<seq<Topic>>)
    requires Partition(a) && Partition(b) && SameUpToTails(a, b) && Clean(arrs) && AllHandled(a, arrs)
    ensures WrittenAll(a, arrs).Added? && SameUpToTails(WrittenAll(a, arrs).lists, FuseAll(b, arrs))
    ensures Partition(WrittenAll(a, arrs).lists)
    decreases |arrs|
  {
    if arrs != [] {
      var arr := arrs[0];
      WrittenSame(a, arr);
      FusionSame(a, b, arr);
      SetOf(arr);
      Meaning(b, arr);
      hide Written, Fusion, AddTopics, Handled, Partition, SameUpToTails;
      var next, next' := Written(a, arr).lists, Fusion([], b, AddTopics([], arr));
      SameTransitive(next, Fusion([], a, AddTopics([], arr)), next');
      WrittenAllSame(next, next', arrs[1..]);
    }
  }

  lemma SameStays(a: seq<seq<Topic>>, b: seq<seq<Topic>>, t: Topic)
    requires Partition(a) && Partition(b) && NonEmpty(a) && NonEmpty(b) && SameUpToTails(a, b)
    ensures Rep(a, t) == Rep(b, t)
  {
    if i :| 0 <= i < |a| && t in a[i] {
      assert SameFirst(a[i], b[i]) && t in Elems(a[i]);
      RepInside(a, i, t);
      RepInside(b, i, t);
    } else {
      forall i | 0 <= i < |b| ensures t !in b[i] {
        assert SameFirst(a[i], b[i]);
        assert t !in Elems(a[i]);
      }
      RepOutside(a, t);
      RepOutside(b, t);
    }
  }

  /** A pass whose calls are all handled keeps the very topics that the repaired loop keeps. */
  lemma HandledStaysAsRepaired(arrs: seq<seq<Topic>>)
    requires Clean(arrs) && AllHandled([], arrs)
    ensures var r, sets := WrittenAll([], arrs), FuseAll([], arrs);
            && r.Added? && NonEmpty(r.lists) && NonEmpty(sets)
            && forall t :: Rep(r.lists, t) == Rep(sets, t)
  {
    CleanSubmittable(arrs);
    FuseAllMeans([], arrs);
    WrittenAllSame([], [], arrs);
    var r, sets := WrittenAll([], arrs), FuseAll([], arrs);
    SetsNonEmpty(r.lists);
    SetsNonEmpty(sets);
    hide Partition, SameUpToTails, WrittenAll, FuseAll, NonEmpty;
    forall t ensures Rep(r.lists, t) == Rep(sets, t) { SameStays(r.lists, sets, t); }
  }

  // --- merging -----------------------------------------------------------------------------

  /** Merge sets with the same classes allow the same labellings and have the same topics. */
  lemma ClassesDecide(a: seq<seq<Topic>>, b: seq<seq<Topic>>)
    requires Classes(a) == Classes(b)
    ensures forall f: Labelling :: Constant(f, a) ==> Constant(f, b)
    ensures AllTopics(b) <= AllTopics(a)
  {
    forall f: Labelling, i | Constant(f, a) && 0 <= i < |b| ensures ConstantOn(f, b[i]) {
      var k := ClassAt(a, b, i);
      SameElements(a[k], b[i]);
    }
    forall x | x in AllTopics(b) ensures x in AllTopics(a) {
      var i :| 0 <= i < |b| && x in b[i];
      var k := ClassAt(a, b, i);
      assert x in Elems(b[i]);
      assert x in a[k];
    }
  }

  lemma ClassAt(a: seq<seq<Topic>>, b: seq<seq<Topic>>, i: nat) returns (k: nat)
    requires Classes(a) == Classes(b) && i < |b|
    ensures k < |a| && Elems(a[k]) == Elems(b[i])
  {
    assert Elems(b[i]) in Classes(b);
    k :| 0 <= k < |a| && Elems(a[k]) == Elems(b[i]);
  }

  /**
   * Given what the stores submitted, a pass with the loop as written has merge sets that
   * are right exactly when its calls end with those of the repaired loop, up to order.
   */
  lemma NormalizesAsWritten(kinds: seq<Kind>, s: State, kept: State, arrs: seq<seq<Topic>>)
    requires Submittable(arrs) && Normalizes(kinds, s, kept, FuseAll([], arrs))
    ensures var r := WrittenAll([], arrs);
            r.Added? && Normalizes(kinds, s, kept, r.lists) <==> EndsRepaired(arrs)
  {
    var r, sets := WrittenAll([], arrs), FuseAll([], arrs);
    hide WrittenAll, FuseAll, OneEach, RespectsAll, Live;
    if r.Added? {
      if Normalizes(kinds, s, kept, r.lists) {
        hide Partition, Constant, AllTopics, Classes;
        SameLabellingsSameClasses(r.lists, sets);
      }
      if EndsRepaired(arrs) {
        ClassesDecide(r.lists, sets);
        ClassesDecide(sets, r.lists);
        SetsNonEmpty(r.lists);
        hide Partition, Constant, AllTopics, Classes, NonEmpty;
      }
    }
  }

  lemma SetsNonEmpty(sets: seq<seq<Topic>>)
    requires Partition(sets)
    ensures NonEmpty(sets)
  {
  }

  /** A pass with the loop as written: what the stores submitted, and what came of it. */
  ghost predicate WrittenRound(kinds: seq<Kind>, s: State, arrs: seq<seq<Topic>>, r: Round) {
    && Submittable(arrs) && Normalizes(kinds, s, r.kept, FuseAll([], arrs))
    && WrittenAll([], arrs) == Added(r.sets) && Rewrites(kinds, r)
  }

  ghost predicate WrittenRun(kinds: seq<Kind>, s: State, subs: seq<seq<seq<Topic>>>, run: seq<Round>)
    decreases |run|
  {
    |subs| == |run|
    && (run == [] || (WrittenRound(kinds, s, subs[0], run[0]) && WrittenRun(kinds, run[0].after, subs[1..], run[1..])))
  }

  /** Such a pass is a round in the sense of the theorems exactly when its calls end as the repaired ones. */
  lemma WrittenRoundExactly(kinds: seq<Kind>, s: State, arrs: seq<seq<Topic>>, r: Round)
    requires WrittenRound(kinds, s, arrs, r)
    ensures IsRound(kinds, s, r) <==> EndsRepaired(arrs)
  {
    NormalizesAsWritten(kinds, s, r.kept, arrs);
  }

  lemma {:induction false} WrittenRunIsRun(kinds: seq<Kind>, s: State, subs: seq<seq<seq<Topic>>>, run: seq<Round>)
    requires WrittenRun(kinds, s, subs, run) && forall k :: 0 <= k < |subs| ==> EndsRepaired(subs[k])
    ensures IsRun(kinds, s, run)
    decreases |run|
  {
    if run != [] {
      hide EndsRepaired, WrittenRound, IsRound;
      WrittenRoundExactly(kinds, s, subs[0], run[0]);
      WrittenRunIsRun(kinds, run[0].after, subs[1..], run[1..]);
    }
  }

  /** Two settled merges of one topic map that lose nothing shared merge the same topics. */
  lemma RunsAgree(kinds: seq<Kind>, s: State, run: seq<Round>, run': seq<Round>, t: Topic, u: Topic)
    requires Good(kinds, s) && IsRun(kinds, s, run) && IsRun(kinds, s, run')
    requires Settles(kinds, s, run) && Settles(kinds, s, run') && NonEmptySets(run) && NonEmptySets(run')
    requires DropProne(kinds) ==> LostUnshared(kinds, s, run) && LostUnshared(kinds, s, run')
    ensures RunRep(run, t) == RunRep(run, u) <==> RunRep(run', t) == RunRep(run', u)
  {
    ComputesClosure(kinds, s, run);
    ComputesClosure(kinds, s, run');
    hide Good, IsRun, Settles, NonEmptySets, DropProne, LostUnshared, RunRep, Identified;
    assert |s| == |kinds| by { SameNumber(kinds, s); }
    assert RunRep(run, t) == RunRep(run, u) <==> Identified(kinds, s, t, u);
    assert RunRep(run', t) == RunRep(run', u) <==> Identified(kinds, s, t, u);
  }

  lemma SameNumber(kinds: seq<Kind>, s: State)
    requires Good(kinds, s)
    ensures |s| == |kinds|
  {
  }

  lemma ComputesClosure(kinds: seq<Kind>, s: State, run: seq<Round>)
    requires Good(kinds, s) && IsRun(kinds, s, run) && Settles(kinds, s, run) && NonEmptySets(run)
    requires DropProne(kinds) ==> LostUnshared(kinds, s, run)
    ensures IsClosure(kinds, s, run)
  {
    if DropProne(kinds) {
      MergeIsCongruenceClosure(kinds, s, run);
    } else {
      NotProneComplete(kinds, s, run);
    }
  }

  /**
   * Full merging with the loop as written merges the same topics as with the repaired one,
   * as long as the calls of each of its passes end as the repaired ones, in particular if
   * they are all handled, and the properties cannot, or the two merges do not, lose a
   * shared value.
   */
  lemma WrittenMergeAgrees(kinds: seq<Kind>, s: State, subs: seq<seq<seq<Topic>>>, written: seq<Round>,
                           run: seq<Round>, t: Topic, u: Topic)
    requires Good(kinds, s) && WrittenRun(kinds, s, subs, written) && IsRun(kinds, s, run)
    requires forall k :: 0 <= k < |subs| ==> AllHandled([], subs[k]) || EndsRepaired(subs[k])
    requires Settles(kinds, s, run) && Settles(kinds, s, written) && NonEmptySets(run) && NonEmptySets(written)
    requires DropProne(kinds) ==> LostUnshared(kinds, s, run) && LostUnshared(kinds, s, written)
    ensures RunRep(written, t) == RunRep(written, u) <==> RunRep(run, t) == RunRep(run, u)
  {
    forall k | 0 <= k < |subs| ensures EndsRepaired(subs[k]) {
      SubmittedAt(kinds, s, subs, written, k);
      if AllHandled([], subs[k]) { HandledEndsRepaired(subs[k]); }
    }
    hide *;
    WrittenRunIsRun(kinds, s, subs, written);
    RunsAgree(kinds, s, written, run, t, u);
  }

  lemma {:induction false} SubmittedAt(kinds: seq<Kind>, s: State, subs: seq<seq<seq<Topic>>>, run: seq<Round>, k: nat)
    requires WrittenRun(kinds, s, subs, run) && k < |subs|
    ensures Submittable(subs[k])
    decreases |run|
  {
    if k > 0 {
      SubmittedAt(kinds, run[0].after, subs[1..], run[1..], k - 1);
    }
  }
}
