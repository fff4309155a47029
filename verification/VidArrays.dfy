/**
 * vid_to_topiclist_array (stores/memstore/propertystore.c): an array over VIDs of topic
 * arrays that carry their allocated size and their length in front. Its operations are
 * those on the map that PropertyStores.dfy uses in its place.
 */
module VidArrays {
  import opened Basics
  import opened Tables

  const INIT_SIZE := 100
  const ARRAY_INIT_SIZE := 4

  /** Size and length fit the allocation, and there is a topic; [] stands for NULL. */
  ghost predicate RawOk(a: seq<nat>) {
    |a| >= 3 && a[0] == |a| && 1 <= a[1] && 2 + a[1] <= |a|
  }

  function Listed(a: seq<nat>): seq<Topic>
    requires |a| >= 2 && 2 + a[1] <= |a|
  {
    a[2..2 + a[1]]
  }

  ghost predicate AllOk(arrays: seq<seq<nat>>) {
    forall v :: 0 <= v < |arrays| && arrays[v] != [] ==> RawOk(arrays[v])
  }

  ghost function ViewOf(arrays: seq<seq<nat>>): TopicLists
    requires AllOk(arrays)
  {
    map v: Vid | v < |arrays| && arrays[v] != [] :: Listed(arrays[v])
  }

  lemma GrownView(arrays: seq<seq<nat>>, more: seq<seq<nat>>)
    requires AllOk(arrays) && |arrays| <= |more| && more[..|arrays|] == arrays
    requires forall v :: |arrays| <= v < |more| ==> more[v] == []
    ensures AllOk(more) && ViewOf(more) == ViewOf(arrays)
  {
    forall v | 0 <= v < |arrays| ensures more[v] == arrays[v] { assert more[..|arrays|][v] == arrays[v]; }
  }

  lemma ChangedView(arrays: seq<seq<nat>>, v: Vid, a: seq<nat>)
    requires AllOk(arrays) && v < |arrays| && (a != [] ==> RawOk(a))
    ensures AllOk(arrays[v := a])
    ensures ViewOf(arrays[v := a]) == if a == [] then ViewOf(arrays) - {v} else ViewOf(arrays)[v := Listed(a)]
  {
  }

  // --- one topic array ---------------------------------------------------------------

  /** _can_append, _resize and _append on an array that may be new. */
  method AppendTo(a: seq<nat>, topic: Topic) returns (r: seq<nat>)
    requires a != [] ==> RawOk(a)
    ensures RawOk(r) && Listed(r) == (if a == [] then [] else Listed(a)) + [topic]
    ensures r[r[1] + 1] == topic
  {
    r := a;
    if r == [] {
      r := [ARRAY_INIT_SIZE, 0, 0, 0];
    }
    ghost var before := Listed(r);
    if !(r[0] - 2 > r[1]) {
      var size := r[0];
      r := r + seq(size, _ => 0);
      r := r[0 := 2 * size];
      assert Listed(r) == before;
    }
    var n := r[1];
    r := r[2 + n := topic][1 := n + 1];
    assert Listed(r) == before + [topic];
  }

  /** The search for a topic in its list (propertystore.c:214-222). */
  method Find(a: seq<nat>, topic: Topic) returns (i: nat)
    requires RawOk(a) && topic in Listed(a)
    ensures i < a[1] && Listed(a)[i] == topic && topic !in Listed(a)[..i]
  {
    ghost var ts := Listed(a);
    i := 0;
    ghost var at :| 0 <= at < |ts| && ts[at] == topic;
    while a[i + 2] != topic
      invariant i <= at && topic !in ts[..i]
      decreases a[1] - i
    {
      assert ts[i] == a[i + 2];
      assert ts[..i + 1] == ts[..i] + [a[i + 2]];
      i := i + 1;
    }
  }

  /** The removal of a topic from a list of several (propertystore.c:223-236). */
  method TakeOut(a: seq<nat>, i: nat) returns (r: seq<nat>)
    requires RawOk(a) && a[1] > 1 && i < a[1]
    ensures RawOk(r) && Listed(r) == Listed(a)[..i] + Listed(a)[i + 1..]
  {
    var n := a[1];
    r := a;
    if i == n - 1 {
      r := r[n + 1 := 0];
    } else {
      for j := i to n - 1
        invariant r == a[..i + 2] + a[i + 3..j + 3] + a[j + 2..]
      {
        assert r[j + 3] == a[j + 3];
        assert a[i + 3..j + 4] == a[i + 3..j + 3] + [a[j + 3]];
        r := r[j + 2 := r[j + 3]];
      }
    }
    assert r[0] == a[0] && r[1] == n && |r| == |a|;
    Gone(a, i, r);
    r := r[1 := n - 1];
  }

  lemma Gone(a: seq<nat>, i: nat, r: seq<nat>)
    requires RawOk(a) && i < a[1] && |r| == |a| && r[1] == a[1]
    requires forall k :: 2 <= k < i + 2 ==> r[k] == a[k]
    requires forall k :: i + 2 <= k < a[1] + 1 ==> r[k] == a[k + 1]
    ensures Listed(r[1 := a[1] - 1]) == Listed(a)[..i] + Listed(a)[i + 1..]
  {
    var s := r[1 := a[1] - 1];
    var t := Listed(a)[..i] + Listed(a)[i + 1..];
    forall k | 0 <= k < a[1] - 1 ensures Listed(s)[k] == t[k] {
      if k >= i { assert Listed(a)[k + 1] == a[k + 3]; }
    }
  }

  class VidArrays {
    var arrays: array<seq<nat>>

    constructor ()
      ensures Valid() && fresh(arrays) && View() == map[]
    {
      arrays := new seq<nat>[INIT_SIZE](_ => []);
    }

    ghost predicate Valid()
      reads this, arrays
    {
      arrays.Length > 0 && AllOk(arrays[..])
    }

    ghost function View(): TopicLists
      requires Valid()
      reads this, arrays
    {
      ViewOf(arrays[..])
    }

    /** The array part of insert. The null topic is not accepted (propertystore.c:491). */
    method Insert(vid: Vid, topic: Topic)
      requires Valid() && topic != 0
      modifies this, arrays
      ensures Valid() && (arrays == old(arrays) || fresh(arrays)) && View() == Append(old(View()), vid, topic)
    {
      hide RawOk, Listed, AllOk, ViewOf;
      Grow(vid);
      ghost var before := arrays[..];
      At(before, vid);
      var r := AppendTo(arrays[vid], topic);
      NotNull(r);
      ChangedView(before, vid, r);
      arrays[vid] := r;
      assert arrays[..] == before[vid := r];
    }

    /** The growth by doubling until there is a place for vid (propertystore.c:153-171). */
    method Grow(vid: Vid)
      requires Valid()
      modifies this
      ensures Valid() && vid < arrays.Length && View() == old(View()) && (arrays == old(arrays) || fresh(arrays))
    {
      var core := arrays;
      if vid >= core.Length {
        var size := 2 * core.Length;
        while vid >= size
          invariant size >= core.Length
          decreases vid - size
        {
          size := 2 * size;
        }
        var more := new seq<nat>[size](_ => []);
        for i := 0 to core.Length
          invariant more[..i] == core[..i] && forall v :: i <= v < size ==> more[v] == []
        {
          more[i] := core[i];
        }
        assert more[..core.Length] == core[..];
        GrownView(core[..], more[..]);
        arrays := more;
      }
    }

    /** The array part of remove; last tells that the value has lost its last topic. */
    method Remove(vid: Vid, topic: Topic) returns (last: bool, ghost at: nat)
      requires Valid() && vid in View() && topic in View()[vid]
      modifies arrays
      ensures Valid() && at < |old(View())[vid]| && old(View())[vid][at] == topic
      ensures last == (|old(View())[vid]| == 1) && View() == Drop(old(View()), vid, at)
    {
      ghost var before := arrays[..];
      var a := arrays[vid];
      at := 0;
      last := a[1] == 1;
      if last {
        ChangedView(before, vid, []);
        arrays[vid] := [];
        assert arrays[..] == before[vid := []];
      } else {
        hide RawOk, Listed, AllOk, ViewOf;
        At(before, vid);
        var i := Find(a, topic);
        var r := TakeOut(a, i);
        at := i;
        NotNull(r);
        ChangedView(before, vid, r);
        arrays[vid] := r;
        assert arrays[..] == before[vid := r];
      }
    }

    /** The shrinking that normalization does: only the first topic stays (propertystore.c:452-454). */
    method KeepFirst(vid: Vid)
      requires Valid() && vid in View()
      modifies arrays
      ensures Valid() && old(View())[vid] != [] && View() == old(View())[vid := [old(View())[vid][0]]]
    {
      ghost var before := arrays[..];
      var a := arrays[vid];
      var r := [3, 1, a[2]];
      assert Listed(r) == [a[2]] == [Listed(a)[0]];
      ChangedView(before, vid, r);
      arrays[vid] := r;
      assert arrays[..] == before[vid := r];
    }

    /** _mempropertystore_lookup_topics. */
    method Topics(vid: Vid) returns (topics: seq<Topic>)
      requires Valid() && vid in View()
      ensures topics == View()[vid] && topics != []
    {
      var a := arrays[vid];
      topics := a[2..2 + a[1]];
    }
  }

  lemma At(arrays: seq<seq<nat>>, v: Vid)
    requires AllOk(arrays) && v < |arrays|
    ensures arrays[v] != [] ==>
              RawOk(arrays[v]) && v in ViewOf(arrays) && ViewOf(arrays)[v] == Listed(arrays[v])
              && |Listed(arrays[v])| == arrays[v][1]
    ensures arrays[v] == [] ==> v !in ViewOf(arrays)
  {
  }

  lemma NotNull(a: seq<nat>)
    requires RawOk(a)
    ensures a != []
  {
  }
}
