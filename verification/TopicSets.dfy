/** The growable array of distinct topics behind merge sets and query results (src/topicset.c). */
module TopicSets {
  import opened Basics

  /** tm_topicset_disjoint, on the topics of the two sets. */
  method Disjoint(s: seq<Topic>, other: seq<Topic>) returns (r: bool)
    ensures r <==> DisjointSeqs(s, other)
  {
    for i := 0 to |other|
      invariant forall k :: 0 <= k < i ==> other[k] !in s
    {
      if other[i] in s {
        return false;
      }
    }
    return true;
  }

  /** One occurrence of the topic is gone, the others are in the same order. */
  ghost predicate TakenOut(before: seq<Topic>, topic: Topic, after: seq<Topic>) {
    exists i: nat :: i < |before| && before[i] == topic && after == Without(before, i)
  }

  class TopicSet {
    var count: nat
    var topics: array<Topic>

    /** tm_topicset_new: room for ten topics, whatever the hint. */
    constructor ()
      ensures Valid() && fresh(topics) && Contents() == []
    {
      count := 0;
      topics := new Topic[10](_ => 0);
      new;
      assert topics[..0] == [];
    }

    ghost predicate Valid()
      reads this, topics
    {
      count <= topics.Length && topics.Length > 0 && NoDup(topics[..count])
    }

    ghost function Contents(): (s: seq<Topic>)
      requires count <= topics.Length
      reads this, topics
    {
      topics[..count]
    }

    /** tm_topicset_add: appends unless present, doubling the array when it is full. */
    method Add(topic: Topic)
      requires Valid()
      modifies this, topics
      ensures Valid() && (topics == old(topics) || fresh(topics))
      ensures Contents() == AddTopic(old(Contents()), topic)
    {
      var found := Contains(topic);
      if found {
        return;
      }
      ghost var before := Contents();
      if count >= topics.Length {
        var core := topics;
        var more := new Topic[2 * core.Length](_ => 0);
        for i := 0 to core.Length
          invariant topics == core && count == old(count) && core[..] == old(topics[..]) && more[..i] == core[..i]
        {
          more[i] := core[i];
        }
        topics := more;
        assert Contents() == before;
      }
      topics[count] := topic;
      count := count + 1;
      assert Contents() == before + [topic];
    }

    /** tm_topicset_contains. */
    method Contains(topic: Topic) returns (r: bool)
      requires Valid()
      ensures r <==> topic in Contents()
    {
      for i := 0 to count
        invariant forall k :: 0 <= k < i ==> Contents()[k] != topic
      {
        if topics[i] == topic {
          assert Contents()[i] == topic;
          return true;
        }
      }
      return false;
    }

    /** tm_topicset_remove: closes the gap, so the order of the others stays. */
    method Remove(topic: Topic) returns (r: bool)
      requires Valid()
      modifies `count, topics
      ensures Valid() && (r <==> topic in old(Contents()))
      ensures !r ==> Contents() == old(Contents())
      ensures r ==> TakenOut(old(Contents()), topic, Contents())
    {
      ghost var before := Contents();
      for i := 0 to count
        invariant count == old(count) && Contents() == before && forall k :: 0 <= k < i ==> before[k] != topic
      {
        assert topics[i] == before[i];
        if topics[i] == topic {
          CloseGap(i);
          count := count - 1;
          WithoutNoDup(before, i);
          return true;
        }
      }
      return false;
    }

    method CloseGap(i: nat)
      requires i < count <= topics.Length
      modifies topics
      ensures topics[..count - 1] == Without(old(topics[..count]), i)
    {
      ghost var all := topics[..];
      for j := i to count - 1
        invariant forall k :: 0 <= k < i ==> topics[k] == all[k]
        invariant forall k :: i <= k < j ==> topics[k] == all[k + 1]
        invariant forall k :: j <= k < topics.Length ==> topics[k] == all[k]
      {
        topics[j] := topics[j + 1];
      }
      assert |topics[..count - 1]| == |Without(all[..count], i)|;
    }

    /** tm_topicset_equal: same size and inclusion one way, which is equality because nothing repeats. */
    method IsEqual(other: TopicSet) returns (r: bool)
      requires Valid() && other.Valid()
      ensures r <==> Elems(Contents()) == Elems(other.Contents())
    {
      NoDupSize(Contents());
      NoDupSize(other.Contents());
      if count != other.count {
        return false;
      }
      for i := 0 to other.count
        invariant forall k :: 0 <= k < i ==> other.Contents()[k] in Contents()
      {
        assert other.Contents()[i] == other.topics[i];
        var found := Contains(other.topics[i]);
        if !found {
          assert other.topics[i] in Elems(other.Contents());
          return false;
        }
      }
      SameSizeSubset(other.Contents(), Contents());
      return true;
    }
  }

  lemma WithoutNoDup(s: seq<Topic>, i: nat)
    requires NoDup(s) && i < |s|
    ensures NoDup(Without(s, i))
  {
    var w := Without(s, i);
    assert forall k :: 0 <= k < i ==> w[k] == s[k];
    assert forall k :: i <= k < |w| ==> w[k] == s[k + 1];
  }
}
