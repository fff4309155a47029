/** Identifiers and the few sequence facts that every other module uses. */
module Basics {
  /** A topic ID. 0 is the null topic; the operations below do not depend on that. */
  type Topic = nat

  /** A value ID. 0 means "no value", as in the stores' lookup results. */
  type Vid = nat

  type Locator = string

  datatype Option<+T> = None | Some(value: T)

  /** A labelling of topics; two topics are identified by it when their labels agree. */
  type Labelling = Topic -> nat

  ghost predicate NoDup<T>(s: seq<T>) {
    forall i, j :: 0 <= i < j < |s| ==> s[i] != s[j]
  }

  function Elems<T>(s: seq<T>): set<T> {
    set x | x in s
  }

  lemma ElemsConcat<T>(s: seq<T>, t: seq<T>)
    ensures Elems(s + t) == Elems(s) + Elems(t)
  {
  }

  function Without<T>(s: seq<T>, i: nat): seq<T>
    requires i < |s|
  {
    s[..i] + s[i + 1..]
  }

  /** What tm_topicset_add does to the topics array: append unless present. */
  function AddTopic<T(==)>(s: seq<T>, t: T): seq<T> {
    if t in s then s else s + [t]
  }

  /** tm_topicset_add for each element of ts, left to right. */
  function AddTopics<T(==)>(s: seq<T>, ts: seq<T>): (r: seq<T>)
    ensures Elems(r) == Elems(s) + Elems(ts)
    ensures |s| <= |r| && r[..|s|] == s
    decreases |ts|
  {
    if ts == [] then s
    else
      assert ts == [ts[0]] + ts[1..];
      AddTopics(AddTopic(s, ts[0]), ts[1..])
  }

  lemma AddTopicsNoDup<T>(s: seq<T>, ts: seq<T>)
    requires NoDup(s)
    ensures NoDup(AddTopics(s, ts))
    decreases |ts|
  {
    if ts != [] {
      AddTopicsNoDup(AddTopic(s, ts[0]), ts[1..]);
    }
  }

  /** Adding elements that are all new and distinct appends them. */
  lemma {:induction false} AddTopicsNew<T>(s: seq<T>, ts: seq<T>)
    requires NoDup(s + ts)
    ensures AddTopics(s, ts) == s + ts
    decreases |ts|
  {
    if ts == [] {
      assert s + ts == s;
    } else {
      assert (s + ts)[|s|] == ts[0] && forall j :: 0 <= j < |s| ==> (s + ts)[j] == s[j];
      assert s + ts == (s + [ts[0]]) + ts[1..];
      AddTopicsNew(AddTopic(s, ts[0]), ts[1..]);
    }
  }

  /** tm_list_push for each element of ts that the list lacks, so the last one comes first. */
  function PushAll<T(==)>(acc: seq<T>, ts: seq<T>): seq<T>
    decreases |ts|
  {
    if ts == [] then acc
    else
      var before := PushAll(acc, ts[..|ts| - 1]);
      if ts[|ts| - 1] in before then before else [ts[|ts| - 1]] + before
  }

  lemma PushNext<T>(acc: seq<T>, ts: seq<T>, i: nat)
    requires i < |ts|
    ensures var before := PushAll(acc, ts[..i]);
            PushAll(acc, ts[..i + 1]) == if ts[i] in before then before else [ts[i]] + before
  {
    assert ts[..i + 1][..i] == ts[..i];
  }

  ghost predicate DisjointSeqs<T>(s: seq<T>, t: seq<T>) {
    forall x :: x in s ==> x !in t
  }

  /** f gives one label to all elements of s. */
  ghost predicate ConstantOn(f: Labelling, s: seq<Topic>) {
    forall x, y :: x in s && y in s ==> f(x) == f(y)
  }

  lemma {:induction false} NoDupSize<T>(s: seq<T>)
    requires NoDup(s)
    ensures |Elems(s)| == |s|
  {
    if s != [] {
      NoDupSize(s[1..]);
      assert s == [s[0]] + s[1..];
      assert Elems(s) == {s[0]} + Elems(s[1..]);
      assert s[0] !in Elems(s[1..]);
    }
  }

  lemma SubsetSameSize<T>(a: set<T>, b: set<T>)
    requires a <= b && |a| == |b|
    ensures a == b
  {
    if x :| x in b && x !in a {
      SubsetAtMost(a, b - {x});
    }
  }

  lemma {:induction false} SubsetAtMost<T>(a: set<T>, b: set<T>)
    requires a <= b
    ensures |a| <= |b|
    decreases |a|
  {
    if a != {} {
      var x :| x in a;
      SubsetAtMost(a - {x}, b - {x});
    }
  }

  lemma SameSizeSubset<T>(a: seq<T>, b: seq<T>)
    requires NoDup(a) && NoDup(b) && |a| == |b|
    requires forall k :: 0 <= k < |a| ==> a[k] in b
    ensures Elems(a) == Elems(b)
  {
    NoDupSize(a);
    NoDupSize(b);
    SubsetSameSize(Elems(a), Elems(b));
  }
}
