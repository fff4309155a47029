/**
 * tm_topicmap_add_mergelist exactly as it stands in src/topicmap.c:2425-2492, defects
 * included, and the exact condition under which it builds the intended merge sets.
 */
module AddMergeListAsWritten {
  import opened Basics
  import opened MergeSets

  /**
   * OutOfRange: the assertion of tm_topicset_get fails. Dangling: the head of the list was
   * freed together with all that follows it, and the loop goes on with freed memory.
   */
  datatype AddResult = Added(lists: seq<seq<Topic>>) | OutOfRange | Dangling

  predicate Overlap(s: seq<Topic>, t: seq<Topic>) {
    Elems(s) * Elems(t) != {}
  }

  /**
   * The loop: passed are the lists already kept, rest those still to be visited. The copy
   * loop runs to len, the length of the array, not to the size that the set has by now.
   */
  function Scan(passed: seq<seq<Topic>>, rest: seq<seq<Topic>>, fused: seq<Topic>, len: nat): AddResult
    decreases |rest|
  {
    if rest == [] then Added([fused] + passed)
    else if !Overlap(rest[0], fused) then Scan(passed + [rest[0]], rest[1..], fused, len)
    else if |fused| < len then OutOfRange
    else if passed != [] then Scan(passed, rest[1..], AddTopics(rest[0], fused[..len]), len)
    else if |rest| == 1 then Added([AddTopics(rest[0], fused[..len])])
    else Dangling
  }

  /** The whole call: the working set starts as the set of the array's topics. */
  function Written(lists: seq<seq<Topic>>, arr: seq<Topic>): AddResult {
    Scan([], lists, AddTopics([], arr), |arr|)
  }

  /** The loops of the source. */
  method AddAsWritten(lists: seq<seq<Topic>>, arr: seq<Topic>) returns (r: AddResult)
    ensures r == Written(lists, arr)
  {
    var fused: seq<Topic> := [];
    for i := 0 to |arr|
      invariant AddTopics(fused, arr[i..]) == AddTopics([], arr)
    {
      assert arr[i..][0] == arr[i] && arr[i..][1..] == arr[i + 1..];
      fused := AddTopic(fused, arr[i]);
    }
    var passed: seq<seq<Topic>>, rest := [], lists;
    while rest != []
      invariant Scan(passed, rest, fused, |arr|) == Written(lists, arr)
      decreases |rest|
    {
      var other := rest[0];
      if !Overlap(other, fused) {
        passed := passed + [other];
      } else {
        if |fused| < |arr| {
          return OutOfRange;
        }
        fused := AddTopics(other, fused[..|arr|]);
        if passed == [] {
          return if |rest| == 1 then Added([fused]) else Dangling;
        }
      }
      rest := rest[1..];
    }
    return Added([fused] + passed);
  }

  /** The call succeeds and its sets are the classes that the old sets and the array generate. */
  ghost predicate AsIntended(lists: seq<seq<Topic>>, arr: seq<Topic>, r: AddResult) {
    r.Added? && forall f: Labelling :: Constant(f, r.lists) <==> Constant(f, lists) && ConstantOn(f, arr)
  }

  function Minus(s: seq<Topic>, t: seq<Topic>): seq<Topic> {
    if s == [] then [] else (if s[0] in t then [] else [s[0]]) + Minus(s[1..], t)
  }

  function Prefix(s: seq<Topic>, n: int): seq<Topic> {
    if n < 0 then [] else if n < |s| then s[..n] else s
  }

  /**
   * Nothing is lost on the way. left: the elements of the array that no absorbed set
   * contains, in array order; room: how many of them the next copy loop carries over,
   * after the elements of the absorbed sets.
   */
  predicate Carried(rest: seq<seq<Topic>>, arr: seq<Topic>, left: seq<Topic>, room: int)
    decreases |rest|
  {
    rest == [] ||
    if !Overlap(rest[0], arr) then Carried(rest[1..], arr, left, room)
    else
      && room >= 0
      && Overlap(rest[0], left)
      && (forall x :: x in left && x !in Prefix(left, room) ==> x in AllTopics(rest))
      && Carried(rest[1..], arr, Minus(Prefix(left, room), rest[0]), room - |rest[0]|)
  }

  // --- sequences -----------------------------------------------------------------

  lemma {:induction false} MinusElems(s: seq<Topic>, t: seq<Topic>)
    ensures forall x :: x in Minus(s, t) <==> x in s && x !in t
    ensures NoDup(s) ==> NoDup(Minus(s, t))
  {
    if s != [] {
      MinusElems(s[1..], t);
    }
  }

  lemma {:induction false} MinusConcat(a: seq<Topic>, b: seq<Topic>, t: seq<Topic>)
    ensures Minus(a + b, t) == Minus(a, t) + Minus(b, t)
  {
    if a == [] {
      assert a + b == b;
    } else {
      assert (a + b)[1..] == a[1..] + b;
      MinusConcat(a[1..], b, t);
    }
  }

  lemma {:induction false} MinusDisjoint(s: seq<Topic>, t: seq<Topic>)
    requires forall x :: x in s ==> x !in t
    ensures Minus(s, t) == s
  {
    if s != [] { MinusDisjoint(s[1..], t); }
  }

  lemma {:induction false} MinusAgrees(s: seq<Topic>, t: seq<Topic>, u: seq<Topic>)
    requires forall x :: x in s ==> (x in t <==> x in u)
    ensures Minus(s, t) == Minus(s, u)
  {
    if s != [] { MinusAgrees(s[1..], t, u); }
  }

  /** Adding a duplicate-free sequence appends what is new in it. */
  lemma {:induction false} AddTopicsIs(s: seq<Topic>, t: seq<Topic>)
    requires NoDup(t)
    ensures AddTopics(s, t) == s + Minus(t, s)
    decreases |t|
  {
    if t != [] {
      hide Elems;
      var s', rest := AddTopic(s, t[0]), t[1..];
      AddTopicsIs(s', rest);
      assert t[0] !in rest;
      MinusAgrees(rest, s', s);
      PushMinus(s, t);
    }
  }

  lemma PushMinus(s: seq<Topic>, t: seq<Topic>)
    requires t != []
    ensures AddTopic(s, t[0]) + Minus(t[1..], s) == s + Minus(t, s)
  {
    if t[0] !in s {
      assert s + [t[0]] + Minus(t[1..], s) == s + ([t[0]] + Minus(t[1..], s));
    }
  }

  /** What one absorption makes of the working set. */
  lemma AbsorbStep(list: seq<Topic>, absorbed: seq<Topic>, left: seq<Topic>, len: nat)
    requires NoDup(absorbed + left) && NoDup(list) && |absorbed| <= len <= |absorbed + left|
    requires forall x :: x in absorbed ==> x !in list
    ensures AddTopics(list, (absorbed + left)[..len])
            == (list + absorbed) + Minus(Prefix(left, len - |absorbed|), list)
  {
    var kept := Prefix(left, len - |absorbed|);
    CopiedPart(absorbed, left, len);
    hide NoDup, Prefix, AddTopics, Minus;
    AddTopicsIs(list, absorbed + kept);
    MinusConcat(absorbed, kept, list);
    MinusDisjoint(absorbed, list);
    assert list + (absorbed + Minus(kept, list)) == (list + absorbed) + Minus(kept, list);
  }

  /** What the copy loop takes of the working set. */
  lemma CopiedPart(absorbed: seq<Topic>, left: seq<Topic>, len: nat)
    requires |absorbed| <= len <= |absorbed + left|
    ensures (absorbed + left)[..len] == absorbed + Prefix(left, len - |absorbed|)
    ensures NoDup(absorbed + left) ==> NoDup(absorbed + Prefix(left, len - |absorbed|))
  {
    var all, part := absorbed + left, absorbed + Prefix(left, len - |absorbed|);
    assert all[..len] == part;
    assert forall i :: 0 <= i < |part| ==> part[i] == all[i];
  }

  // --- the loop keeps every labelling --------------------------------------------------

  lemma ConstantTail(f: Labelling, rest: seq<seq<Topic>>)
    requires rest != [] && Constant(f, rest)
    ensures ConstantOn(f, rest[0]) && Constant(f, rest[1..])
  {
  }

  /** A labelling that identifies inside every list and inside the working set does so in the result, lossy or not. */
  lemma {:induction false} ScanKeeps(f: Labelling, passed: seq<seq<Topic>>, rest: seq<seq<Topic>>, fused: seq<Topic>,
                                     len: nat)
    requires Constant(f, passed) && Constant(f, rest) && ConstantOn(f, fused)
    ensures Scan(passed, rest, fused, len).Added? ==> Constant(f, Scan(passed, rest, fused, len).lists)
    decreases |rest|
  {
    if rest == [] {
      ConstantPush(f, fused, passed);
    } else {
      ConstantTail(f, rest);
      if !Overlap(rest[0], fused) {
        ScanKeeps(f, passed + [rest[0]], rest[1..], fused, len);
      } else if |fused| >= len {
        var u := AddTopics(rest[0], fused[..len]);
        UnionConstant(f, rest[0], fused, len);
        if passed != [] {
          ScanKeeps(f, passed, rest[1..], u, len);
        } else {
          assert Constant(f, [u]);
        }
      }
    }
  }

  lemma UnionConstant(f: Labelling, s: seq<Topic>, t: seq<Topic>, len: nat)
    requires ConstantOn(f, s) && ConstantOn(f, t) && Overlap(s, t) && len <= |t|
    ensures ConstantOn(f, AddTopics(s, t[..len]))
  {
    var c :| c in Elems(s) * Elems(t);
    var u := AddTopics(s, t[..len]);
    forall x | x in u ensures f(x) == f(c) {
      assert x in Elems(u);
      if x in t[..len] { assert x in t; }
    }
  }

  // --- the invariant of the loop ---------------------------------------------------------

  /**
   * The state of the loop: the working set is what has been absorbed followed by what is
   * left of the array; the sets passed by do not overlap the array.
   */
  ghost predicate Tracks(lists: seq<seq<Topic>>, arr: seq<Topic>, passed: seq<seq<Topic>>, rest: seq<seq<Topic>>,
                         absorbed: seq<Topic>, left: seq<Topic>) {
    && Partition(rest) && Partition(lists) && Partition(passed) && NoDup(arr)
    && NoDup(absorbed + left) && |absorbed + left| >= |arr|
    && (forall x :: x in left ==> x in arr)
    && (forall x :: x in absorbed ==> x in AllTopics(lists) && x !in AllTopics(rest) && x !in AllTopics(passed))
    && (forall i :: 0 <= i < |passed| ==> !Overlap(passed[i], arr))
    && (forall i, j :: 0 <= i < |passed| && 0 <= j < |rest| ==> !Overlap(passed[i], rest[j]))
    && (if absorbed == [] then left == arr else exists x :: x in arr && x in absorbed)
  }

  /** No constraint is missing: everything is in the working set or still to come. */
  ghost predicate Complete(lists: seq<seq<Topic>>, arr: seq<Topic>, passed: seq<seq<Topic>>, rest: seq<seq<Topic>>,
                           absorbed: seq<Topic>, left: seq<Topic>) {
    && (forall x :: x in arr ==> x in absorbed || x in left || x in AllTopics(rest))
    && (forall f: Labelling ::
      Constant(f, passed) && Constant(f, rest) && ConstantOn(f, absorbed) ==> Constant(f, lists))
  }

  /** No constraint is added. */
  ghost predicate Justified(lists: seq<seq<Topic>>, arr: seq<Topic>, passed: seq<seq<Topic>>, rest: seq<seq<Topic>>,
                            fused: seq<Topic>) {
    forall f: Labelling :: Constant(f, lists) && ConstantOn(f, arr) ==>
      Constant(f, passed) && Constant(f, rest) && ConstantOn(f, fused)
  }

  function Mark(s: set<Topic>): Labelling {
    t => if t in s then 1 else 0
  }

  /** A set that still has the marked topics apart is not the intended one. */
  lemma NotIntended(lists: seq<seq<Topic>>, arr: seq<Topic>, passed: seq<seq<Topic>>, rest: seq<seq<Topic>>,
                    fused: seq<Topic>, marked: set<Topic>)
    requires Constant(Mark(marked), passed) && Constant(Mark(marked), rest) && ConstantOn(Mark(marked), fused)
    requires !(Constant(Mark(marked), lists) && ConstantOn(Mark(marked), arr))
    ensures !AsIntended(lists, arr, Scan(passed, rest, fused, |arr|))
  {
    ScanKeeps(Mark(marked), passed, rest, fused, |arr|);
  }

  lemma MarkOne(x: Topic, lists: seq<seq<Topic>>)
    requires x !in AllTopics(lists)
    ensures Constant(Mark({x}), lists)
  {
    forall i | 0 <= i < |lists| ensures ConstantOn(Mark({x}), lists[i]) {
      assert forall y :: y in lists[i] ==> y in AllTopics(lists);
    }
  }

  lemma MarkOneBreaks(x: Topic, y: Topic, s: seq<Topic>)
    requires x in s && y in s && x != y
    ensures !ConstantOn(Mark({x}), s)
  {
    assert Mark({x})(x) != Mark({x})(y);
  }

  // --- the four ways a step can go --------------------------------------------------------

  /** A list that overlaps the array but no longer the working set stays apart from it for good. */
  lemma Unnoticed(lists: seq<seq<Topic>>, arr: seq<Topic>, passed: seq<seq<Topic>>, rest: seq<seq<Topic>>,
                  absorbed: seq<Topic>, left: seq<Topic>)
    requires Tracks(lists, arr, passed, rest, absorbed, left) && rest != []
    requires Overlap(rest[0], arr) && !Overlap(rest[0], left)
    ensures !AsIntended(lists, arr, Scan(passed, rest, absorbed + left, |arr|))
  {
    AllTopicsTail(rest);
    var f := Mark(Elems(rest[0]));
    var c :| c in Elems(rest[0]) * Elems(arr);
    assert c !in left by { assert c !in Elems(rest[0]) * Elems(left); }
    var x :| x in arr && x in absorbed;
    assert x !in rest[0] && f(x) != f(c);
    forall i | 0 <= i < |passed| ensures ConstantOn(f, passed[i]) {
      assert !Overlap(passed[i], rest[0]);
      forall y | y in passed[i] ensures y !in rest[0] { assert y !in Elems(passed[i]) * Elems(rest[0]); }
    }
    forall j | 0 <= j < |rest| ensures ConstantOn(f, rest[j]) {
      if j > 0 { assert DisjointSeqs(rest[0], rest[j]); }
    }
    forall y | y in absorbed + left ensures y !in rest[0] {
      if y in left { assert y !in Elems(rest[0]) * Elems(left); }
    }
    NotIntended(lists, arr, passed, rest, absorbed + left, Elems(rest[0]));
  }

  lemma NotCopied(s: seq<Topic>, fused: seq<Topic>, len: nat, k: nat)
    requires len <= k < |fused| && NoDup(fused) && fused[k] !in s
    ensures fused[k] !in AddTopics(s, fused[..len])
  {
    var u := AddTopics(s, fused[..len]);
    forall y | y in u ensures y != fused[k] {
      assert y in Elems(u);
      if y in fused[..len] {
        var i :| 0 <= i < len && fused[i] == y;
      }
    }
  }

  /** The set after a noticed overlap, when the copy loop drops the topic x for good. */
  lemma Dropped(lists: seq<seq<Topic>>, arr: seq<Topic>, passed: seq<seq<Topic>>, rest: seq<seq<Topic>>,
                absorbed: seq<Topic>, left: seq<Topic>, k: nat)
    requires Tracks(lists, arr, passed, rest, absorbed, left) && rest != [] && passed != []
    requires Overlap(rest[0], left)
    requires |arr| <= k < |absorbed + left| && (absorbed + left)[k] !in AllTopics(rest)
    ensures !AsIntended(lists, arr, Scan(passed, rest, absorbed + left, |arr|))
  {
    var fused := absorbed + left;
    var x := fused[k];
    var u := AddTopics(rest[0], fused[..|arr|]);
    AllTopicsTail(rest);
    assert Overlap(rest[0], fused) by {
      var c :| c in Elems(rest[0]) * Elems(left);
      assert c in Elems(rest[0]) * Elems(fused);
    }
    assert x !in AllTopics(passed) by { DroppedFrom(lists, arr, passed, rest, absorbed, left, x); }
    MarkOne(x, passed);
    MarkOne(x, rest[1..]);
    assert NoDup(fused) && x !in rest[0];
    NotCopied(rest[0], fused, |arr|, k);
    hide AddTopics, NoDup;
    if x in left {
      var c :| c in Elems(rest[0]) * Elems(left);
      MarkOneBreaks(x, c, arr);
    } else {
      var i :| 0 <= i < |lists| && x in lists[i];
      MarkOneBreaks(x, if lists[i][0] == x then lists[i][1] else lists[i][0], lists[i]);
    }
    NotIntended(lists, arr, passed, rest[1..], u, {x});
  }

  lemma DroppedFrom(lists: seq<seq<Topic>>, arr: seq<Topic>, passed: seq<seq<Topic>>, rest: seq<seq<Topic>>,
                    absorbed: seq<Topic>, left: seq<Topic>, x: Topic)
    requires Tracks(lists, arr, passed, rest, absorbed, left) && x in absorbed + left
    ensures x !in AllTopics(passed)
  {
    if x in left {
      forall i | 0 <= i < |passed| ensures x !in passed[i] {
        assert x !in Elems(passed[i]) * Elems(arr);
      }
    }
  }

  lemma PassedPartition(passed: seq<seq<Topic>>, list: seq<Topic>)
    requires Partition(passed) && NoDup(list) && |list| >= 2
    requires forall i :: 0 <= i < |passed| ==> !Overlap(passed[i], list)
    ensures Partition(passed + [list])
  {
    var p := passed + [list];
    assert forall i :: 0 <= i < |passed| ==> p[i] == passed[i];
    forall i | 0 <= i < |passed| ensures DisjointSeqs(passed[i], list) {
      MeetsElems(passed[i], list);
    }
  }

  lemma TracksPass(lists: seq<seq<Topic>>, arr: seq<Topic>, passed: seq<seq<Topic>>, rest: seq<seq<Topic>>,
                   absorbed: seq<Topic>, left: seq<Topic>)
    requires Tracks(lists, arr, passed, rest, absorbed, left) && rest != [] && !Overlap(rest[0], arr)
    ensures Tracks(lists, arr, passed + [rest[0]], rest[1..], absorbed, left)
    ensures !Overlap(rest[0], absorbed + left)
  {
    AllTopicsTail(rest);
    PassedPartition(passed, rest[0]);
    var p := passed + [rest[0]];
    forall x, i | x in absorbed && 0 <= i < |p| ensures x !in p[i] {
      if i < |passed| { assert p[i] == passed[i]; } else { assert p[i] == rest[0]; }
    }
    forall i, j | 0 <= i < |p| && 0 <= j < |rest[1..]| ensures !Overlap(p[i], rest[1..][j]) {
      if i == |passed| {
        assert DisjointSeqs(rest[0], rest[j + 1]);
        assert forall x :: x in Elems(rest[0]) ==> x !in Elems(rest[j + 1]);
      } else {
        assert p[i] == passed[i] && rest[1..][j] == rest[j + 1];
      }
    }
    forall x | x in absorbed + left ensures x !in Elems(rest[0]) {
      if x in left { assert x !in Elems(rest[0]) * Elems(arr); }
    }
  }

  lemma TracksAbsorb(lists: seq<seq<Topic>>, arr: seq<Topic>, passed: seq<seq<Topic>>, rest: seq<seq<Topic>>,
                     absorbed: seq<Topic>, left: seq<Topic>)
    requires Tracks(lists, arr, passed, rest, absorbed, left) && rest != []
    requires Overlap(rest[0], left) && |absorbed| <= |arr|
    requires forall x :: x in rest[0] ==> x in AllTopics(lists)
    ensures var kept := Minus(Prefix(left, |arr| - |absorbed|), rest[0]);
            && Tracks(lists, arr, passed, rest[1..], rest[0] + absorbed, kept)
            && AddTopics(rest[0], (absorbed + left)[..|arr|]) == (rest[0] + absorbed) + kept
  {
    hide Tracks, Minus, Prefix, AddTopics, Overlap, AllTopics, Partition;
    var list, kept := rest[0], Minus(Prefix(left, |arr| - |absorbed|), rest[0]);
    TracksParts(lists, arr, passed, rest, absorbed, left);
    AbsorbStep(list, absorbed, left, |arr|);
    AddTopicsNoDup(list, (absorbed + left)[..|arr|]);
    MinusElems(Prefix(left, |arr| - |absorbed|), list);
    PrefixElems(left, |arr| - |absorbed|);
    GrownSize(list, (absorbed + left)[..|arr|]);
    TracksKept(lists, arr, passed, rest, absorbed, left, kept);
  }

  lemma TracksParts(lists: seq<seq<Topic>>, arr: seq<Topic>, passed: seq<seq<Topic>>, rest: seq<seq<Topic>>,
                    absorbed: seq<Topic>, left: seq<Topic>)
    requires Tracks(lists, arr, passed, rest, absorbed, left) && rest != []
    ensures NoDup(absorbed + left) && |arr| <= |absorbed + left| && NoDup((absorbed + left)[..|arr|]) && NoDup(rest[0])
    ensures forall x :: x in absorbed ==> x !in rest[0]
  {
    AllTopicsTail(rest);
  }

  lemma PrefixElems(s: seq<Topic>, n: int)
    ensures forall x :: x in Prefix(s, n) ==> x in s
  {
  }

  lemma TracksKept(lists: seq<seq<Topic>>, arr: seq<Topic>, passed: seq<seq<Topic>>, rest: seq<seq<Topic>>,
                   absorbed: seq<Topic>, left: seq<Topic>, kept: seq<Topic>)
    requires Tracks(lists, arr, passed, rest, absorbed, left) && rest != [] && Overlap(rest[0], left)
    requires forall x :: x in rest[0] ==> x in AllTopics(lists)
    requires NoDup((rest[0] + absorbed) + kept) && |(rest[0] + absorbed) + kept| >= |arr|
    requires forall x :: x in kept ==> x in left
    ensures Tracks(lists, arr, passed, rest[1..], rest[0] + absorbed, kept)
  {
    AllTopicsTail(rest);
    forall x | x in rest[0] + absorbed ensures x !in AllTopics(rest[1..]) && x !in AllTopics(passed) {
      if x in rest[0] { InOneList(passed, rest, x); }
    }
    var c :| c in Elems(rest[0]) * Elems(left);
    assert c in arr && c in rest[0] + absorbed;
    assert forall j :: 0 <= j < |rest[1..]| ==> rest[1..][j] == rest[j + 1];
  }

  lemma GrownSize(s: seq<Topic>, t: seq<Topic>)
    requires NoDup(s) && NoDup(t)
    ensures |AddTopics(s, t)| >= |t|
  {
    var u := AddTopics(s, t);
    AddTopicsNoDup(s, t);
    NoDupSize(t);
    NoDupSize(u);
    SubsetAtMost(Elems(t), Elems(u));
  }

  lemma InOneList(passed: seq<seq<Topic>>, rest: seq<seq<Topic>>, x: Topic)
    requires Partition(rest) && rest != [] && x in rest[0]
    requires forall i, j :: 0 <= i < |passed| && 0 <= j < |rest| ==> !Overlap(passed[i], rest[j])
    ensures x !in AllTopics(rest[1..]) && x !in AllTopics(passed)
  {
    forall j | 0 <= j < |rest[1..]| ensures x !in rest[1..][j] {
      assert DisjointSeqs(rest[0], rest[j + 1]);
    }
    forall i | 0 <= i < |passed| ensures x !in passed[i] {
      assert !Overlap(passed[i], rest[0]);
      assert x !in Elems(passed[i]) * Elems(rest[0]);
    }
  }

  // --- the exact condition -----------------------------------------------------------------

  lemma ConstantShift(f: Labelling, passed: seq<seq<Topic>>, rest: seq<seq<Topic>>)
    requires rest != []
    ensures Constant(f, passed + [rest[0]]) && Constant(f, rest[1..]) <==> Constant(f, passed) && Constant(f, rest)
  {
    var p := passed + [rest[0]];
    assert forall i :: 0 <= i < |passed| ==> p[i] == passed[i];
    assert p[|passed|] == rest[0];
    assert forall j :: 1 <= j < |rest| ==> rest[j] == rest[1..][j - 1];
  }

  lemma ConstantSplit(f: Labelling, rest: seq<seq<Topic>>)
    requires rest != []
    ensures Constant(f, rest) <==> ConstantOn(f, rest[0]) && Constant(f, rest[1..])
  {
    assert rest == [rest[0]] + rest[1..];
    ConstantPush(f, rest[0], rest[1..]);
  }

  lemma EndExact(lists: seq<seq<Topic>>, arr: seq<Topic>, passed: seq<seq<Topic>>, absorbed: seq<Topic>,
                 left: seq<Topic>)
    requires Complete(lists, arr, passed, [], absorbed, left) && Justified(lists, arr, passed, [], absorbed + left)
    ensures AsIntended(lists, arr, Added([absorbed + left] + passed))
  {
    forall f: Labelling
      ensures Constant(f, [absorbed + left] + passed) <==> Constant(f, lists) && ConstantOn(f, arr)
    {
      ConstantPush(f, absorbed + left, passed);
      assert Constant(f, []);
    }
  }

  lemma EndApart(lists: seq<seq<Topic>>, arr: seq<Topic>, passed: seq<seq<Topic>>, absorbed: seq<Topic>,
                 left: seq<Topic>)
    requires Tracks(lists, arr, passed, [], absorbed, left) && |arr| >= 2
    ensures Partition([absorbed + left] + passed)
  {
    forall i | 0 <= i < |passed| ensures DisjointSeqs(passed[i], absorbed + left) {
      forall x | x in passed[i] ensures x !in absorbed + left {
        if x in absorbed + left { DroppedFrom(lists, arr, passed, [], absorbed, left, x); }
      }
    }
    PushPartition(absorbed + left, passed);
  }

  lemma PassOn(lists: seq<seq<Topic>>, arr: seq<Topic>, passed: seq<seq<Topic>>, rest: seq<seq<Topic>>,
               absorbed: seq<Topic>, left: seq<Topic>)
    requires rest != [] && !Overlap(rest[0], arr)
    requires Complete(lists, arr, passed, rest, absorbed, left) && Justified(lists, arr, passed, rest, absorbed + left)
    ensures Complete(lists, arr, passed + [rest[0]], rest[1..], absorbed, left)
    ensures Justified(lists, arr, passed + [rest[0]], rest[1..], absorbed + left)
  {
    AllTopicsTail(rest);
    forall x | x in arr ensures x !in rest[0] { assert x !in Elems(rest[0]) * Elems(arr); }
    forall f: Labelling
      ensures Constant(f, passed + [rest[0]]) && Constant(f, rest[1..]) <==> Constant(f, passed) && Constant(f, rest)
    {
      ConstantShift(f, passed, rest);
    }
  }

  lemma AbsorbOn(lists: seq<seq<Topic>>, arr: seq<Topic>, passed: seq<seq<Topic>>, rest: seq<seq<Topic>>,
                 absorbed: seq<Topic>, left: seq<Topic>)
    requires rest != [] && |absorbed| <= |arr| <= |absorbed + left| && Overlap(rest[0], left)
    requires forall x :: x in left && x !in Prefix(left, |arr| - |absorbed|) ==> x in AllTopics(rest)
    requires Complete(lists, arr, passed, rest, absorbed, left) && Justified(lists, arr, passed, rest, absorbed + left)
    ensures Complete(lists, arr, passed, rest[1..], rest[0]
            + absorbed, Minus(Prefix(left, |arr| - |absorbed|), rest[0]))
    ensures Justified(lists, arr, passed, rest[1..], AddTopics(rest[0], (absorbed + left)[..|arr|]))
  {
    AllTopicsTail(rest);
    MinusElems(Prefix(left, |arr| - |absorbed|), rest[0]);
    forall f: Labelling
      ensures Constant(f, rest[1..]) && ConstantOn(f, rest[0] + absorbed) ==>
                Constant(f, rest) && ConstantOn(f, absorbed)
      ensures Constant(f, rest) && ConstantOn(f, absorbed + left) ==>
                Constant(f, rest[1..]) && ConstantOn(f, AddTopics(rest[0], (absorbed + left)[..|arr|]))
    {
      ConstantSplit(f, rest);
      var c :| c in Elems(rest[0]) * Elems(left);
      assert c in Elems(rest[0]) * Elems(absorbed + left);
      if ConstantOn(f, rest[0]) && ConstantOn(f, absorbed + left) {
        UnionConstant(f, rest[0], absorbed + left, |arr|);
      }
    }
  }

  lemma {:induction false} ScanExact(lists: seq<seq<Topic>>, arr: seq<Topic>, passed: seq<seq<Topic>>,
                                     rest: seq<seq<Topic>>,
                                     absorbed: seq<Topic>, left: seq<Topic>)
    requires Tracks(lists, arr, passed, rest, absorbed, left) && passed != [] && AllTopics(rest) <= AllTopics(lists)
    requires Complete(lists, arr, passed, rest, absorbed, left) && Justified(lists, arr, passed, rest, absorbed + left)
    ensures AsIntended(lists, arr, Scan(passed, rest, absorbed + left, |arr|))
            <==> Carried(rest, arr, left, |arr| - |absorbed|)
    ensures |arr| >= 2 && Carried(rest, arr, left, |arr| - |absorbed|)
            ==> Scan(passed, rest, absorbed + left, |arr|).Added?
                && Partition(Scan(passed, rest, absorbed + left, |arr|).lists)
    decreases |rest|
  {
    hide Tracks, Complete, Justified, AsIntended, Prefix, Minus, AddTopics, AllTopics, Partition;
    var room := |arr| - |absorbed|;
    TracksSize(lists, arr, passed, rest, absorbed, left);
    if rest == [] {
      EndExact(lists, arr, passed, absorbed, left);
      if |arr| >= 2 { EndApart(lists, arr, passed, absorbed, left); }
    } else if !Overlap(rest[0], arr) {
      AllTopicsTail(rest);
      TracksPass(lists, arr, passed, rest, absorbed, left);
      PassOn(lists, arr, passed, rest, absorbed, left);
      ScanExact(lists, arr, passed + [rest[0]], rest[1..], absorbed, left);
    } else if !Overlap(rest[0], left) {
      Unnoticed(lists, arr, passed, rest, absorbed, left);
    } else if room < 0 {
      assert (absorbed + left)[|arr|] == absorbed[|arr|];
      AbsorbedGone(lists, arr, passed, rest, absorbed, left, |arr|);
      Dropped(lists, arr, passed, rest, absorbed, left, |arr|);
    } else if x :| x in left && x !in Prefix(left, room) && x !in AllTopics(rest) {
      var i := BeyondPrefix(left, room, x);
      Dropped(lists, arr, passed, rest, absorbed, left, |absorbed| + i);
    } else {
      AllTopicsTail(rest);
      assert forall y :: y in rest[0] ==> y in Elems(rest[0]);
      TracksAbsorb(lists, arr, passed, rest, absorbed, left);
      AbsorbOn(lists, arr, passed, rest, absorbed, left);
      assert Overlap(rest[0], absorbed + left) by {
        var c :| c in Elems(rest[0]) * Elems(left);
        assert c in Elems(rest[0]) * Elems(absorbed + left);
      }
      ScanExact(lists, arr, passed, rest[1..], rest[0] + absorbed, Minus(Prefix(left, room), rest[0]));
    }
  }

  lemma TracksSize(lists: seq<seq<Topic>>, arr: seq<Topic>, passed: seq<seq<Topic>>, rest: seq<seq<Topic>>,
                   absorbed: seq<Topic>, left: seq<Topic>)
    requires Tracks(lists, arr, passed, rest, absorbed, left)
    ensures |absorbed + left| >= |arr|
  {
  }

  lemma AbsorbedGone(lists: seq<seq<Topic>>, arr: seq<Topic>, passed: seq<seq<Topic>>, rest: seq<seq<Topic>>,
                     absorbed: seq<Topic>, left: seq<Topic>, k: nat)
    requires Tracks(lists, arr, passed, rest, absorbed, left) && k < |absorbed|
    ensures absorbed[k] !in AllTopics(rest)
  {
    assert absorbed[k] in absorbed;
  }

  lemma BeyondPrefix(left: seq<Topic>, room: nat, x: Topic) returns (i: nat)
    requires x in left && x !in Prefix(left, room)
    ensures room <= i < |left| && left[i] == x
  {
    i :| 0 <= i < |left| && left[i] == x;
    assert forall j :: 0 <= j < room && j < |left| ==> left[j] in Prefix(left, room) by {
      forall j | 0 <= j < room && j < |left| ensures left[j] in Prefix(left, room) {
        assert Prefix(left, room)[j] == left[j];
      }
    }
  }

  /** The array overlaps none of the lists. */
  predicate Misses(lists: seq<seq<Topic>>, arr: seq<Topic>) {
    forall i :: 0 <= i < |lists| ==> !Overlap(lists[i], arr)
  }

  /** What a call needs to build the intended sets. */
  predicate Handled(lists: seq<seq<Topic>>, arr: seq<Topic>) {
    if Repeats(arr) then Misses(lists, arr)
    else (|lists| <= 1 || !Overlap(lists[0], arr)) && Carried(lists, arr, arr, |arr|)
  }

  predicate Repeats(arr: seq<Topic>) {
    exists i, j :: 0 <= i < j < |arr| && arr[i] == arr[j]
  }

  /**
   * As written, add_mergelist builds the intended sets exactly when the array does not
   * overlap the first of several lists, and its own elements are carried over every set
   * it absorbs. An array that repeats a topic has to miss all lists, since the copy loop
   * then runs beyond the end of the set.
   */
  lemma AddMergeListExactly(lists: seq<seq<Topic>>, arr: seq<Topic>)
    requires Partition(lists)
    ensures AsIntended(lists, arr, Written(lists, arr)) <==> Handled(lists, arr)
  {
    SetOf(arr);
    assert NoDup(arr) <==> !Repeats(arr);
    hide Partition, AsIntended, NoDup, Scan, Overlap, AddTopics, Repeats, Misses, Carried;
    if NoDup(arr) {
      ScanExactly(lists, arr);
    } else {
      RepeatsExactly(lists, arr);
    }
  }

  lemma ScanExactly(lists: seq<seq<Topic>>, arr: seq<Topic>)
    requires Partition(lists) && NoDup(arr)
    ensures AsIntended(lists, arr, Scan([], lists, arr, |arr|))
            <==> (|lists| <= 1 || !Overlap(lists[0], arr)) && Carried(lists, arr, arr, |arr|)
    ensures |arr| >= 2 && AsIntended(lists, arr, Scan([], lists, arr, |arr|))
            ==> Partition(Scan([], lists, arr, |arr|).lists)
  {
    hide AsIntended, Tracks, Complete, Justified, Partition, Overlap, NoDup, AddTopics, Minus, Prefix;
    if lists == [] {
      NoList(arr);
    } else if Overlap(lists[0], arr) {
      if |lists| == 1 {
        HeadNoDup(lists);
        OnlyList(lists[0], arr);
        OnlyListApart(lists[0], arr);
        assert lists == [lists[0]];
      } else {
        hide Carried;
        FreedIsNotIntended(lists, arr);
      }
    } else {
      assert [] + arr == arr && [] + [lists[0]] == [lists[0]];
      StartTracks(lists, arr);
      ScanExact(lists, arr, [lists[0]], lists[1..], [], arr);
    }
  }

  /** The working set is smaller than the array, so the copy loop of the first overlap fails. */
  lemma {:induction false} ShortScan(passed: seq<seq<Topic>>, rest: seq<seq<Topic>>, fused: seq<Topic>, len: nat)
    requires |fused| < len
    ensures Scan(passed, rest, fused, len)
            == if Misses(rest, fused) then Added([fused] + (passed + rest)) else OutOfRange
    decreases |rest|
  {
    hide Overlap;
    if rest == [] {
      assert passed + rest == passed;
    } else {
      assert Misses(rest, fused) <==> !Overlap(rest[0], fused) && Misses(rest[1..], fused);
      if !Overlap(rest[0], fused) {
        ShortScan(passed + [rest[0]], rest[1..], fused, len);
        assert (passed + [rest[0]]) + rest[1..] == passed + rest;
      }
    }
  }

  /** A set made of an array with repetitions is smaller than the array. */
  lemma {:induction false} Shrinks(s: seq<Topic>, arr: seq<Topic>)
    requires NoDup(s)
    ensures |AddTopics(s, arr)| <= |s| + |arr|
    ensures |AddTopics(s, arr)| == |s| + |arr| ==> NoDup(s + arr)
    decreases |arr|
  {
    hide Elems;
    if arr == [] {
      assert s + arr == s;
    } else if arr[0] in s {
      Shrinks(s, arr[1..]);
    } else {
      Shrinks(s + [arr[0]], arr[1..]);
      assert (s + [arr[0]]) + arr[1..] == s + arr;
    }
  }

  /** The loop over the lists, from a working set that is smaller than the array. */
  lemma RepeatsScan(lists: seq<seq<Topic>>, arr: seq<Topic>)
    requires !NoDup(arr)
    ensures Written(lists, arr) == if Misses(lists, arr) then Added([AddTopics([], arr)] + lists) else OutOfRange
  {
    var u := AddTopics([], arr);
    SetOf(arr);
    assert [] + arr == arr && [] + lists == lists;
    Shrinks([], arr);
    hide AddTopics, NoDup, Elems;
    ShortScan([], lists, u, |arr|);
    assert Misses(lists, u) <==> Misses(lists, arr);
  }

  lemma RepeatsExactly(lists: seq<seq<Topic>>, arr: seq<Topic>)
    requires !NoDup(arr)
    ensures AsIntended(lists, arr, Written(lists, arr)) <==> Misses(lists, arr)
  {
    var u := AddTopics([], arr);
    RepeatsScan(lists, arr);
    SetOf(arr);
    hide AddTopics, NoDup, Written, Misses, ConstantOn, Constant;
    forall f: Labelling ensures Constant(f, [u] + lists) <==> Constant(f, lists) && ConstantOn(f, arr) {
      ConstantPush(f, u, lists);
    }
  }

  /**
   * Where the loop as written builds what is intended, it builds what the repaired one
   * builds: the same classes, so that merging with either merges the same topics.
   */
  lemma WrittenAgreesWithRepaired(lists: seq<seq<Topic>>, arr: seq<Topic>)
    requires Partition(lists) && NoDup(arr) && |arr| >= 2 && AsIntended(lists, arr, Written(lists, arr))
    ensures Partition(Written(lists, arr).lists)
    ensures Classes(Written(lists, arr).lists) == Classes(Fusion([], lists, AddTopics([], arr)))
  {
    SetOf(arr);
    ScanExactly(lists, arr);
    Meaning(lists, arr);
    hide Partition, Scan, Fusion, Classes, Together, AddTopics;
    var a, b := Written(lists, arr).lists, Fusion([], lists, AddTopics([], arr));
    forall f: Labelling ensures Constant(f, a) <==> Constant(f, b) { }
    SameLabellingsSameClasses(a, b);
  }

  // --- which topic stays -----------------------------------------------------------------

  /** The order of the working set: first is the first topic of the list absorbed last. */
  lemma {:induction false} ScanHead(lists: seq<seq<Topic>>, arr: seq<Topic>, passed: seq<seq<Topic>>,
                                    rest: seq<seq<Topic>>, absorbed: seq<Topic>, left: seq<Topic>)
    requires Ready(lists, arr, passed, rest, absorbed, left)
    ensures absorbed + left != []
    ensures FirstIs(Scan(passed, rest, absorbed + left, |arr|), Heir(rest, arr, (absorbed + left)[0]))
    decreases |rest|
  {
    TracksSize(lists, arr, passed, rest, absorbed, left);
    if rest != [] {
      var first := rest[0];
      hide *;
      if Overlap(first, arr) {
        HeadInto(lists, arr, passed, rest, absorbed, left);
        ScanHead(lists, arr, passed, rest[1..], first + absorbed, Kept(arr, absorbed, left, first));
      } else {
        HeadPast(lists, arr, passed, rest, absorbed, left);
        ScanHead(lists, arr, passed + [first], rest[1..], absorbed, left);
      }
    }
  }

  ghost predicate Ready(lists: seq<seq<Topic>>, arr: seq<Topic>, passed: seq<seq<Topic>>, rest: seq<seq<Topic>>,
                        absorbed: seq<Topic>, left: seq<Topic>) {
    && Tracks(lists, arr, passed, rest, absorbed, left) && passed != [] && AllTopics(rest) <= AllTopics(lists)
    && arr != [] && Carried(rest, arr, left, |arr| - |absorbed|)
  }

  /** What the copy loop carries over, without the elements of the absorbed list. */
  function Kept(arr: seq<Topic>, absorbed: seq<Topic>, left: seq<Topic>, list: seq<Topic>): seq<Topic> {
    Minus(Prefix(left, |arr| - |absorbed|), list)
  }

  lemma HeadPast(lists: seq<seq<Topic>>, arr: seq<Topic>, passed: seq<seq<Topic>>, rest: seq<seq<Topic>>,
                 absorbed: seq<Topic>, left: seq<Topic>)
    requires Ready(lists, arr, passed, rest, absorbed, left) && rest != [] && !Overlap(rest[0], arr)
    requires absorbed + left != []
    ensures Ready(lists, arr, passed + [rest[0]], rest[1..], absorbed, left)
    ensures Scan(passed, rest, absorbed + left, |arr|) == Scan(passed + [rest[0]], rest[1..], absorbed + left, |arr|)
    ensures Heir(rest, arr, (absorbed + left)[0]) == Heir(rest[1..], arr, (absorbed + left)[0])
  {
    TracksSize(lists, arr, passed, rest, absorbed, left);
    HeadSize(lists, arr, passed, rest, absorbed, left);
    CarriedStep(rest, arr, left, |arr| - |absorbed|);
    HeirStep(rest, arr, (absorbed + left)[0]);
    AllTopicsTail(rest);
    hide Tracks, Carried, Heir, AllTopics, Overlap;
    TracksPass(lists, arr, passed, rest, absorbed, left);
    ScanStep(passed, rest, absorbed + left, |arr|);
  }

  lemma HeadInto(lists: seq<seq<Topic>>, arr: seq<Topic>, passed: seq<seq<Topic>>, rest: seq<seq<Topic>>,
                 absorbed: seq<Topic>, left: seq<Topic>)
    requires Ready(lists, arr, passed, rest, absorbed, left) && rest != [] && Overlap(rest[0], arr)
    requires absorbed + left != []
    ensures var next := (rest[0] + absorbed) + Kept(arr, absorbed, left, rest[0]);
            && Ready(lists, arr, passed, rest[1..], rest[0] + absorbed, Kept(arr, absorbed, left, rest[0]))
            && Scan(passed, rest, absorbed + left, |arr|) == Scan(passed, rest[1..], next, |arr|)
            && next != [] && Heir(rest, arr, (absorbed + left)[0]) == Heir(rest[1..], arr, next[0])
  {
    var head := (absorbed + left)[0];
    HeadSize(lists, arr, passed, rest, absorbed, left);
    HeirStep(rest, arr, head);
    hide *;
    ReadyAbsorbed(lists, arr, passed, rest, absorbed, left);
    ScanAbsorbed(lists, arr, passed, rest, absorbed, left);
    assert ((rest[0] + absorbed) + Kept(arr, absorbed, left, rest[0]))[0] == rest[0][0];
  }

  lemma ReadyAbsorbed(lists: seq<seq<Topic>>, arr: seq<Topic>, passed: seq<seq<Topic>>, rest: seq<seq<Topic>>,
                      absorbed: seq<Topic>, left: seq<Topic>)
    requires Ready(lists, arr, passed, rest, absorbed, left) && rest != [] && Overlap(rest[0], arr)
    ensures Ready(lists, arr, passed, rest[1..], rest[0] + absorbed, Kept(arr, absorbed, left, rest[0]))
  {
    var room, more, absorbed' := |arr| - |absorbed|, rest[1..], rest[0] + absorbed;
    CarriedStep(rest, arr, left, room);
    AllTopicsTail(rest);
    TopicsWithin(lists, rest);
    var kept := Minus(Prefix(left, room), rest[0]);
    hide *;
    assert Tracks(lists, arr, passed, more, absorbed', kept) by {
      TracksAbsorb(lists, arr, passed, rest, absorbed, left);
    }
    assert room - |rest[0]| == |arr| - |absorbed'|;
    StillReady(lists, arr, passed, more, absorbed', kept);
    KeptIs(arr, absorbed, left, rest[0]);
  }

  lemma KeptIs(arr: seq<Topic>, absorbed: seq<Topic>, left: seq<Topic>, list: seq<Topic>)
    ensures Kept(arr, absorbed, left, list) == Minus(Prefix(left, |arr| - |absorbed|), list)
  {
  }

  lemma StillReady(lists: seq<seq<Topic>>, arr: seq<Topic>, passed: seq<seq<Topic>>, rest: seq<seq<Topic>>,
                   absorbed: seq<Topic>, left: seq<Topic>)
    requires Tracks(lists, arr, passed, rest, absorbed, left) && passed != [] && AllTopics(rest) <= AllTopics(lists)
    requires arr != [] && Carried(rest, arr, left, |arr| - |absorbed|)
    ensures Ready(lists, arr, passed, rest, absorbed, left)
  {
  }

  lemma ScanAbsorbed(lists: seq<seq<Topic>>, arr: seq<Topic>, passed: seq<seq<Topic>>, rest: seq<seq<Topic>>,
                     absorbed: seq<Topic>, left: seq<Topic>)
    requires Ready(lists, arr, passed, rest, absorbed, left) && rest != [] && Overlap(rest[0], arr)
    ensures Scan(passed, rest, absorbed + left, |arr|)
            == Scan(passed, rest[1..], (rest[0] + absorbed) + Kept(arr, absorbed, left, rest[0]), |arr|)
  {
    TracksSize(lists, arr, passed, rest, absorbed, left);
    CarriedStep(rest, arr, left, |arr| - |absorbed|);
    TopicsWithin(lists, rest);
    hide Tracks, Carried, Overlap, AllTopics, AddTopics, Minus, Prefix, Scan;
    TracksAbsorb(lists, arr, passed, rest, absorbed, left);
    LeftOverlaps(rest[0], absorbed, left);
    ScanStep(passed, rest, absorbed + left, |arr|);
  }

  lemma CarriedStep(rest: seq<seq<Topic>>, arr: seq<Topic>, left: seq<Topic>, room: int)
    requires rest != [] && Carried(rest, arr, left, room)
    ensures !Overlap(rest[0], arr) ==> Carried(rest[1..], arr, left, room)
    ensures Overlap(rest[0], arr) ==> room >= 0 && Overlap(rest[0], left)
    ensures Overlap(rest[0], arr) ==> Carried(rest[1..], arr, Minus(Prefix(left, room), rest[0]), room - |rest[0]|)
  {
  }

  lemma ScanStep(passed: seq<seq<Topic>>, rest: seq<seq<Topic>>, fused: seq<Topic>, len: nat)
    requires rest != [] && passed != [] && len <= |fused|
    ensures Scan(passed, rest, fused, len)
            == if !Overlap(rest[0], fused) then Scan(passed + [rest[0]], rest[1..], fused, len)
               else Scan(passed, rest[1..], AddTopics(rest[0], fused[..len]), len)
  {
  }

  lemma TopicsWithin(lists: seq<seq<Topic>>, rest: seq<seq<Topic>>)
    requires rest != [] && AllTopics(rest) <= AllTopics(lists)
    ensures forall x :: x in rest[0] ==> x in AllTopics(lists)
  {
    assert forall x :: x in rest[0] ==> x in AllTopics(rest);
  }

  ghost predicate FirstIs(r: AddResult, t: Topic) {
    r.Added? && r.lists != [] && r.lists[0] != [] && r.lists[0][0] == t
  }

  lemma HeadSize(lists: seq<seq<Topic>>, arr: seq<Topic>, passed: seq<seq<Topic>>, rest: seq<seq<Topic>>,
                 absorbed: seq<Topic>, left: seq<Topic>)
    requires Tracks(lists, arr, passed, rest, absorbed, left) && rest != []
    ensures rest[0] != []
  {
  }

  lemma HeirStep(lists: seq<seq<Topic>>, arr: seq<Topic>, head: Topic)
    requires lists != [] && lists[0] != []
    ensures Heir(lists, arr, head) == Heir(lists[1..], arr, if Overlap(lists[0], arr) then lists[0][0] else head)
  {
    MeetsElems(lists[0], arr);
  }

  lemma LeftOverlaps(s: seq<Topic>, absorbed: seq<Topic>, left: seq<Topic>)
    requires Overlap(s, left)
    ensures Overlap(s, absorbed + left)
  {
    var c :| c in Elems(s) * Elems(left);
    assert c in Elems(s) * Elems(absorbed + left);
  }

  lemma {:induction false} ScanOthers(passed: seq<seq<Topic>>, rest: seq<seq<Topic>>, fused: seq<Topic>, len: nat)
    requires Scan(passed, rest, fused, len).Added?
    ensures forall k :: 1 <= k < |Scan(passed, rest, fused, len).lists| ==>
              Scan(passed, rest, fused, len).lists[k] in passed || Scan(passed, rest, fused, len).lists[k] in rest
    decreases |rest|
  {
    if rest != [] {
      var r := Scan(passed, rest, fused, len);
      hide Overlap, AddTopics;
      if !Overlap(rest[0], fused) {
        ScanOthers(passed + [rest[0]], rest[1..], fused, len);
        forall k | 1 <= k < |r.lists| ensures r.lists[k] in passed || r.lists[k] in rest {
          assert r.lists[k] in passed + [rest[0]] || r.lists[k] in rest[1..];
        }
      } else if passed != [] {
        ScanOthers(passed, rest[1..], AddTopics(rest[0], fused[..len]), len);
      }
    }
  }

  lemma {:induction false} HeirOfNone(lists: seq<seq<Topic>>, arr: seq<Topic>, head: Topic)
    requires Misses(lists, arr)
    ensures Heir(lists, arr, head) == head
    decreases |lists|
  {
    if lists != [] {
      assert !Overlap(lists[0], arr);
      MeetsElems(lists[0], arr);
      HeirOfNone(lists[1..], arr, head);
    }
  }

  /**
   * And the same topics stay: whenever the loop as written is as intended, the first topic
   * of the set it builds is that of the repaired loop, and all other sets are as they were.
   */
  lemma WrittenStaysAsRepaired(lists: seq<seq<Topic>>, arr: seq<Topic>)
    requires Partition(lists) && |AddTopics([], arr)| >= 2 && Handled(lists, arr)
    ensures FirstIs(Written(lists, arr), Heir(lists, arr, arr[0]))
    ensures var next := Fusion([], lists, AddTopics([], arr));
            next != [] && next[0] != [] && FirstIs(Written(lists, arr), next[0][0])
    ensures forall k :: 1 <= k < |Written(lists, arr).lists| ==> Written(lists, arr).lists[k] in lists
  {
    StaysAfter(lists, arr);
    WrittenFirst(lists, arr);
    hide *;
    WrittenOthers(lists, arr);
  }

  lemma WrittenOthers(lists: seq<seq<Topic>>, arr: seq<Topic>)
    requires Written(lists, arr).Added?
    ensures forall k :: 1 <= k < |Written(lists, arr).lists| ==> Written(lists, arr).lists[k] in lists
  {
    hide Scan;
    ScanOthers([], lists, AddTopics([], arr), |arr|);
  }

  lemma WrittenFirst(lists: seq<seq<Topic>>, arr: seq<Topic>)
    requires Partition(lists) && |AddTopics([], arr)| >= 2 && Handled(lists, arr)
    ensures FirstIs(Written(lists, arr), Heir(lists, arr, arr[0]))
  {
    assert NoDup(arr) <==> !Repeats(arr);
    assert arr != [];
    if !NoDup(arr) {
      RepeatsScan(lists, arr);
      FirstAdded(arr);
      HeirOfNone(lists, arr, arr[0]);
    } else {
      WrittenScan(lists, arr);
      HandledFirst(lists, arr);
    }
  }

  lemma HandledFirst(lists: seq<seq<Topic>>, arr: seq<Topic>)
    requires Partition(lists) && NoDup(arr) && arr != [] && Carried(lists, arr, arr, |arr|)
    requires |lists| <= 1 || !Overlap(lists[0], arr)
    ensures FirstIs(Scan([], lists, arr, |arr|), Heir(lists, arr, arr[0]))
  {
    if lists == [] {
      assert [arr] + [] == [arr];
    } else if Overlap(lists[0], arr) {
      SoleFirst(lists, arr);
    } else {
      PassedFirst(lists, arr);
    }
  }

  lemma SoleFirst(lists: seq<seq<Topic>>, arr: seq<Topic>)
    requires Partition(lists) && |lists| == 1 && Overlap(lists[0], arr)
    ensures FirstIs(Scan([], lists, arr, |arr|), Heir(lists, arr, arr[0]))
  {
    SoleScan(lists[0], arr);
    HeirStep(lists, arr, arr[0]);
    assert lists == [lists[0]] && lists[1..] == [];
    assert AddTopics(lists[0], arr)[..|lists[0]|] == lists[0];
  }

  lemma PassedFirst(lists: seq<seq<Topic>>, arr: seq<Topic>)
    requires Partition(lists) && NoDup(arr) && arr != [] && Carried(lists, arr, arr, |arr|)
    requires lists != [] && !Overlap(lists[0], arr)
    ensures FirstIs(Scan([], lists, arr, |arr|), Heir(lists, arr, arr[0]))
  {
    var first, rest := lists[0], lists[1..];
    assert first != [];
    HeirStep(lists, arr, arr[0]);
    hide *;
    StartReady(lists, arr);
    assert [] + arr == arr;
    ScanHead(lists, arr, [first], rest, [], arr);
  }

  /** The loop after the first list, which the array does not meet. */
  lemma StartReady(lists: seq<seq<Topic>>, arr: seq<Topic>)
    requires Partition(lists) && NoDup(arr) && arr != [] && Carried(lists, arr, arr, |arr|)
    requires lists != [] && !Overlap(lists[0], arr)
    ensures Ready(lists, arr, [lists[0]], lists[1..], [], arr)
    ensures Scan([], lists, arr, |arr|) == Scan([lists[0]], lists[1..], [] + arr, |arr|)
  {
    FirstPassed(lists, arr);
    CarriedStep(lists, arr, arr, |arr|);
    hide Partition, Tracks, Complete, Justified, Overlap, AllTopics, Carried, Scan, NoDup;
    StartTracks(lists, arr);
  }

  lemma FirstPassed(lists: seq<seq<Topic>>, arr: seq<Topic>)
    requires lists != [] && !Overlap(lists[0], arr)
    ensures Scan([], lists, arr, |arr|) == Scan([lists[0]], lists[1..], [] + arr, |arr|)
  {
    assert [] + arr == arr && [] + [lists[0]] == [lists[0]];
  }

  lemma SoleScan(list: seq<Topic>, arr: seq<Topic>)
    requires Overlap(list, arr)
    ensures Scan([], [list], arr, |arr|) == Added([AddTopics(list, arr)])
  {
    assert arr[..|arr|] == arr;
  }

  /**
   * Where at most one list overlaps, the loop as written and the repaired one build the
   * very same sets: the same topics in the same order.
   */
  lemma OneOverlapSame(lists: seq<seq<Topic>>, arr: seq<Topic>, k: nat)
    requires Partition(lists) && k < |lists| && NoDup(arr) && (k == 0 && Overlap(lists[0], arr) ==> |lists| == 1)
    requires forall i :: 0 <= i < |lists| && i != k ==> !Overlap(lists[i], arr)
    ensures Written(lists, arr) == Added(Fusion([], lists, AddTopics([], arr)))
  {
    SetOf(arr);
    hide AddTopics, NoDup;
    if Overlap(lists[0], arr) {
      SoleScan(lists[0], arr);
      assert lists == [lists[0]] && lists[1..] == [];
    } else {
      OneOverlapScan([], lists, arr, k);
    }
  }

  lemma {:induction false} OneOverlapScan(passed: seq<seq<Topic>>, rest: seq<seq<Topic>>, arr: seq<Topic>, k: nat)
    requires Partition(rest) && (passed == [] ==> rest == [] || !Overlap(rest[0], arr))
    requires forall i :: 0 <= i < |rest| && i != k ==> !Overlap(rest[i], arr)
    ensures Scan(passed, rest, arr, |arr|) == Added(Fusion(passed, rest, arr))
    decreases |rest|
  {
    if rest != [] {
      var first, more := rest[0], rest[1..];
      PartitionTail(rest);
      if Overlap(first, arr) {
        var u := AddTopics(first, arr);
        assert arr[..|arr|] == arr && k == 0;
        forall i | 0 <= i < |more| ensures DisjointSeqs(more[i], u) && !Overlap(more[i], u) {
          assert DisjointSeqs(first, more[i]) && more[i] == rest[i + 1];
          MeetsElems(more[i], arr);
          UnionApart(first, arr, more[i]);
          MeetsElems(more[i], u);
        }
        hide AddTopics, Overlap, DisjointSeqs, Partition;
        NoneMetScan(passed, more, u, |arr|);
      } else {
        assert forall i :: 0 <= i < |more| ==> more[i] == rest[i + 1];
        hide Overlap, Partition;
        OneOverlapScan(passed + [first], more, arr, if k == 0 then |rest| else k - 1);
      }
    }
  }

  lemma {:induction false} NoneMetScan(passed: seq<seq<Topic>>, rest: seq<seq<Topic>>, fused: seq<Topic>, len: nat)
    requires Misses(rest, fused)
    ensures Scan(passed, rest, fused, len) == Added(Fusion(passed, rest, fused))
    decreases |rest|
  {
    if rest != [] {
      assert !Overlap(rest[0], fused);
      NoneMetScan(passed + [rest[0]], rest[1..], fused, len);
    }
  }

  lemma HeadNoDup(lists: seq<seq<Topic>>)
    requires Partition(lists) && lists != []
    ensures NoDup(lists[0])
  {
  }

  lemma NoList(arr: seq<Topic>)
    ensures AsIntended([], arr, Scan([], [], arr, |arr|))
    ensures NoDup(arr) && |arr| >= 2 ==> Partition(Scan([], [], arr, |arr|).lists)
  {
    assert [arr] + [] == [arr];
    forall f: Labelling ensures Constant(f, [arr]) <==> Constant(f, []) && ConstantOn(f, arr) {
      ConstantPush(f, arr, []);
    }
  }

  /** Overlap with the first of several sets frees all the others too. */
  lemma FreedIsNotIntended(lists: seq<seq<Topic>>, arr: seq<Topic>)
    requires |lists| >= 2 && Overlap(lists[0], arr)
    ensures Scan([], lists, arr, |arr|) == Dangling && !AsIntended(lists, arr, Dangling)
  {
  }

  /**
   * When at most the list at k overlaps, the call is right if there is no overlap at all, or if the
   * list is not at the head of several and the array repeats no topic.
   */
  lemma OneOverlapIsHandled(lists: seq<seq<Topic>>, arr: seq<Topic>, k: nat)
    requires Partition(lists) && k < |lists|
    requires forall i :: 0 <= i < |lists| && i != k ==> !Overlap(lists[i], arr)
    ensures AsIntended(lists, arr, Written(lists, arr))
            <==> !Overlap(lists[k], arr) || (NoDup(arr) && (k == 0 ==> |lists| == 1))
  {
    assert NoDup(arr) <==> !Repeats(arr);
    hide AsIntended, Partition, NoDup, Overlap, Written, Repeats;
    AddMergeListExactly(lists, arr);
    OneOverlapCarried(lists, arr, k);
  }

  lemma {:induction false} OneOverlapCarried(rest: seq<seq<Topic>>, arr: seq<Topic>, k: nat)
    requires forall i :: 0 <= i < |rest| && i != k ==> !Overlap(rest[i], arr)
    ensures Carried(rest, arr, arr, |arr|)
    decreases |rest|
  {
    if rest != [] {
      if Overlap(rest[0], arr) {
        assert k == 0;
        assert Prefix(arr, |arr|) == arr;
        NoOverlapCarried(rest[1..], arr, Minus(arr, rest[0]), |arr| - |rest[0]|);
      } else if k > 0 {
        OneOverlapCarried(rest[1..], arr, k - 1);
      } else {
        NoOverlapCarried(rest[1..], arr, arr, |arr|);
      }
    }
  }

  lemma {:induction false} NoOverlapCarried(rest: seq<seq<Topic>>, arr: seq<Topic>, left: seq<Topic>, room: int)
    requires forall i :: 0 <= i < |rest| ==> !Overlap(rest[i], arr)
    ensures Carried(rest, arr, left, room)
    decreases |rest|
  {
    if rest != [] {
      NoOverlapCarried(rest[1..], arr, left, room);
    }
  }

  lemma OnlyList(list: seq<Topic>, arr: seq<Topic>)
    requires Overlap(list, arr) && NoDup(arr)
    ensures AsIntended([list], arr, Scan([], [list], arr, |arr|))
    ensures Carried([list], arr, arr, |arr|)
  {
    var u := AddTopics(list, arr);
    assert arr[..|arr|] == arr;
    assert Scan([], [list], arr, |arr|) == Added([u]);
    var c :| c in Elems(list) * Elems(arr);
    assert c in list && c in arr;
    forall f: Labelling ensures Constant(f, [u]) <==> Constant(f, [list]) && ConstantOn(f, arr) {
      ConstantOnUnion(f, list, arr);
      assert [u] == [u] + [] && [list] == [list] + [];
      ConstantPush(f, u, []);
      ConstantPush(f, list, []);
    }
    assert [list][1..] == [];
    assert Prefix(arr, |arr|) == arr;
    assert Carried([], arr, Minus(arr, list), |arr| - |list|);
  }

  lemma OnlyListApart(list: seq<Topic>, arr: seq<Topic>)
    requires Overlap(list, arr) && NoDup(arr) && NoDup(list)
    ensures |arr| >= 2 ==> Partition(Scan([], [list], arr, |arr|).lists)
  {
    hide Overlap;
    var u := AddTopics(list, arr);
    assert arr[..|arr|] == arr;
    assert Scan([], [list], arr, |arr|) == Added([u]);
    AddTopicsNoDup(list, arr);
    GrownSize(list, arr);
  }

  lemma StartTracks(lists: seq<seq<Topic>>, arr: seq<Topic>)
    requires Partition(lists) && NoDup(arr) && lists != [] && !Overlap(lists[0], arr)
    ensures Tracks(lists, arr, [lists[0]], lists[1..], [], arr) && AllTopics(lists[1..]) <= AllTopics(lists)
    ensures Complete(lists, arr, [lists[0]], lists[1..], [], arr)
    ensures Justified(lists, arr, [lists[0]], lists[1..], [] + arr)
  {
    AllTopicsTail(lists);
    assert [] + arr == arr;
    forall j | 0 <= j < |lists[1..]| ensures !Overlap(lists[0], lists[1..][j]) {
      assert DisjointSeqs(lists[0], lists[j + 1]);
      assert forall x :: x in Elems(lists[0]) ==> x !in Elems(lists[j + 1]);
    }
    forall f: Labelling ensures Constant(f, [lists[0]]) && Constant(f, lists[1..]) <==> Constant(f, lists) {
      ConstantShift(f, [], lists);
      assert [] + [lists[0]] == [lists[0]];
      assert Constant(f, []);
    }
  }

  lemma OverlapAt(s: seq<Topic>, t: seq<Topic>, x: Topic)
    requires x in s && x in t
    ensures Overlap(s, t)
  {
    assert x in Elems(s) * Elems(t);
  }

  lemma AddThree(s: seq<Topic>, x: Topic, y: Topic, z: Topic)
    ensures AddTopics(s, [x, y, z]) == AddTopic(AddTopic(AddTopic(s, x), y), z)
  {
    var t := AddTopic(s, x);
    assert [x, y, z][1..] == [y, z] && [y, z][1..] == [z] && [z][1..] == [];
    assert AddTopics(t, [y, z]) == AddTopics(AddTopic(t, y), [z]);
  }

  /** The topic 5 is lost at the second overlap: the copy loop stops after three elements. */
  lemma LosesATopic(a: seq<Topic>, b: seq<Topic>, c: seq<Topic>, arr: seq<Topic>, u: seq<Topic>)
    requires a == [7, 8] && b == [1, 2] && c == [3, 4] && arr == [1, 3, 5] && u == [3, 4, 1, 2]
    ensures Partition([a, b, c]) && NoDup(arr)
    ensures Written([a, b, c], arr) == Added([u, a])
    ensures !AsIntended([a, b, c], arr, Added([u, a]))
  {
    OddsDiffer(arr);
    WrittenScan([a, b, c], arr);
    hide *;
    ThreeApart(a, b, c);
    LosesATopicScan(a, b, c, arr, [1, 2, 3, 5], u);
    FiveStaysApart([a, b, c], arr, [u, a]);
  }

  lemma WrittenScan(lists: seq<seq<Topic>>, arr: seq<Topic>)
    requires NoDup(arr)
    ensures Written(lists, arr) == Scan([], lists, arr, |arr|)
  {
    SetOf(arr);
  }

  lemma ThreeApart(a: seq<Topic>, b: seq<Topic>, c: seq<Topic>)
    requires a == [7, 8] && b == [1, 2] && c == [3, 4]
    ensures Partition([a, b, c])
  {
  }

  lemma OddsDiffer(arr: seq<Topic>)
    requires arr == [1, 3, 5]
    ensures NoDup(arr)
  {
  }

  lemma FiveStaysApart(lists: seq<seq<Topic>>, arr: seq<Topic>, r: seq<seq<Topic>>)
    requires arr == [1, 3, 5] && r == [[3, 4, 1, 2], [7, 8]]
    ensures !AsIntended(lists, arr, Added(r))
  {
    var f := Mark({5});
    Unmarked(r[0], 5);
    Unmarked(r[1], 5);
    assert Constant(f, r);
    assert arr[0] in arr && arr[2] in arr && f(arr[0]) != f(arr[2]);
    hide Constant, ConstantOn;
    assert !ConstantOn(f, arr) by { MarkOneBreaks(arr[2], arr[0], arr); }
  }

  lemma Unmarked(s: seq<Topic>, x: Topic)
    requires x !in s
    ensures ConstantOn(Mark({x}), s)
  {
  }

  lemma LosesATopicScan(a: seq<Topic>, b: seq<Topic>, c: seq<Topic>, arr: seq<Topic>, once: seq<Topic>,
                        twice: seq<Topic>)
    requires a == [7, 8] && b == [1, 2] && c == [3, 4]
    requires arr == [1, 3, 5] && once == [1, 2, 3, 5] && twice == [3, 4, 1, 2]
    ensures Scan([], [a, b, c], arr, 3) == Added([twice, a])
  {
    hide AddTopics;
    assert !Overlap(a, arr);
    OverlapAt(b, arr, 1);
    OverlapAt(c, once, 3);
    hide Overlap;
    Absorptions(b, c, arr, once, twice);
    FinishScan(a, twice);
    SecondOverlap(a, c, once, twice);
    assert [a, b, c][1..] == [b, c] && [b, c][1..] == [c];
    assert Scan([a], [b, c], arr, 3) == Scan([a], [c], once, 3);
    assert [] + [a] == [a];
  }

  lemma Absorptions(b: seq<Topic>, c: seq<Topic>, arr: seq<Topic>, once: seq<Topic>, twice: seq<Topic>)
    requires b == [1, 2] && c == [3, 4] && arr == [1, 3, 5] && once == [1, 2, 3, 5] && twice == [3, 4, 1, 2]
    ensures arr[..3] == arr && AddTopics(b, arr) == once && AddTopics(c, once[..3]) == twice
  {
    hide AddTopics;
    assert arr[..3] == arr && once[..3] == [1, 2, 3];
    AddThree(b, 1, 3, 5);
    AddThree(c, 1, 2, 3);
  }

  lemma FinishScan(a: seq<Topic>, u: seq<Topic>)
    ensures Scan([a], [], u, 3) == Added([u, a])
  {
    assert [u] + [a] == [u, a];
  }

  lemma SecondOverlap(a: seq<Topic>, c: seq<Topic>, once: seq<Topic>, twice: seq<Topic>)
    requires Overlap(c, once) && |once| >= 3 && AddTopics(c, once[..3]) == twice
    ensures Scan([a], [c], once, 3) == Scan([a], [], twice, 3)
  {
    hide AddTopics, Overlap;
    assert [c][1..] == [];
  }

  /** An array with a topic twice: the set has one element, and the copy loop asks for a second. */
  lemma RepeatedTopicFails(list: seq<Topic>, arr: seq<Topic>)
    requires list == [1, 2] && arr == [1, 1]
    ensures Partition([list]) && Written([list], arr) == OutOfRange
  {
    assert arr[0] == arr[1] && !NoDup(arr);
    OverlapAt(list, arr, 1);
    hide Overlap, AddTopics, Written, NoDup;
    RepeatsScan([list], arr);
    assert [list][0] == list;
  }

  /** Overlap with the first of two lists frees both. */
  lemma FreesTheList()
    ensures Partition([[1, 2], [3, 4]]) && NoDup([1, 5])
    ensures Written([[1, 2], [3, 4]], [1, 5]) == Dangling
  {
    var l0: seq<Topic>, arr: seq<Topic> := [1, 2], [1, 5];
    WrittenScan([[1, 2], [3, 4]], arr);
    assert 1 in Elems(l0) * Elems(arr);
  }
}
