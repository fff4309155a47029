/**
 * What src/topicmap.c:608-635 costs. It removes the value of a disappearing topic when the
 * staying one has another and the property combines nothing, on the grounds that the two
 * may turn out equal later. Two topic maps where a value goes that way, for any two
 * identifying properties of which one holds topics: in one map that is harmless, in the
 * other the values would have been equal, yet an identity is lost for good. So the kinds of
 * the properties decide whether merging can be relied on.
 */
module DroppedValues {
  import opened Basics
  import opened Values
  import opened MergeSets
  import opened Facts
  import opened Rounds
  import opened Closures

  const SETS: seq<seq<Topic>> := [[1, 2], [4, 5]]

  const MEMBERS: seq<Member> := [Member(6, 7), Member(8, 7)]

  /** One of two values of the property that merges, of any type. */
  function Name(vt: ValueType, first: bool): Value {
    var x: Topic := if first then 20 else 21;
    match vt
    case TextSetType => Locators({if first then "a" else "b"})
    case TextType => Text(if first then "a" else "b")
    case AsidpType => Asidp(x, MEMBERS)
    case TopicSetType => Topics({x})
  }

  /** Topics 1 and 2 share a value, and so do 4 and 5. */
  function Names(vt: ValueType): Facts {
    map[1 := Name(vt, true), 2 := Name(vt, true), 4 := Name(vt, false), 5 := Name(vt, false)]
  }

  function KeptNames(vt: ValueType): Facts {
    map[1 := Name(vt, true), 4 := Name(vt, false)]
  }

  /** A value of the property that drops, with one topic that matters. */
  function Play(vt: ValueType, x: Topic): Value {
    if vt.AsidpType? then Asidp(x, MEMBERS) else Topics({x})
  }

  function Plays(vt: ValueType, types: map<Topic, Topic>): Facts {
    map t | t in types :: Play(vt, types[t])
  }

  /** names in property j, plays in property i, and nothing in any other. */
  function StateOf(n: nat, i: nat, j: nat, names: Facts, plays: Facts): (s: State)
    ensures |s| == n
  {
    seq(n, k requires 0 <= k < n => if k == j then names else if k == i then plays else map[])
  }

  function Maps(kinds: seq<Kind>, i: nat, j: nat, types: map<Topic, Topic>): (s: State)
    requires Prone(kinds, i, j)
    ensures |s| == |kinds|
  {
    StateOf(|kinds|, i, j, Names(kinds[j].valueType), Plays(kinds[i].valueType, types))
  }

  /** The state once 2 and 5 are gone as keys of property j. */
  function Merged(kinds: seq<Kind>, i: nat, j: nat, types: map<Topic, Topic>): (s: State)
    requires Prone(kinds, i, j)
    ensures |s| == |kinds|
  {
    StateOf(|kinds|, i, j, KeptNames(kinds[j].valueType), Plays(kinds[i].valueType, types))
  }

  /** The pass that merges 1 with 2 and 4 with 5 and leaves the types after. */
  function Pass(kinds: seq<Kind>, i: nat, j: nat, types: map<Topic, Topic>, after: map<Topic, Topic>): Round
    requires Prone(kinds, i, j)
  {
    Round(Merged(kinds, i, j, types), SETS, Merged(kinds, i, j, after))
  }

  /** 2 and 3 have values that 4 and 5 make equal; 1 has one that becomes equal to them if 1 and 3 are merged. */
  const LOSS: map<Topic, Topic> := map[1 := 9, 2 := 4, 3 := 5, 4 := 3, 9 := 1]
  const AFTER_LOSS: map<Topic, Topic> := map[1 := 9, 3 := 4, 4 := 3, 9 := 1]

  /** 1 and 2 have values that 4 and 5 make equal. */
  const HARMLESS: map<Topic, Topic> := map[1 := 4, 2 := 5]
  const AFTER_HARMLESS: map<Topic, Topic> := map[1 := 4]

  predicate Distinct(types: map<Topic, Topic>) {
    forall t, u :: t in types && u in types && types[t] == types[u] ==> t == u
  }

  /** The types once 4 stands for 5. */
  function Retyped(types: map<Topic, Topic>): map<Topic, Topic> {
    map t | t in types :: if types[t] == 5 then 4 else types[t]
  }

  predicate PlainTypes(types: map<Topic, Topic>) {
    forall t :: t in types ==> types[t] != 2
  }

  /** What the pass needs of the types: 2 is dropped for 1, 5 has no value, no two topics have one type. */
  predicate Fit(types: map<Topic, Topic>, after: map<Topic, Topic>) {
    && 1 in types && 2 in types && 5 !in types && Distinct(types) && PlainTypes(types)
    && after == Retyped(types - {2}) && Distinct(after)
  }

  // --- the values ------------------------------------------------------------------------

  lemma NamesDiffer(vt: ValueType)
    ensures Name(vt, true) != Name(vt, false)
    ensures Name(vt, true).Locators? ==> Locs(Name(vt, true)) !! Locs(Name(vt, false))
  {
    assert "a"[0] != "b"[0];
    assert "a" in {"a"} && "a" !in {"b"};
    assert 20 in {20} && 20 !in {21};
  }

  lemma PlayEqual(vt: ValueType, a: Topic, b: Topic)
    ensures Play(vt, a) == Play(vt, b) <==> a == b
  {
    assert a in {a} && (a in {b} <==> a == b);
  }

  lemma PlaysDiffer(vt: ValueType, types: map<Topic, Topic>)
    requires Distinct(types)
    ensures Injective(Plays(vt, types))
  {
    var m := Plays(vt, types);
    forall t, u | t in m && u in m && m[t] == m[u] ensures t == u {
      PlayEqual(vt, types[t], types[u]);
    }
  }

  /** Up to a labelling, values with one topic that matters are as equal as those topics. */
  lemma PrintPlay(vt: ValueType, f: Labelling, a: Topic, b: Topic)
    ensures PrintOf(f, Play(vt, a)) == PrintOf(f, Play(vt, b)) <==> f(a) == f(b)
  {
    if !vt.AsidpType? {
      assert PrintOf(f, Topics({a})).topics == {f(a)};
      assert PrintOf(f, Topics({b})).topics == {f(b)};
      assert f(a) in {f(a)} && (f(a) in {f(b)} <==> f(a) == f(b));
    }
  }

  lemma MembersStrict()
    ensures StrictRoles(MEMBERS) && MemberTopics(MEMBERS) == {6, 7, 8}
  {
    assert MEMBERS[0] == Member(6, 7) && MEMBERS[1] == Member(8, 7);
    assert MEMBERS[0] in MEMBERS && MEMBERS[1] in MEMBERS;
  }

  /** A replacement that keeps the members moves only the topic that matters. */
  lemma PlayImage(vt: ValueType, r: Topic -> Topic, x: Topic)
    requires r(6) == 6 && r(7) == 7 && r(8) == 8
    ensures Image(r, Play(vt, x)) == Play(vt, r(x)) && !Collides(r, Play(vt, x))
  {
    if vt.AsidpType? {
      MembersStrict();
      assert Rename(r, MEMBERS) == MEMBERS;
      SortedStays(MEMBERS);
    } else {
      assert (set t | t in {x} :: r(t)) == {r(x)};
    }
  }

  lemma NameImage(vt: ValueType, r: Topic -> Topic, first: bool)
    requires r(6) == 6 && r(7) == 7 && r(8) == 8 && r(20) == 20 && r(21) == 21
    ensures Image(r, Name(vt, first)) == Name(vt, first) && !Collides(r, Name(vt, first))
  {
    MembersStrict();
    ImageFixed(r, Name(vt, first));
  }

  // --- the pass ------------------------------------------------------------------------

  lemma SetsApart()
    ensures Partition(SETS) && NonEmpty(SETS)
  {
  }

  lemma Mergers(f: Labelling)
    ensures Constant(f, SETS) <==> f(1) == f(2) && f(4) == f(5)
  {
    assert SETS[0] == [1, 2] && SETS[1] == [4, 5];
    if Constant(f, SETS) {
      assert ConstantOn(f, SETS[0]) && ConstantOn(f, SETS[1]);
      assert SETS[0][0] in SETS[0] && SETS[0][1] in SETS[0] && SETS[1][0] in SETS[1] && SETS[1][1] in SETS[1];
    }
  }

  lemma NamesMerge(vt: ValueType, f: Labelling)
    ensures RespectsValues(f, Names(vt)) <==> f(1) == f(2) && f(4) == f(5)
  {
    NamesDiffer(vt);
    hide Name;
    var m := Names(vt);
    if RespectsValues(f, m) {
      assert m[1] == m[2] && m[4] == m[5];
    }
  }

  lemma PlaysRespected(vt: ValueType, f: Labelling, types: map<Topic, Topic>)
    requires Distinct(types)
    ensures RespectsValues(f, Plays(vt, types))
  {
    PlaysDiffer(vt, types);
  }

  lemma ValuesMerge(kinds: seq<Kind>, i: nat, j: nat, f: Labelling, types: map<Topic, Topic>)
    requires Prone(kinds, i, j) && Distinct(types)
    ensures RespectsAll(f, kinds, Maps(kinds, i, j, types)) <==> f(1) == f(2) && f(4) == f(5)
  {
    PlaysRespected(kinds[i].valueType, f, types);
    NamesMerge(kinds[j].valueType, f);
    assert RespectsValues(f, map[]);
    hide RespectsValues, Names, Plays;
    var s := Maps(kinds, i, j, types);
    assert s[j] == Names(kinds[j].valueType) && kinds[j].sidp;
  }

  lemma NamesKept(vt: ValueType)
    ensures OneEach(Names(vt), KeptNames(vt))
  {
    NamesDiffer(vt);
    hide Name;
    var m, n := Names(vt), KeptNames(vt);
    assert n[1] == m[1] == m[2] && n[4] == m[4] == m[5];
    assert HasValue(n, n[1]) && HasValue(n, n[4]);
    hide HasValue;
  }

  lemma PlaysKept(vt: ValueType, types: map<Topic, Topic>)
    requires Distinct(types)
    ensures OneEach(Plays(vt, types), Plays(vt, types))
  {
    PlaysDiffer(vt, types);
    var m := Plays(vt, types);
    forall t | t in m ensures HasValue(m, m[t]) {
      assert m[t] == m[t];
    }
  }

  lemma TwoSets(m: Facts)
    ensures NonEmpty(SETS) && ReplaceSets(m, SETS) == ReplaceOne(ReplaceOne(m, 1, 2), 4, 5)
  {
    SetsApart();
    assert SETS[1..] == [[4, 5]] && [[4, 5]][1..] == [];
    OnePair(m, 1, 2);
    OnePair(ReplaceOne(m, 1, 2), 4, 5);
    var n := ReplaceSet(m, SETS[0]);
    assert ReplaceSets(n, SETS[1..]) == ReplaceSet(n, [4, 5]);
  }

  lemma OnePair(m: Facts, s: Topic, d: Topic)
    ensures ReplaceSet(m, [s, d]) == ReplaceOne(m, s, d)
  {
    var ts: seq<Topic> := [s, d];
    assert ReplaceFrom(ReplaceOne(m, ts[0], ts[1]), ts, 2) == ReplaceOne(m, s, d);
  }

  /** Where neither 2 nor 5 is a key, nothing is replaced. */
  lemma NoKeys(m: Facts)
    requires 2 !in m && 5 !in m
    ensures NonEmpty(SETS) && ReplaceSets(m, SETS) == m
  {
    TwoSets(m);
  }

  /** The value of 2 is dropped: 1 has another one. 5 has none. */
  lemma KeysReplaced(vt: ValueType, types: map<Topic, Topic>)
    requires 1 in types && 2 in types && 5 !in types && Distinct(types)
    ensures NonEmpty(SETS) && ReplaceSets(Plays(vt, types), SETS) == Plays(vt, types - {2})
  {
    TwoSets(Plays(vt, types));
    var m := Plays(vt, types);
    PlayEqual(vt, types[1], types[2]);
    assert ReplaceOne(m, 1, 2) == m - {2};
    assert m - {2} == Plays(vt, types - {2});
  }

  lemma ImagesTwice(m: Facts)
    ensures NonEmpty(SETS)
    ensures ImagesSets(m, SETS) == Images(Images(m, AtFun([1, 2])), AtFun([4, 5]))
    ensures !AnyCollides(m, AtFun([1, 2])) && !AnyCollides(Images(m, AtFun([1, 2])), AtFun([4, 5]))
            ==> NoneCollides(m, SETS)
  {
    SetsApart();
    hide Images, AnyCollides, Partition;
    var n := Images(m, AtFun([1, 2]));
    assert SETS[0] == [1, 2] && SETS[1..] == [[4, 5]] && [[4, 5]][1..] == [];
    var last: seq<seq<Topic>> := [[4, 5]];
    assert last[0] == [4, 5] && last[1..] == [];
    assert ImagesSets(n, last) == ImagesSets(Images(n, AtFun([4, 5])), []);
    assert NoneCollides(Images(n, AtFun([4, 5])), []);
  }

  lemma NamesImaged(vt: ValueType, r: Topic -> Topic)
    requires r(6) == 6 && r(7) == 7 && r(8) == 8 && r(20) == 20 && r(21) == 21
    ensures Images(KeptNames(vt), r) == KeptNames(vt) && !AnyCollides(KeptNames(vt), r)
  {
    NameImage(vt, r, true);
    NameImage(vt, r, false);
    hide Name, Image, Collides;
    ImagesSame(KeptNames(vt), r);
  }

  lemma ImagesSame(m: Facts, r: Topic -> Topic)
    requires forall t :: t in m ==> Image(r, m[t]) == m[t] && !Collides(r, m[t])
    ensures Images(m, r) == m && !AnyCollides(m, r)
  {
    hide Image, Collides;
  }

  lemma PlaysImaged(vt: ValueType, types: map<Topic, Topic>, r: Topic -> Topic, after: map<Topic, Topic>)
    requires r(6) == 6 && r(7) == 7 && r(8) == 8
    requires after.Keys == types.Keys && forall t :: t in types ==> after[t] == r(types[t])
    ensures Images(Plays(vt, types), r) == Plays(vt, after) && !AnyCollides(Plays(vt, types), r)
  {
    hide Play, Image, Collides;
    forall t | t in types
      ensures !Collides(r, Play(vt, types[t])) && Image(r, Play(vt, types[t])) == Play(vt, after[t])
    {
      PlayImage(vt, r, types[t]);
    }
    assert Images(Plays(vt, types), r).Keys == Plays(vt, after).Keys;
  }

  lemma NamesReplaced(vt: ValueType)
    ensures NonEmpty(SETS) && NoneCollides(KeptNames(vt), SETS) && ImagesSets(KeptNames(vt), SETS) == KeptNames(vt)
  {
    hide Images, AnyCollides, NoneCollides, ImagesSets, KeptNames;
    ImagesTwice(KeptNames(vt));
    NamesImaged(vt, AtFun([1, 2]));
    NamesImaged(vt, AtFun([4, 5]));
  }

  lemma PlaysReplaced(vt: ValueType, types: map<Topic, Topic>)
    requires PlainTypes(types)
    ensures NonEmpty(SETS) && NoneCollides(Plays(vt, types), SETS)
    ensures ImagesSets(Plays(vt, types), SETS) == Plays(vt, Retyped(types))
  {
    hide Images, AnyCollides, NoneCollides, ImagesSets, Plays;
    ImagesTwice(Plays(vt, types));
    var r, q := AtFun([1, 2]), AtFun([4, 5]);
    assert r(6) == 6 && r(7) == 7 && r(8) == 8 && q(6) == 6 && q(7) == 7 && q(8) == 8;
    PlaysImaged(vt, types, r, types);
    PlaysImaged(vt, types, q, Retyped(types));
  }

  lemma NothingReplaced()
    ensures NonEmpty(SETS) && NoneCollides(map[], SETS) && ImagesSets(map[], SETS) == map[]
  {
    hide Images, AnyCollides, NoneCollides, ImagesSets;
    ImagesTwice(map[]);
    NoImages(AtFun([1, 2]));
    NoImages(AtFun([4, 5]));
  }

  lemma NoImages(r: Topic -> Topic)
    ensures Images(map[], r) == map[] && !AnyCollides(map[], r)
  {
  }

  /** What normalization keeps of one property, and what the pass leaves of it. */
  ghost predicate PassedAt(kind: Kind, m: Facts, kept: Facts, after: Facts) {
    && (if kind.sidp then OneEach(m, kept) else kept == m)
    && NonEmpty(SETS) && NoneCollides(ReplaceSets(kept, SETS), SETS)
    && after == ImagesSets(ReplaceSets(kept, SETS), SETS)
  }

  lemma PassAt(kinds: seq<Kind>, i: nat, j: nat, types: map<Topic, Topic>, after: map<Topic, Topic>, k: nat)
    requires Prone(kinds, i, j) && Fit(types, after) && k < |kinds|
    ensures var s, kept, left := Maps(kinds, i, j, types), Merged(kinds, i, j, types), Merged(kinds, i, j, after);
            PassedAt(kinds[k], s[k], kept[k], left[k])
  {
    SetsApart();
    var vj, vi := kinds[j].valueType, kinds[i].valueType;
    hide Partition, OneEach, ReplaceSets, NoneCollides, ImagesSets, Plays, Names, KeptNames;
    if k == j {
      NamesKept(vj);
      FewKeys(vj);
      NoKeys(KeptNames(vj));
      NamesReplaced(vj);
    } else if k == i {
      PlaysKept(vi, types);
      KeysReplaced(vi, types);
      FewerPlain(types);
      PlaysReplaced(vi, types - {2});
    } else {
      NoneKept();
      NoKeys(map[]);
      NothingReplaced();
    }
  }

  lemma FewKeys(vt: ValueType)
    ensures 2 !in KeptNames(vt) && 5 !in KeptNames(vt)
  {
  }

  lemma NoneKept()
    ensures OneEach(map[], map[])
  {
  }

  lemma FewerPlain(types: map<Topic, Topic>)
    requires PlainTypes(types)
    ensures PlainTypes(types - {2})
  {
  }

  /** No two topics of a merge set keep a value of property j, and texts occur nowhere else. */
  lemma NoContradiction(kinds: seq<Kind>, i: nat, j: nat, types: map<Topic, Topic>)
    requires Prone(kinds, i, j)
    ensures !Contradicts(kinds, Merged(kinds, i, j, types), SETS)
  {
    hide Name, Plays;
    var kept := Merged(kinds, i, j, types);
    forall k | 0 <= k < |kinds| && kinds[k].valueType.TextType? ensures AllAgree(kept[k], SETS) {
      assert k != i;
      if k == j { NamesAgree(kinds[j].valueType); }
    }
  }

  lemma NamesAgree(vt: ValueType)
    ensures AllAgree(KeptNames(vt), SETS)
  {
    hide Name;
    assert SETS[0] == [1, 2] && SETS[1] == [4, 5];
  }

  lemma PassHappens(kinds: seq<Kind>, i: nat, j: nat, types: map<Topic, Topic>, after: map<Topic, Topic>)
    requires Prone(kinds, i, j) && Fit(types, after)
    ensures IsRound(kinds, Maps(kinds, i, j, types), Pass(kinds, i, j, types, after))
  {
    NoContradiction(kinds, i, j, types);
    PassNormalizes(kinds, i, j, types, after);
    hide Normalizes, Contradicts, Maps, Merged, PassedAt, IsRound, Fit;
    var s, kept, left := Maps(kinds, i, j, types), Merged(kinds, i, j, types), Merged(kinds, i, j, after);
    forall k | 0 <= k < |kinds| ensures PassedAt(kinds[k], s[k], kept[k], left[k]) {
      PassAt(kinds, i, j, types, after, k);
    }
    AllPassed(kinds, s, kept, left);
  }

  lemma AllPassed(kinds: seq<Kind>, s: State, kept: State, after: State)
    requires |kinds| == |s| == |kept| == |after|
    requires Normalizes(kinds, s, kept, SETS) && !Contradicts(kinds, kept, SETS)
    requires forall k :: 0 <= k < |kinds| ==> PassedAt(kinds[k], s[k], kept[k], after[k])
    ensures IsRound(kinds, s, Round(kept, SETS, after))
  {
    SetsApart();
    hide Normalizes, Contradicts, OneEach, NoneCollides, ReplaceSets, ImagesSets, Partition, NonEmpty;
  }

  lemma PassNormalizes(kinds: seq<Kind>, i: nat, j: nat, types: map<Topic, Topic>, after: map<Topic, Topic>)
    requires Prone(kinds, i, j) && Fit(types, after)
    ensures Normalizes(kinds, Maps(kinds, i, j, types), Merged(kinds, i, j, types), SETS)
  {
    SetsApart();
    SetsLive(kinds, i, j, types);
    var s, kept := Maps(kinds, i, j, types), Merged(kinds, i, j, types);
    hide Partition, RespectsAll, Constant, OneEach, NoneCollides, Live, AllTopics, Maps, Merged, Retyped, NonEmpty;
    forall f: Labelling ensures Constant(f, SETS) <==> RespectsAll(f, kinds, s) {
      Mergers(f);
      ValuesMerge(kinds, i, j, f, types);
    }
    forall k | 0 <= k < |kinds| ensures if kinds[k].sidp then OneEach(s[k], kept[k]) else kept[k] == s[k] {
      PassAt(kinds, i, j, types, after, k);
    }
  }

  lemma SetsLive(kinds: seq<Kind>, i: nat, j: nat, types: map<Topic, Topic>)
    requires Prone(kinds, i, j)
    ensures AllTopics(SETS) <= Live(Maps(kinds, i, j, types))
  {
    hide Name, Plays;
    forall t | t in AllTopics(SETS) ensures t in Live(Maps(kinds, i, j, types)) {
      assert t in Maps(kinds, i, j, types)[j];
    }
  }

  lemma StartGood(kinds: seq<Kind>, i: nat, j: nat, types: map<Topic, Topic>)
    requires Prone(kinds, i, j)
    ensures Good(kinds, Maps(kinds, i, j, types))
  {
    NamesGood(kinds[j]);
    PlaysGood(kinds[i], types);
    hide Names, Plays;
    forall k | 0 <= k < |kinds| ensures WellKinded(kinds[k], Maps(kinds, i, j, types)[k]) {
      if k != i && k != j { assert Maps(kinds, i, j, types)[k] == map[]; }
    }
  }

  lemma PlaysGood(kind: Kind, types: map<Topic, Topic>)
    requires MayDrop(kind)
    ensures WellKinded(kind, Plays(kind.valueType, types))
  {
    MembersStrict();
  }

  lemma NamesGood(kind: Kind)
    ensures WellKinded(kind, Names(kind.valueType))
  {
    var vt := kind.valueType;
    NamesDiffer(vt);
    NameGood(vt, true);
    NameGood(vt, false);
    hide Name, OfType, Canonical;
  }

  lemma NameGood(vt: ValueType, first: bool)
    ensures OfType(vt, Name(vt, first)) && Canonical(Name(vt, first))
    ensures vt.TextSetType? <==> Name(vt, first).Locators?
    ensures vt.TextSetType? ==> Name(vt, first).locs != {}
  {
    MembersStrict();
  }

  lemma EndSettled(kinds: seq<Kind>, i: nat, j: nat, after: map<Topic, Topic>)
    requires Prone(kinds, i, j) && Distinct(after)
    ensures Settled(kinds, Merged(kinds, i, j, after))
  {
    NamesKept(kinds[j].valueType);
    PlaysDiffer(kinds[i].valueType, after);
    assert Injective(map[]);
    hide KeptNames, Plays, Injective;
  }

  /** One pass over the map leaves it settled. */
  lemma OnePass(kinds: seq<Kind>, i: nat, j: nat, types: map<Topic, Topic>, after: map<Topic, Topic>, run: seq<Round>)
    requires Prone(kinds, i, j) && Fit(types, after) && run == [Pass(kinds, i, j, types, after)]
    ensures Good(kinds, Maps(kinds, i, j, types)) && IsRun(kinds, Maps(kinds, i, j, types), run) && NonEmptySets(run)
    ensures Settles(kinds, Maps(kinds, i, j, types), run)
  {
    var s := Maps(kinds, i, j, types);
    StartGood(kinds, i, j, types);
    PassHappens(kinds, i, j, types, after);
    EndSettled(kinds, i, j, after);
    hide IsRound, Good, Settled, Maps, Merged, Fit, Prone, NonEmptySets;
    assert run[1..] == [] && Final(s, run) == Merged(kinds, i, j, after);
    RunNonEmpty(kinds, s, run);
  }

  lemma Representatives(run: seq<Round>, t: Topic)
    requires |run| == 1 && run[0].sets == SETS && NonEmptySets(run)
    ensures RunRep(run, t) == if t == 2 then 1 else if t == 5 then 4 else t
  {
    SetsApart();
    assert run[1..] == [];
    if t == 1 || t == 2 {
      assert t in SETS[0];
      RepInside(SETS, 0, t);
    } else if t == 4 || t == 5 {
      assert t in SETS[1];
      RepInside(SETS, 1, t);
    } else {
      assert t !in AllTopics(SETS);
      RepOutside(SETS, t);
    }
  }

  // --- a loss ----------------------------------------------------------------------------

  /** What a closed labelling identifies because two topics have one name. */
  lemma NamesIdentify(vt: ValueType, f: Labelling)
    requires ClosedOn(f, Names(vt))
    ensures f(1) == f(2) && f(4) == f(5)
  {
    NameGood(vt, true);
    NameGood(vt, false);
    hide Name;
    var m := Names(vt);
    assert Alike(f, m[4], m[5]) && Alike(f, m[1], m[2]);
  }

  /** What it identifies because two topics have values of alike types. */
  lemma PlaysIdentify(vt: ValueType, f: Labelling, types: map<Topic, Topic>, t: Topic, u: Topic)
    requires ClosedOn(f, Plays(vt, types)) && t in types && u in types && f(types[t]) == f(types[u])
    ensures f(t) == f(u)
  {
    PrintPlay(vt, f, types[t], types[u]);
    assert Alike(f, Plays(vt, types)[t], Plays(vt, types)[u]);
  }

  /** Every closed labelling gives 1, 2, 3 one label and 4, 5, 9 another or the same. */
  lemma MustMerge(kinds: seq<Kind>, i: nat, j: nat, f: Labelling)
    requires Prone(kinds, i, j) && Closed(f, kinds, Maps(kinds, i, j, LOSS))
    ensures f(1) == f(2) == f(3) && f(4) == f(5) == f(9)
  {
    var s := Maps(kinds, i, j, LOSS);
    hide ClosedOn, Plays, Names;
    assert ClosedOn(f, s[i]) && ClosedOn(f, s[j]);
    NamesIdentify(kinds[j].valueType, f);
    PlaysIdentify(kinds[i].valueType, f, LOSS, 2, 3);
    PlaysIdentify(kinds[i].valueType, f, LOSS, 4, 9);
  }

  /** A closed labelling that tells the two classes apart. */
  function TwoClasses(t: Topic): nat {
    if t == 1 || t == 2 || t == 3 then 0 else if t == 4 || t == 5 || t == 9 then 1 else t
  }

  lemma NamesToldApart(vt: ValueType)
    ensures !Alike(TwoClasses, Name(vt, true), Name(vt, false))
    ensures !Alike(TwoClasses, Name(vt, false), Name(vt, true))
  {
    NamesDiffer(vt);
    if vt.TopicSetType? {
      PrintPlay(vt, TwoClasses, 20, 21);
    }
  }

  lemma TwoClassesNames(vt: ValueType)
    ensures ClosedOn(TwoClasses, Names(vt))
  {
    NamesToldApart(vt);
    hide Name, Alike;
  }

  /** Where topics of one class have types of the other, alike values belong to one class. */
  lemma PlaysClosed(vt: ValueType, f: Labelling, types: map<Topic, Topic>)
    requires forall t :: t in types ==> f(t) + f(types[t]) == 1
    ensures ClosedOn(f, Plays(vt, types))
  {
    var m := Plays(vt, types);
    forall t, u | t in m && u in m && Alike(f, m[t], m[u]) ensures f(t) == f(u) {
      PrintPlay(vt, f, types[t], types[u]);
    }
  }

  lemma TwoClassesPlays(vt: ValueType)
    ensures ClosedOn(TwoClasses, Plays(vt, LOSS))
  {
    forall t | t in LOSS ensures TwoClasses(t) + TwoClasses(LOSS[t]) == 1 {
    }
    PlaysClosed(vt, TwoClasses, LOSS);
  }

  lemma TwoClassesClosed(kinds: seq<Kind>, i: nat, j: nat)
    requires Prone(kinds, i, j)
    ensures Closed(TwoClasses, kinds, Maps(kinds, i, j, LOSS))
  {
    TwoClassesNames(kinds[j].valueType);
    TwoClassesPlays(kinds[i].valueType);
    assert ClosedOn(TwoClasses, map[]);
    hide ClosedOn, Plays, Names, TwoClasses;
  }

  /**
   * The values of topics that are forced together are equal up to every closed labelling:
   * whenever they differ, they do so by topics that are forced together as well.
   */
  ghost predicate ValuesAgree(kinds: seq<Kind>, i: nat, j: nat, types: map<Topic, Topic>)
    requires Prone(kinds, i, j)
  {
    forall f: Labelling, t, u | Closed(f, kinds, Maps(kinds, i, j, types)) && t in types && u in types ::
      Identified(kinds, Maps(kinds, i, j, types), t, u)
      ==> PrintOf(f, Play(kinds[i].valueType, types[t])) == PrintOf(f, Play(kinds[i].valueType, types[u]))
  }

  lemma LossAgreesAt(vt: ValueType, f: Labelling, t: Topic, u: Topic)
    requires t in LOSS && u in LOSS && TwoClasses(t) == TwoClasses(u)
    requires f(1) == f(2) == f(3) && f(4) == f(5) == f(9)
    ensures PrintOf(f, Play(vt, LOSS[t])) == PrintOf(f, Play(vt, LOSS[u]))
  {
    PrintPlay(vt, f, LOSS[t], LOSS[u]);
  }

  lemma LossAgrees(kinds: seq<Kind>, i: nat, j: nat)
    requires Prone(kinds, i, j)
    ensures ValuesAgree(kinds, i, j, LOSS)
  {
    hide Closed, Maps, Play, PrintOf, Identified;
    forall f: Labelling, t, u | Closed(f, kinds, Maps(kinds, i, j, LOSS)) && t in LOSS && u in LOSS
                                && Identified(kinds, Maps(kinds, i, j, LOSS), t, u)
      ensures PrintOf(f, Play(kinds[i].valueType, LOSS[t])) == PrintOf(f, Play(kinds[i].valueType, LOSS[u]))
    {
      LossAgreesFor(kinds, i, j, f, t, u);
    }
  }

  lemma LossAgreesFor(kinds: seq<Kind>, i: nat, j: nat, f: Labelling, t: Topic, u: Topic)
    requires Prone(kinds, i, j) && Closed(f, kinds, Maps(kinds, i, j, LOSS)) && t in LOSS && u in LOSS
    requires Identified(kinds, Maps(kinds, i, j, LOSS), t, u)
    ensures PrintOf(f, Play(kinds[i].valueType, LOSS[t])) == PrintOf(f, Play(kinds[i].valueType, LOSS[u]))
  {
    hide Closed, Maps, TwoClasses, Play, PrintOf;
    TwoClassesClosed(kinds, i, j);
    assert TwoClasses(t) == TwoClasses(u);
    MustMerge(kinds, i, j, f);
    hide Identified;
    LossAgreesAt(kinds[i].valueType, f, t, u);
  }

  /**
   * A full merge that ends settled without having merged 2 and 3, which every closed
   * labelling identifies. The values do agree in the end, so it is just the case that the
   * source proceeds for; but the topics that make them equal would only have been merged
   * because of the value that was dropped.
   */
  lemma DroppingLosesAnIdentity(kinds: seq<Kind>, i: nat, j: nat, run: seq<Round>)
    requires Prone(kinds, i, j) && run == [Pass(kinds, i, j, LOSS, AFTER_LOSS)]
    ensures var s := Maps(kinds, i, j, LOSS);
            && Good(kinds, s) && IsRun(kinds, s, run) && NonEmptySets(run) && Settles(kinds, s, run)
            && ValuesAgree(kinds, i, j, LOSS)
            && RunRep(run, 2) != RunRep(run, 3) && Identified(kinds, s, 2, 3)
            && !LostUnshared(kinds, s, run)
  {
    LossAgrees(kinds, i, j);
    Forced(kinds, i, j);
    LossTypes();
    LossRetyped();
    hide IsRound, Good, RunRep, LostUnshared, Closed, Maps, ValuesAgree, Identified, IsRun, NonEmptySets;
    OnePass(kinds, i, j, LOSS, AFTER_LOSS, run);
    Representatives(run, 2);
    Representatives(run, 3);
    hide Settled, Final;
    MissedMerge(kinds, Maps(kinds, i, j, LOSS), run, 2, 3);
  }

  lemma LossTypes()
    ensures Distinct(LOSS) && PlainTypes(LOSS) && 1 in LOSS && 2 in LOSS && 5 !in LOSS
  {
  }

  lemma LossRetyped()
    ensures AFTER_LOSS == Retyped(LOSS - {2}) && Distinct(AFTER_LOSS)
  {
    var fewer := LOSS - {2};
    assert fewer.Keys == {1, 3, 4, 9};
    assert fewer[1] == 9 && fewer[3] == 5 && fewer[4] == 3 && fewer[9] == 1;
  }

  lemma Forced(kinds: seq<Kind>, i: nat, j: nat)
    requires Prone(kinds, i, j)
    ensures Identified(kinds, Maps(kinds, i, j, LOSS), 2, 3)
  {
    forall f: Labelling | Closed(f, kinds, Maps(kinds, i, j, LOSS)) ensures f(2) == f(3) { MustMerge(kinds, i, j, f); }
  }

  // --- which properties merging can be relied on for ------------------------------------------

  /**
   * Merging computes the closure whatever is stored, exactly when no identifying property
   * that holds topics stands next to another identifying property.
   */
  lemma ClosureExactly(kinds: seq<Kind>)
    ensures AlwaysClosure(kinds) <==> !DropProne(kinds)
  {
    if DropProne(kinds) {
      var i, j :| Prone(kinds, i, j);
      LossIsNoClosure(kinds, i, j);
    } else {
      forall s, run | Good(kinds, s) && IsRun(kinds, s, run) && Settles(kinds, s, run)
        ensures NonEmptySets(run) && IsClosure(kinds, s, run)
      {
        NotProneComplete(kinds, s, run);
      }
    }
  }

  lemma LossIsNoClosure(kinds: seq<Kind>, i: nat, j: nat)
    requires Prone(kinds, i, j)
    ensures !AlwaysClosure(kinds)
  {
    var run := [Pass(kinds, i, j, LOSS, AFTER_LOSS)];
    DroppingLosesAnIdentity(kinds, i, j, run);
    hide *;
    Counterexample(kinds, Maps(kinds, i, j, LOSS), run, 2, 3);
  }

  // --- a harmless drop ---------------------------------------------------------------------

  /**
   * The value of 2 differs from that of 1 when the keys are replaced and is dropped; the
   * pass then makes the two equal, and the merge computes the closure.
   */
  lemma DroppingMayBeHarmless(kinds: seq<Kind>, i: nat, j: nat, run: seq<Round>)
    requires Prone(kinds, i, j) && run == [Pass(kinds, i, j, HARMLESS, AFTER_HARMLESS)]
    ensures var s := Maps(kinds, i, j, HARMLESS);
            && Good(kinds, s) && IsRun(kinds, s, run) && NonEmptySets(run) && Settles(kinds, s, run)
            && !Undisputed(run, i, 2) && IsClosure(kinds, s, run)
  {
    assert AFTER_HARMLESS == Retyped(HARMLESS - {2});
    OnePass(kinds, i, j, HARMLESS, AFTER_HARMLESS, run);
    HarmlessAgree(kinds, i, j, run);
    DropsSecond(kinds, i, j, run);
    hide IsRound, Good, Settled, RunRep, IsClosure, Maps, Undisputed, Pass;
    HarmlessDrops(kinds, Maps(kinds, i, j, HARMLESS), run);
  }

  lemma HarmlessAgree(kinds: seq<Kind>, i: nat, j: nat, run: seq<Round>)
    requires Prone(kinds, i, j) && run == [Pass(kinds, i, j, HARMLESS, AFTER_HARMLESS)] && NonEmptySets(run)
    ensures ClassesAgree(kinds, Maps(kinds, i, j, HARMLESS), run)
  {
    HarmlessReps(run);
    ClassesAgreeBy(kinds, i, j, run);
  }

  lemma ClassesAgreeBy(kinds: seq<Kind>, i: nat, j: nat, run: seq<Round>)
    requires Prone(kinds, i, j) && NonEmptySets(run)
    requires RunRep(run, 1) == RunRep(run, 2) == 1 && RunRep(run, 4) == RunRep(run, 5) == 4
    ensures ClassesAgree(kinds, Maps(kinds, i, j, HARMLESS), run)
  {
    hide RunRep, PrintOf, Maps, NonEmptySets, MayDrop;
    forall k, t, u | 0 <= k < |kinds| && t in Maps(kinds, i, j, HARMLESS)[k] && u in Maps(kinds, i, j, HARMLESS)[k]
                     && RunRep(run, t) == RunRep(run, u)
      ensures PrintOf(RunRepFun(run), Maps(kinds, i, j, HARMLESS)[k][t])
              == PrintOf(RunRepFun(run), Maps(kinds, i, j, HARMLESS)[k][u])
    {
      AgreeIn(kinds, i, j, RunRepFun(run), k, t, u);
    }
  }

  lemma HarmlessReps(run: seq<Round>)
    requires |run| == 1 && run[0].sets == SETS && NonEmptySets(run)
    ensures RunRep(run, 1) == RunRep(run, 2) == 1 && RunRep(run, 4) == RunRep(run, 5) == 4
  {
    hide RunRep;
    Representatives(run, 1);
    Representatives(run, 2);
    Representatives(run, 4);
    Representatives(run, 5);
  }

  lemma AgreeIn(kinds: seq<Kind>, i: nat, j: nat, f: Labelling, k: nat, t: Topic, u: Topic)
    requires Prone(kinds, i, j) && f(1) == f(2) && f(4) == f(5) && f(1) != f(4) && f(t) == f(u) && k < |kinds|
    requires t in Maps(kinds, i, j, HARMLESS)[k] && u in Maps(kinds, i, j, HARMLESS)[k]
    ensures PrintOf(f, Maps(kinds, i, j, HARMLESS)[k][t]) == PrintOf(f, Maps(kinds, i, j, HARMLESS)[k][u])
  {
    hide PrintOf, Plays, Names;
    if k == j {
      SameNames(kinds[j].valueType, f);
    } else if k == i {
      PlaysAgree(kinds[i].valueType, f);
      hide Plays;
      assert Maps(kinds, i, j, HARMLESS)[k].Keys == HARMLESS.Keys by { PlaysKeys(kinds[i].valueType, HARMLESS); }
    }
  }

  lemma PlaysKeys(vt: ValueType, types: map<Topic, Topic>)
    ensures Plays(vt, types).Keys == types.Keys
  {
  }

  lemma PlaysAgree(vt: ValueType, f: Labelling)
    requires f(4) == f(5)
    ensures forall t, u :: t in HARMLESS && u in HARMLESS
              ==> PrintOf(f, Plays(vt, HARMLESS)[t]) == PrintOf(f, Plays(vt, HARMLESS)[u])
  {
    PrintPlay(vt, f, 4, 5);
    hide PrintOf, Play;
  }

  lemma SameNames(vt: ValueType, f: Labelling)
    requires f(1) == f(2) && f(4) == f(5) && f(1) != f(4)
    ensures forall t, u :: t in Names(vt) && u in Names(vt) && f(t) == f(u) ==> Names(vt)[t] == Names(vt)[u]
  {
    hide Name;
  }

  lemma DropsSecond(kinds: seq<Kind>, i: nat, j: nat, run: seq<Round>)
    requires Prone(kinds, i, j) && run == [Pass(kinds, i, j, HARMLESS, AFTER_HARMLESS)]
    ensures !Undisputed(run, i, 2)
  {
    var m := Plays(kinds[i].valueType, HARMLESS);
    PlayEqual(kinds[i].valueType, 4, 5);
    hide Play;
    assert SETS[0][0] in SETS[0] && SETS[0][1] in SETS[0];
    assert !Agree(m, SETS[0]);
    assert run[0].kept[i] == m;
  }
}
