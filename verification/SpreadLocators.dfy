/**
 * Which locator sets merging keeps to the topics they belong to. In a property that
 * identifies subjects they are, in one that does not they spread: _pstore_replace_topics
 * stores the union of two values through _pstore_vput (src/topicmap.c:658), which gives it
 * to every topic with an overlapping value, merged or not.
 */
module SpreadLocators {
  import opened Basics
  import opened Values
  import opened MergeSets
  import opened Facts
  import opened Rounds
  import opened Closures
  import opened OnePass
  import opened DroppedValues

  /** Every locator that a topic ends with was held by a topic that it stands for. */
  ghost predicate KeptToClass(s: State, run: seq<Round>, i: nat)
    requires NonEmptySets(run) && i < |s|
  {
    |Final(s, run)| == |s| && forall k, l :: k in Final(s, run)[i] && l in Locs(Final(s, run)[i][k]) ==>
      HeldInClass(s, run, i, k, l)
  }

  ghost predicate HeldInClass(s: State, run: seq<Round>, i: nat, k: Topic, l: Locator)
    requires NonEmptySets(run) && i < |s|
  {
    exists w :: w in s[i] && RunRep(run, w) == k && l in Locs(s[i][w])
  }

  /** Whatever is stored and however it is merged. */
  ghost predicate AlwaysKeptToClass(kinds: seq<Kind>, i: nat)
    requires i < |kinds|
  {
    forall s, run :: Good(kinds, s) && IsRun(kinds, s, run) ==> NonEmptySets(run) && KeptToClass(s, run, i)
  }

  predicate Identifies(kinds: seq<Kind>) {
    exists j :: 0 <= j < |kinds| && kinds[j].sidp
  }

  /**
   * Locators stay with the topics they were given to exactly in properties that identify
   * subjects, or if none does, so that nothing is merged.
   */
  lemma KeptToClassExactly(kinds: seq<Kind>, i: nat)
    requires i < |kinds| && kinds[i].valueType.TextSetType?
    ensures AlwaysKeptToClass(kinds, i) <==> kinds[i].sidp || !Identifies(kinds)
  {
    if kinds[i].sidp || !Identifies(kinds) {
      forall s, run | Good(kinds, s) && IsRun(kinds, s, run) ensures NonEmptySets(run) && KeptToClass(s, run, i) {
        RunNonEmpty(kinds, s, run);
        if kinds[i].sidp { KeptIfIdentifying(kinds, s, run, i); } else { KeptIfIdle(kinds, s, run, i); }
      }
    } else {
      var j :| 0 <= j < |kinds| && kinds[j].sidp;
      Spread(kinds, i, j);
    }
  }

  lemma KeptIfIdentifying(kinds: seq<Kind>, s: State, run: seq<Round>, i: nat)
    requires Good(kinds, s) && IsRun(kinds, s, run) && NonEmptySets(run) && i < |kinds|
    requires kinds[i].sidp && kinds[i].valueType.TextSetType?
    ensures i < |s| && KeptToClass(s, run, i)
  {
    RunGood(kinds, s, run);
    assert |Final(s, run)| == |s| == |kinds|;
    hide IsRun, Good, RunRep, Final;
    forall k, l | k in Final(s, run)[i] && l in Locs(Final(s, run)[i][k]) ensures HeldInClass(s, run, i, k, l) {
      var w := RunHeld(kinds, s, run, i, k, l);
    }
  }

  lemma {:induction false} NothingMerges(kinds: seq<Kind>, s: State, run: seq<Round>)
    requires Good(kinds, s) && IsRun(kinds, s, run) && NonEmptySets(run) && !Identifies(kinds)
    ensures Final(s, run) == s && forall t :: RunRep(run, t) == t
    decreases |run|
  {
    if run != [] {
      var r := run[0];
      assert Settled(kinds, s);
      SettledIdle(kinds, s, r);
      RoundIdle(kinds, s, r);
      assert NonEmptySets(run[1..]) by { assert forall k :: 1 <= k < |run| ==> run[k] == run[1..][k - 1]; }
      NothingMerges(kinds, s, run[1..]);
      FinalTail(s, run);
    }
  }

  lemma KeptIfIdle(kinds: seq<Kind>, s: State, run: seq<Round>, i: nat)
    requires Good(kinds, s) && IsRun(kinds, s, run) && NonEmptySets(run) && !Identifies(kinds) && i < |kinds|
    ensures i < |s| && KeptToClass(s, run, i)
  {
    NothingMerges(kinds, s, run);
    hide IsRun, RunRep, Final;
    forall k, l | k in s[i] && l in Locs(s[i][k]) ensures HeldInClass(s, run, i, k, l) { }
  }

  // --- how they spread -------------------------------------------------------------------------

  /** 1 will be merged with 2, whose value 3 has as well. */
  const BEFORE: Facts := map[1 := Locators({"a"}), 2 := Locators({"b"}), 3 := Locators({"b"})]
  const AFTER: Facts := map[1 := Locators({"a", "b"}), 3 := Locators({"a", "b"})]

  lemma LettersDiffer()
    ensures "a" != "b"
  {
    assert "a"[0] != "b"[0];
  }

  lemma BeforeGood(kind: Kind)
    requires kind.valueType.TextSetType?
    ensures WellKinded(kind, BEFORE)
  {
    LettersDiffer();
    assert "a" in {"a"} && "b" in {"b"};
  }

  lemma UnionSpreads()
    ensures NonEmpty(SETS) && ReplaceSets(BEFORE, SETS) == AFTER
  {
    LettersDiffer();
    TwoSets(BEFORE);
    var rest, ls := BEFORE - {1, 2}, Locs(BEFORE[1]) + Locs(BEFORE[2]);
    assert ls == {"a", "b"} && rest == map[3 := Locators({"b"})];
    assert "b" in Locs(rest[3]) * ls;
    assert Cluster(rest, ls) == {3};
    assert LocsOf(rest, {3}) == {"b"} by { assert "b" in Locs(rest[3]); }
    assert BEFORE[1] != BEFORE[2] by { assert "a" in Locs(BEFORE[1]) && "a" !in Locs(BEFORE[2]); }
    assert Absorb(rest, 1, ls) == AFTER;
  }

  lemma AfterImaged(r: Topic -> Topic)
    ensures Images(AFTER, r) == AFTER && !AnyCollides(AFTER, r)
  {
  }

  lemma AfterReplaced()
    ensures NonEmpty(SETS) && NoneCollides(AFTER, SETS) && ImagesSets(AFTER, SETS) == AFTER
  {
    hide Images, AnyCollides, NoneCollides, ImagesSets;
    ImagesTwice(AFTER);
    AfterImaged(AtFun([1, 2]));
    AfterImaged(AtFun([4, 5]));
  }

  function Start(kinds: seq<Kind>, i: nat, j: nat): (s: State)
    requires i < |kinds| && j < |kinds|
    ensures |s| == |kinds|
  {
    StateOf(|kinds|, i, j, Names(kinds[j].valueType), BEFORE)
  }

  /** With one name left for each topic, and facts in property i. */
  function Named(kinds: seq<Kind>, i: nat, j: nat, facts: Facts): (s: State)
    requires i < |kinds| && j < |kinds|
    ensures |s| == |kinds|
  {
    StateOf(|kinds|, i, j, KeptNames(kinds[j].valueType), facts)
  }

  lemma SpreadAt(kinds: seq<Kind>, i: nat, j: nat, k: nat)
    requires i < |kinds| && j < |kinds| && kinds[j].sidp && !kinds[i].sidp && k < |kinds|
    ensures PassedAt(kinds[k], Start(kinds, i, j)[k], Named(kinds, i, j, BEFORE)[k], Named(kinds, i, j, AFTER)[k])
  {
    SetsApart();
    hide Partition, OneEach, ReplaceSets, NoneCollides, ImagesSets, Names, KeptNames;
    if k == j {
      NamesKept(kinds[j].valueType);
      FewKeys(kinds[j].valueType);
      NoKeys(KeptNames(kinds[j].valueType));
      NamesReplaced(kinds[j].valueType);
    } else if k == i {
      UnionSpreads();
      AfterReplaced();
    } else {
      NoneKept();
      NoKeys(map[]);
      NothingReplaced();
    }
  }

  lemma SpreadRespects(kinds: seq<Kind>, i: nat, j: nat, f: Labelling)
    requires i < |kinds| && j < |kinds| && kinds[j].sidp && !kinds[i].sidp
    ensures RespectsAll(f, kinds, Start(kinds, i, j)) <==> f(1) == f(2) && f(4) == f(5)
  {
    NamesMerge(kinds[j].valueType, f);
    assert RespectsValues(f, map[]);
    hide RespectsValues, Names;
    var s := Start(kinds, i, j);
    assert s[j] == Names(kinds[j].valueType);
  }

  lemma SpreadLive(kinds: seq<Kind>, i: nat, j: nat)
    requires i < |kinds| && j < |kinds|
    ensures AllTopics(SETS) <= Live(Start(kinds, i, j))
  {
    hide Name;
    forall t | t in AllTopics(SETS) ensures t in Live(Start(kinds, i, j)) {
      assert t in Start(kinds, i, j)[j];
    }
  }

  lemma SpreadNormalizes(kinds: seq<Kind>, i: nat, j: nat)
    requires i < |kinds| && j < |kinds| && kinds[j].sidp && !kinds[i].sidp
    ensures Normalizes(kinds, Start(kinds, i, j), Named(kinds, i, j, BEFORE), SETS)
  {
    SetsApart();
    SpreadLive(kinds, i, j);
    var s, kept := Start(kinds, i, j), Named(kinds, i, j, BEFORE);
    hide Partition, RespectsAll, Constant, OneEach, NoneCollides, Live, AllTopics, Start, Named, NonEmpty;
    forall f: Labelling ensures Constant(f, SETS) <==> RespectsAll(f, kinds, s) {
      Mergers(f);
      SpreadRespects(kinds, i, j, f);
    }
    forall k | 0 <= k < |kinds| ensures if kinds[k].sidp then OneEach(s[k], kept[k]) else kept[k] == s[k] {
      SpreadAt(kinds, i, j, k);
    }
  }

  lemma SpreadAgrees(kinds: seq<Kind>, i: nat, j: nat)
    requires i < |kinds| && j < |kinds| && kinds[i].valueType.TextSetType? && i != j
    ensures !Contradicts(kinds, Named(kinds, i, j, BEFORE), SETS)
  {
    hide Name;
    var kept := Named(kinds, i, j, BEFORE);
    forall k | 0 <= k < |kinds| && kinds[k].valueType.TextType? ensures AllAgree(kept[k], SETS) {
      if k == j { NamesAgree(kinds[j].valueType); }
    }
  }

  lemma SpreadGood(kinds: seq<Kind>, i: nat, j: nat)
    requires i < |kinds| && j < |kinds| && kinds[i].valueType.TextSetType? && i != j
    ensures Good(kinds, Start(kinds, i, j))
  {
    NamesGood(kinds[j]);
    BeforeGood(kinds[i]);
    hide Names;
    forall k | 0 <= k < |kinds| ensures WellKinded(kinds[k], Start(kinds, i, j)[k]) {
      if k != i && k != j { assert Start(kinds, i, j)[k] == map[]; }
    }
  }

  lemma SpreadRound(kinds: seq<Kind>, i: nat, j: nat)
    requires i < |kinds| && j < |kinds| && kinds[j].sidp && !kinds[i].sidp && kinds[i].valueType.TextSetType?
    ensures IsRound(kinds, Start(kinds, i, j), Round(Named(kinds, i, j, BEFORE), SETS, Named(kinds, i, j, AFTER)))
  {
    hide Normalizes, Contradicts, PassedAt, IsRound, Start, Named;
    SpreadNormalizes(kinds, i, j);
    SpreadAgrees(kinds, i, j);
    var s, kept, after := Start(kinds, i, j), Named(kinds, i, j, BEFORE), Named(kinds, i, j, AFTER);
    forall k | 0 <= k < |kinds| ensures PassedAt(kinds[k], s[k], kept[k], after[k]) {
      SpreadAt(kinds, i, j, k);
    }
    AllPassed(kinds, s, kept, after);
  }

  /** A merge after which 3 has the locator "a" that only 1 was given, although 3 is merged with nothing. */
  lemma Spread(kinds: seq<Kind>, i: nat, j: nat)
    requires i < |kinds| && j < |kinds| && kinds[j].sidp && !kinds[i].sidp && kinds[i].valueType.TextSetType?
    ensures !AlwaysKeptToClass(kinds, i)
  {
    var s, run := Start(kinds, i, j), [Round(Named(kinds, i, j, BEFORE), SETS, Named(kinds, i, j, AFTER))];
    SpreadGood(kinds, i, j);
    SpreadRound(kinds, i, j);
    assert s[i] == BEFORE && Named(kinds, i, j, AFTER)[i] == AFTER;
    hide *;
    OneRound(kinds, s, run);
    NotHeld(s, run, i);
    NotAlways(kinds, i, s, run);
  }

  lemma OneRound(kinds: seq<Kind>, s: State, run: seq<Round>)
    requires |run| == 1 && IsRound(kinds, s, run[0])
    ensures IsRun(kinds, s, run) && NonEmptySets(run)
  {
    hide IsRound;
    assert run[1..] == [];
    RunNonEmpty(kinds, s, run);
  }

  lemma NotAlways(kinds: seq<Kind>, i: nat, s: State, run: seq<Round>)
    requires i < |kinds| == |s| && Good(kinds, s) && IsRun(kinds, s, run) && NonEmptySets(run)
    requires !KeptToClass(s, run, i)
    ensures !AlwaysKeptToClass(kinds, i)
  {
    hide KeptToClass, Good, IsRun, NonEmptySets;
  }

  lemma NotHeld(s: State, run: seq<Round>, i: nat)
    requires NonEmptySets(run) && |run| == 1 && run[0].sets == SETS && |run[0].after| == |s| && i < |s|
    requires s[i] == BEFORE && run[0].after[i] == AFTER
    ensures !KeptToClass(s, run, i)
  {
    LettersDiffer();
    assert Final(s, run) == run[0].after;
    assert "a" in Locs(AFTER[3]);
    if HeldInClass(s, run, i, 3, "a") {
      var w :| w in s[i] && RunRep(run, w) == 3 && "a" in Locs(s[i][w]);
      Representatives(run, w);
      assert false;
    }
  }
}
