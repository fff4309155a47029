/**
 * What full merging computes (tm_topicmap_fully_merge): the least identification of
 * topics that is closed under the rules on the original facts, except where
 * src/topicmap.c:608-635 drops a value that another class holds as well.
 */
module Closures {
  import opened Basics
  import opened Values
  import opened MergeSets
  import opened Facts
  import opened Rounds

  // --- what a run leaves as values ---------------------------------------------------

  lemma RunImage(run: seq<Round>, v: Value)
    requires NonEmptySets(run) && run != [] && NonEmptySets(run[1..]) && NonEmpty(run[0].sets)
    requires !Collides(RepFun(run[0].sets), v)
    requires !Collides(RunRepFun(run[1..]), Image(RepFun(run[0].sets), v))
    ensures Image(RunRepFun(run[1..]), Image(RepFun(run[0].sets), v)) == Image(RunRepFun(run), v)
    ensures !Collides(RunRepFun(run), v)
  {
    hide Image, Collides;
    forall x ensures RunRepFun(run)(x) == RunRepFun(run[1..])(RepFun(run[0].sets)(x)) { }
    ImageComposeAs(RepFun(run[0].sets), RunRepFun(run[1..]), RunRepFun(run), v);
  }

  /** A topic with a value leaves a final representative with one. */
  lemma {:induction false} RunHas(kinds: seq<Kind>, s: State, run: seq<Round>, i: nat, t: Topic)
    requires Good(kinds, s) && IsRun(kinds, s, run) && i < |s| && t in s[i]
    ensures NonEmptySets(run) && |Final(s, run)| == |s|
    ensures RunRep(run, t) in Final(s, run)[i]
    decreases |run|
  {
    RunNonEmpty(kinds, s, run);
    if run != [] {
      RoundHas(kinds, s, run[0], i, t);
      RoundGood(kinds, s, run[0]);
      RunHas(kinds, run[0].after, run[1..], i, Rep(run[0].sets, t));
      FinalTail(s, run);
    }
  }

  /**
   * Whatever was dropped on the way, the value a representative ends with is the original
   * value of a topic it stands for, with all topics in it replaced at once.
   */
  lemma {:induction false} RunValue(kinds: seq<Kind>, s: State, run: seq<Round>, i: nat, k: Topic) returns (w: Topic)
    requires Good(kinds, s) && IsRun(kinds, s, run) && i < |s|
    requires |Final(s, run)| == |s| && k in Final(s, run)[i] && !kinds[i].valueType.TextSetType?
    ensures NonEmptySets(run) && w in s[i] && RunRep(run, w) == k
    ensures Final(s, run)[i][k] == Image(RunRepFun(run), s[i][w]) && !Collides(RunRepFun(run), s[i][w])
    decreases |run|
  {
    RunNonEmpty(kinds, s, run);
    if run == [] {
      w := k;
      ImageFixed(RunRepFun(run), s[i][w]);
    } else {
      RoundGood(kinds, s, run[0]);
      FinalTail(s, run);
      var u := RunValue(kinds, run[0].after, run[1..], i, k);
      w := RoundValue(kinds, s, run[0], i, u);
      RunImage(run, s[i][w]);
    }
  }

  /** In every pass, the topics that are merged with the one standing for t agree on property i. */
  ghost predicate Undisputed(run: seq<Round>, i: nat, t: Topic)
    decreases |run|
  {
    run == []
    || (NonEmpty(run[0].sets) && i < |run[0].kept| && AgreeAt(run[0].kept[i], run[0].sets, t)
        && Undisputed(run[1..], i, Rep(run[0].sets, t)))
  }

  /** Then the final representative has the value of t, its topics replaced. */
  lemma {:induction false} RunKeepsValue(kinds: seq<Kind>, s: State, run: seq<Round>, i: nat, t: Topic)
    requires Good(kinds, s) && IsRun(kinds, s, run) && i < |s| && t in s[i]
    requires !kinds[i].valueType.TextSetType? && Undisputed(run, i, t)
    ensures NonEmptySets(run) && |Final(s, run)| == |s|
    ensures RunRep(run, t) in Final(s, run)[i]
    ensures Final(s, run)[i][RunRep(run, t)] == Image(RunRepFun(run), s[i][t])
    ensures !Collides(RunRepFun(run), s[i][t])
    decreases |run|
  {
    RunNonEmpty(kinds, s, run);
    if run == [] {
      ImageFixed(RunRepFun(run), s[i][t]);
    } else {
      var head, tail, rest := run[0].sets, run[1..], run[0].after;
      RoundKeepsValue(kinds, s, run[0], i, t);
      RoundGood(kinds, s, run[0]);
      RunKeepsValue(kinds, rest, tail, i, Rep(head, t));
      FinalTail(s, run);
      RunImage(run, s[i][t]);
    }
  }

  /** A pass that goes through contradicts nothing, so it drops no text. */
  lemma {:induction false} TextsStay(kinds: seq<Kind>, s: State, run: seq<Round>, i: nat, t: Topic)
    requires IsRun(kinds, s, run) && i < |kinds| && kinds[i].valueType.TextType?
    ensures Undisputed(run, i, t)
    decreases |run|
  {
    if run != [] {
      assert NonEmpty(run[0].sets);
      TextsStay(kinds, run[0].after, run[1..], i, Rep(run[0].sets, t));
    }
  }

  // --- lost values ---------------------------------------------------------------------

  /** The representative of t ends with another value than that of t, also when its topics are replaced. */
  ghost predicate Lost(s: State, run: seq<Round>, i: nat, t: Topic)
    requires NonEmptySets(run) && i < |s| && t in s[i]
  {
    var e, f := Final(s, run), RunRepFun(run);
    i < |e| && f(t) in e[i] && e[i][f(t)] != Image(f, s[i][t])
  }

  /** No value is lost without a dispute: a pass in which the branch at src/topicmap.c:606 finds different values. */
  lemma LostDisputed(kinds: seq<Kind>, s: State, run: seq<Round>, i: nat, t: Topic)
    requires Good(kinds, s) && IsRun(kinds, s, run) && NonEmptySets(run) && i < |s| && t in s[i]
    requires !kinds[i].valueType.TextSetType? && Lost(s, run, i, t)
    ensures !Undisputed(run, i, t)
  {
    if Undisputed(run, i, t) {
      RunKeepsValue(kinds, s, run, i, t);
    }
  }

  /** Values contain topics, so a replaced key may lose its value (the test at src/topicmap.c:610). */
  predicate MayDrop(k: Kind) {
    k.valueType.AsidpType? || k.valueType.TopicSetType?
  }

  /**
   * No lost value of a subject-identifying property is shared: a topic whose value is
   * equal to it, up to the final representatives, is in the same class.
   */
  ghost predicate LostUnshared(kinds: seq<Kind>, s: State, run: seq<Round>)
    requires |kinds| == |s| && NonEmptySets(run)
  {
    forall i, t, u ::
      0 <= i < |s| && kinds[i].sidp && MayDrop(kinds[i]) && t in s[i] && u in s[i]
      && Lost(s, run, i, t) && PrintOf(RunRepFun(run), s[i][t]) == PrintOf(RunRepFun(run), s[i][u])
      ==> RunRep(run, t) == RunRep(run, u)
  }

  /** Canonical images of values that are equal up to f are equal. */
  lemma EqualImages(f: Topic -> Topic, v: Value, w: Value)
    requires PrintOf(f, v) == PrintOf(f, w)
    requires Canonical(Image(f, v)) && Canonical(Image(f, w))
    ensures Image(f, v) == Image(f, w)
  {
    ImagePrint(SAME, f, v);
    ImagePrint(SAME, f, w);
    PrintAgrees(t => SAME(f(t)), f, v);
    PrintAgrees(t => SAME(f(t)), f, w);
    PrintDetermines(Image(f, v), Image(f, w));
  }

  /** A value that is equal up to f to one whose replacement does not collide has the same image. */
  lemma SameImage(f: Topic -> Topic, v: Value, w: Value)
    requires PrintOf(f, v) == PrintOf(f, w) && !Collides(f, w)
    ensures Image(f, v) == Image(f, w)
  {
    if v.Asidp? {
      BagApart(f, v.members, w.members);
      ImageCanonical(f, v);
      ImageCanonical(f, w);
      EqualImages(f, v, w);
    }
  }

  /** Overlapping locator sets end under one representative. */
  lemma OverlapMerged(kinds: seq<Kind>, s: State, run: seq<Round>, i: nat, t: Topic, u: Topic)
    requires Good(kinds, s) && IsRun(kinds, s, run)
    requires |Final(s, run)| == |kinds| && Settled(kinds, Final(s, run))
    requires i < |s| && kinds[i].sidp && kinds[i].valueType.TextSetType? && t in s[i] && u in s[i]
    requires Locs(s[i][t]) * Locs(s[i][u]) != {}
    ensures NonEmptySets(run) && RunRep(run, t) == RunRep(run, u)
  {
    RunGood(kinds, s, run);
    RunCarries(kinds, s, run, i, t);
    RunCarries(kinds, s, run, i, u);
    var e: State := Final(s, run);
    var l :| l in Locs(s[i][t]) && l in Locs(s[i][u]);
    assert l in Locs(e[i][RunRep(run, t)]) && l in Locs(e[i][RunRep(run, u)]);
    assert IdFacts(e[i]) && Injective(e[i]);
  }

  /** Values that are equal up to the representatives and not lost end under one representative. */
  lemma EqualMerged(kinds: seq<Kind>, s: State, run: seq<Round>, i: nat, t: Topic, u: Topic)
    requires Good(kinds, s) && IsRun(kinds, s, run) && NonEmptySets(run)
    requires |Final(s, run)| == |kinds| && Settled(kinds, Final(s, run))
    requires i < |s| && kinds[i].sidp && !kinds[i].valueType.TextSetType? && t in s[i] && u in s[i]
    requires PrintOf(RunRepFun(run), s[i][t]) == PrintOf(RunRepFun(run), s[i][u])
    requires !Lost(s, run, i, t) && !Lost(s, run, i, u)
    ensures RunRep(run, t) == RunRep(run, u)
  {
    RunGood(kinds, s, run);
    RunHas(kinds, s, run, i, t);
    RunHas(kinds, s, run, i, u);
    var e: State := Final(s, run);
    assert PlainFacts(e[i]) && Injective(e[i]);
    EqualImages(RunRepFun(run), s[i][t], s[i][u]);
  }

  lemma TextsNotLost(kinds: seq<Kind>, s: State, run: seq<Round>, i: nat, t: Topic)
    requires Good(kinds, s) && IsRun(kinds, s, run) && NonEmptySets(run)
    requires i < |s| && kinds[i].valueType.TextType? && t in s[i]
    ensures !Lost(s, run, i, t)
  {
    TextsStay(kinds, s, run, i, t);
    RunKeepsValue(kinds, s, run, i, t);
  }

  /**
   * Merge completeness, exactly: the merged partition is closed under the identification
   * rules on the original facts if and only if no lost value is shared with another class.
   */
  lemma ClosedIffLostUnshared(kinds: seq<Kind>, s: State, run: seq<Round>)
    requires Good(kinds, s) && IsRun(kinds, s, run)
    requires |Final(s, run)| == |kinds| && Settled(kinds, Final(s, run))
    ensures NonEmptySets(run) && (Closed(RunRepFun(run), kinds, s) <==> LostUnshared(kinds, s, run))
  {
    RunNonEmpty(kinds, s, run);
    hide IsRun, Final, RunRep, Good, Settled, Lost, PrintOf, Alike, NonEmptySets, MayDrop;
    var f: Topic -> Topic := RunRepFun(run);
    if Closed(f, kinds, s) {
      ClosedUnshared(kinds, s, run);
    }
    if LostUnshared(kinds, s, run) {
      forall i, t, u | 0 <= i < |s| && kinds[i].sidp && t in s[i] && u in s[i] && Alike(f, s[i][t], s[i][u])
        ensures f(t) == f(u)
      {
        AlikeMerged(kinds, s, run, i, t, u);
      }
    }
  }

  lemma ClosedUnshared(kinds: seq<Kind>, s: State, run: seq<Round>)
    requires Good(kinds, s) && NonEmptySets(run) && Closed(RunRepFun(run), kinds, s)
    ensures LostUnshared(kinds, s, run)
  {
    var f: Topic -> Topic := RunRepFun(run);
    hide RunRep, Good, Lost, PrintOf, Alike, NonEmptySets;
    forall i, t, u | 0 <= i < |s| && kinds[i].sidp && MayDrop(kinds[i]) && t in s[i] && u in s[i]
                     && PrintOf(f, s[i][t]) == PrintOf(f, s[i][u])
      ensures RunRep(run, t) == RunRep(run, u)
    {
      PlainAlike(kinds, s, i, f, t, u);
      assert ClosedOn(f, s[i]);
      assert f(t) == f(u);
    }
  }

  lemma PlainAlike(kinds: seq<Kind>, s: State, i: nat, f: Labelling, t: Topic, u: Topic)
    requires Good(kinds, s) && i < |s| && t in s[i] && u in s[i]
    requires if kinds[i].valueType.TextSetType? then Locs(s[i][t]) * Locs(s[i][u]) != {}
             else PrintOf(f, s[i][t]) == PrintOf(f, s[i][u])
    ensures Alike(f, s[i][t], s[i][u])
  {
    assert WellKinded(kinds[i], s[i]);
  }

  lemma AlikeMerged(kinds: seq<Kind>, s: State, run: seq<Round>, i: nat, t: Topic, u: Topic)
    requires Good(kinds, s) && IsRun(kinds, s, run) && NonEmptySets(run)
    requires |Final(s, run)| == |kinds| && Settled(kinds, Final(s, run)) && LostUnshared(kinds, s, run)
    requires i < |s| && kinds[i].sidp && t in s[i] && u in s[i] && Alike(RunRepFun(run), s[i][t], s[i][u])
    ensures RunRep(run, t) == RunRep(run, u)
  {
    assert WellKinded(kinds[i], s[i]);
    assert OfType(kinds[i].valueType, s[i][t]) && OfType(kinds[i].valueType, s[i][u]);
    hide IsRun, Final, RunRep, Good, Settled, Lost, PrintOf;
    if kinds[i].valueType.TextSetType? {
      OverlapMerged(kinds, s, run, i, t, u);
    } else if kinds[i].valueType.TextType? {
      TextsNotLost(kinds, s, run, i, t);
      TextsNotLost(kinds, s, run, i, u);
      EqualMerged(kinds, s, run, i, t, u);
    } else if !Lost(s, run, i, t) && !Lost(s, run, i, u) {
      EqualMerged(kinds, s, run, i, t, u);
    }
  }

  // --- the congruence closure -------------------------------------------------------------

  /** Every closed labelling gives t and u one label: the least equivalence has them together. */
  ghost predicate Identified(kinds: seq<Kind>, s: State, t: Topic, u: Topic)
    requires |s| == |kinds|
  {
    forall f: Labelling :: Closed(f, kinds, s) ==> f(t) == f(u)
  }

  /** The run merges exactly the topics that the original facts force together. */
  ghost predicate IsClosure(kinds: seq<Kind>, s: State, run: seq<Round>)
    requires |s| == |kinds| && NonEmptySets(run)
  {
    forall t, u :: RunRep(run, t) == RunRep(run, u) <==> Identified(kinds, s, t, u)
  }

  /** Merging never goes too far. */
  lemma MergedIdentified(kinds: seq<Kind>, s: State, run: seq<Round>, t: Topic, u: Topic)
    requires Good(kinds, s) && IsRun(kinds, s, run) && NonEmptySets(run) && RunRep(run, t) == RunRep(run, u)
    ensures Identified(kinds, s, t, u)
  {
    forall f: Labelling | Closed(f, kinds, s) ensures f(t) == f(u) {
      RunSound(f, kinds, s, run, t);
      RunSound(f, kinds, s, run, u);
    }
  }

  /** Every closed labelling factors through the representatives, so it sees values that they make alike as alike. */
  lemma AlikeForAll(g: Labelling, kinds: seq<Kind>, s: State, run: seq<Round>, v: Value, w: Value)
    requires Good(kinds, s) && IsRun(kinds, s, run) && NonEmptySets(run) && Closed(g, kinds, s)
    requires Alike(RunRepFun(run), v, w)
    ensures Alike(g, v, w)
  {
    if !(v.Locators? && w.Locators?) {
      var f: Topic -> Topic := RunRepFun(run);
      forall t ensures g(f(t)) == g(t) { RunSound(g, kinds, s, run, t); }
      PrintCompose(g, f, v, w);
      PrintAgrees(t => g(f(t)), g, v);
      PrintAgrees(t => g(f(t)), g, w);
    }
  }

  /** The merged partition is the least closed one as soon as it is closed, and only then. */
  lemma ClosedIffClosure(kinds: seq<Kind>, s: State, run: seq<Round>)
    requires Good(kinds, s) && IsRun(kinds, s, run)
    ensures NonEmptySets(run) && (Closed(RunRepFun(run), kinds, s) <==> IsClosure(kinds, s, run))
  {
    RunNonEmpty(kinds, s, run);
    var f: Topic -> Topic := RunRepFun(run);
    hide IsRun, RunRep, Good, PrintOf, Alike;
    if Closed(f, kinds, s) {
      forall t, u ensures RunRep(run, t) == RunRep(run, u) <==> Identified(kinds, s, t, u) {
        if RunRep(run, t) == RunRep(run, u) {
          MergedIdentified(kinds, s, run, t, u);
        } else {
          assert f(t) != f(u);
        }
      }
    }
    if IsClosure(kinds, s, run) {
      forall i, t, u | 0 <= i < |s| && kinds[i].sidp && t in s[i] && u in s[i] && Alike(f, s[i][t], s[i][u])
        ensures f(t) == f(u)
      {
        forall g: Labelling | Closed(g, kinds, s) ensures g(t) == g(u) {
          AlikeForAll(g, kinds, s, run, s[i][t], s[i][u]);
          assert ClosedOn(g, s[i]);
        }
        assert Identified(kinds, s, t, u);
      }
    }
  }

  /**
   * Full merging computes the congruence closure of the original facts, two topics getting
   * one representative exactly when every closed labelling identifies them, if and only if
   * no lost value is shared with another class.
   */
  lemma MergeIsCongruenceClosure(kinds: seq<Kind>, s: State, run: seq<Round>)
    requires Good(kinds, s) && IsRun(kinds, s, run)
    requires |Final(s, run)| == |kinds| && Settled(kinds, Final(s, run))
    ensures NonEmptySets(run) && (IsClosure(kinds, s, run) <==> LostUnshared(kinds, s, run))
  {
    ClosedIffLostUnshared(kinds, s, run);
    ClosedIffClosure(kinds, s, run);
  }

  /** A merge that misses an identity has lost a value that it shares. */
  lemma MissedMerge(kinds: seq<Kind>, s: State, run: seq<Round>, t: Topic, u: Topic)
    requires Good(kinds, s) && IsRun(kinds, s, run) && NonEmptySets(run)
    requires |Final(s, run)| == |kinds| && Settled(kinds, Final(s, run))
    requires RunRep(run, t) != RunRep(run, u) && Identified(kinds, s, t, u)
    ensures !LostUnshared(kinds, s, run)
  {
    hide IsRun, Final, RunRep, Good, Settled, LostUnshared, Identified;
    MergeIsCongruenceClosure(kinds, s, run);
  }

  // --- when nothing that matters is lost -----------------------------------------------------

  /** Values of one class are equal up to the representatives. */
  ghost predicate ClassesAgree(kinds: seq<Kind>, s: State, run: seq<Round>)
    requires |kinds| == |s| && NonEmptySets(run)
  {
    forall i, t, u ::
      0 <= i < |s| && kinds[i].sidp && MayDrop(kinds[i]) && t in s[i] && u in s[i] && RunRep(run, t) == RunRep(run, u)
      ==> PrintOf(RunRepFun(run), s[i][t]) == PrintOf(RunRepFun(run), s[i][u])
  }

  /** A value that equals, up to the representatives, the one that displaced it is not lost. */
  lemma AgreeingNotLost(kinds: seq<Kind>, s: State, run: seq<Round>, i: nat, t: Topic)
    requires Good(kinds, s) && IsRun(kinds, s, run) && NonEmptySets(run) && ClassesAgree(kinds, s, run)
    requires i < |s| && kinds[i].sidp && MayDrop(kinds[i]) && t in s[i]
    ensures !Lost(s, run, i, t)
  {
    RunHas(kinds, s, run, i, t);
    var f: Topic -> Topic := RunRepFun(run);
    var w := RunValue(kinds, s, run, i, f(t));
    SameImage(f, s[i][t], s[i][w]);
  }

  /**
   * Dropped values are harmless when the classes that result agree on them: where all
   * values of a class are equal up to the final representatives, merging computes the
   * closure, however many of them were dropped before they became equal.
   */
  lemma HarmlessDrops(kinds: seq<Kind>, s: State, run: seq<Round>)
    requires Good(kinds, s) && IsRun(kinds, s, run)
    requires |Final(s, run)| == |kinds| && Settled(kinds, Final(s, run))
    requires NonEmptySets(run) && ClassesAgree(kinds, s, run)
    ensures IsClosure(kinds, s, run)
  {
    forall i, t | 0 <= i < |s| && kinds[i].sidp && MayDrop(kinds[i]) && t in s[i] ensures !Lost(s, run, i, t) {
      AgreeingNotLost(kinds, s, run, i, t);
    }
    MergeIsCongruenceClosure(kinds, s, run);
  }

  /**
   * A test on the original facts: where topics that are forced together never have
   * different values, merging computes the closure.
   */
  lemma SingleValuedComplete(kinds: seq<Kind>, s: State, run: seq<Round>)
    requires Good(kinds, s) && IsRun(kinds, s, run)
    requires |Final(s, run)| == |kinds| && Settled(kinds, Final(s, run))
    requires forall i, t, u | 0 <= i < |s| && kinds[i].sidp && MayDrop(kinds[i]) && t in s[i] && u in s[i] ::
               Identified(kinds, s, t, u) ==> s[i][t] == s[i][u]
    ensures NonEmptySets(run) && IsClosure(kinds, s, run)
  {
    RunNonEmpty(kinds, s, run);
    hide Identified, RunRep, IsRun, Final, Good, Settled, PrintOf, IsClosure;
    forall i, t, u | 0 <= i < |s| && kinds[i].sidp && MayDrop(kinds[i]) && t in s[i] && u in s[i]
                     && RunRep(run, t) == RunRep(run, u)
      ensures PrintOf(RunRepFun(run), s[i][t]) == PrintOf(RunRepFun(run), s[i][u])
    {
      MergedIdentified(kinds, s, run, t, u);
    }
    HarmlessDrops(kinds, s, run);
  }

  /** No pass finds different values of a subject-identifying property in one merge set. */
  ghost predicate NothingDropped(kinds: seq<Kind>, s: State, run: seq<Round>)
    requires |kinds| == |s|
  {
    forall i, t | 0 <= i < |s| && kinds[i].sidp && MayDrop(kinds[i]) && t in s[i] :: Undisputed(run, i, t)
  }

  lemma RunComplete(kinds: seq<Kind>, s: State, run: seq<Round>)
    requires Good(kinds, s) && IsRun(kinds, s, run) && NothingDropped(kinds, s, run)
    requires |Final(s, run)| == |kinds| && Settled(kinds, Final(s, run))
    ensures NonEmptySets(run) && IsClosure(kinds, s, run)
  {
    RunNonEmpty(kinds, s, run);
    forall i, t | 0 <= i < |s| && kinds[i].sidp && MayDrop(kinds[i]) && t in s[i] ensures !Lost(s, run, i, t) {
      RunKeepsValue(kinds, s, run, i, t);
    }
    MergeIsCongruenceClosure(kinds, s, run);
  }

  /** Where identifying values contain no topics, merging always computes the closure. */
  lemma TopicFreeComplete(kinds: seq<Kind>, s: State, run: seq<Round>)
    requires Good(kinds, s) && IsRun(kinds, s, run)
    requires |Final(s, run)| == |kinds| && Settled(kinds, Final(s, run))
    requires forall k :: k in kinds && k.sidp ==> !MayDrop(k)
    ensures NonEmptySets(run) && IsClosure(kinds, s, run)
  {
    RunNonEmpty(kinds, s, run);
    assert forall i :: 0 <= i < |kinds| ==> kinds[i] in kinds;
    RunComplete(kinds, s, run);
  }

  // --- which properties can lose an identity ---------------------------------------------------

  /** Property i holds topics and identifies subjects, and so does property j, whose merges can make i drop values. */
  ghost predicate Prone(kinds: seq<Kind>, i: nat, j: nat) {
    i < |kinds| && j < |kinds| && i != j && kinds[i].sidp && kinds[j].sidp && MayDrop(kinds[i])
  }

  ghost predicate DropProne(kinds: seq<Kind>) {
    exists i, j :: Prone(kinds, i, j)
  }

  /** A property that alone identifies subjects never has different values in one merge set. */
  lemma OnlyOneAgrees(kinds: seq<Kind>, s: State, r: Round, i: nat, t: Topic)
    requires Good(kinds, s) && IsRound(kinds, s, r) && i < |kinds|
    requires forall j :: 0 <= j < |kinds| && kinds[j].sidp ==> j == i
    ensures AgreeAt(r.kept[i], r.sets, t)
  {
    KeptGood(kinds, s, r, i);
    forall k, x, y | 0 <= k < |r.sets| && x in r.sets[k] && y in r.sets[k] && x in r.kept[i] && y in r.kept[i]
      ensures r.kept[i][x] == r.kept[i][y]
    {
      var f: Labelling := z => if z in s[i] && s[i][z] == s[i][x] then 1 else 0;
      assert RespectsAll(f, kinds, s);
      assert Constant(f, r.sets);
      assert ConstantOn(f, r.sets[k]);
      assert f(x) == f(y);
    }
  }

  lemma {:induction false} OnlyOneUndisputed(kinds: seq<Kind>, s: State, run: seq<Round>, i: nat, t: Topic)
    requires Good(kinds, s) && IsRun(kinds, s, run) && i < |kinds|
    requires forall j :: 0 <= j < |kinds| && kinds[j].sidp ==> j == i
    ensures Undisputed(run, i, t)
    decreases |run|
  {
    if run != [] {
      OnlyOneAgrees(kinds, s, run[0], i, t);
      RoundGood(kinds, s, run[0]);
      RoundSets(kinds, s, run[0]);
      OnlyOneUndisputed(kinds, run[0].after, run[1..], i, Rep(run[0].sets, t));
    }
  }

  /**
   * A test on the properties alone: when none that holds topics identifies subjects next to
   * another one that does, merging always computes the closure.
   */
  lemma NotProneComplete(kinds: seq<Kind>, s: State, run: seq<Round>)
    requires Good(kinds, s) && IsRun(kinds, s, run) && !DropProne(kinds)
    requires |Final(s, run)| == |kinds| && Settled(kinds, Final(s, run))
    ensures NonEmptySets(run) && IsClosure(kinds, s, run)
  {
    forall i, t | 0 <= i < |s| && kinds[i].sidp && MayDrop(kinds[i]) && t in s[i] ensures Undisputed(run, i, t) {
      forall j | 0 <= j < |kinds| && kinds[j].sidp ensures j == i {
        assert !Prone(kinds, i, j);
      }
      OnlyOneUndisputed(kinds, s, run, i, t);
    }
    RunComplete(kinds, s, run);
  }

  /** Whatever is stored, merging that ends settled computes the closure. */
  ghost predicate AlwaysClosure(kinds: seq<Kind>) {
    forall s, run | Good(kinds, s) && IsRun(kinds, s, run) && Settles(kinds, s, run) ::
      NonEmptySets(run) && IsClosure(kinds, s, run)
  }

  ghost predicate Settles(kinds: seq<Kind>, s: State, run: seq<Round>) {
    |Final(s, run)| == |kinds| && Settled(kinds, Final(s, run))
  }

  lemma Counterexample(kinds: seq<Kind>, s: State, run: seq<Round>, t: Topic, u: Topic)
    requires Good(kinds, s) && IsRun(kinds, s, run) && Settles(kinds, s, run) && NonEmptySets(run)
    requires RunRep(run, t) != RunRep(run, u) && Identified(kinds, s, t, u)
    ensures !AlwaysClosure(kinds)
  {
    hide IsRun, Settles, NonEmptySets, RunRep, Identified;
    assert |kinds| == |s|;
    hide Good;
    assert !IsClosure(kinds, s, run);
  }
}
