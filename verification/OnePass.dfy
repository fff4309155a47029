/**
 * What a pass leaves in more detail: where a merged locator set comes from, whose value a
 * representative keeps, and that without topics in identifying values one pass merges all.
 */
module OnePass {
  import opened Basics
  import opened Values
  import opened MergeSets
  import opened Facts
  import opened Rounds
  import opened Closures

  // --- where locators come from ------------------------------------------------------------

  lemma CombinedAlone(m: Facts, s: Topic, d: Topic)
    requires IdFacts(m) && Injective(m) && s != d && s in m && d in m && m[s] != m[d]
    ensures ReplaceOne(m, s, d) == (m - {s, d})[s := Locators(Locs(m[s]) + Locs(m[d]))]
  {
    var rest, ls := m - {s, d}, Locs(m[s]) + Locs(m[d]);
    forall u | u in rest ensures Locs(m[u]) * ls == {} {
      assert m[u] != m[s] && m[u] != m[d];
      assert m[u].locs !! m[s].locs && m[u].locs !! m[d].locs;
    }
    AbsorbAlone(rest, s, ls);
  }

  lemma AbsorbAlone(m: Facts, t: Topic, ls: set<Locator>)
    requires forall u :: u in m ==> Locs(m[u]) * ls == {}
    ensures Absorb(m, t, ls) == m[t := Locators(ls)]
  {
    assert Cluster(m, ls) == {};
    assert ls + LocsOf(m, {}) == ls;
  }

  /** Where no two topics share a value, replacing a key merges two values and touches no other. */
  lemma ReplaceOneHeld(m: Facts, s: Topic, d: Topic, k: Topic, l: Locator) returns (t: Topic)
    requires IdFacts(m) && Injective(m) && s != d && k in ReplaceOne(m, s, d) && l in Locs(ReplaceOne(m, s, d)[k])
    ensures t in m && At([s, d], t) == k && l in Locs(m[t])
  {
    if d in m && s in m && m[s] != m[d] {
      CombinedAlone(m, s, d);
      t := if k == s && l in Locs(m[d]) then d else k;
    } else {
      t := if k in m && k != d then k else d;
    }
  }

  lemma ReplaceOneInjective(m: Facts, s: Topic, d: Topic)
    requires IdFacts(m) && Injective(m) && s != d
    ensures IdFacts(ReplaceOne(m, s, d)) && Injective(ReplaceOne(m, s, d))
  {
    ReplaceOneWellFormed(m, s, d);
    if d in m && s in m && m[s] != m[d] {
      CombinedAlone(m, s, d);
      var n, ls := ReplaceOne(m, s, d), Locs(m[s]) + Locs(m[d]);
      forall u | u in n && u != s ensures n[u] != Locators(ls) {
        assert m[u] != m[s] && m[u].locs !! m[s].locs;
        var l :| l in m[s].locs;
        assert l in ls && l !in m[u].locs;
      }
    }
  }

  lemma {:induction false} ReplaceFromHeld(m: Facts, ts: seq<Topic>, i: nat, k: Topic, l: Locator) returns (t: Topic)
    requires IdFacts(m) && Injective(m) && NoDup(ts) && 1 <= i <= |ts|
    requires k in ReplaceFrom(m, ts, i) && l in Locs(ReplaceFrom(m, ts, i)[k])
    ensures t in m && k == AtFrom(ts, i, t) && l in Locs(m[t])
    decreases |ts| - i
  {
    if i == |ts| {
      t := k;
    } else {
      var n := ReplaceOne(m, ts[0], ts[i]);
      AtFromStep(ts, i, k);
      ReplaceOneInjective(m, ts[0], ts[i]);
      hide ReplaceOne, IdFacts, Injective, NoDup;
      var t' := ReplaceFromHeld(n, ts, i + 1, k, l);
      t := ReplaceOneHeld(m, ts[0], ts[i], t', l);
      AtFromStep(ts, i, t);
    }
  }

  lemma {:induction false} ReplaceFromInjective(m: Facts, ts: seq<Topic>, i: nat)
    requires IdFacts(m) && Injective(m) && NoDup(ts) && 1 <= i <= |ts|
    ensures IdFacts(ReplaceFrom(m, ts, i)) && Injective(ReplaceFrom(m, ts, i))
    decreases |ts| - i
  {
    if i < |ts| {
      AtFromStep(ts, i, ts[i]);
      ReplaceOneInjective(m, ts[0], ts[i]);
      ReplaceFromInjective(ReplaceOne(m, ts[0], ts[i]), ts, i + 1);
    }
  }

  lemma {:induction false} ReplaceSetsHeld(m: Facts, sets: seq<seq<Topic>>, k: Topic, l: Locator) returns (t: Topic)
    requires IdFacts(m) && Injective(m) && Partition(sets) && NonEmpty(sets)
    requires k in ReplaceSets(m, sets) && l in Locs(ReplaceSets(m, sets)[k])
    ensures t in m && k == Rep(sets, t) && l in Locs(m[t])
    decreases |sets|
  {
    if sets == [] {
      t := k;
    } else {
      ReplaceFromInjective(m, sets[0], 1);
      hide IdFacts, Injective;
      var t' := ReplaceSetsHeld(ReplaceSet(m, sets[0]), sets[1..], k, l);
      t := ReplaceFromHeld(m, sets[0], 1, t', l);
      AtFromOne(sets[0], t);
    }
  }

  /** In an identifying property, every locator of a value after a round was held by a topic that its key represents. */
  lemma RoundHeld(kinds: seq<Kind>, s: State, r: Round, i: nat, k: Topic, l: Locator) returns (w: Topic)
    requires Good(kinds, s) && IsRound(kinds, s, r) && i < |s| && kinds[i].sidp && kinds[i].valueType.TextSetType?
    requires k in r.after[i] && l in Locs(r.after[i][k])
    ensures w in s[i] && Rep(r.sets, w) == k && l in Locs(s[i][w])
  {
    KeptGood(kinds, s, r, i);
    AfterIs(kinds, s, r, i);
    RoundSets(kinds, s, r);
    assert OneEach(s[i], r.kept[i]);
    w := ReplaceSetsHeld(r.kept[i], r.sets, k, l);
  }

  /**
   * Nothing is added either: what a representative ends with are exactly the locators of the
   * topics it stands for, since RunCarries gives the other half.
   */
  lemma {:induction false} RunHeld(kinds: seq<Kind>, s: State, run: seq<Round>, i: nat, k: Topic, l: Locator)
    returns (w: Topic)
    requires Good(kinds, s) && IsRun(kinds, s, run) && i < |s| && kinds[i].sidp && kinds[i].valueType.TextSetType?
    requires |Final(s, run)| == |s| && k in Final(s, run)[i] && l in Locs(Final(s, run)[i][k])
    ensures NonEmptySets(run) && w in s[i] && RunRep(run, w) == k && l in Locs(s[i][w])
    decreases |run|
  {
    RunNonEmpty(kinds, s, run);
    if run == [] {
      w := k;
    } else {
      RoundGood(kinds, s, run[0]);
      FinalTail(s, run);
      var u := RunHeld(kinds, run[0].after, run[1..], i, k, l);
      w := RoundHeld(kinds, s, run[0], i, u, l);
    }
  }

  lemma PlainInjective(m: Facts, s: Topic, d: Topic)
    requires PlainFacts(m) && Injective(m) && s != d
    ensures PlainFacts(ReplaceOne(m, s, d)) && Injective(ReplaceOne(m, s, d))
  {
    ReplaceOneWellFormed(m, s, d);
  }

  lemma {:induction false} PlainFromInjective(m: Facts, ts: seq<Topic>, i: nat)
    requires PlainFacts(m) && Injective(m) && NoDup(ts) && 1 <= i <= |ts|
    ensures PlainFacts(ReplaceFrom(m, ts, i)) && Injective(ReplaceFrom(m, ts, i))
    decreases |ts| - i
  {
    if i < |ts| {
      AtFromStep(ts, i, ts[i]);
      PlainInjective(m, ts[0], ts[i]);
      PlainFromInjective(ReplaceOne(m, ts[0], ts[i]), ts, i + 1);
    }
  }

  lemma {:induction false} ReplaceSetsInjective(m: Facts, sets: seq<seq<Topic>>)
    requires WellFormed(m) && Injective(m) && Partition(sets) && NonEmpty(sets)
    ensures Injective(ReplaceSets(m, sets))
    decreases |sets|
  {
    if sets != [] {
      if IdFacts(m) { ReplaceFromInjective(m, sets[0], 1); } else { PlainFromInjective(m, sets[0], 1); }
      hide IdFacts, PlainFacts, Injective;
      ReplaceSetsInjective(ReplaceSet(m, sets[0]), sets[1..]);
    }
  }

  /**
   * What the comment at src/topicmap.c:498 says: after the keys have been replaced every
   * identifying value still has one topic, whatever the flags of the stores.
   */
  lemma KeysStaySingle(kinds: seq<Kind>, s: State, r: Round, i: nat)
    requires Good(kinds, s) && IsRound(kinds, s, r) && i < |s| && kinds[i].sidp
    ensures NonEmpty(r.sets) && Injective(ReplaceSets(r.kept[i], r.sets))
  {
    KeptGood(kinds, s, r, i);
    RoundSets(kinds, s, r);
    assert OneEach(s[i], r.kept[i]);
    ReplaceSetsInjective(r.kept[i], r.sets);
  }

  // --- whose value stays ---------------------------------------------------------------------

  lemma {:induction false} ReplaceFromFirst(m: Facts, ts: seq<Topic>, i: nat)
    requires NoDup(ts) && 1 <= i <= |ts| && PlainFacts(m) && ts[0] in m
    ensures ts[0] in ReplaceFrom(m, ts, i) && ReplaceFrom(m, ts, i)[ts[0]] == m[ts[0]]
    decreases |ts| - i
  {
    if i < |ts| {
      assert ts[0] != ts[i];
      ReplaceOneWellFormed(m, ts[0], ts[i]);
      ReplaceFromFirst(ReplaceOne(m, ts[0], ts[i]), ts, i + 1);
    }
  }

  /** The topic that stays keeps its own value, or takes over that of the first topic of the set with one. */
  lemma {:induction false} ReplaceFromFirstHolder(m: Facts, ts: seq<Topic>, i: nat, j: nat)
    requires NoDup(ts) && 1 <= i <= |ts| && PlainFacts(m) && j < |ts| && ts[j] in m && (j == 0 || i <= j)
    requires forall k :: 0 <= k < |ts| && k < j && (k == 0 || i <= k) ==> ts[k] !in m
    ensures ts[0] in ReplaceFrom(m, ts, i) && ReplaceFrom(m, ts, i)[ts[0]] == m[ts[j]]
    decreases |ts| - i
  {
    if j == 0 {
      ReplaceFromFirst(m, ts, i);
    } else {
      assert ts[0] != ts[i];
      ReplaceOneWellFormed(m, ts[0], ts[i]);
      if i == j {
        ReplaceFromFirst(ReplaceOne(m, ts[0], ts[i]), ts, i + 1);
      } else {
        assert ReplaceOne(m, ts[0], ts[i]) == m;
        ReplaceFromFirstHolder(m, ts, i + 1, j);
      }
    }
  }

  lemma {:induction false} ReplaceSetsFirst(m: Facts, sets: seq<seq<Topic>>, n: nat, j: nat)
    requires Partition(sets) && NonEmpty(sets) && PlainFacts(m) && n < |sets| && j < |sets[n]| && sets[n][j] in m
    requires forall k :: 0 <= k < j ==> sets[n][k] !in m
    ensures sets[n][0] in ReplaceSets(m, sets) && ReplaceSets(m, sets)[sets[n][0]] == m[sets[n][j]]
    decreases |sets|
  {
    var next, rest := ReplaceSet(m, sets[0]), sets[1..];
    ReplaceSetWellFormed(m, sets[0]);
    if n == 0 {
      ReplaceFromFirstHolder(m, sets[0], 1, j);
      UntouchedLater(next, rest, sets[0][0]) by {
        forall k | 0 <= k < |rest| ensures sets[0][0] !in rest[k] {
          assert sets[0][0] in sets[0] && DisjointSeqs(sets[0], sets[k + 1]);
        }
      }
    } else {
      forall k | 0 <= k < |sets[n]| ensures sets[n][k] in next <==> sets[n][k] in m {
        assert DisjointSeqs(sets[0], sets[n]) && sets[n][k] in sets[n];
        ReplaceFromUntouched(m, sets[0], 1, sets[n][k]);
      }
      assert DisjointSeqs(sets[0], sets[n]) && sets[n][j] in sets[n];
      ReplaceFromUntouched(m, sets[0], 1, sets[n][j]);
      ReplaceSetsFirst(next, rest, n - 1, j);
    }
  }

  lemma {:induction false} UntouchedLater(m: Facts, sets: seq<seq<Topic>>, t: Topic)
    requires Partition(sets) && NonEmpty(sets) && PlainFacts(m) && t in m
    requires forall k :: 0 <= k < |sets| ==> t !in sets[k]
    ensures t in ReplaceSets(m, sets) && ReplaceSets(m, sets)[t] == m[t]
    decreases |sets|
  {
    if sets != [] {
      ReplaceFromUntouched(m, sets[0], 1, t);
      ReplaceSetWellFormed(m, sets[0]);
      UntouchedLater(ReplaceSet(m, sets[0]), sets[1..], t);
    }
  }

  /**
   * Whose value a pass keeps: of the topics of a merge set that normalization left a value,
   * the first in the order of the set.
   */
  lemma RoundFirstValue(kinds: seq<Kind>, s: State, r: Round, i: nat, n: nat, j: nat)
    requires Good(kinds, s) && IsRound(kinds, s, r) && i < |s| && !kinds[i].valueType.TextSetType?
    requires n < |r.sets| && j < |r.sets[n]| && r.sets[n][j] in r.kept[i]
    requires forall k :: 0 <= k < j ==> r.sets[n][k] !in r.kept[i]
    ensures r.sets[n][0] in r.after[i]
    ensures r.after[i][r.sets[n][0]] == Image(RepFun(r.sets), r.kept[i][r.sets[n][j]])
  {
    KeptGood(kinds, s, r, i);
    AfterIs(kinds, s, r, i);
    RoundSets(kinds, s, r);
    hide IsRound, Good, Partition;
    ReplaceSetsFirst(r.kept[i], r.sets, n, j);
  }

  // --- one pass is enough ----------------------------------------------------------------------

  /** No identifying property holds topics. */
  predicate TopicFree(kinds: seq<Kind>) {
    forall i :: 0 <= i < |kinds| && kinds[i].sidp ==> !MayDrop(kinds[i])
  }

  /** Topics that share a value after a pass shared one before, up to the representatives. */
  lemma SettledAt(kinds: seq<Kind>, s: State, r: Round, i: nat, k: Topic, k': Topic)
    requires Good(kinds, s) && IsRound(kinds, s, r) && i < |s| && kinds[i].sidp && !MayDrop(kinds[i])
    requires k in r.after[i] && k' in r.after[i] && r.after[i][k] == r.after[i][k']
    ensures k == k'
  {
    RoundGood(kinds, s, r);
    RepRespects(kinds, s, r, i);
    assert WellKinded(kinds[i], s[i]) && WellKinded(kinds[i], r.after[i]);
    if kinds[i].valueType.TextSetType? {
      var l :| l in Locs(r.after[i][k]);
      var w := RoundHeld(kinds, s, r, i, k, l);
      var w' := RoundHeld(kinds, s, r, i, k', l);
      assert s[i][w] == s[i][w'];
      assert RepFun(r.sets)(w) == RepFun(r.sets)(w');
    } else {
      var w := RoundValue(kinds, s, r, i, k);
      var w' := RoundValue(kinds, s, r, i, k');
      assert s[i][w].Text? && s[i][w'].Text?;
      assert RepFun(r.sets)(w) == RepFun(r.sets)(w');
    }
  }

  /** Where identifying values contain no topics, one pass settles everything. */
  lemma OnePassSettles(kinds: seq<Kind>, s: State, r: Round)
    requires Good(kinds, s) && IsRound(kinds, s, r) && TopicFree(kinds)
    ensures |r.after| == |kinds| && Settled(kinds, r.after)
  {
    RoundGood(kinds, s, r);
    forall i, k, k' | 0 <= i < |r.after| && kinds[i].sidp && k in r.after[i] && k' in r.after[i]
                      && r.after[i][k] == r.after[i][k']
      ensures k == k'
    {
      SettledAt(kinds, s, r, i, k, k');
    }
  }

  /** A pass over settled facts builds no merge set. */
  lemma SettledIdle(kinds: seq<Kind>, s: State, r: Round)
    requires IsRound(kinds, s, r) && |s| == |kinds| && Settled(kinds, s)
    ensures r.sets == []
  {
    if r.sets != [] {
      var t := r.sets[0][0];
      var f: Labelling := x => if x == t then 1 else 0;
      assert RespectsAll(f, kinds, s);
      ToldApart(r.sets, f);
      assert false;
    }
  }

  lemma ToldApart(sets: seq<seq<Topic>>, f: Labelling)
    requires Partition(sets) && sets != [] && forall x :: f(x) == if x == sets[0][0] then 1 else 0
    ensures !Constant(f, sets)
  {
    assert sets[0][0] in sets[0] && sets[0][1] in sets[0] && f(sets[0][0]) != f(sets[0][1]);
  }

  /**
   * So a run has at most two passes there, the second of which only finds that nothing is
   * left to do: the guard against endless merging never fires, and the representatives are
   * those of the first pass.
   */
  lemma ShortRun(kinds: seq<Kind>, s: State, run: seq<Round>)
    requires Good(kinds, s) && IsRun(kinds, s, run) && TopicFree(kinds)
    requires forall k :: 0 <= k < |run| - 1 ==> run[k].sets != []
    ensures |run| <= 2 && NonEmptySets(run)
    ensures run != [] ==> NonEmpty(run[0].sets) && forall t :: RunRep(run, t) == Rep(run[0].sets, t)
  {
    RunNonEmpty(kinds, s, run);
    if run != [] {
      OnePassSettles(kinds, s, run[0]);
      var rest := run[1..];
      if rest != [] {
        assert IsRound(kinds, run[0].after, rest[0]);
        SettledIdle(kinds, run[0].after, rest[0]);
        assert run[1].sets == [];
        assert |run| == 2;
        assert rest[1..] == [];
      }
      forall t ensures RunRep(run, t) == Rep(run[0].sets, t) {
        OneMoreRep(run, t);
      }
    }
  }

  lemma OneMoreRep(run: seq<Round>, t: Topic)
    requires NonEmptySets(run) && 1 <= |run| <= 2 && (|run| == 2 ==> run[1].sets == [])
    ensures NonEmpty(run[0].sets) && RunRep(run, t) == Rep(run[0].sets, t)
  {
    var u, rest := Rep(run[0].sets, t), run[1..];
    assert NonEmptySets(rest) by { assert forall k :: 0 <= k < |rest| ==> rest[k] == run[k + 1]; }
    if rest != [] {
      assert rest[1..] == [] && rest[0].sets == [];
      assert RunRep(rest, u) == RunRep(rest[1..], u);
    }
  }

  // --- locators contradict nothing ---------------------------------------------------------------

  predicate OnlyLocators(kinds: seq<Kind>) {
    forall i :: 0 <= i < |kinds| ==> kinds[i].valueType.TextSetType?
  }

  lemma {:induction false} LocatorsApart(m: Facts, sets: seq<seq<Topic>>)
    requires NonEmpty(sets) && AllOfType(TextSetType, m)
    ensures NoneCollides(m, sets)
    decreases |sets|
  {
    if sets != [] {
      assert sets[0] != [];
      var n := Images(m, AtFun(sets[0]));
      LocatorsApart(n, sets[1..]);
    }
  }

  /** A map of locator sets can be merged whatever it holds: no pass contradicts or collides. */
  lemma LocatorsGoThrough(kinds: seq<Kind>, s: State, kept: State, sets: seq<seq<Topic>>)
    requires Good(kinds, s) && OnlyLocators(kinds) && Normalizes(kinds, s, kept, sets)
    ensures !Contradicts(kinds, kept, sets) && NonEmpty(sets) && !Collision(kept, sets)
  {
    forall i | 0 <= i < |kept| ensures NoneCollides(ReplaceSets(kept[i], sets), sets) {
      assert WellKinded(kinds[i], s[i]);
      assert forall t :: t in kept[i] ==> t in s[i] && kept[i][t] == s[i][t];
      assert AllOfType(TextSetType, kept[i]);
      ReplaceSetsTypes(TextSetType, kept[i], sets);
      LocatorsApart(ReplaceSets(kept[i], sets), sets);
    }
  }
}
