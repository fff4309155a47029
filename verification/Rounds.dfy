/**
 * Full merging as a run of rounds over the facts of all properties
 * (tm_topicmap_fully_merge). A round normalizes the identity properties into merge
 * sets, replaces keys, and replaces topics inside values. The theorems hold of every
 * run, whatever topic normalization keeps and in whatever order the sets were built.
 */
module Rounds {
  import opened Basics
  import opened Values
  import opened MergeSets
  import opened Facts

  datatype ValueType = TextSetType | TextType | AsidpType | TopicSetType

  /** sidp: subject-identifying property (TM_SIDP) or other property (TM_OP). */
  datatype Kind = Kind(sidp: bool, valueType: ValueType)

  ghost predicate OfType(vt: ValueType, v: Value) {
    match vt
    case TextSetType => v.Locators?
    case TextType => v.Text?
    case AsidpType => v.Asidp?
    case TopicSetType => v.Topics?
  }

  ghost predicate AllOfType(vt: ValueType, m: Facts) {
    forall t :: t in m ==> OfType(vt, m[t])
  }

  ghost predicate WellKinded(k: Kind, m: Facts) {
    && AllOfType(k.valueType, m)
    && (if k.valueType.TextSetType? then IdFacts(m) else PlainFacts(m))
  }

  type State = seq<Facts>

  ghost predicate Good(kinds: seq<Kind>, s: State) {
    |s| == |kinds| && forall i :: 0 <= i < |s| ==> WellKinded(kinds[i], s[i])
  }

  function Live(s: State): set<Topic> {
    set i, t | 0 <= i < |s| && t in s[i] :: t
  }

  /** The topics that occur inside values. */
  function Mentioned(s: State): set<Topic> {
    set i, t, x | 0 <= i < |s| && t in s[i] && x in TopicsOf(s[i][t]) :: x
  }

  /** f is closed under both identification rules on every subject-identifying property. */
  ghost predicate Closed(f: Labelling, kinds: seq<Kind>, s: State)
    requires |s| == |kinds|
  {
    forall i :: 0 <= i < |s| && kinds[i].sidp ==> ClosedOn(f, s[i])
  }

  ghost predicate RespectsValues(f: Labelling, m: Facts) {
    forall t, u :: t in m && u in m && m[t] == m[u] ==> f(t) == f(u)
  }

  /** f identifies topics that share a value of a subject-identifying property. */
  ghost predicate RespectsAll(f: Labelling, kinds: seq<Kind>, s: State)
    requires |s| == |kinds|
  {
    forall i :: 0 <= i < |s| && kinds[i].sidp ==> RespectsValues(f, s[i])
  }

  /** Every subject-identifying value has one topic. */
  ghost predicate Settled(kinds: seq<Kind>, s: State)
    requires |s| == |kinds|
  {
    forall i :: 0 <= i < |s| && kinds[i].sidp ==> Injective(s[i])
  }

  datatype Round = Round(kept: State, sets: seq<seq<Topic>>, after: State)

  /**
   * What normalization makes of the state s: kept has one topic for each value of an
   * identifying property, and the merge sets allow exactly the labellings that respect
   * shared values.
   */
  ghost predicate Normalizes(kinds: seq<Kind>, s: State, kept: State, sets: seq<seq<Topic>>) {
    && |kinds| == |s| == |kept|
    && Partition(sets) && NonEmpty(sets) && AllTopics(sets) <= Live(s)
    && (forall f: Labelling :: Constant(f, sets) <==> RespectsAll(f, kinds, s))
    && (forall i :: 0 <= i < |s| ==> if kinds[i].sidp then OneEach(s[i], kept[i]) else kept[i] == s[i])
  }

  /** Some merge set has topics with different texts of one property. */
  ghost predicate Contradicts(kinds: seq<Kind>, kept: State, sets: seq<seq<Topic>>) {
    |kinds| == |kept| && exists i :: 0 <= i < |kinds| && kinds[i].valueType.TextType? && !AllAgree(kept[i], sets)
  }

  /** A pass that goes through: nothing contradicts, no replacement collides. */
  ghost predicate IsRound(kinds: seq<Kind>, s: State, r: Round) {
    Normalizes(kinds, s, r.kept, r.sets) && Rewrites(kinds, r)
  }

  /** What the pass does once its merge sets are there. */
  ghost predicate Rewrites(kinds: seq<Kind>, r: Round) {
    && NonEmpty(r.sets) && |r.after| == |r.kept| && !Contradicts(kinds, r.kept, r.sets)
    && (forall i :: 0 <= i < |r.kept| ==> NoneCollides(ReplaceSets(r.kept[i], r.sets), r.sets))
    && (forall i :: 0 <= i < |r.kept| ==> r.after[i] == ImagesSets(ReplaceSets(r.kept[i], r.sets), r.sets))
  }

  /** Replacement makes two roles or two members of some value the same. */
  ghost predicate Collision(kept: State, sets: seq<seq<Topic>>)
    requires NonEmpty(sets)
  {
    exists i :: 0 <= i < |kept| && !NoneCollides(ReplaceSets(kept[i], sets), sets)
  }

  /** The topics a round disposes of. */
  function Gone(sets: seq<seq<Topic>>): set<Topic>
    requires NonEmpty(sets)
  {
    set t | t in AllTopics(sets) && Rep(sets, t) != t
  }

  // --- one round -----------------------------------------------------------------

  lemma KeptGood(kinds: seq<Kind>, s: State, r: Round, i: nat)
    requires Good(kinds, s) && IsRound(kinds, s, r) && i < |s|
    ensures WellKinded(kinds[i], r.kept[i])
    ensures forall t :: t in r.kept[i] ==> t in s[i] && r.kept[i][t] == s[i][t]
  {
  }

  lemma ReplaceOneTypes(vt: ValueType, m: Facts, s: Topic, d: Topic)
    requires AllOfType(vt, m)
    ensures AllOfType(vt, ReplaceOne(m, s, d))
  {
  }

  lemma {:induction false} ReplaceFromTypes(vt: ValueType, m: Facts, ts: seq<Topic>, i: nat)
    requires NoDup(ts) && 1 <= i <= |ts| && AllOfType(vt, m)
    ensures AllOfType(vt, ReplaceFrom(m, ts, i))
    decreases |ts| - i
  {
    if i < |ts| {
      ReplaceOneTypes(vt, m, ts[0], ts[i]);
      ReplaceFromTypes(vt, ReplaceOne(m, ts[0], ts[i]), ts, i + 1);
    }
  }

  lemma {:induction false} ReplaceSetsTypes(vt: ValueType, m: Facts, sets: seq<seq<Topic>>)
    requires Partition(sets) && NonEmpty(sets) && AllOfType(vt, m)
    ensures AllOfType(vt, ReplaceSets(m, sets))
    decreases |sets|
  {
    if sets != [] {
      ReplaceFromTypes(vt, m, sets[0], 1);
      ReplaceSetsTypes(vt, ReplaceSet(m, sets[0]), sets[1..]);
    }
  }

  /** What a round leaves in one property, in terms of what it kept. */
  lemma AfterIs(kinds: seq<Kind>, s: State, r: Round, i: nat)
    requires Good(kinds, s) && IsRound(kinds, s, r) && i < |s|
    ensures var m := ReplaceSets(r.kept[i], r.sets);
            WellKinded(kinds[i], m) && r.after[i] == Images(m, RepFun(r.sets)) && !AnyCollides(m, RepFun(r.sets))
  {
    KeptGood(kinds, s, r, i);
    ReplaceSetsWellFormed(r.kept[i], r.sets);
    ReplaceSetsTypes(kinds[i].valueType, r.kept[i], r.sets);
    ImagesSetsIs(ReplaceSets(r.kept[i], r.sets), r.sets);
  }

  lemma ImagesSetsIs(m: Facts, sets: seq<seq<Topic>>)
    requires NonEmpty(sets) && WellFormed(m) && NoneCollides(m, sets)
    ensures ImagesSets(m, sets) == Images(m, RepFun(sets)) && !AnyCollides(m, RepFun(sets))
  {
    var n := ImagesSets(m, sets);
    hide ImagesSets, NoneCollides, WellFormed, Image, Collides;
    forall t | t in m ensures t in n && n[t] == Image(RepFun(sets), m[t]) && !Collides(RepFun(sets), m[t]) {
      ImagesSetsAt(m, sets, t);
    }
    if t :| t in m { ImagesSetsAt(m, sets, t); } else { ImagesSetsEmpty(m, sets); }
    assert n.Keys == m.Keys;
  }

  lemma {:induction false} ImagesSetsEmpty(m: Facts, sets: seq<seq<Topic>>)
    requires NonEmpty(sets) && m == map[]
    ensures ImagesSets(m, sets) == map[]
    decreases |sets|
  {
    if sets != [] {
      ImagesSetsEmpty(Images(m, AtFun(sets[0])), sets[1..]);
    }
  }

  lemma RoundGood(kinds: seq<Kind>, s: State, r: Round)
    requires Good(kinds, s) && IsRound(kinds, s, r)
    ensures Good(kinds, r.after)
  {
    forall i | 0 <= i < |s| ensures WellKinded(kinds[i], r.after[i]) {
      AfterIs(kinds, s, r, i);
      ImagesWellFormed(ReplaceSets(r.kept[i], r.sets), RepFun(r.sets));
    }
  }

  lemma ClosedRespects(f: Labelling, kinds: seq<Kind>, s: State)
    requires Good(kinds, s) && Closed(f, kinds, s)
    ensures RespectsAll(f, kinds, s)
  {
    forall i, t, u | 0 <= i < |s| && kinds[i].sidp && t in s[i] && u in s[i] && s[i][t] == s[i][u]
      ensures f(t) == f(u)
    {
      assert Alike(f, s[i][t], s[i][u]);
    }
  }

  /** Soundness of a round: it merges only what every closed labelling identifies, and keeps the labelling closed. */
  lemma RoundSound(f: Labelling, kinds: seq<Kind>, s: State, r: Round)
    requires Good(kinds, s) && IsRound(kinds, s, r) && Closed(f, kinds, s)
    ensures Constant(f, r.sets)
    ensures forall t :: f(Rep(r.sets, t)) == f(t)
    ensures Closed(f, kinds, r.after)
  {
    ClosedRespects(f, kinds, s);
    forall t ensures f(Rep(r.sets, t)) == f(t) { RepInvisible(f, r.sets, t); }
    forall i | 0 <= i < |s| && kinds[i].sidp ensures ClosedOn(f, r.after[i]) {
      KeptGood(kinds, s, r, i);
      assert ClosedOn(f, r.kept[i]);
      ReplaceSetsClosed(f, r.kept[i], r.sets);
      AfterIs(kinds, s, r, i);
      ImagesClosed(f, ReplaceSets(r.kept[i], r.sets), RepFun(r.sets));
    }
  }

  lemma KeeperOf(f: Labelling, m: Facts, n: Facts, t: Topic) returns (k: Topic)
    requires OneEach(m, n) && RespectsValues(f, m) && t in m
    ensures k in n && n[k] == m[t] && f(k) == f(t)
  {
    k :| k in n && n[k] == m[t];
  }

  lemma RepRespects(kinds: seq<Kind>, s: State, r: Round, i: nat)
    requires IsRound(kinds, s, r) && i < |s| && kinds[i].sidp
    ensures RespectsValues(RepFun(r.sets), s[i])
  {
    RepConstant(r.sets);
    assert RespectsAll(RepFun(r.sets), kinds, s);
  }

  /** Normalization keeps, for each topic, one that represents it and has the same value. */
  lemma Keeper(kinds: seq<Kind>, s: State, r: Round, i: nat, t: Topic) returns (k: Topic)
    requires Good(kinds, s) && IsRound(kinds, s, r) && i < |s| && t in s[i]
    ensures k in r.kept[i] && r.kept[i][k] == s[i][t]
    ensures Rep(r.sets, k) == Rep(r.sets, t)
  {
    if kinds[i].sidp {
      RepRespects(kinds, s, r, i);
      k := KeeperOf(RepFun(r.sets), s[i], r.kept[i], t);
    } else {
      k := t;
    }
  }

  /** Conservation in a round: the representative carries every locator of the topic. */
  lemma RoundCarries(kinds: seq<Kind>, s: State, r: Round, i: nat, t: Topic)
    requires Good(kinds, s) && IsRound(kinds, s, r) && i < |s| && t in s[i]
    requires kinds[i].valueType.TextSetType?
    ensures Rep(r.sets, t) in r.after[i] && Locs(s[i][t]) <= Locs(r.after[i][Rep(r.sets, t)])
  {
    var k := Keeper(kinds, s, r, i, t);
    KeptGood(kinds, s, r, i);
    ReplaceSetsCarries(r.kept[i], r.sets, k);
    AfterIs(kinds, s, r, i);
  }

  lemma {:induction false} ReplaceFromValue(m: Facts, ts: seq<Topic>, i: nat, k: Topic) returns (t: Topic)
    requires NoDup(ts) && 1 <= i <= |ts| && PlainFacts(m) && k in ReplaceFrom(m, ts, i)
    ensures t in m && k == AtFrom(ts, i, t) && m[t] == ReplaceFrom(m, ts, i)[k]
    decreases |ts| - i
  {
    if i == |ts| {
      t := k;
    } else {
      ReplaceOneWellFormed(m, ts[0], ts[i]);
      var n := ReplaceOne(m, ts[0], ts[i]);
      var t' := ReplaceFromValue(n, ts, i + 1, k);
      AtFromStep(ts, i, t');
      t := if t' in m then t' else ts[i];
      AtFromStep(ts, i, t);
    }
  }

  lemma {:induction false} ReplaceSetsValue(m: Facts, sets: seq<seq<Topic>>, k: Topic) returns (t: Topic)
    requires Partition(sets) && NonEmpty(sets) && PlainFacts(m) && k in ReplaceSets(m, sets)
    ensures t in m && k == Rep(sets, t) && m[t] == ReplaceSets(m, sets)[k]
    decreases |sets|
  {
    if sets == [] {
      t := k;
    } else {
      ReplaceSetWellFormed(m, sets[0]);
      var t' := ReplaceSetsValue(ReplaceSet(m, sets[0]), sets[1..], k);
      t := ReplaceFromValue(m, sets[0], 1, t');
      AtFromOne(sets[0], t);
    }
  }

  /** Where the topics merged with t agree on a property, the representative has the value of t. */
  lemma RoundKeepsValue(kinds: seq<Kind>, s: State, r: Round, i: nat, t: Topic)
    requires Good(kinds, s) && IsRound(kinds, s, r) && i < |s| && t in s[i]
    requires !kinds[i].valueType.TextSetType? && AgreeAt(r.kept[i], r.sets, t)
    ensures Rep(r.sets, t) in r.after[i]
    ensures r.after[i][Rep(r.sets, t)] == Image(RepFun(r.sets), s[i][t])
    ensures !Collides(RepFun(r.sets), s[i][t])
  {
    var k := Keeper(kinds, s, r, i, t);
    KeptGood(kinds, s, r, i);
    forall j | 0 <= j < |r.sets| && k in r.sets[j] ensures Agree(r.kept[i], r.sets[j]) {
      InSetOf(r.sets, j, k, t);
    }
    ReplaceSetsKeepsValue(r.kept[i], r.sets, k);
    AfterIs(kinds, s, r, i);
  }

  /** Topics with one representative are in one merge set. */
  lemma InSetOf(sets: seq<seq<Topic>>, j: nat, k: Topic, t: Topic)
    requires Partition(sets) && NonEmpty(sets) && j < |sets| && k in sets[j] && Rep(sets, t) == Rep(sets, k)
    ensures t in sets[j]
  {
    RepInside(sets, j, k);
    assert sets[j][0] in sets[j];
    if t in AllTopics(sets) {
      var i :| 0 <= i < |sets| && t in sets[i];
      RepInside(sets, i, t);
      assert sets[i][0] in sets[i];
      InOneSet(sets, i, j, sets[j][0]);
    } else {
      RepOutside(sets, t);
    }
  }

  /** Dropping or not, a topic with a value leaves a representative with one. */
  lemma RoundHas(kinds: seq<Kind>, s: State, r: Round, i: nat, t: Topic)
    requires Good(kinds, s) && IsRound(kinds, s, r) && i < |s| && t in s[i]
    ensures Rep(r.sets, t) in r.after[i]
  {
    var k := Keeper(kinds, s, r, i, t);
    KeptGood(kinds, s, r, i);
    ReplaceSetsHas(r.kept[i], r.sets, k);
    AfterIs(kinds, s, r, i);
  }

  /** Dropping or not, a value after a round is the image of the value of a topic that its key represents. */
  lemma RoundValue(kinds: seq<Kind>, s: State, r: Round, i: nat, k: Topic) returns (w: Topic)
    requires Good(kinds, s) && IsRound(kinds, s, r) && i < |s| && k in r.after[i]
    requires !kinds[i].valueType.TextSetType?
    ensures w in s[i] && Rep(r.sets, w) == k
    ensures r.after[i][k] == Image(RepFun(r.sets), s[i][w]) && !Collides(RepFun(r.sets), s[i][w])
  {
    AfterIs(kinds, s, r, i);
    KeptGood(kinds, s, r, i);
    w := ReplaceSetsValue(r.kept[i], r.sets, k);
  }

  /** A round introduces no topic, and what it disposes of is gone, as a key and inside values. */
  lemma RoundLive(kinds: seq<Kind>, s: State, r: Round)
    requires Good(kinds, s) && IsRound(kinds, s, r)
    ensures Live(r.after) <= Live(s) - Gone(r.sets)
    ensures Mentioned(r.after) <= (Live(s) + Mentioned(s)) - Gone(r.sets)
  {
    forall x | x in Live(r.after) ensures x in Live(s) && x !in Gone(r.sets) {
      var i :| 0 <= i < |r.after| && x in r.after[i];
      AfterKey(kinds, s, r, i, x);
    }
    forall x | x in Mentioned(r.after) ensures x in Live(s) + Mentioned(s) && x !in Gone(r.sets) {
      var i, t :| 0 <= i < |r.after| && t in r.after[i] && x in TopicsOf(r.after[i][t]);
      AfterMention(kinds, s, r, i, t, x);
    }
  }

  lemma RepLive(s: State, sets: seq<seq<Topic>>, t: Topic)
    requires Partition(sets) && NonEmpty(sets) && AllTopics(sets) <= Live(s)
    ensures Rep(sets, t) in Live(s) + {t} && Rep(sets, t) !in Gone(sets)
  {
    RepIdempotent(sets, t);
    if t in AllTopics(sets) {
      var i :| 0 <= i < |sets| && t in sets[i];
      RepInside(sets, i, t);
      assert sets[i][0] in sets[i];
      assert sets[i][0] in AllTopics(sets);
    } else {
      RepOutside(sets, t);
    }
  }

  lemma AfterKey(kinds: seq<Kind>, s: State, r: Round, i: nat, x: Topic)
    requires Good(kinds, s) && IsRound(kinds, s, r) && i < |s| && x in r.after[i]
    ensures x in Live(s) && x !in Gone(r.sets)
  {
    AfterIs(kinds, s, r, i);
    KeptGood(kinds, s, r, i);
    var k := ReplaceSetsKey(r.kept[i], r.sets, x);
    RepLive(s, r.sets, k);
  }

  lemma AfterMention(kinds: seq<Kind>, s: State, r: Round, i: nat, t: Topic, x: Topic)
    requires Good(kinds, s) && IsRound(kinds, s, r) && i < |s|
    requires t in r.after[i] && x in TopicsOf(r.after[i][t])
    ensures x in Live(s) + Mentioned(s) && x !in Gone(r.sets)
  {
    var m := ReplaceSets(r.kept[i], r.sets);
    AfterIs(kinds, s, r, i);
    ImageTopics(RepFun(r.sets), m[t]);
    var y :| y in TopicsOf(m[t]) && x == Rep(r.sets, y);
    KeptMention(kinds, s, r, i, t, y);
    RoundSets(kinds, s, r);
    hide IsRound, Good, Live, Mentioned, Rep, Partition, Gone, Images, ReplaceSets, AnyCollides, WellKinded;
    RepLive(s, r.sets, y);
  }

  lemma RoundSets(kinds: seq<Kind>, s: State, r: Round)
    requires IsRound(kinds, s, r)
    ensures Partition(r.sets) && NonEmpty(r.sets) && AllTopics(r.sets) <= Live(s)
  {
  }

  /** A topic in a value whose key has been replaced was in one before. */
  lemma KeptMention(kinds: seq<Kind>, s: State, r: Round, i: nat, t: Topic, y: Topic)
    requires Good(kinds, s) && IsRound(kinds, s, r) && i < |s|
    requires t in ReplaceSets(r.kept[i], r.sets) && y in TopicsOf(ReplaceSets(r.kept[i], r.sets)[t])
    ensures y in Mentioned(s)
  {
    RoundSets(kinds, s, r);
    KeptGood(kinds, s, r, i);
    NoLocators(kinds[i], r.kept[i], r.sets, t, y);
    hide IsRound, Good, WellKinded, Partition, ReplaceSets, PlainFacts, NonEmpty;
    var u := ReplaceSetsValue(r.kept[i], r.sets, t);
  }

  lemma NoLocators(kind: Kind, m: Facts, sets: seq<seq<Topic>>, t: Topic, y: Topic)
    requires WellKinded(kind, m) && Partition(sets) && NonEmpty(sets)
    requires t in ReplaceSets(m, sets) && y in TopicsOf(ReplaceSets(m, sets)[t])
    ensures PlainFacts(m)
  {
    ReplaceSetsWellFormed(m, sets);
  }

  /** A round that builds no merge set changes nothing and finds every value settled. */
  lemma RoundIdle(kinds: seq<Kind>, s: State, r: Round)
    requires Good(kinds, s) && IsRound(kinds, s, r) && r.sets == []
    ensures r.after == s && Settled(kinds, s)
  {
    assert Constant(SAME, r.sets);
    assert RespectsAll(SAME, kinds, s);
    forall i | 0 <= i < |s| ensures r.after[i] == s[i] && (kinds[i].sidp ==> Injective(s[i])) {
      assert r.after[i] == r.kept[i];
      if kinds[i].sidp {
        AllKept(s[i], r.kept[i]);
      }
    }
  }

  lemma AllKept(m: Facts, n: Facts)
    requires OneEach(m, n) && RespectsValues(SAME, m)
    ensures n == m && Injective(m)
  {
  }

  /** All topics of the merge sets but the first of each. */
  function TailTopics(sets: seq<seq<Topic>>): set<Topic> {
    set k, x | 0 <= k < |sets| && sets[k] != [] && x in sets[k][1..] :: x
  }

  lemma GoneIsTails(sets: seq<seq<Topic>>)
    requires Partition(sets) && NonEmpty(sets)
    ensures Gone(sets) == TailTopics(sets)
  {
    forall t | t in Gone(sets) ensures t in TailTopics(sets) {
      var k :| 0 <= k < |sets| && t in sets[k];
      RepInside(sets, k, t);
      assert sets[k] == [sets[k][0]] + sets[k][1..];
    }
    forall t | t in TailTopics(sets) ensures t in Gone(sets) {
      var k :| 0 <= k < |sets| && sets[k] != [] && t in sets[k][1..];
      RepInside(sets, k, t);
      assert sets[k] == [sets[k][0]] + sets[k][1..];
      assert sets[k][0] !in sets[k][1..];
    }
  }

  lemma TailStep(sets: seq<seq<Topic>>, k: nat)
    requires Partition(sets) && NonEmpty(sets) && k < |sets|
    ensures TailTopics(sets[..k + 1]) == TailTopics(sets[..k]) + Elems(sets[k][1..])
    ensures TailTopics(sets[..k]) !! Elems(sets[k][1..])
    ensures Elems(sets[k][1..]) <= TailTopics(sets)
    ensures NoDup(sets[k][1..])
  {
    assert sets[k] == [sets[k][0]] + sets[k][1..];
    forall t | t in TailTopics(sets[..k + 1]) ensures t in TailTopics(sets[..k]) + Elems(sets[k][1..]) {
      var i :| 0 <= i < |sets[..k + 1]| && sets[..k + 1][i] != [] && t in sets[..k + 1][i][1..];
      if i < k { assert sets[..k][i] == sets[i]; }
    }
    forall t | t in TailTopics(sets[..k]) ensures t in TailTopics(sets[..k + 1]) && t !in Elems(sets[k][1..]) {
      var i :| 0 <= i < |sets[..k]| && sets[..k][i] != [] && t in sets[..k][i][1..];
      assert sets[..k + 1][i] == sets[i];
      assert t in sets[i] && DisjointSeqs(sets[i], sets[k]);
    }
    forall t | t in sets[k][1..] ensures t in TailTopics(sets[..k + 1]) {
      assert sets[..k + 1][k] == sets[k];
    }
  }

  lemma GoneNonEmpty(sets: seq<seq<Topic>>)
    requires Partition(sets) && NonEmpty(sets) && sets != []
    ensures sets[0][1] in Gone(sets)
  {
    var t := sets[0][1];
    RepInside(sets, 0, t);
    assert t in sets[0];
  }

  // --- runs ------------------------------------------------------------------------

  ghost predicate IsRun(kinds: seq<Kind>, s: State, run: seq<Round>)
    decreases |run|
  {
    run == [] || (IsRound(kinds, s, run[0]) && IsRun(kinds, run[0].after, run[1..]))
  }

  function Final(s: State, run: seq<Round>): State {
    if run == [] then s else run[|run| - 1].after
  }

  ghost predicate NonEmptySets(run: seq<Round>) {
    forall k :: 0 <= k < |run| ==> NonEmpty(run[k].sets)
  }

  /** The topic that stands for t after the run. */
  function RunRep(run: seq<Round>, t: Topic): Topic
    requires NonEmptySets(run)
    decreases |run|
  {
    if run == [] then t else assert NonEmpty(run[0].sets); RunRep(run[1..], Rep(run[0].sets, t))
  }

  function AllGone(run: seq<Round>): set<Topic>
    requires NonEmptySets(run)
    decreases |run|
  {
    if run == [] then {} else assert NonEmpty(run[0].sets); Gone(run[0].sets) + AllGone(run[1..])
  }

  lemma {:induction false} RunNonEmpty(kinds: seq<Kind>, s: State, run: seq<Round>)
    requires IsRun(kinds, s, run)
    ensures NonEmptySets(run)
    decreases |run|
  {
    if run != [] {
      RunNonEmpty(kinds, run[0].after, run[1..]);
      assert forall k :: 1 <= k < |run| ==> run[k] == run[1..][k - 1];
    }
  }

  lemma FinalTail(s: State, run: seq<Round>)
    requires run != []
    ensures Final(run[0].after, run[1..]) == Final(s, run)
  {
  }

  lemma {:induction false} RunGood(kinds: seq<Kind>, s: State, run: seq<Round>)
    requires Good(kinds, s) && IsRun(kinds, s, run)
    ensures Good(kinds, Final(s, run))
    decreases |run|
  {
    if run != [] {
      RoundGood(kinds, s, run[0]);
      RunGood(kinds, run[0].after, run[1..]);
      FinalTail(s, run);
    }
  }

  /**
   * Merge soundness: every labelling closed under the identification rules on the
   * original facts gives a topic and its final representative the same label.
   */
  lemma {:induction false} RunSound(f: Labelling, kinds: seq<Kind>, s: State, run: seq<Round>, t: Topic)
    requires Good(kinds, s) && IsRun(kinds, s, run) && Closed(f, kinds, s)
    ensures NonEmptySets(run) && f(RunRep(run, t)) == f(t)
    decreases |run|
  {
    RunNonEmpty(kinds, s, run);
    if run != [] {
      RoundSound(f, kinds, s, run[0]);
      RoundGood(kinds, s, run[0]);
      RunSound(f, kinds, run[0].after, run[1..], Rep(run[0].sets, t));
    }
  }

  /** Conservation: the final representative carries every locator the topic had. */
  lemma {:induction false} RunCarries(kinds: seq<Kind>, s: State, run: seq<Round>, i: nat, t: Topic)
    requires Good(kinds, s) && IsRun(kinds, s, run) && i < |s| && t in s[i]
    requires kinds[i].valueType.TextSetType?
    ensures NonEmptySets(run) && |Final(s, run)| == |s|
    ensures RunRep(run, t) in Final(s, run)[i]
    ensures Locs(s[i][t]) <= Locs(Final(s, run)[i][RunRep(run, t)])
    decreases |run|
  {
    RunNonEmpty(kinds, s, run);
    if run != [] {
      RoundCarries(kinds, s, run[0], i, t);
      RoundGood(kinds, s, run[0]);
      RunCarries(kinds, run[0].after, run[1..], i, Rep(run[0].sets, t));
      FinalTail(s, run);
    }
  }

  function RunRepFun(run: seq<Round>): Topic -> Topic
    requires NonEmptySets(run)
  {
    t => RunRep(run, t)
  }

  /** No topic is created, and none that was disposed of comes back as a key or inside a value. */
  lemma {:induction false} RunLive(kinds: seq<Kind>, s: State, run: seq<Round>)
    requires Good(kinds, s) && IsRun(kinds, s, run)
    ensures NonEmptySets(run)
    ensures Live(Final(s, run)) <= Live(s) - AllGone(run)
    ensures Mentioned(Final(s, run)) <= (Live(s) + Mentioned(s)) - AllGone(run)
    decreases |run|
  {
    RunNonEmpty(kinds, s, run);
    if run != [] {
      RoundLive(kinds, s, run[0]);
      RoundGood(kinds, s, run[0]);
      RunLive(kinds, run[0].after, run[1..]);
      FinalTail(s, run);
    }
  }

  lemma RoundShrinks(kinds: seq<Kind>, s: State, r: Round)
    requires Good(kinds, s) && IsRound(kinds, s, r) && r.sets != []
    ensures |Live(r.after)| < |Live(s)|
  {
    RoundLive(kinds, s, r);
    GoneNonEmpty(r.sets);
    var g := r.sets[0][1];
    assert g in Live(s);
    SubsetAtMost(Live(r.after), Live(s) - {g});
  }

  /** Termination: every round that builds a merge set uses up a live topic. */
  lemma {:induction false} RunLength(kinds: seq<Kind>, s: State, run: seq<Round>)
    requires Good(kinds, s) && IsRun(kinds, s, run)
    requires forall k :: 0 <= k < |run| ==> run[k].sets != []
    ensures |run| <= |Live(s)| - |Live(Final(s, run))|
    decreases |run|
  {
    if run != [] {
      var rest := run[0].after;
      RoundShrinks(kinds, s, run[0]);
      RoundGood(kinds, s, run[0]);
      assert forall k :: 0 <= k < |run[1..]| ==> run[1..][k] == run[k + 1];
      RunLength(kinds, rest, run[1..]);
      FinalTail(s, run);
    }
  }

  // --- extending a run -----------------------------------------------------------------

  lemma {:induction false} RunAppend(kinds: seq<Kind>, s: State, run: seq<Round>, r: Round)
    requires IsRun(kinds, s, run) && IsRound(kinds, Final(s, run), r)
    ensures IsRun(kinds, s, run + [r]) && Final(s, run + [r]) == r.after
    ensures NonEmptySets(run) && NonEmptySets(run + [r])
    ensures AllGone(run + [r]) == AllGone(run) + Gone(r.sets)
    decreases |run|
  {
    hide IsRound, NonEmptySets, Gone;
    var longer := run + [r];
    if run == [] {
      assert longer == [r] && longer[1..] == [];
    } else {
      FinalTail(s, run);
      RunAppend(kinds, run[0].after, run[1..], r);
      assert longer[0] == run[0] && longer[1..] == run[1..] + [r];
    }
    RunNonEmpty(kinds, s, run);
    RunNonEmpty(kinds, s, longer);
  }
}
