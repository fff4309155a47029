/**
 * The topic map: its properties, the pending merge lists and the disposed topics, with
 * full merging over them (tm_topicmap_fully_merge, _dispose_topic in src/topicmap.c).
 */
module TopicMaps {
  import opened Basics
  import opened Values
  import opened MergeSets
  import opened Facts
  import opened Rounds
  import opened Closures
  import opened OnePass
  import opened Survivors
  import opened Tables
  import opened PropertyStores
  import opened Components

  class TopicMap {
    const props: seq<PropertyStore>
    const mergeLists: MergeLists
    var disposed: set<Topic>

    /** A topic map over the stores of the loaded models, which hold nothing yet. */
    constructor (props: seq<PropertyStore>)
      requires forall i, j :: 0 <= i < j < |props| ==>
                 props[i] != props[j] && props[i].StoreObject() != props[j].StoreObject()
      requires forall i :: 0 <= i < |props| ==> props[i].Valid() && props[i].Val() == map[]
      ensures Valid() && this.props == props && disposed == {} && fresh(mergeLists)
    {
      this.props := props;
      disposed := {};
      mergeLists := new MergeLists();
      new;
      hide *;
      Begins();
    }

    lemma Begins()
      requires forall i, j :: 0 <= i < j < |props| ==>
                 props[i] != props[j] && props[i].StoreObject() != props[j].StoreObject()
      requires forall i :: 0 <= i < |props| ==> props[i].Valid()
      requires disposed == {} && mergeLists.lists == []
      ensures Valid()
    {
      hide Coupled, Singles, FactsOf;
      assert OutOf({}, Vals());
    }

    function Kinds(): (k: seq<Kind>)
      ensures |k| == |props| && forall i :: 0 <= i < |props| ==> k[i] == props[i].kind
    {
      seq(|props|, i requires 0 <= i < |props| => props[i].kind)
    }

    function Stores(): set<object> {
      (set i | 0 <= i < |props| :: props[i] as object) + (set i | 0 <= i < |props| :: props[i].StoreObject())
    }

    lemma NoStore()
      ensures this !in Stores() && mergeLists as object !in Stores()
      ensures forall p: PropertyStore :: p in props ==> p in Stores()
    {
      forall p: PropertyStore | p in props ensures p in Stores() {
        var i :| 0 <= i < |props| && props[i] == p;
      }
    }

    /** No store belongs to two properties. */
    ghost predicate Separate() {
      forall i, j :: 0 <= i < j < |props| ==> props[i] != props[j] && props[i].StoreObject() != props[j].StoreObject()
    }

    /** The facts of all properties. */
    ghost function Vals(): (s: State)
      reads Stores()
      ensures |s| == |props| && forall i :: 0 <= i < |props| ==> s[i] == props[i].Val()
    {
      seq(|props|, i requires 0 <= i < |props| reads Stores() => props[i].Val())
    }

    ghost predicate StoresValid()
      reads Stores()
    {
      Separate() && forall i :: 0 <= i < |props| ==> props[i].Valid()
    }

    /** Between merges no merge set is pending, and no disposed topic is a key or occurs in a value. */
    ghost predicate Valid()
      reads this, mergeLists, Stores()
    {
      StoresValid() && mergeLists.lists == [] && OutOf(disposed, Vals())
    }

    lemma ValsGood()
      requires StoresValid()
      ensures Good(Kinds(), Vals())
    {
      forall i | 0 <= i < |props| ensures WellKinded(Kinds()[i], Vals()[i]) {
        var p := props[i];
        CoupledContents(p.kind.valueType, p.Live(), p.topicsOf, p.vidOf, {});
        FactsWellKinded(p.kind, p.Live(), p.vidOf);
      }
    }

    ghost predicate AllSettle()
      reads props
    {
      forall i :: 0 <= i < |props| ==> props[i].IsNormalized()
    }

    /**
     * tm_topicmap_add_property_to_topic, for a property that combines its values. A topic that
     * merging has disposed of no longer exists, so nothing can be added to it.
     */
    method AddLocators(i: nat, t: Topic, list: seq<Locator>)
      requires Valid() && i < |props| && Kinds()[i].valueType.TextSetType? && list != [] && NoDup(list)
      requires t !in disposed
      modifies props[i], props[i].StoreObject()
      ensures Valid() && Vals() == old(Vals())[i := Put(old(Vals())[i], t, Elems(list))]
      ensures t !in old(Vals())[i] ==> Last(Orders()[i], t)
      ensures disposed == old(disposed)
    {
      ghost var s := Vals();
      assert OutOf(disposed, s) && mergeLists.lists == [];
      NoStore();
      LocatorsHeld(i);
      hide StoresValid, OutOf, Put, Last, Vals, Orders, Kinds;
      PutLocators(i, t, list);
      PutOutOf(disposed, s, i, t, Elems(list));
    }

    lemma LocatorsHeld(i: nat)
      requires StoresValid() && i < |props| && Kinds()[i].valueType.TextSetType?
      ensures forall u :: u in Vals()[i] ==> Vals()[i][u].Locators?
    {
      ValsGood();
      assert WellKinded(Kinds()[i], Vals()[i]);
    }

    method PutLocators(i: nat, t: Topic, list: seq<Locator>)
      requires StoresValid() && i < |props| && Kinds()[i].valueType.TextSetType? && list != [] && NoDup(list)
      modifies props[i], props[i].StoreObject()
      ensures StoresValid() && Vals() == old(Vals())[i := Put(old(Vals())[i], t, Elems(list))]
      ensures t !in old(Vals())[i] ==> Last(Orders()[i], t)
    {
      hide Coupled, FactsOf, Singles, Put, Last, Regrouped, Append;
      props[i].PutSet(t, list);
    }

    /** The same for a property that combines nothing. */
    method AddValue(i: nat, t: Topic, value: Value) returns (e: Outcome)
      requires Valid() && i < |props| && !Kinds()[i].valueType.TextSetType?
      requires OfType(Kinds()[i].valueType, value) && Canonical(value)
      requires t !in disposed && TopicsOf(value) !! disposed
      modifies props[i], props[i].StoreObject()
      ensures Valid() && disposed == old(disposed)
      ensures t !in old(Vals())[i] && Indexable(value) ==>
                e == Ok && Vals() == old(Vals())[i := With(old(Vals())[i], t, value)]
      ensures t in old(Vals())[i] || !Indexable(value) ==> Vals() == old(Vals())
      ensures t !in old(Vals())[i] && !Indexable(value) ==> e == Aborted
      ensures t in old(Vals())[i] && Kinds()[i].valueType.AsidpType? ==> e == Aborted
      ensures t in old(Vals())[i] && !Kinds()[i].valueType.AsidpType? ==>
                e == if old(Vals())[i][t] == value then Ok else ContradictingValues
    {
      ghost var s := Vals();
      assert OutOf(disposed, s);
      hide StoresValid, OutOf, Vals, Kinds, Canonical, Indexable, OfType, With;
      NoStore();
      AddedOutOf(disposed, s, i, t, value);
      assert s[i := s[i]] == s;
      e := PutValue(i, t, value);
    }

    method PutValue(i: nat, t: Topic, value: Value) returns (e: Outcome)
      requires StoresValid() && i < |props| && !Kinds()[i].valueType.TextSetType?
      requires OfType(Kinds()[i].valueType, value) && Canonical(value)
      modifies props[i], props[i].StoreObject()
      ensures StoresValid() && Vals() == old(Vals())[i := Vals()[i]]
      ensures t !in old(Vals())[i] && Indexable(value) ==> e == Ok && Vals()[i] == With(old(Vals())[i], t, value)
      ensures t in old(Vals())[i] || !Indexable(value) ==> Vals()[i] == old(Vals())[i]
      ensures t !in old(Vals())[i] && !Indexable(value) ==> e == Aborted
      ensures t in old(Vals())[i] && Kinds()[i].valueType.AsidpType? ==> e == Aborted
      ensures t in old(Vals())[i] && !Kinds()[i].valueType.AsidpType? ==>
                e == if old(Vals())[i][t] == value then Ok else ContradictingValues
    {
      hide Coupled, FactsOf, Singles, Canonical, Indexable;
      e := props[i].PutPlain(t, value);
    }

    /** A sequence of additions of locators to a property that is empty at first. */
    method AddAllLocators(i: nat, adds: seq<(Topic, seq<Locator>)>)
      requires Valid() && i < |props| && Kinds()[i].valueType.TextSetType? && Vals()[i] == map[]
      requires forall k :: 0 <= k < |adds| ==> adds[k].1 != [] && NoDup(adds[k].1) && adds[k].0 !in disposed
      modifies props[i], props[i].StoreObject()
      ensures Valid() && Vals() == old(Vals())[i := PutAll(CallsOf(adds))]
      ensures disposed == old(disposed) && (NewAtLast(adds) ==> Last(Orders()[i], adds[|adds| - 1].0))
    {
      hide Valid, Put, PutAll, Vals, CallsOf, Kinds, Last, Orders, NewAtLast;
      NothingPut(adds);
      ghost var s := Vals();
      assert s[i := s[i]] == s;
      for k := 0 to |adds|
        invariant Valid() && disposed == old(disposed)
        invariant Vals() == s[i := PutAll(CallsOf(adds[..k]))]
        invariant k == |adds| > 0 && NewAtLast(adds) ==> Last(Orders()[i], adds[k - 1].0)
      {
        NewKey(adds, k);
        AddLocators(i, adds[k].0, adds[k].1);
        OneMorePut(adds, k);
      }
      assert adds[..|adds|] == adds;
    }

    /** The stores' own flags. */
    ghost function Flags(): (f: seq<bool>)
      reads props
      ensures |f| == |props| && forall i :: 0 <= i < |props| ==> f[i] == props[i].isNormalized
    {
      seq(|props|, i requires 0 <= i < |props| reads props => props[i].isNormalized)
    }

    /** The topic lists of every property. */
    ghost function Orders(): (o: seq<TopicLists>)
      reads props
      ensures |o| == |props| && forall i :: 0 <= i < |props| ==> o[i] == props[i].topicsOf
    {
      seq(|props|, i requires 0 <= i < |props| reads props => props[i].topicsOf)
    }

    method AllNormalized() returns (r: bool)
      ensures r <==> AllSettle()
      ensures Vals() == old(Vals()) && Valid() == old(Valid())
    {
      for i := 0 to |props|
        invariant forall j :: 0 <= j < i ==> props[j].IsNormalized()
      {
        if !props[i].IsNormalized() {
          return false;
        }
      }
      return true;
    }

    /** Replacing the stores of one property leaves the facts of the others. */
    method NormalizeAt(i: nat)
      requires StoresValid() && mergeLists.Valid() && i < |props|
      modifies props[i], mergeLists
      ensures StoresValid() && mergeLists.Valid()
      ensures Vals() == old(Vals())[i := Vals()[i]] && Orders() == old(Orders())[i := Orders()[i]]
      ensures Kinds()[i].sidp ==> OneEach(old(Vals())[i], Vals()[i])
      ensures !Kinds()[i].sidp ==> Vals()[i] == old(Vals())[i]
      ensures forall f: Labelling :: Constant(f, mergeLists.lists) <==>
                Constant(f, old(mergeLists.lists)) && (Kinds()[i].sidp ==> RespectsValues(f, old(Vals())[i]))
      ensures AllTopics(mergeLists.lists) <= AllTopics(old(mergeLists.lists)) + Live(old(Vals()))
      ensures props[i].IsNormalized() && forall j :: 0 <= j < |props| && old(props[j].IsNormalized()) ==>
                props[j].IsNormalized()
      ensures mergeLists.lists == FuseAll(old(mergeLists.lists), Submission(Kinds()[i], old(Orders())[i]))
    {
      hide OneEach, RespectsValues, Constant, AllTopics, Coupled, FactsOf, Partition, Singles, FuseAll, Submission;
      KeysLive(i);
      ghost var arrs := props[i].Normalize(mergeLists);
    }

    /** Normalizes every property store, the one loaded last first. */
    method NormalizeAll()
      requires StoresValid() && mergeLists.lists == []
      modifies props, mergeLists
      ensures StoresValid() && mergeLists.Valid() && AllSettle()
      ensures KeptFrom(Kinds(), old(Vals()), Vals(), 0)
      ensures forall f: Labelling :: Constant(f, mergeLists.lists) <==> RespectsFrom(f, Kinds(), old(Vals()), 0)
      ensures AllTopics(mergeLists.lists) <= Live(old(Vals()))
      ensures mergeLists.lists == PassSets(Kinds(), old(Orders()))
    {
      ghost var s, orders := Vals(), Orders();
      NoneNormalized();
      hide *;
      var i := |props|;
      while i > 0
        invariant 0 <= i <= |props| && NormalizedFrom(s, orders, i)
      {
        i := i - 1;
        NormalizeNext(s, orders, i);
      }
      NormalizedAll(s, orders);
    }

    /** The properties from i on, which had the topic lists in orders, are normalized. */
    ghost predicate NormalizedFrom(s: State, orders: seq<TopicLists>, i: nat)
      reads props, mergeLists, Stores()
    {
      && |s| == |props| == |orders| && i <= |props| && StoresValid() && mergeLists.Valid()
      && (forall j :: i <= j < |props| ==> props[j].IsNormalized())
      && KeptFrom(Kinds(), s, Vals(), i)
      && (forall f: Labelling :: Constant(f, mergeLists.lists) <==> RespectsFrom(f, Kinds(), s, i))
      && AllTopics(mergeLists.lists) <= Live(s)
      && Orders()[..i] == orders[..i] && mergeLists.lists == FuseAll([], Submissions(Kinds(), orders, i))
    }

    lemma NoneNormalized()
      requires StoresValid() && mergeLists.lists == []
      ensures NormalizedFrom(Vals(), Orders(), |props|)
    {
      EmptyLists();
      KeptEnd(Kinds(), Vals());
      hide StoresValid;
    }

    lemma NormalizedAll(s: State, orders: seq<TopicLists>)
      requires NormalizedFrom(s, orders, 0)
      ensures |s| == |props| == |orders| && StoresValid() && mergeLists.Valid() && AllSettle()
      ensures KeptFrom(Kinds(), s, Vals(), 0) && AllTopics(mergeLists.lists) <= Live(s)
      ensures forall f: Labelling :: Constant(f, mergeLists.lists) <==> RespectsFrom(f, Kinds(), s, 0)
      ensures mergeLists.lists == PassSets(Kinds(), orders)
    {
      hide StoresValid;
    }

    method NormalizeNext(ghost s: State, ghost orders: seq<TopicLists>, i: nat)
      requires i < |props| && NormalizedFrom(s, orders, i + 1)
      modifies props[i], mergeLists
      ensures NormalizedFrom(s, orders, i)
    {
      hide OneEach, RespectsValues, Constant, AllTopics, Coupled, FactsOf, Partition, KeptFrom, RespectsFrom;
      hide StoresValid, FuseAll, Live, Submission;
      ghost var before, lists := Vals(), Orders();
      assert lists[i] == orders[i] by { assert lists[..i + 1][i] == orders[..i + 1][i]; }
      NormalizeAt(i);
      assert Orders()[..i] == orders[..i] by { assert lists[..i] == lists[..i + 1][..i] == orders[..i + 1][..i]; }
      FuseAllConcat([], Submissions(Kinds(), orders, i + 1), Submission(Kinds()[i], orders[i]));
      KeptStep(Kinds(), s, before, Vals(), i);
      KeptBefore(Kinds(), s, before, i);
      RespectsStep(Kinds(), s, i);
    }

    method ReplaceTopicsAt(i: nat, ts: seq<Topic>) returns (e: Outcome)
      requires StoresValid() && i < |props| && NoDup(ts) && ts != []
      modifies props[i], props[i].StoreObject()
      ensures StoresValid() && (e == Ok || e == ContradictingValues)
      ensures Vals() == old(Vals())[i := Vals()[i]]
      ensures e == Ok ==> Vals()[i] == ReplaceSet(old(Vals())[i], ts)
      ensures e == ContradictingValues <==> Kinds()[i].valueType.TextType? && !Agree(old(Vals())[i], ts)
      ensures e == Ok ==>
                (props[i].isNormalized <==> old(props[i].isNormalized) && !RekeyedFrom(old(Vals())[i], ts, 1))
      ensures forall j :: 0 <= j < |props| && j != i ==> props[j].isNormalized == old(props[j].isNormalized)
    {
      hide Coupled, FactsOf, Singles, ReplaceSet, Agree, RekeyedFrom;
      e := props[i].ReplaceTopics(ts);
    }

    /** The loop over the merge sets, for one property. */
    method ReplaceKeysIn(i: nat, sets: seq<seq<Topic>>) returns (e: Outcome)
      requires StoresValid() && i < |props| && Partition(sets) && NonEmpty(sets)
      modifies props[i], props[i].StoreObject()
      ensures StoresValid() && (e == Ok || e == ContradictingValues)
      ensures Vals() == old(Vals())[i := Vals()[i]]
      ensures e == Ok ==> Vals()[i] == ReplaceSets(old(Vals())[i], sets)
      ensures e == ContradictingValues <==> Kinds()[i].valueType.TextType? && !AllAgree(old(Vals())[i], sets)
      ensures e == Ok ==>
                (props[i].isNormalized <==> old(props[i].isNormalized) && !RekeyedSets(old(Vals())[i], sets))
      ensures forall j :: 0 <= j < |props| && j != i ==> props[j].isNormalized == old(props[j].isNormalized)
    {
      hide StoresValid, ReplaceSet, Agree, Partition, AllSettle, WellKinded, RekeyedFrom;
      ghost var s, was := Vals(), props[i].isNormalized;
      assert sets[0..] == sets;
      for k := 0 to |sets|
        invariant StoresValid()
        invariant Vals() == s[i := Vals()[i]]
        invariant ReplaceSets(Vals()[i], sets[k..]) == ReplaceSets(s[i], sets)
        invariant Kinds()[i].valueType.TextType? ==> forall j :: k <= j < |sets| ==>
                    (Agree(Vals()[i], sets[j]) <==> Agree(s[i], sets[j]))
        invariant Kinds()[i].valueType.TextType? ==> forall j :: 0 <= j < k ==> Agree(s[i], sets[j])
        invariant forall j :: 0 <= j < |props| && j != i ==> props[j].isNormalized == old(props[j].isNormalized)
        invariant props[i].isNormalized && !RekeyedSets(Vals()[i], sets[k..]) <==> was && !RekeyedSets(s[i], sets)
      {
        assert sets[k..][0] == sets[k] && sets[k..][1..] == sets[k + 1..];
        OneOf(sets, k);
        ghost var m := Vals()[i];
        ValsGood();
        AgreeLater(Kinds()[i], m, sets, k);
        e := ReplaceTopicsAt(i, sets[k]);
        if e != Ok {
          return;
        }
      }
      return Ok;
    }

    /** Substitutes all topics in the property stores. */
    method ReplaceKeys(sets: seq<seq<Topic>>) returns (e: Outcome)
      requires StoresValid() && Partition(sets) && NonEmpty(sets)
      modifies Stores()
      ensures StoresValid() && (e == Ok || e == ContradictingValues)
      ensures e == Ok ==> Replaced(old(Vals()), sets, Vals(), |props|)
      ensures e == ContradictingValues <==> Contradicts(Kinds(), old(Vals()), sets)
      ensures e == Ok && old(AllSettle()) ==> (AllSettle() <==> NoneRekeyed(Kinds(), old(Vals()), sets))
    {
      hide AllSettle, StoresValid, Partition, NonEmpty, Replaced, ReplaceSets, AllAgree, RekeyedSets, FlagsKept;
      hide NoneRekeyed;
      ghost var s, was := Vals(), Flags();
      ReplacedStart(s, sets);
      FlagsStart(s, sets, was);
      for i := 0 to |props|
        invariant StoresValid()
        invariant Replaced(s, sets, Vals(), i) && FlagsKept(s, sets, was, Flags(), i)
        invariant forall j :: 0 <= j < i && Kinds()[j].valueType.TextType? ==> AllAgree(s[j], sets)
      {
        ghost var before, flags := Vals(), Flags();
        ReplacedNext(s, sets, before, i);
        e := ReplaceKeysIn(i, sets);
        if e != Ok {
          return;
        }
        ReplacedStep(s, sets, before, Vals(), i);
        FlagsStep(s, sets, was, flags, Flags(), i);
      }
      if old(AllSettle()) {
        SettledFlags(was);
        SettledIffFlags(s, sets, was);
      }
      return Ok;
    }

    twostate lemma SettledFlags(was: seq<bool>)
      requires old(AllSettle()) && was == old(Flags())
      ensures |was| == |props| && forall i :: 0 <= i < |props| ==> !props[i].kind.sidp || was[i]
    {
    }

    lemma SettledIffFlags(s: State, sets: seq<seq<Topic>>, was: seq<bool>)
      requires NonEmpty(sets) && |s| == |props| == |was| && FlagsKept(s, sets, was, Flags(), |props|)
      requires forall i :: 0 <= i < |props| ==> !props[i].kind.sidp || was[i]
      ensures AllSettle() <==> NoneRekeyed(Kinds(), s, sets)
    {
    }

    method ReplaceInValuesAt(i: nat, ts: seq<Topic>) returns (e: Outcome)
      requires StoresValid() && i < |props| && NoDup(ts) && ts != []
      modifies props[i], props[i].StoreObject()
      ensures e == Ok || e == Aborted
      ensures e == Aborted <==> AnyCollides(old(Vals())[i], AtFun(ts))
      ensures e == Ok ==> StoresValid() && Vals() == old(Vals())[i := Images(old(Vals())[i], AtFun(ts))]
    {
      hide Coupled, FactsOf, Singles, Images, AnyCollides;
      e := props[i].ReplaceInValues(ts);
    }

    method ReplaceValuesIn(i: nat, sets: seq<seq<Topic>>) returns (e: Outcome)
      requires StoresValid() && i < |props| && Partition(sets) && NonEmpty(sets)
      modifies props[i], props[i].StoreObject()
      ensures e == Ok || e == Aborted
      ensures e == Aborted <==> !NoneCollides(old(Vals())[i], sets)
      ensures e == Ok ==> StoresValid() && Vals() == old(Vals())[i := ImagesSets(old(Vals())[i], sets)]
      ensures sets == [] && old(AllSettle()) ==> AllSettle()
    {
      hide AllSettle, StoresValid, Images, AnyCollides, Partition;
      ghost var s := Vals();
      assert sets[0..] == sets;
      for k := 0 to |sets|
        invariant StoresValid()
        invariant Vals() == s[i := Vals()[i]]
        invariant ImagesSets(Vals()[i], sets[k..]) == ImagesSets(s[i], sets)
        invariant NoneCollides(Vals()[i], sets[k..]) <==> NoneCollides(s[i], sets)
        invariant sets == [] && old(AllSettle()) ==> AllSettle()
      {
        assert sets[k..][0] == sets[k] && sets[k..][1..] == sets[k + 1..];
        OneOf(sets, k);
        e := ReplaceInValuesAt(i, sets[k]);
        if e != Ok {
          return;
        }
      }
      return Ok;
    }

    /** Substitutes all topics inside values. */
    method ReplaceValues(sets: seq<seq<Topic>>) returns (e: Outcome)
      requires StoresValid() && Partition(sets) && NonEmpty(sets)
      modifies Stores()
      ensures e == Ok || e == Aborted
      ensures e == Aborted <==> exists i :: 0 <= i < |props| && !NoneCollides(old(Vals())[i], sets)
      ensures e == Ok ==> StoresValid() && Imaged(old(Vals()), sets, Vals(), |props|)
      ensures sets == [] && old(AllSettle()) ==> AllSettle()
    {
      hide AllSettle, StoresValid, Partition, NonEmpty, Imaged, ImagesSets, NoneCollides;
      ghost var s := Vals();
      ImagedStart(s, sets);
      for i := 0 to |props|
        invariant StoresValid()
        invariant Imaged(s, sets, Vals(), i)
        invariant sets == [] && old(AllSettle()) ==> AllSettle()
      {
        ghost var before := Vals();
        ImagedNext(s, sets, before, i);
        e := ReplaceValuesIn(i, sets);
        if e != Ok {
          return;
        }
        ImagedStep(s, sets, before, Vals(), i);
      }
      ImagedAll(s, sets, Vals());
      return Ok;
    }

    /**
     * _dispose_topic, with its assertions: the topic is not disposed yet, no property store knows
     * it, no value contains it.
     */
    method Dispose(t: Topic)
      requires StoresValid() && t !in disposed && OutOf({t}, Vals())
      modifies `disposed
      ensures disposed == old(disposed) + {t}
      ensures StoresValid() && Vals() == old(Vals())
    {
      hide StoresValid, Vals, OutOf, Stores;
      NoStore();
      assert t !in disposed;
      disposed := disposed + {t};
      for i := 0 to |props|
        invariant StoresValid() && Vals() == old(Vals())
        invariant disposed == old(disposed) + {t}
      {
        CheckGoneAt(i, t);
      }
    }

    /** The assertions of _dispose_topic for one property. */
    method CheckGoneAt(i: nat, t: Topic)
      requires StoresValid() && i < |props| && OutOf({t}, Vals())
      ensures StoresValid() && Vals() == old(Vals())
    {
      hide StoresValid, Live, Mentioned, OutOf, Vals;
      NotHeld(i, t);
      props[i].CheckGone(t);
      Untouched();
    }

    twostate lemma Untouched()
      requires old(StoresValid()) && unchanged(Stores())
      ensures StoresValid() && Vals() == old(Vals())
    {
      hide Coupled, Singles, FactsOf;
      forall i | 0 <= i < |props| ensures props[i].Valid() && props[i].Val() == old(props[i].Val()) {
        UntouchedAt(i);
      }
    }

    twostate lemma UntouchedAt(i: nat)
      requires old(StoresValid()) && unchanged(Stores()) && i < |props|
      ensures props[i].Valid() && props[i].Val() == old(props[i].Val())
    {
      hide Coupled, Singles, FactsOf;
      var p := props[i];
      assert p in Stores() && p.StoreObject() in Stores();
      assert old(p.Valid());
    }

    lemma NotHeld(i: nat, t: Topic)
      requires StoresValid() && i < |props| && OutOf({t}, Vals())
      ensures props[i].Valid() && t !in props[i].vidOf
      ensures forall v :: v in props[i].Live() ==> t !in TopicsOf(props[i].Live()[v])
    {
      var p := props[i];
      FactsKeys(p.kind.valueType, p.Live(), p.topicsOf, p.vidOf);
      AllLinked(p.kind.valueType, p.Live(), p.topicsOf, p.vidOf);
      assert Vals()[i] == p.Val();
      forall v | v in p.Live() ensures t !in TopicsOf(p.Live()[v]) {
        var u :| u in p.vidOf && p.vidOf[u] == v;
        assert u in Vals()[i] && Vals()[i][u] == p.Live()[v];
      }
    }

    /** The cleanup loop of a merge round: every topic of a merge set but the first is disposed of. */
    method DisposeAll(sets: seq<seq<Topic>>)
      requires StoresValid() && Partition(sets) && NonEmpty(sets)
      requires Gone(sets) !! disposed && OutOf(Gone(sets), Vals())
      modifies `disposed
      ensures disposed == old(disposed) + Gone(sets)
      ensures StoresValid() && Vals() == old(Vals())
    {
      hide StoresValid, Partition, NonEmpty, Gone, Live, Mentioned, TailTopics, NoDup;
      GoneIsTails(sets);
      NoTails(sets);
      NoStore();
      for k := 0 to |sets|
        invariant StoresValid() && Vals() == old(Vals())
        invariant disposed == old(disposed) + TailTopics(sets[..k])
      {
        TailStep(sets, k);
        OneOf(sets, k);
        DisposeTail(sets[k]);
      }
      assert sets[..|sets|] == sets;
    }

    method DisposeTail(ts: seq<Topic>)
      requires StoresValid() && ts != [] && NoDup(ts[1..])
      requires Elems(ts[1..]) !! disposed && OutOf(Elems(ts[1..]), Vals())
      modifies `disposed
      ensures disposed == old(disposed) + Elems(ts[1..])
      ensures StoresValid() && Vals() == old(Vals())
    {
      hide StoresValid, Live, Mentioned;
      NoStore();
      for j := 1 to |ts|
        invariant StoresValid() && Vals() == old(Vals())
        invariant disposed == old(disposed) + Elems(ts[1..j])
      {
        assert ts[1..j + 1] == ts[1..j] + [ts[j]];
        assert ts[j] == ts[1..][j - 1] && ts[j] in Elems(ts[1..]);
        assert forall x :: 0 <= x < j - 1 ==> ts[1..j][x] == ts[1..][x];
        assert ts[j] !in ts[1..j];
        Dispose(ts[j]);
      }
      assert ts[1..|ts|] == ts[1..];
    }

    /** One pass of the merge loop: normalize, substitute keys, substitute inside values, dispose. */
    method MergeRound() returns (e: Outcome, ghost r: Round)
      requires Valid()
      modifies `disposed, mergeLists, Stores()
      ensures e != TooManyRounds
      ensures e == Ok ==> Valid() && IsRound(Kinds(), old(Vals()), r) && r.after == Vals()
      ensures e == Ok ==> NonEmpty(r.sets) && disposed == old(disposed) + Gone(r.sets)
      ensures e == Ok && r.sets == [] ==> AllSettle()
      ensures Ends(Kinds(), old(Vals()), r, e) && r.sets == PassSets(Kinds(), old(Orders()))
      ensures e != Ok ==> disposed == old(disposed)
    {
      ghost var s, disposed0 := Vals(), disposed;
      NoStore();
      hide StoresValid, Partition, AllSettle, Good, IsRound, Gone, Live, Mentioned, AllTopics, OutOf, Vals;
      hide PassSets;
      hide Kinds, Stores, Ends;
      assert OutOf(disposed, s);
      var sets;
      e, sets, r := Rewrite();
      if e != Ok {
        return;
      }
      ToDispose(sets, s, r.after, disposed0);
      DisposeAll(sets);
      mergeLists.lists := [];
    }

    /** The rewriting part of a pass: everything but the cleanup. */
    method Rewrite() returns (e: Outcome, sets: seq<seq<Topic>>, ghost r: Round)
      requires StoresValid() && mergeLists.lists == []
      modifies mergeLists, Stores()
      ensures e != TooManyRounds
      ensures e == Ok ==> StoresValid() && IsRound(Kinds(), old(Vals()), r) && r.after == Vals()
      ensures e == Ok ==> r.sets == sets && Partition(sets) && NonEmpty(sets) && AllTopics(sets) <= Live(old(Vals()))
      ensures e == Ok ==> Live(r.after) <= Live(old(Vals())) - Gone(sets)
      ensures e == Ok ==> Mentioned(r.after) <= (Live(old(Vals())) + Mentioned(old(Vals()))) - Gone(sets)
      ensures e == Ok && sets == [] ==> AllSettle()
      ensures Ends(Kinds(), old(Vals()), r, e) && r.sets == PassSets(Kinds(), old(Orders()))
    {
      ghost var s, kinds := Vals(), Kinds();
      ValsGood();
      NoStore();
      hide StoresValid, KeptFrom, RespectsFrom, Replaced, Imaged, Partition, AllSettle, Good, IsRound;
      hide Gone, Live, Mentioned, AllTopics, Constant, Vals, Kinds, Stores, Ends, Normalizes, Contradicts, NoneCollides;
      hide PassSets;
      NormalizeAll();
      ghost var kept := Vals();
      sets := mergeLists.lists;
      PartitionNonEmpty(sets);
      r := Round(kept, sets, []);
      IsNormalized(kinds, s, r);
      NothingRekeyed(kinds, kept);
      e := ReplaceKeys(sets);
      if e != Ok {
        EndsContradicting(kinds, s, r);
        return;
      }
      ghost var mid := Vals();
      e := ReplaceValues(sets);
      if e != Ok {
        EndsAborted(kinds, s, r, mid);
        return;
      }
      r := Round(kept, sets, Vals());
      MakesRound(kinds, s, r, mid);
      EndsOk(kinds, s, r);
      RoundLive(kinds, s, r);
    }

    /**
     * tm_topicmap_fully_merge. On success the rounds it went through are a run from the
     * old facts to the new ones, every identifying value has one topic, and exactly the
     * topics that were replaced have been disposed of; the representatives are the
     * congruence closure of the old facts if and only if no lost value is shared between
     * classes, and always so when the kinds of the properties rule that out. There is at
     * most one round more than there were live topics. It fails exactly in the pass, last,
     * whose merge sets contradict or collide. The guard against endless merging cannot
     * fire for up to 200 live topics. The merge sets of every pass are those that the
     * topic lists of the stores, orders[k] before pass k, lead to, so these say which
     * topic stays; every pass but the last merges something. Without topics in identifying
     * values one pass is enough; locators alone never make merging fail.
     */
    method FullyMerge()
      returns (e: Outcome, ghost run: seq<Round>, ghost last: Round, ghost orders: seq<seq<TopicLists>>)
      requires Valid()
      modifies `disposed, mergeLists, Stores()
      ensures e == Ok ==> Settled(Kinds(), Vals())
      ensures e == Ok || e == TooManyRounds ==> Valid() && Final(old(Vals()), run) == Vals()
      ensures NonEmptySets(run) && disposed == old(disposed) + AllGone(run)
      ensures e == Ok ==> (IsClosure(Kinds(), old(Vals()), run) <==> LostUnshared(Kinds(), old(Vals()), run))
      ensures e == Ok && !DropProne(Kinds()) ==> IsClosure(Kinds(), old(Vals()), run)
      ensures e == Ok ==> |run| <= |Live(old(Vals()))| + 1
      ensures IsRun(Kinds(), old(Vals()), run) && BusyButLast(run)
      ensures |orders| == |run| + 1 && orders[0] == old(Orders()) && Passes(Kinds(), old(Vals()), run, orders)
      ensures e == ContradictingValues || e == Aborted ==>
                Ends(Kinds(), Final(old(Vals()), run), last, e) && last.sets == PassSets(Kinds(), orders[|run|])
      ensures e == TooManyRounds ==> |run| == 201 && |Live(old(Vals()))| >= 200
      ensures TopicFree(Kinds()) ==> |run| <= 2 && e != TooManyRounds
      ensures OnlyLocators(Kinds()) ==> e == Ok
    {
      StartGood();
      hide *;
      ghost var s, kinds, disposed0 := Vals(), Kinds(), disposed;
      e, run, last, orders := MergeLoop();
      if e == Ok { SettledNow(); }
      Conclusion(kinds, s, run, orders, last, Vals(), Orders(), disposed0, disposed, e);
    }

    lemma StartGood()
      requires Valid()
      ensures Good(Kinds(), Vals())
    {
      ValsGood();
    }

    /** The stores list the topics of each value together. */
    lemma OrdersGrouped()
      requires StoresValid()
      ensures Grouped(Orders(), Vals())
    {
      hide Coupled, Singles, FactsOf, GroupedBy;
      forall i | 0 <= i < |props| ensures GroupedBy(Orders()[i], Vals()[i]) {
        var p := props[i];
        assert p.Valid();
        CoupledGrouped(p.kind.valueType, p.Live(), p.topicsOf, p.vidOf);
      }
    }

    method MergeLoop()
      returns (e: Outcome, ghost run: seq<Round>, ghost last: Round, ghost orders: seq<seq<TopicLists>>)
      requires Valid()
      modifies `disposed, mergeLists, Stores()
      ensures e == Ok ==> AllSettle()
      ensures e == Ok || e == TooManyRounds ==> Valid()
      ensures Concluded(Kinds(), old(Vals()), run, orders, last, Vals(), Orders(), old(disposed), disposed, e)
      ensures orders != [] && orders[0] == old(Orders())
    {
      hide *;
      ghost var s, disposed0, lists0 := Vals(), disposed, Orders();
      run, last, orders := [], Round([], [], []), [Orders()];
      var count := 0;
      var normalized := AllNormalized();
      Started(normalized);
      while !normalized
        invariant OnTheWay(s, run, orders, disposed0, count, normalized)
        invariant orders != [] && orders[0] == lists0
        decreases |Live(Vals())|, if normalized then 0 else 1
      {
        e, normalized, run, last, orders := Turn(s, run, orders, disposed0, count);
        if e != Ok {
          return;
        }
        count := count + 1;
      }
      Arrived(s, run, orders, last, disposed0, count);
      return Ok, run, last, orders;
    }

    /** The state of the loop: all is well, every pass so far used up a live topic or was the last. */
    ghost predicate OnTheWay(s: State, run: seq<Round>, orders: seq<seq<TopicLists>>, disposed0: set<Topic>, count: nat,
                             normalized: bool)
      reads this, mergeLists, Stores()
    {
      && Valid() && RunSoFar(Kinds(), s, run, orders, Vals(), Orders(), disposed0, disposed)
      && (normalized <==> AllSettle())
      && count == |run| <= 200 && count <= |Live(s)| + 1 && BusyButLast(run)
      && (normalized || (count + |Live(Vals())| <= |Live(s)| && Busy(run)))
    }

    lemma Started(normalized: bool)
      requires Valid() && (normalized <==> AllSettle())
      ensures OnTheWay(Vals(), [], [Orders()], disposed, 0, normalized)
    {
      hide AllSettle, Grouped, Coupled, Singles, FactsOf;
      ValsGood();
      OrdersGrouped();
      RunStart(Kinds(), Vals(), Orders(), disposed);
    }

    lemma Arrived(s: State, run: seq<Round>, orders: seq<seq<TopicLists>>, last: Round, disposed0: set<Topic>,
                  count: nat)
      requires OnTheWay(s, run, orders, disposed0, count, true)
      ensures Valid() && AllSettle()
      ensures Concluded(Kinds(), s, run, orders, last, Vals(), Orders(), disposed0, disposed, Ok)
    {
      hide Valid, AllSettle, Concluded, RunSoFar, BusyButLast;
      ConcludedWell(Kinds(), s, run, orders, last, Vals(), Orders(), disposed0, disposed);
    }

    /** One turn of the loop: a pass, the guard against endless merging, and the test of all stores. */
    method Turn(ghost s: State, ghost run: seq<Round>, ghost orders: seq<seq<TopicLists>>, ghost disposed0: set<Topic>,
                count: nat)
      returns (e: Outcome, normalized: bool, ghost longer: seq<Round>, ghost last: Round,
               ghost orders': seq<seq<TopicLists>>)
      requires OnTheWay(s, run, orders, disposed0, count, false)
      modifies `disposed, mergeLists, Stores()
      ensures e == Ok ==> OnTheWay(s, longer, orders', disposed0, count + 1, normalized)
      ensures e == Ok ==> |Live(Vals())| < |Live(old(Vals()))| || (normalized && Vals() == old(Vals()))
      ensures e != Ok ==> Concluded(Kinds(), s, longer, orders', last, Vals(), Orders(), disposed0, disposed, e)
      ensures e == TooManyRounds ==> Valid()
      ensures orders != [] && orders' != [] && orders'[0] == orders[0]
    {
      hide Valid, AllSettle, Live, Vals, Kinds, Stores, RunSoFar, Ends, Concluded, Orders, Passes, BusyButLast, Busy;
      ghost var before, lists, disposed1 := Vals(), Orders(), disposed;
      HasOrders(Kinds(), s, run, orders, before, lists, disposed0, disposed);
      e, normalized, last := Pass(s, run, orders, disposed0);
      longer, orders' := run, orders;
      if e != Ok {
        ConcludedFailed(Kinds(), s, run, orders, last, before, lists, disposed0, Vals(), Orders(), disposed, e);
        return;
      }
      longer, orders' := run + [last], orders + [Orders()];
      BusyMore(run, last);
      if count + 1 > 200 {
        e := TooManyRounds;
        ConcludedLate(Kinds(), s, longer, orders', last, Vals(), Orders(), disposed0, disposed);
      }
    }

    /** A pass and the test. A pass that does not settle uses up a live topic. */
    method Pass(ghost s: State, ghost run: seq<Round>, ghost orders: seq<seq<TopicLists>>, ghost disposed0: set<Topic>)
      returns (e: Outcome, normalized: bool, ghost last: Round)
      requires Valid() && RunSoFar(Kinds(), s, run, orders, Vals(), Orders(), disposed0, disposed)
      modifies `disposed, mergeLists, Stores()
      ensures e != TooManyRounds && Ends(Kinds(), old(Vals()), last, e)
      ensures last.sets == PassSets(Kinds(), old(Orders()))
      ensures e != Ok ==> disposed == old(disposed)
      ensures e == Ok ==> Valid() && (normalized <==> AllSettle()) && (!normalized ==> last.sets != [])
      ensures e == Ok ==>
                RunSoFar(Kinds(), s, run + [last], orders + [Orders()], Vals(), Orders(), disposed0, disposed)
      ensures e == Ok ==> |Live(Vals())| < |Live(old(Vals()))| || (normalized && Vals() == old(Vals()))
    {
      hide Valid, AllSettle, Good, IsRound, IsRun, Gone, AllGone, Live, Final, NonEmptySets, Vals, Kinds;
      hide Stores, RunSoFar, Ends, Orders, PassSets, Grouped;
      ghost var before, lists, disposed1, kinds := Vals(), Orders(), disposed, Kinds();
      normalized := false;
      e, last := MergeRound();
      if e != Ok {
        return;
      }
      ValidGrouped();
      RunStep(kinds, s, run, orders, before, lists, last, Orders(), disposed0, disposed1, disposed);
      normalized := AllNormalized();
    }

    lemma ValidGrouped()
      requires Valid()
      ensures Grouped(Orders(), Vals())
    {
      OrdersGrouped();
    }

    lemma SettledNow()
      requires Valid() && AllSettle()
      ensures Settled(Kinds(), Vals())
    {
      forall i | 0 <= i < |props| && Kinds()[i].sidp ensures Injective(Vals()[i]) {
        var p := props[i];
        SinglesAreNormal(p.kind, p.Live(), p.topicsOf, p.vidOf);
      }
    }

    lemma EmptyLists()
      requires mergeLists.lists == []
      ensures mergeLists.Valid()
      ensures forall f: Labelling :: Constant(f, mergeLists.lists)
      ensures AllTopics(mergeLists.lists) == {}
    {
    }

    lemma KeysLive(i: nat)
      requires StoresValid() && i < |props|
      ensures props[i].vidOf.Keys <= Live(Vals())
    {
      var p := props[i];
      FactsKeys(p.kind.valueType, p.Live(), p.topicsOf, p.vidOf);
    }
  }

  // --- the loops over properties, as relations between states -------------------------

  /** Properties from i on are normalized, those before i unchanged; only keys were given up. */
  ghost predicate KeptFrom(kinds: seq<Kind>, s: State, n: State, i: nat) {
    && |kinds| == |s| == |n| && i <= |s|
    && (forall j :: 0 <= j < i ==> n[j] == s[j])
    && (forall j :: i <= j < |s| ==> if kinds[j].sidp then OneEach(s[j], n[j]) else n[j] == s[j])
    && Live(n) <= Live(s)
  }

  ghost predicate RespectsFrom(f: Labelling, kinds: seq<Kind>, s: State, i: nat)
    requires |s| == |kinds|
  {
    forall j :: i <= j < |s| && kinds[j].sidp ==> RespectsValues(f, s[j])
  }

  lemma KeptEnd(kinds: seq<Kind>, s: State)
    requires |kinds| == |s|
    ensures KeptFrom(kinds, s, s, |s|)
    ensures forall f: Labelling :: RespectsFrom(f, kinds, s, |s|)
  {
  }

  lemma KeptStep(kinds: seq<Kind>, s: State, n: State, n': State, i: nat)
    requires KeptFrom(kinds, s, n, i + 1) && |n'| == |n| && n' == n[i := n'[i]]
    requires if kinds[i].sidp then OneEach(n[i], n'[i]) else n'[i] == n[i]
    ensures KeptFrom(kinds, s, n', i)
  {
    forall t | t in Live(n') ensures t in Live(s) {
      var j :| 0 <= j < |n'| && t in n'[j];
      assert t in n[j];
    }
  }

  /** A property that is not normalized yet is as it was, and no key has been added anywhere. */
  lemma KeptBefore(kinds: seq<Kind>, s: State, n: State, i: nat)
    requires KeptFrom(kinds, s, n, i + 1)
    ensures i < |s| == |n| == |kinds| && n[i] == s[i] && Live(n) <= Live(s)
  {
  }

  lemma RespectsStep(kinds: seq<Kind>, s: State, i: nat)
    requires |s| == |kinds| && i < |s|
    ensures forall f: Labelling :: RespectsFrom(f, kinds, s, i) <==>
              RespectsFrom(f, kinds, s, i + 1) && (kinds[i].sidp ==> RespectsValues(f, s[i]))
  {
  }

  lemma OneOf(sets: seq<seq<Topic>>, k: nat)
    requires Partition(sets) && NonEmpty(sets) && k < |sets|
    ensures NoDup(sets[k]) && sets[k] != []
  {
  }

  /** The keys of the properties before i have been replaced. */
  ghost predicate Replaced(s: State, sets: seq<seq<Topic>>, n: State, i: nat)
    requires NonEmpty(sets)
  {
    && |n| == |s| && i <= |s|
    && (forall j :: 0 <= j < i ==> n[j] == ReplaceSets(s[j], sets))
    && (forall j :: i <= j < |s| ==> n[j] == s[j])
  }

  lemma ReplacedStart(s: State, sets: seq<seq<Topic>>)
    requires NonEmpty(sets)
    ensures Replaced(s, sets, s, 0)
  {
  }

  lemma ReplacedNext(s: State, sets: seq<seq<Topic>>, n: State, i: nat)
    requires NonEmpty(sets) && Replaced(s, sets, n, i) && i < |s|
    ensures n[i] == s[i]
  {
  }

  /** Replacing a merge set leaves agreement about the later ones alone. */
  lemma AgreeLater(kind: Kind, m: Facts, sets: seq<seq<Topic>>, k: nat)
    requires WellKinded(kind, m) && Partition(sets) && k < |sets| && sets[k] != []
    ensures kind.valueType.TextType? ==> forall j :: k < j < |sets| ==>
              (Agree(ReplaceSet(m, sets[k]), sets[j]) <==> Agree(m, sets[j]))
  {
    if kind.valueType.TextType? {
      forall j | k < j < |sets| ensures Agree(ReplaceSet(m, sets[k]), sets[j]) <==> Agree(m, sets[j]) {
        AgreeElsewhere(m, sets[k], sets[j]);
      }
    }
  }

  lemma ReplacedStep(s: State, sets: seq<seq<Topic>>, n: State, n': State, i: nat)
    requires NonEmpty(sets) && Replaced(s, sets, n, i) && i < |s| && |n'| == |n|
    requires n' == n[i := n'[i]] && n'[i] == ReplaceSets(n[i], sets)
    ensures Replaced(s, sets, n', i + 1)
  {
  }

  /** The values of the properties before i have been replaced, without a collision. */
  ghost predicate Imaged(s: State, sets: seq<seq<Topic>>, n: State, i: nat)
    requires NonEmpty(sets)
  {
    && |n| == |s| && i <= |s|
    && (forall j :: 0 <= j < i ==> n[j] == ImagesSets(s[j], sets) && NoneCollides(s[j], sets))
    && (forall j :: i <= j < |s| ==> n[j] == s[j])
  }

  lemma ImagedStart(s: State, sets: seq<seq<Topic>>)
    requires NonEmpty(sets)
    ensures Imaged(s, sets, s, 0)
  {
  }

  lemma ImagedAll(s: State, sets: seq<seq<Topic>>, n: State)
    requires NonEmpty(sets) && Imaged(s, sets, n, |s|)
    ensures forall j :: 0 <= j < |s| ==> NoneCollides(s[j], sets)
  {
  }

  lemma ImagedNext(s: State, sets: seq<seq<Topic>>, n: State, i: nat)
    requires NonEmpty(sets) && Imaged(s, sets, n, i) && i < |s|
    ensures n[i] == s[i]
  {
  }

  lemma ImagedStep(s: State, sets: seq<seq<Topic>>, n: State, n': State, i: nat)
    requires NonEmpty(sets) && Imaged(s, sets, n, i) && i < |s|
    requires NoneCollides(n[i], sets) && n' == n[i := ImagesSets(n[i], sets)]
    ensures Imaged(s, sets, n', i + 1)
  {
  }

  /** The calls of _pstore_put that additions amount to. */
  function CallsOf(adds: seq<(Topic, seq<Locator>)>): (h: seq<Call>)
    ensures |h| == |adds|
  {
    seq(|adds|, k requires 0 <= k < |adds| => Call(adds[k].0, Elems(adds[k].1)))
  }

  lemma NothingPut(adds: seq<(Topic, seq<Locator>)>)
    ensures PutAll(CallsOf(adds[..0])) == map[] && (adds == [] ==> !NewAtLast(adds))
  {
  }

  /** The topic of the last addition has none before. */
  ghost predicate NewAtLast(adds: seq<(Topic, seq<Locator>)>) {
    adds != [] && forall k :: 0 <= k < |adds| - 1 ==> adds[k].0 != adds[|adds| - 1].0
  }

  lemma NewKey(adds: seq<(Topic, seq<Locator>)>, k: nat)
    requires k < |adds| && forall j :: 0 <= j < |adds| ==> adds[j].1 != [] && NoDup(adds[j].1)
    ensures k == |adds| - 1 && NewAtLast(adds) ==> adds[k].0 !in PutAll(CallsOf(adds[..k]))
  {
    var h := CallsOf(adds[..k]);
    forall j | 0 <= j < |h| ensures h[j].locs != {} { assert adds[j].1[0] in Elems(adds[j].1); }
    if k == |adds| - 1 && NewAtLast(adds) {
      ComponentsOfPuts(h, adds[k].0, adds[k].0);
      NothingGiven(h, adds[k].0);
    }
  }

  lemma {:induction false} NothingGiven(h: seq<Call>, t: Topic)
    requires forall j :: 0 <= j < |h| ==> h[j].topic != t
    ensures Given(h, t) == {}
  {
    if h != [] { NothingGiven(h[..|h| - 1], t); }
  }

  lemma OneMorePut(adds: seq<(Topic, seq<Locator>)>, k: nat)
    requires k < |adds|
    ensures PutAll(CallsOf(adds[..k + 1])) == Put(PutAll(CallsOf(adds[..k])), adds[k].0, Elems(adds[k].1))
  {
    var h := CallsOf(adds[..k + 1]);
    assert h[..k] == CallsOf(adds[..k]);
    assert h[k] == Call(adds[k].0, Elems(adds[k].1));
  }

  /** Putting locators for a topic that still exists brings no disposed topic back. */
  lemma PutOutOf(disposed: set<Topic>, s: State, i: nat, t: Topic, ls: set<Locator>)
    requires i < |s| && OutOf(disposed, s) && t !in disposed
    requires forall u :: u in s[i] ==> s[i][u].Locators?
    ensures OutOf(disposed, s[i := Put(s[i], t, ls)])
  {
    var n := s[i := Put(s[i], t, ls)];
    PutKeys(s[i], t, ls);
    hide Put;
    forall x | x in Live(n) ensures x !in disposed {
      var k :| 0 <= k < |n| && x in n[k];
      if k != i || x != t { assert x in s[k]; }
    }
    forall x | x in Mentioned(n) ensures x !in disposed {
      var k, u :| 0 <= k < |n| && u in n[k] && x in TopicsOf(n[k][u]);
      assert u in s[k] && x in TopicsOf(s[k][u]);
    }
  }

  function With(m: Facts, t: Topic, value: Value): Facts {
    m[t := value]
  }

  lemma AddedOutOf(disposed: set<Topic>, s: State, i: nat, t: Topic, value: Value)
    requires i < |s| && OutOf(disposed, s) && t !in disposed && TopicsOf(value) !! disposed
    ensures OutOf(disposed, s[i := With(s[i], t, value)])
  {
    var n := s[i := With(s[i], t, value)];
    forall x | x in Live(n) ensures x !in disposed {
      var k :| 0 <= k < |n| && x in n[k];
      if k != i || x != t { assert x in s[k]; }
    }
    forall x | x in Mentioned(n) ensures x !in disposed {
      var k, u :| 0 <= k < |n| && u in n[k] && x in TopicsOf(n[k][u]);
      if k != i || u != t { assert u in s[k] && x in TopicsOf(s[k][u]); }
    }
  }

  lemma PutKeys(m: Facts, t: Topic, ls: set<Locator>)
    requires forall u :: u in m ==> m[u].Locators?
    ensures Put(m, t, ls).Keys == m.Keys + {t}
    ensures forall u :: u in Put(m, t, ls) ==> Put(m, t, ls)[u].Locators?
  {
  }

  /** Replacing keys inserts no topic of an identifying property anew. */
  ghost predicate NoneRekeyed(kinds: seq<Kind>, s: State, sets: seq<seq<Topic>>)
    requires |kinds| == |s| && NonEmpty(sets)
  {
    forall i :: 0 <= i < |s| && kinds[i].sidp ==> !RekeyedSets(s[i], sets)
  }

  /**
   * The assertion commented out at src/topicmap.c:494-496, that all stores are still normalized
   * after the keys have been replaced, fails as soon as one merge set moves a value: here
   * 1 stays and has none, 2 disappears and has one.
   */
  lemma MovedValueRekeys(kinds: seq<Kind>, s: State, i: nat, v: Value)
    requires |kinds| == |s| && i < |s| && kinds[i].sidp && s[i] == map[2 := v]
    ensures NonEmpty([[1, 2]]) && !NoneRekeyed(kinds, s, [[1, 2]])
  {
    var ts: seq<Topic> := [1, 2];
    assert Rekeyed(s[i], ts[0], ts[1]);
    assert RekeyedFrom(s[i], ts, 1);
    assert RekeyedSets(s[i], [ts]);
  }

  /** The flags of the properties before i have been cleared where a topic was inserted anew. */
  ghost predicate FlagsKept(s: State, sets: seq<seq<Topic>>, was: seq<bool>, now: seq<bool>, i: nat)
    requires NonEmpty(sets)
  {
    && |s| == |was| == |now| && i <= |s|
    && (forall j :: 0 <= j < i ==> (now[j] <==> was[j] && !RekeyedSets(s[j], sets)))
    && (forall j :: i <= j < |s| ==> now[j] == was[j])
  }

  lemma FlagsStart(s: State, sets: seq<seq<Topic>>, was: seq<bool>)
    requires NonEmpty(sets) && |s| == |was|
    ensures FlagsKept(s, sets, was, was, 0)
  {
  }

  lemma FlagsStep(s: State, sets: seq<seq<Topic>>, was: seq<bool>, now: seq<bool>, now': seq<bool>, i: nat)
    requires NonEmpty(sets) && FlagsKept(s, sets, was, now, i) && i < |s| && |now'| == |now|
    requires now' == now[i := now'[i]] && (now'[i] <==> now[i] && !RekeyedSets(s[i], sets))
    ensures FlagsKept(s, sets, was, now', i + 1)
  {
  }

  lemma NothingRekeyed(kinds: seq<Kind>, s: State)
    requires |kinds| == |s|
    ensures NoneRekeyed(kinds, s, [])
  {
  }

  lemma NoTails(sets: seq<seq<Topic>>)
    ensures TailTopics(sets[..0]) == {}
  {
  }

  lemma PartitionNonEmpty(sets: seq<seq<Topic>>)
    requires Partition(sets)
    ensures NonEmpty(sets)
  {
  }

  /**
   * How a pass over the state s ends: it goes through exactly when the merge sets that
   * normalization yields neither contradict nor make a replacement collide.
   */
  ghost predicate Ends(kinds: seq<Kind>, s: State, r: Round, e: Outcome) {
    && e != TooManyRounds && Normalizes(kinds, s, r.kept, r.sets)
    && (e == ContradictingValues <==> Contradicts(kinds, r.kept, r.sets))
    && (e == Aborted <==> !Contradicts(kinds, r.kept, r.sets) && Collision(r.kept, r.sets))
    && (e == Ok ==> IsRound(kinds, s, r))
  }

  lemma IsNormalized(kinds: seq<Kind>, s: State, r: Round)
    requires Partition(r.sets) && NonEmpty(r.sets) && AllTopics(r.sets) <= Live(s) && |kinds| == |s|
    requires KeptFrom(kinds, s, r.kept, 0)
    requires forall f: Labelling :: Constant(f, r.sets) <==> RespectsFrom(f, kinds, s, 0)
    ensures Normalizes(kinds, s, r.kept, r.sets)
  {
    hide OneEach, RespectsValues, Constant, Partition, Live, AllTopics;
    forall f: Labelling ensures RespectsFrom(f, kinds, s, 0) <==> RespectsAll(f, kinds, s) {
    }
  }

  lemma MakesRound(kinds: seq<Kind>, s: State, r: Round, mid: State)
    requires Normalizes(kinds, s, r.kept, r.sets)
    requires Replaced(r.kept, r.sets, mid, |s|) && Imaged(mid, r.sets, r.after, |s|)
    requires !Contradicts(kinds, r.kept, r.sets)
    ensures IsRound(kinds, s, r)
  {
    hide Normalizes, Contradicts, ReplaceSets, ImagesSets, NoneCollides;
    SameLengths(kinds, s, r);
  }

  lemma SameLengths(kinds: seq<Kind>, s: State, r: Round)
    requires Normalizes(kinds, s, r.kept, r.sets)
    ensures NonEmpty(r.sets) && |kinds| == |s| == |r.kept|
  {
  }

  lemma EndsContradicting(kinds: seq<Kind>, s: State, r: Round)
    requires Normalizes(kinds, s, r.kept, r.sets) && Contradicts(kinds, r.kept, r.sets)
    ensures Ends(kinds, s, r, ContradictingValues)
  {
    hide Normalizes, Contradicts, Collision, IsRound;
    SameLengths(kinds, s, r);
  }

  lemma EndsAborted(kinds: seq<Kind>, s: State, r: Round, mid: State)
    requires Normalizes(kinds, s, r.kept, r.sets) && !Contradicts(kinds, r.kept, r.sets)
    requires NonEmpty(r.sets) && Replaced(r.kept, r.sets, mid, |s|)
    requires exists i :: 0 <= i < |mid| && !NoneCollides(mid[i], r.sets)
    ensures Ends(kinds, s, r, Aborted)
  {
    SameLengths(kinds, s, r);
    hide Normalizes, Contradicts, IsRound, NoneCollides, ReplaceSets;
    var i :| 0 <= i < |mid| && !NoneCollides(mid[i], r.sets);
    assert mid[i] == ReplaceSets(r.kept[i], r.sets);
    assert Collision(r.kept, r.sets);
  }

  lemma EndsOk(kinds: seq<Kind>, s: State, r: Round)
    requires IsRound(kinds, s, r)
    ensures Ends(kinds, s, r, Ok)
  {
    hide Normalizes, Contradicts, NoneCollides, ReplaceSets, ImagesSets;
    SameLengths(kinds, s, r);
  }

  /** None of the topics ts is a key or occurs in a value. */
  ghost predicate OutOf(ts: set<Topic>, s: State) {
    ts !! Live(s) && ts !! Mentioned(s)
  }

  /** What a round must dispose of was live, so it is not disposed yet; and what was disposed stays out. */
  lemma ToDispose(sets: seq<seq<Topic>>, s: State, after: State, disposed: set<Topic>)
    requires NonEmpty(sets) && AllTopics(sets) <= Live(s) && OutOf(disposed, s)
    requires Live(after) <= Live(s) - Gone(sets)
    requires Mentioned(after) <= (Live(s) + Mentioned(s)) - Gone(sets)
    ensures Gone(sets) !! disposed && OutOf(Gone(sets), after) && OutOf(disposed + Gone(sets), after)
  {
    hide Live, Mentioned;
    assert Gone(sets) <= AllTopics(sets);
  }

  /** The rounds so far lead from s to now, and have disposed of what they replaced. */
  ghost predicate RunSoFar(kinds: seq<Kind>, s: State, run: seq<Round>, orders: seq<seq<TopicLists>>, now: State,
                           lists: seq<TopicLists>, disposed0: set<Topic>, disposed: set<Topic>) {
    && Good(kinds, now) && IsRun(kinds, s, run) && Final(s, run) == now
    && NonEmptySets(run) && disposed == disposed0 + AllGone(run)
    && Passes(kinds, s, run, orders) && orders[|run|] == lists
  }

  lemma RunStart(kinds: seq<Kind>, s: State, lists: seq<TopicLists>, disposed: set<Topic>)
    requires Good(kinds, s) && Grouped(lists, s)
    ensures RunSoFar(kinds, s, [], [lists], s, lists, disposed, disposed)
  {
  }

  lemma HasOrders(kinds: seq<Kind>, s: State, run: seq<Round>, orders: seq<seq<TopicLists>>, now: State,
                  lists: seq<TopicLists>, disposed0: set<Topic>, disposed: set<Topic>)
    requires RunSoFar(kinds, s, run, orders, now, lists, disposed0, disposed)
    ensures |orders| == |run| + 1
  {
  }

  /** A round extends the run, and either uses up a live topic or changes nothing. */
  lemma RunStep(kinds: seq<Kind>, s: State, run: seq<Round>, orders: seq<seq<TopicLists>>, now: State,
                lists: seq<TopicLists>, r: Round, lists': seq<TopicLists>, disposed0: set<Topic>, disposed: set<Topic>,
                disposed': set<Topic>)
    requires IsRound(kinds, now, r) && NonEmpty(r.sets) && |lists| == |kinds| && r.sets == PassSets(kinds, lists)
    requires RunSoFar(kinds, s, run, orders, now, lists, disposed0, disposed) && disposed' == disposed + Gone(r.sets)
    requires Grouped(lists', r.after)
    ensures RunSoFar(kinds, s, run + [r], orders + [lists'], r.after, lists', disposed0, disposed')
    ensures r.sets != [] ==> |Live(r.after)| < |Live(now)|
    ensures r.sets == [] ==> r.after == now
  {
    StepOn(kinds, s, run, now, r);
    hide *;
    PassOn(kinds, s, run, orders, now, lists, r, lists', disposed0, disposed);
  }

  lemma StepOn(kinds: seq<Kind>, s: State, run: seq<Round>, now: State, r: Round)
    requires IsRound(kinds, now, r) && NonEmpty(r.sets) && Good(kinds, now) && IsRun(kinds, s, run)
    requires Final(s, run) == now
    ensures Good(kinds, r.after) && IsRun(kinds, s, run + [r]) && Final(s, run + [r]) == r.after
    ensures NonEmptySets(run) && NonEmptySets(run + [r]) && AllGone(run + [r]) == AllGone(run) + Gone(r.sets)
    ensures r.sets != [] ==> |Live(r.after)| < |Live(now)|
    ensures r.sets == [] ==> r.after == now
  {
    RunAppend(kinds, s, run, r);
    RoundGood(kinds, now, r);
    hide IsRun, Final, NonEmptySets, AllGone;
    if r.sets == [] { RoundIdle(kinds, now, r); } else { RoundShrinks(kinds, now, r); }
  }

  lemma PassOn(kinds: seq<Kind>, s: State, run: seq<Round>, orders: seq<seq<TopicLists>>, now: State,
               lists: seq<TopicLists>, r: Round, lists': seq<TopicLists>, disposed0: set<Topic>, disposed: set<Topic>)
    requires NonEmpty(r.sets) && |lists| == |kinds| && r.sets == PassSets(kinds, lists) && Grouped(lists', r.after)
    requires RunSoFar(kinds, s, run, orders, now, lists, disposed0, disposed) && Good(kinds, r.after)
    requires IsRun(kinds, s, run + [r]) && Final(s, run + [r]) == r.after && NonEmptySets(run)
    requires NonEmptySets(run + [r]) && AllGone(run + [r]) == AllGone(run) + Gone(r.sets)
    ensures RunSoFar(kinds, s, run + [r], orders + [lists'], r.after, lists', disposed0, disposed + Gone(r.sets))
  {
    assert Passes(kinds, s, run, orders) && orders[|run|] == lists && disposed == disposed0 + AllGone(run);
    assert |lists'| == |kinds|;
    hide *;
    PassesSizes(kinds, s, run, orders);
    PassesAppend(kinds, s, run, orders, r, lists');
    SoFar(kinds, s, run + [r], orders + [lists'], r.after, lists', disposed0, disposed + Gone(r.sets));
  }

  lemma SoFar(kinds: seq<Kind>, s: State, run: seq<Round>, orders: seq<seq<TopicLists>>, now: State,
              lists: seq<TopicLists>, disposed0: set<Topic>, disposed: set<Topic>)
    requires Good(kinds, now) && IsRun(kinds, s, run) && Final(s, run) == now && NonEmptySets(run)
    requires disposed == disposed0 + AllGone(run) && Passes(kinds, s, run, orders) && |orders| == |run| + 1
    requires orders[|run|] == lists
    ensures RunSoFar(kinds, s, run, orders, now, lists, disposed0, disposed)
  {
  }

  /** How a full merge ends. */
  ghost predicate Concluded(kinds: seq<Kind>, s: State, run: seq<Round>, orders: seq<seq<TopicLists>>, last: Round,
                            now: State, lists: seq<TopicLists>, disposed0: set<Topic>, disposed: set<Topic>,
                            e: Outcome) {
    && IsRun(kinds, s, run) && BusyButLast(run) && Passes(kinds, s, run, orders)
    && NonEmptySets(run) && disposed == disposed0 + AllGone(run)
    && (e == Ok || e == TooManyRounds ==> RunSoFar(kinds, s, run, orders, now, lists, disposed0, disposed))
    && (e == Ok ==> |run| <= |Live(s)| + 1)
    && (e == ContradictingValues || e == Aborted ==>
          Ends(kinds, Final(s, run), last, e) && |orders[|run|]| == |kinds|
          && last.sets == PassSets(kinds, orders[|run|]))
    && (e == TooManyRounds ==> |run| == 201 && |Live(s)| >= 200)
  }

  lemma ConcludedWell(kinds: seq<Kind>, s: State, run: seq<Round>, orders: seq<seq<TopicLists>>, last: Round,
                      now: State,
                      lists: seq<TopicLists>, disposed0: set<Topic>, disposed: set<Topic>)
    requires RunSoFar(kinds, s, run, orders, now, lists, disposed0, disposed) && |run| <= |Live(s)| + 1
    requires BusyButLast(run)
    ensures Concluded(kinds, s, run, orders, last, now, lists, disposed0, disposed, Ok)
  {
  }

  lemma ConcludedLate(kinds: seq<Kind>, s: State, run: seq<Round>, orders: seq<seq<TopicLists>>, last: Round,
                      now: State,
                      lists: seq<TopicLists>, disposed0: set<Topic>, disposed: set<Topic>)
    requires RunSoFar(kinds, s, run, orders, now, lists, disposed0, disposed) && |run| == 201 && |Live(s)| >= 200
    requires BusyButLast(run)
    ensures Concluded(kinds, s, run, orders, last, now, lists, disposed0, disposed, TooManyRounds)
  {
  }

  lemma ConcludedFailed(kinds: seq<Kind>, s: State, run: seq<Round>, orders: seq<seq<TopicLists>>, last: Round,
                        before: State, lists0: seq<TopicLists>, disposed0: set<Topic>, now: State,
                        lists: seq<TopicLists>, disposed: set<Topic>, e: Outcome)
    requires RunSoFar(kinds, s, run, orders, before, lists0, disposed0, disposed)
    requires Ends(kinds, before, last, e) && e != Ok && |lists0| == |kinds| && last.sets == PassSets(kinds, lists0)
    requires BusyButLast(run)
    ensures Concluded(kinds, s, run, orders, last, now, lists, disposed0, disposed, e)
  {
  }

  lemma Conclusion(kinds: seq<Kind>, s: State, run: seq<Round>, orders: seq<seq<TopicLists>>, last: Round, now: State,
                   lists: seq<TopicLists>, disposed0: set<Topic>, disposed: set<Topic>, e: Outcome)
    requires Concluded(kinds, s, run, orders, last, now, lists, disposed0, disposed, e) && Good(kinds, s)
    requires |now| == |kinds| && (e == Ok ==> Settled(kinds, now))
    ensures IsRun(kinds, s, run) && BusyButLast(run)
    ensures Passes(kinds, s, run, orders) && |orders| == |run| + 1 && |orders[|run|]| == |kinds| == |s|
    ensures NonEmptySets(run) && disposed == disposed0 + AllGone(run)
    ensures e == Ok || e == TooManyRounds ==> Final(s, run) == now
    ensures e == Ok ==> |run| <= |Live(s)| + 1
    ensures e == Ok ==> (IsClosure(kinds, s, run) <==> LostUnshared(kinds, s, run))
    ensures e == Ok && !DropProne(kinds) ==> IsClosure(kinds, s, run)
    ensures e == ContradictingValues || e == Aborted ==>
              Ends(kinds, Final(s, run), last, e) && last.sets == PassSets(kinds, orders[|run|])
    ensures e == TooManyRounds ==> |run| == 201 && |Live(s)| >= 200
    ensures TopicFree(kinds) ==> |run| <= 2 && e != TooManyRounds
    ensures OnlyLocators(kinds) ==> e == Ok
  {
    PassesSizes(kinds, s, run, orders);
    if TopicFree(kinds) { ShortRun(kinds, s, run); }
    if OnlyLocators(kinds) { NeverFails(kinds, Final(s, run), s, run, last, e); }
    if e == Ok {
      hide IsRun, Settled, Good, IsClosure, LostUnshared, DropProne, Final, Passes, BusyButLast, Ends;
      assert Final(s, run) == now by { FinalNow(kinds, s, run, orders, last, now, lists, disposed0, disposed, e); }
      MergeIsCongruenceClosure(kinds, s, run);
      if !DropProne(kinds) { NotProneComplete(kinds, s, run); }
    }
  }

  lemma NeverFails(kinds: seq<Kind>, now: State, s: State, run: seq<Round>, last: Round, e: Outcome)
    requires OnlyLocators(kinds) && Good(kinds, s) && IsRun(kinds, s, run) && BusyButLast(run) && now == Final(s, run)
    requires e == ContradictingValues || e == Aborted ==> Ends(kinds, now, last, e)
    requires e == TooManyRounds ==> |run| == 201
    ensures e == Ok
  {
    ShortRun(kinds, s, run);
    RunGood(kinds, s, run);
    if e == ContradictingValues || e == Aborted {
      LocatorsGoThrough(kinds, now, last.kept, last.sets);
    }
  }

  lemma FinalNow(kinds: seq<Kind>, s: State, run: seq<Round>, orders: seq<seq<TopicLists>>, last: Round, now: State,
                 lists: seq<TopicLists>, disposed0: set<Topic>, disposed: set<Topic>, e: Outcome)
    requires Concluded(kinds, s, run, orders, last, now, lists, disposed0, disposed, e) && e == Ok
    ensures Final(s, run) == now
  {
  }
}
