/**
 * A property store and the value store it drives (stores/memstore/propertystore.c), and
 * the topic map's operations on the pair (_pstore_put, _pstore_vput,
 * _pstore_replace_topics, _pstore_replace_topics_in_values in src/topicmap.c).
 */
module PropertyStores {
  import opened Basics
  import opened Values
  import opened ValueOps
  import opened MergeSets
  import opened Facts
  import opened Rounds
  import opened Tables
  import opened TextSetStores
  import opened PlainStores

  datatype ValueStore = TextSets(ids: TextSetStore) | Plains(plain: PlainStore)

  /** Aborted: an assertion of the source about values fails; TooManyRounds: its guard against endless merging fires. */
  datatype Outcome = Ok | ContradictingValues | Aborted | TooManyRounds

  /** The scans that a value type defines operators for. */
  predicate Fits(q: Condition, vt: ValueType) {
    match q
    case HasType(_) => vt.AsidpType?
    case HasPair(_, _) => vt.AsidpType?
    case Includes(_) => vt.AsidpType? || vt.TopicSetType?
    case NotDisjoint(_) => vt.TextSetType?
  }

  /** A scan is defined for the types of which some value meets its condition, and for no others. */
  lemma FitsIff(q: Condition, vt: ValueType)
    ensures (exists v :: OfType(vt, v) && Meets(q, v)) <==> Fits(q, vt) && (q.NotDisjoint? ==> q.list != [])
  {
    match q {
      case HasType(t) => assert Meets(q, Asidp(t, []));
      case HasPair(r, p) =>
        assert Member(r, p) in [Member(r, p)];
        assert Meets(q, Asidp(0, [Member(r, p)]));
      case Includes(t) =>
        assert Meets(q, Asidp(t, [])) && OfType(AsidpType, Asidp(t, []));
        assert Meets(q, Topics({t})) && OfType(TopicSetType, Topics({t}));
      case NotDisjoint(list) =>
        if list != [] {
          assert list[0] in Elems(list) * Elems(list);
          assert Meets(q, Locators(Elems(list))) && OfType(TextSetType, Locators(Elems(list)));
        }
    }
  }

  /**
   * The VIDs below n of the values that include one of ts[1..], in the order in which
   * _pstore_replace_topics_in_values collects them (src/topicmap.c:704-728).
   */
  ghost function Inclusions(c: Contents, ts: seq<Topic>, i: nat, n: nat): seq<Vid>
    requires i <= |ts|
  {
    if i <= 1 then [] else PushAll(Inclusions(c, ts, i - 1, n), MeetingIn(c, Includes(ts[i - 1]), n))
  }

  class PropertyStore {
    const kind: Kind
    const vstore: ValueStore
    var topicsOf: TopicLists
    var vidOf: TopicVids
    var isNormalized: bool

    constructor (kind: Kind)
      ensures Valid() && fresh(StoreObject()) && this.kind == kind && Val() == map[]
    {
      this.kind := kind;
      if kind.valueType.TextSetType? {
        var s := new TextSetStore();
        vstore := TextSets(s);
      } else {
        var s := new PlainStore();
        vstore := Plains(s);
      }
      topicsOf, vidOf, isNormalized := map[], map[], true;
    }

    function StoreObject(): object {
      match vstore
      case TextSets(s) => s
      case Plains(s) => s
    }

    ghost predicate StoreValid()
      reads StoreObject()
    {
      match vstore
      case TextSets(s) => s.Valid() && kind.valueType.TextSetType?
      case Plains(s) => s.Valid() && !kind.valueType.TextSetType?
    }

    ghost function Live(): Contents
      reads StoreObject()
    {
      match vstore
      case TextSets(s) => s.Live()
      case Plains(s) => s.values
    }

    /** The stores agree, except that the values in extra need not have a topic yet. */
    ghost predicate Window(extra: set<Vid>)
      reads this, StoreObject()
    {
      && StoreValid()
      && Coupled(kind.valueType, Live(), topicsOf, vidOf, extra)
      && (isNormalized && kind.sidp ==> Singles(topicsOf))
    }

    /** Between operations a value is live exactly when some topic has it. */
    ghost predicate Valid()
      reads this, StoreObject()
    {
      Window({})
    }

    /** How many VIDs have been given out. */
    ghost function Count(): nat
      reads StoreObject()
    {
      match vstore
      case TextSets(s) => s.count
      case Plains(s) => s.count
    }

    /** The VIDs of the values that overlap list, as _pstore_vput collects them. */
    ghost function Overlapping(list: seq<Locator>): seq<Vid>
      reads StoreObject()
    {
      match vstore
      case TextSets(s) => s.Scanned(list, |list|)
      case Plains(s) => []
    }

    /** The facts that the two stores represent. */
    ghost function Val(): Facts
      reads this, StoreObject()
    {
      FactsOf(Live(), vidOf)
    }

    // --- the value store's operations, by type of store ------------------------------

    method DeleteValue(vid: Vid)
      requires StoreValid() && vid in Live()
      modifies StoreObject()
      ensures StoreValid() && Live() == old(Live()) - {vid}
    {
      match vstore {
        case TextSets(s) => s.DeleteValue(vid);
        case Plains(s) => s.DeleteValue(vid);
      }
    }

    method GetSet(vid: Vid) returns (list: seq<Locator>)
      requires StoreValid() && kind.valueType.TextSetType? && vid in Live()
      ensures NoDup(list) && list != [] && Elems(list) == Locs(Live()[vid])
      ensures Live()[vid] == Locators(Elems(list))
    {
      match vstore {
        case TextSets(s) => list := s.GetValue(vid);
      }
    }

    /** The VIDs that the NOT_DISJOINT scan yields. */
    method OverlappingVids(list: seq<Locator>) returns (vids: seq<Vid>)
      requires StoreValid() && kind.valueType.TextSetType?
      ensures NoDup(vids) && Elems(vids) == OverlapVids(Live(), Elems(list)) && Elems(vids) <= Live().Keys
      ensures vids == Overlapping(list)
    {
      match vstore {
        case TextSets(s) => vids := s.ScanNotDisjoint(list);
      }
    }

    method CreateSet(list: seq<Locator>) returns (vid: Vid)
      requires StoreValid() && kind.valueType.TextSetType? && list != [] && NoDup(list)
      requires OverlapVids(Live(), Elems(list)) == {}
      modifies StoreObject()
      ensures StoreValid() && vid != 0 && vid !in old(Live())
      ensures Live() == old(Live())[vid := Locators(Elems(list))]
    {
      match vstore {
        case TextSets(s) =>
          forall l | l in list ensures l !in s.loctab {
            s.KnownLocators(l);
            assert l in Elems(list);
            if l in s.loctab { NotShared(Live(), Elems(list), s.loctab[l], l); }
          }
          vid := s.Create(list);
      }
    }

    method GetPlain(vid: Vid) returns (value: Value)
      requires StoreValid() && !kind.valueType.TextSetType? && vid in Live()
      ensures value == Live()[vid]
    {
      match vstore {
        case Plains(s) => value := s.values[vid];
      }
    }

    /** _pstore_vput on a property without equality code: lookup or create. */
    method LookupOrCreate(value: Value) returns (vid: Vid)
      requires Valid() && !kind.valueType.TextSetType? && OfType(kind.valueType, value) && Canonical(value)
      requires Indexable(value)
      modifies StoreObject()
      ensures Window({vid}) && vid in Live() && Live()[vid] == value
      ensures Live() == old(Live()) || (vid !in old(Live()) && Live() == old(Live())[vid := value])
      ensures Val() == old(Val())
    {
      hide Coupled, Singles;
      ghost var c0 := Live();
      match vstore {
        case Plains(s) => vid := s.LookupOrCreate(value);
      }
      LookedUp(kind.valueType, c0, topicsOf, vidOf, vid, value);
    }

    // --- the property store's own operations -----------------------------------------

    method GetVidOfTopic(t: Topic) returns (vid: Vid)
      requires Valid()
      ensures vid == if t in vidOf then vidOf[t] else 0
      ensures vid == 0 <==> t !in vidOf
    {
      vid := if t in vidOf then vidOf[t] else 0;
    }

    method Insert(t: Topic, vid: Vid)
      requires Window({vid}) && t !in vidOf
      modifies this
      ensures Valid()
      ensures vidOf == old(vidOf)[t := vid] && !isNormalized
      ensures topicsOf == Append(old(topicsOf), vid, t)
    {
      AppendCoupled(kind.valueType, Live(), topicsOf, vidOf, vid, t);
      hide Coupled, Append, Singles;
      topicsOf, vidOf, isNormalized := Append(topicsOf, vid, t), vidOf[t := vid], false;
    }

    /** Removes the topic and, with the last topic of a value, the value. */
    method Remove(t: Topic, ghost extra: set<Vid>)
      requires Window(extra) && t in vidOf && vidOf[t] !in extra
      modifies this, StoreObject()
      ensures Window(extra)
      ensures vidOf == old(vidOf) - {t} && isNormalized == old(isNormalized)
      ensures Dropped(old(topicsOf), old(vidOf[t]), t, topicsOf)
      ensures Live() == if |old(topicsOf[vidOf[t]])| == 1 then old(Live()) - {old(vidOf[t])} else old(Live())
      ensures extra == {} ==> Val() == old(Val()) - {t}
    {
      ghost var c0, vids0 := Live(), vidOf;
      hide Coupled, Singles;
      Linked(kind.valueType, Live(), topicsOf, vidOf, extra, t);
      var vid := vidOf[t];
      var i := IndexOf(topicsOf[vid], t);
      DropCoupled(kind.valueType, Live(), topicsOf, vidOf, extra, vid, i);
      var last := |topicsOf[vid]| == 1;
      DroppedAt(topicsOf, vid, i);
      topicsOf, vidOf := Drop(topicsOf, vid, i), vidOf - {t};
      if last {
        DeleteValue(vid);
      }
      if extra == {} {
        RemoveFacts(kind.valueType, c0, topicsOf, vids0, Live(), t);
      }
    }

    method RemoveAll(ts: seq<Topic>, ghost vid: Vid, ghost extra: set<Vid>)
      requires Window(extra) && vid !in extra && NoDup(ts) && ts != []
      requires Elems(ts) == Holders(vidOf, {vid})
      modifies this, StoreObject()
      ensures Window(extra)
      ensures vidOf == old(vidOf) - Elems(ts) && isNormalized == old(isNormalized)
      ensures Live() == old(Live()) - {vid} && topicsOf == old(topicsOf) - {vid}
    {
      hide Coupled, Singles, Dropped;
      assert ts[0..] == ts;
      assert forall t :: t in ts <==> t in Elems(ts);
      for k := 0 to |ts|
        invariant Window(extra) && isNormalized == old(isNormalized)
        invariant vidOf == old(vidOf) - Elems(ts[..k])
        invariant forall t :: t in ts[k..] <==> t in vidOf && vidOf[t] == vid
        invariant Live() == if k == |ts| then old(Live()) - {vid} else old(Live())
        invariant topicsOf - {vid} == old(topicsOf) - {vid}
      {
        ghost var lists := topicsOf;
        RestOfList(kind.valueType, Live(), topicsOf, vidOf, extra, vid, ts, k);
        assert ts[k..] == [ts[k]] + ts[k + 1..] && ts[k] !in ts[k + 1..];
        assert ts[..k + 1] == ts[..k] + [ts[k]];
        Remove(ts[k], extra);
        DroppedElsewhere(lists, vid, ts[k], topicsOf);
      }
      assert ts[..|ts|] == ts;
      NoHolder(kind.valueType, Live(), topicsOf, vidOf, extra, vid);
    }

    method InsertAll(ts: seq<Topic>, vid: Vid)
      requires Window({vid}) && vid in Live() && NoDup(ts) && Elems(ts) !! vidOf.Keys
      modifies this
      ensures Window({vid}) && (ts != [] ==> Valid())
      ensures vidOf == SetVid(old(vidOf), Elems(ts), vid) && topicsOf == AppendAll(old(topicsOf), vid, ts)
    {
      hide Coupled, Singles, SetVid, Append;
      SetVidNone(vidOf, vid);
      assert ts[..0] == [];
      for k := 0 to |ts|
        invariant Window({vid}) && (k > 0 ==> Valid()) && vid in Live()
        invariant vidOf == SetVid(old(vidOf), Elems(ts[..k]), vid)
        invariant topicsOf == AppendAll(old(topicsOf), vid, ts[..k])
      {
        AppendNext(old(topicsOf), vid, ts, k);
        SetVidStep(old(vidOf), ts, k, vid);
        Insert(ts[k], vid);
        Widen(kind.valueType, Live(), topicsOf, vidOf, vid);
      }
      assert ts[..|ts|] == ts;
    }

    // --- the topic map's operations on the pair of stores -----------------------------

    /**
     * _pstore_vput on a NOT_DISJOINT/union property: one value takes the place of all
     * that overlap the new one, and their topics move to it. The new value is left
     * waiting for the insert that the callers do next.
     */
    method Vput(list: seq<Locator>) returns (vid: Vid)
      requires Valid() && kind.valueType.TextSetType? && list != [] && NoDup(list)
      modifies this, StoreObject()
      ensures Window({vid}) && vid in Live() && vid !in old(Live()) - OverlapVids(old(Live()), Elems(list))
      ensures Live() == WithFused(old(Live()), Elems(list), vid)
      ensures vidOf == Rehomed(old(vidOf), OverlapVids(old(Live()), Elems(list)), vid)
      ensures topicsOf == Regrouped(old(Live()), old(topicsOf), old(Overlapping(list)), Elems(list), vid)
    {
      ghost var c0, vids0, ls := Live(), vidOf, Elems(list);
      ghost var lists0 := topicsOf;
      hide AppendAll, Collected, Regrouped;
      hide Coupled, Singles, ContentsOk, Fused, LocsIn, Holders, OverlapVids, Rehomed, SetVid;
      assert list[0] in ls;
      CoupledContents(kind.valueType, c0, topicsOf, vids0, {});
      var vids := OverlappingVids(list);
      assert Elems(vids) == OverlapVids(c0, ls);
      if |vids| == 1 {
        assert vids[0] in Elems(vids);
        var v := GetSet(vids[0]);
        var same := SetEqual(list, v);
        if same {
          OneEqual(kind.valueType, c0, topicsOf, vidOf, ls, vids[0]);
          assert Elems(vids) == {vids[0]};
          RegroupedIs(c0, lists0, vids, ls, vids[0]);
          return vids[0];
        }
      }
      var collected, combined := Drain(vids, list);
      NothingOverlaps(kind.valueType, c0, ls);
      FusedIs(c0, ls);
      vid := CreateSet(combined);
      AddedCoupled(c0 - Elems(vids), topicsOf, vidOf, vid, Fused(c0, ls));
      RehomedIsSetVid(vids0, Elems(vids), vid);
      RegroupedIs(c0, lists0, vids, ls, vid);
      InsertAll(collected, vid);
    }

    /** The loop of _pstore_vput over the VIDs it found: collects their topics, removes them, combines their values. */
    method Drain(vids: seq<Vid>, list: seq<Locator>) returns (collected: seq<Topic>, combined: seq<Locator>)
      requires Valid() && kind.valueType.TextSetType? && list != [] && NoDup(list)
      requires NoDup(vids) && Elems(vids) <= Live().Keys
      modifies this, StoreObject()
      ensures Valid()
      ensures Live() == old(Live()) - Elems(vids)
      ensures vidOf == old(vidOf) - Holders(old(vidOf), Elems(vids))
      ensures NoDup(collected) && Elems(collected) == Holders(old(vidOf), Elems(vids))
      ensures NoDup(combined) && combined != [] && Elems(combined) == Elems(list) + LocsIn(old(Live()), Elems(vids))
      ensures topicsOf == old(topicsOf) - Elems(vids) && collected == Collected(old(topicsOf), vids)
    {
      hide Coupled, Singles, LocsIn, Holders, Collected, PushAll;
      ghost var c0, vids0, lists0 := Live(), vidOf, topicsOf;
      NoneCollected(lists0);
      collected, combined := [], list;
      FuseNone(c0, vids0);
      assert vids[..0] == [];
      for k := 0 to |vids|
        invariant Valid()
        invariant Live() == c0 - Elems(vids[..k])
        invariant vidOf == vids0 - Holders(vids0, Elems(vids[..k]))
        invariant NoDup(collected) && Elems(collected) == Holders(vids0, Elems(vids[..k]))
        invariant NoDup(combined) && Elems(combined) == Elems(list) + LocsIn(c0, Elems(vids[..k])) && combined != []
        invariant topicsOf == lists0 - Elems(vids[..k]) && collected == Collected(lists0, vids[..k])
      {
        assert vids[k] in Elems(vids);
        FuseStep(c0, vids0, vids, k);
        var v := GetSet(vids[k]);
        ListOf(kind.valueType, Live(), topicsOf, vidOf, {}, vids[k]);
        var topics := topicsOf[vids[k]];
        CollectedNext(lists0, vids, k);
        var mine := PushNew([], topics);
        collected := PushNew(collected, topics);
        RemoveAll(mine, vids[k], {});
        combined := Union(combined, v);
        assert combined != [] by { NonEmptyElems(combined, v); }
      }
      assert vids[..|vids|] == vids;
    }

    /** _pstore_vput and the insert that follows it. */
    method VputInsert(t: Topic, list: seq<Locator>) returns (vid: Vid)
      requires Valid() && kind.valueType.TextSetType? && list != [] && NoDup(list) && t !in vidOf
      modifies this, StoreObject()
      ensures Valid() && vidOf.Keys == old(vidOf).Keys + {t} && vidOf[t] == vid
      ensures Val() == Absorb(old(Val()), t, Elems(list)) && !isNormalized
      ensures topicsOf
              == Append(Regrouped(old(Live()), old(topicsOf), old(Overlapping(list)), Elems(list), vid), vid, t)
      ensures Last(topicsOf, t)
    {
      hide Regrouped, Append, Last;
      hide Coupled, Singles, WithFused, Rehomed, OverlapVids, FactsOf, Absorb;
      ghost var c0, vids0, lists0 := Live(), vidOf, topicsOf;
      vid := Vput(list);
      RehomedKeys(vids0, OverlapVids(c0, Elems(list)), vid);
      CoupledInverse(kind.valueType, Live(), topicsOf, vidOf, {vid});
      AppendLast(topicsOf, vidOf, vid, t);
      Insert(t, vid);
      FusedIsAbsorb(kind.valueType, c0, lists0, vids0, Elems(list), vid, t);
    }

    /** _pstore_put on a NOT_DISJOINT/union property. */
    method PutSet(t: Topic, list: seq<Locator>)
      requires Valid() && kind.valueType.TextSetType? && list != [] && NoDup(list)
      modifies this, StoreObject()
      ensures Valid() && Val() == Put(old(Val()), t, Elems(list))
      ensures t in vidOf
      ensures t !in old(vidOf) ==>
                topicsOf == Append(Regrouped(old(Live()), old(topicsOf), old(Overlapping(list)), Elems(list), vidOf[t]),
                                   vidOf[t], t)
      ensures if t in old(Val()) && old(Val())[t] == Locators(Elems(list)) then topicsOf == old(topicsOf)
              else Last(topicsOf, t)
    {
      hide Coupled, Singles, FactsOf, Absorb, Append, Regrouped, Last;
      ghost var m0 := Val();
      FactsKeys(kind.valueType, Live(), topicsOf, vidOf);
      var existing := GetVidOfTopic(t);
      if existing == 0 {
        var vid := VputInsert(t, list);
        return;
      }
      var value := GetSet(existing);
      var same := SetEqual(value, list);
      if same {
        CoupledContents(kind.valueType, Live(), topicsOf, vidOf, {});
        FactsWellKinded(kind, Live(), vidOf);
        PutSame(m0, t, Elems(list));
        return;
      }
      var combined := Union(value, list);
      NonEmptyElems(combined, list);
      Remove(t, {});
      var vid := VputInsert(t, combined);
    }

    /** _pstore_put on a property without equality and combination code. */
    method PutPlain(t: Topic, value: Value) returns (e: Outcome)
      requires Valid() && !kind.valueType.TextSetType? && OfType(kind.valueType, value) && Canonical(value)
      modifies this, StoreObject()
      ensures Valid()
      ensures t !in old(Val()) && Indexable(value) ==> e == Ok && Val() == old(Val())[t := value]
      ensures t !in old(Val()) && Indexable(value) ==>
                t in vidOf && topicsOf == Append(old(topicsOf), vidOf[t], t) && Last(topicsOf, t)
      ensures t !in old(Val()) && !Indexable(value) ==> e == Aborted && Val() == old(Val())
      ensures t in old(Val()) ==> Val() == old(Val())
      ensures t in old(Val()) && kind.valueType.AsidpType? ==> e == Aborted
      ensures t in old(Val()) && !kind.valueType.AsidpType? ==>
                e == if old(Val())[t] == value then Ok else ContradictingValues
    {
      hide Coupled, Singles, FactsOf, Append, Last;
      FactsKeys(kind.valueType, Live(), topicsOf, vidOf);
      var existing := GetVidOfTopic(t);
      if existing == 0 {
        if !Indexable(value) {
          return Aborted; // no such value is live, and none can be indexed
        }
        var vid := LookupOrCreate(value);
        InsertFacts(Live(), vidOf, t, vid);
        CoupledInverse(kind.valueType, Live(), topicsOf, vidOf, {vid});
        AppendLast(topicsOf, vidOf, vid, t);
        Insert(t, vid);
        return Ok;
      }
      if kind.valueType.AsidpType? {
        return Aborted; // asidp_equal is not implemented
      }
      var stored := GetPlain(existing);
      return if stored == value then Ok else ContradictingValues;
    }

    /** One iteration of _pstore_replace_topics; staysVid is the VID of stays, or 0. */
    method ReplaceTopic(stays: Topic, disap: Topic, staysVid: Vid) returns (e: Outcome, newVid: Vid)
      requires Valid() && stays != disap
      requires staysVid == if stays in vidOf then vidOf[stays] else 0
      modifies this, StoreObject()
      ensures Valid() && (e == Ok || e == ContradictingValues)
      ensures e == ContradictingValues <==> Contradict(old(Val()), stays, disap)
      ensures e == Ok ==> Val() == ReplaceOne(old(Val()), stays, disap)
      ensures e == Ok ==> newVid == if stays in vidOf then vidOf[stays] else 0
      ensures e == Ok ==> disap !in vidOf
      ensures e == Ok ==> (isNormalized <==> old(isNormalized) && !Rekeyed(old(Val()), stays, disap))
    {
      hide Coupled, Singles, FactsOf, Absorb, Inverse, ContentsOk, ReplaceOne, Contradict, AllOfType, WellKinded;
      ghost var m0 := Val();
      FactsKeys(kind.valueType, Live(), topicsOf, vidOf);
      CoupledContents(kind.valueType, Live(), topicsOf, vidOf, {});
      FactsTyped(kind, Live(), vidOf);
      ContradictIff(kind, m0, stays, disap);
      ReplaceOneCases(m0, stays, disap);
      newVid := staysVid;
      var disapVid := GetVidOfTopic(disap);
      if disapVid == 0 {
        return Ok, newVid;
      }
      if staysVid == 0 {
        MoveKey(stays, disap, disapVid);
        return Ok, disapVid;
      }
      SameValueSameVid(kind.valueType, Live(), vidOf, stays, disap);
      if staysVid == disapVid {
        Remove(disap, {});
        return Ok, newVid;
      }
      if !kind.valueType.TextSetType? {
        if kind.valueType.TextType? {
          return ContradictingValues, newVid;
        }
        Remove(disap, {});
        return Ok, newVid;
      }
      newVid := CombineTopics(stays, disap, staysVid, disapVid);
      return Ok, newVid;
    }

    /** That iteration when stays has no value yet: it takes over the one of disap. */
    method MoveKey(stays: Topic, disap: Topic, disapVid: Vid)
      requires Valid() && stays !in vidOf && disap in vidOf && disapVid == vidOf[disap]
      modifies this, StoreObject()
      ensures Valid() && stays in vidOf && vidOf[stays] == disapVid && disap !in vidOf && !isNormalized
      ensures disap in old(Val()) && Val() == old(Val())[stays := old(Val())[disap]] - {disap}
      ensures Dropped(Append(old(topicsOf), disapVid, stays), disapVid, disap, topicsOf)
    {
      hide Coupled, Singles, FactsOf, Append, Drop, Dropped, Inverse, ContentsOk;
      ghost var c0, m0 := Live(), Val();
      FactsKeys(kind.valueType, c0, topicsOf, vidOf);
      Widen(kind.valueType, c0, topicsOf, vidOf, disapVid);
      InsertFacts(c0, vidOf, stays, disapVid);
      Insert(stays, disapVid);
      assert Live() == c0;
      assert Val() == m0[stays := m0[disap]];
      Remove(disap, {});
    }

    /** The end of that iteration: both values are removed and their union is stored for stays. */
    method CombineTopics(stays: Topic, disap: Topic, staysVid: Vid, disapVid: Vid) returns (newVid: Vid)
      requires Valid() && kind.valueType.TextSetType? && stays != disap
      requires stays in vidOf && disap in vidOf && staysVid == vidOf[stays] && disapVid == vidOf[disap]
      modifies this, StoreObject()
      ensures Valid() && stays in vidOf && newVid == vidOf[stays] && disap !in vidOf && !isNormalized
      ensures stays in old(Val()) && disap in old(Val())
      ensures Val() == Absorb(old(Val()) - {stays} - {disap}, stays, Locs(old(Val())[stays]) + Locs(old(Val())[disap]))
    {
      hide Coupled, Singles, FactsOf, Absorb, Inverse, ContentsOk;
      FactsKeys(kind.valueType, Live(), topicsOf, vidOf);
      var staysVal := GetSet(staysVid);
      var disapVal := GetSet(disapVid);
      var combined := Union(staysVal, disapVal);
      NonEmptyElems(combined, disapVal);
      Remove(stays, {});
      Remove(disap, {});
      newVid := VputInsert(stays, combined);
    }

    /** _pstore_replace_topics: every topic of the merge set is replaced by the first. */
    method ReplaceTopics(ts: seq<Topic>) returns (e: Outcome)
      requires Valid() && NoDup(ts) && ts != []
      modifies this, StoreObject()
      ensures Valid() && (e == Ok || e == ContradictingValues)
      ensures e == Ok ==> Val() == ReplaceSet(old(Val()), ts)
      ensures e == ContradictingValues <==> kind.valueType.TextType? && !Agree(old(Val()), ts)
      ensures e == Ok ==> (isNormalized <==> old(isNormalized) && !RekeyedFrom(old(Val()), ts, 1))
    {
      hide Coupled, Singles, FactsOf, Absorb, Inverse, ContentsOk, Agree, ReplaceOne;
      ghost var m0 := Val();
      var staysVid := GetVidOfTopic(ts[0]);
      for i := 1 to |ts|
        invariant Valid()
        invariant staysVid == if ts[0] in vidOf then vidOf[ts[0]] else 0
        invariant ReplaceFrom(Val(), ts, i) == ReplaceSet(m0, ts)
        invariant kind.valueType.TextType? ==> (Agree(Val(), ts) <==> Agree(m0, ts))
        invariant forall k :: 1 <= k < i ==> ts[k] !in vidOf
        invariant isNormalized && !RekeyedFrom(Val(), ts, i) <==> old(isNormalized) && !RekeyedFrom(m0, ts, 1)
      {
        ghost var m := Val();
        FactsKeys(kind.valueType, Live(), topicsOf, vidOf);
        CoupledContents(kind.valueType, Live(), topicsOf, vidOf, {});
        FactsTyped(kind, Live(), vidOf);
        assert ts[0] in ts && ts[i] in ts;
        var r;
        r, staysVid := ReplaceTopic(ts[0], ts[i], staysVid);
        if r != Ok {
          ContradictDisagree(m, ts, i);
          return ContradictingValues;
        }
        ReplacedKeys(m, ts, i, Val());
        FactsKeys(kind.valueType, Live(), topicsOf, vidOf);
        if kind.valueType.TextType? {
          AgreeStep(m, ts, i);
        }
      }
      FactsKeys(kind.valueType, Live(), topicsOf, vidOf);
      OneLeftAgrees(Val(), ts);
      return Ok;
    }

    /** The VIDs of the values that contain one of ts[1..]. */
    method CollectIncluding(ts: seq<Topic>) returns (vids: seq<Vid>)
      requires StoreValid() && !kind.valueType.TextSetType? && ts != []
      ensures NoDup(vids) && Elems(vids) == Including(Live(), Elems(ts[1..])) && Elems(vids) <= Live().Keys
      ensures vids == Inclusions(Live(), ts, |ts|, Count() + 1)
    {
      hide PushAll, MeetingIn, Including, TopicsOf, NoDup;
      NoneTwice();
      NoneIncluded(Live(), ts);
      vids := [];
      match vstore {
        case Plains(s) =>
          for i := 1 to |ts|
            invariant NoDup(vids)
            invariant forall v :: v in vids <==> v in Including(Live(), Elems(ts[1..i]))
            invariant vids == Inclusions(Live(), ts, i, Count() + 1)
          {
            ghost var before := vids;
            vids := s.Collect(vids, Includes(ts[i]));
            IncludingNext(Live(), ts, i, before, vids);
          }
          assert ts[1..|ts|] == ts[1..];
          IncludingLive(Live(), Elems(ts[1..]));
      }
    }

    lemma IncludingLive(c: Contents, gone: set<Topic>)
      ensures Including(c, gone) <= c.Keys
    {
    }

    lemma NoneIncluded(c: Contents, ts: seq<Topic>)
      requires ts != []
      ensures Including(c, Elems(ts[1..1])) == {}
    {
      assert ts[1..1] == [];
    }

    lemma IncludingNext(c: Contents, ts: seq<Topic>, i: nat, before: seq<Vid>, vids: seq<Vid>)
      requires 1 <= i < |ts| && forall v :: v in before <==> v in Including(c, Elems(ts[1..i]))
      requires forall v :: v in vids <==> v in before || (v in c && ts[i] in TopicsOf(c[v]))
      ensures forall v :: v in vids <==> v in Including(c, Elems(ts[1..i + 1]))
    {
      assert ts[1..i + 1] == ts[1..i] + [ts[i]];
      forall v ensures v in vids <==> v in Including(c, Elems(ts[1..i + 1])) {
        if v in c {
          var topics := TopicsOf(c[v]);
          assert topics * Elems(ts[1..i + 1]) == topics * Elems(ts[1..i]) + topics * {ts[i]};
          assert ts[i] in topics <==> ts[i] in topics * {ts[i]};
        }
      }
    }

    /** _pstore_replace_topics_in_values. */
    method ReplaceInValues(ts: seq<Topic>) returns (e: Outcome)
      requires Valid() && NoDup(ts) && ts != []
      modifies this, StoreObject()
      ensures e == Ok || e == Aborted
      ensures e == Aborted <==> AnyCollides(old(Val()), AtFun(ts))
      ensures e == Ok ==> Valid() && Val() == Images(old(Val()), AtFun(ts))
      ensures e == Ok && (kind.valueType.TextSetType? || kind.valueType.TextType?) ==> topicsOf == old(topicsOf)
      ensures e == Ok && !kind.valueType.TextSetType? && !kind.valueType.TextType? ==>
                var vids := Inclusions(old(Live()), ts, |ts|, old(Count()) + 1);
                forall v :: v in topicsOf ==>
                  (v in Live()
                   && topicsOf[v] == Stayed(old(Live()), old(topicsOf), vids, Live()[v])
                                     + Moved(AtFun(ts), old(Live()), old(topicsOf), vids, Live()[v]))
    {
      hide Rearranged, Moved, Stayed, Inclusions;
      hide Coupled, Singles, FactsOf, ContentsOk, Underway, AnyCollides, Including, Images, WellKinded, Holders, SetVid;
      ghost var c0, vids0, lists0, r := Live(), vidOf, topicsOf, AtFun(ts);
      CoupledContents(kind.valueType, c0, lists0, vids0, {});
      FactsTyped(kind, c0, vids0);
      if kind.valueType.TextSetType? || kind.valueType.TextType? {
        NoTopicsInside(Val(), r); // the value type defines no VALUE_INCLUDES_TOPIC
        return Ok;
      }
      var vids := CollectIncluding(ts);
      UnderwayStart(r, kind.valueType, c0, topicsOf, vidOf, Elems(vids));
      RearrangedStart(r, kind.valueType, c0, lists0, vids0, vids);
      assert Elems(vids[..0]) == {} && vids[0..] == vids;
      for k := 0 to |vids|
        invariant Valid()
        invariant Underway(r, c0, vids0, Live(), vidOf, Elems(vids[..k]), Elems(vids[k..]))
        invariant Rearranged(r, c0, lists0, vids, k, Live(), topicsOf)
        invariant forall j :: 0 <= j < k ==> vids[j] in c0 && !Collides(r, c0[vids[j]])
      {
        var ok := MoveToImage(ts, vids, k, c0, vids0, lists0);
        if !ok {
          return Aborted;
        }
      }
      assert vids[..|vids|] == vids && Elems(vids[|vids|..]) == {};
      UnderwayEnd(ts, c0, vids0, Live(), vidOf, kind.valueType);
      RearrangedAll(r, c0, lists0, vids, Live(), topicsOf);
      return Ok;
    }

    /** One iteration: the topics of vids[k] move to the VID of its value with topics replaced. */
    method MoveToImage(ts: seq<Topic>, vids: seq<Vid>, k: nat, ghost c0: Contents, ghost vids0: TopicVids,
                       ghost lists0: TopicLists)
      returns (ok: bool)
      requires Valid() && !kind.valueType.TextSetType? && !kind.valueType.TextType?
      requires NoDup(ts) && ts != [] && NoDup(vids) && k < |vids| && Elems(vids) == Including(c0, Elems(ts[1..]))
      requires Coupled(kind.valueType, c0, lists0, vids0, {})
      requires Underway(AtFun(ts), c0, vids0, Live(), vidOf, Elems(vids[..k]), Elems(vids[k..]))
      requires Rearranged(AtFun(ts), c0, lists0, vids, k, Live(), topicsOf)
      modifies this, StoreObject()
      ensures !ok ==> AnyCollides(FactsOf(c0, vids0), AtFun(ts))
      ensures ok ==> Valid() && vids[k] in c0 && !Collides(AtFun(ts), c0[vids[k]])
      ensures ok ==> Underway(AtFun(ts), c0, vids0, Live(), vidOf, Elems(vids[..k + 1]), Elems(vids[k + 1..]))
      ensures ok ==> Rearranged(AtFun(ts), c0, lists0, vids, k + 1, Live(), topicsOf)
    {
      hide Coupled, Singles, FactsOf, ContentsOk, Underway, AnyCollides, Holders, SetVid;
      hide Rearranged, Moved, Stayed, AppendAll, PushAll;
      ghost var c, vidsNow, r, lists := Live(), vidOf, AtFun(ts), topicsOf;
      var vid := vids[k];
      Todo(r, c0, vids0, c, vidsNow, vids, k, ts);
      ValueIs(kind.valueType, c, topicsOf, vidsNow, vid);
      var value := GetPlain(vid);
      var changed, image;
      ok, image, changed := ReplaceInValue(value, ts);
      if !ok {
        HolderCollides(kind.valueType, c0, lists0, vids0, vid, r);
        return;
      }
      assert changed;
      ImageIndexable(r, value);
      var newVid := LookupOrCreate(image);
      ghost var c1 := Live();
      ImageNotIncluding(ts, value);
      NewNotTodo(ts, c0, c, c1, vids, k, newVid, image);
      CoupledContents(kind.valueType, c1, lists, vidsNow, {newVid});
      ArrivesAt(r, kind.valueType, c0, lists0, vids0, vids, k, c, lists, vidsNow, c1, newVid);
      MoveTopics(vid, newVid);
      ElemsIn(vids[k..], newVid);
      RearrangedStep(r, c0, lists0, vids, k, c, lists, c1, newVid, topicsOf);
      UnderwayStep(r, c0, vids0, c, vidsNow, Elems(vids[..k]), Elems(vids[k..]), vid, c1, newVid);
      SplitAt(vids, k);
    }

    /** The end of that iteration: all topics of vid are removed, which deletes its value, and inserted under newVid. */
    method MoveTopics(vid: Vid, newVid: Vid)
      requires Window({newVid}) && newVid in Live() && vid in Live() && vid != newVid
      modifies this, StoreObject()
      ensures Valid() && Live() == old(Live()) - {vid}
      ensures vidOf == SetVid(old(vidOf), Holders(old(vidOf), {vid}), newVid)
      ensures vid in old(topicsOf) && topicsOf
              == AppendAll(old(topicsOf) - {vid}, newVid, PushAll([], old(topicsOf)[vid]))
    {
      hide Coupled, Singles, Holders, SetVid, AppendAll, PushAll;
      ghost var vids0 := vidOf;
      HoldersWithin(vids0, {vid});
      ListOf(kind.valueType, Live(), topicsOf, vidOf, {newVid}, vid);
      var saved := PushNew([], topicsOf[vid]);
      RemoveAll(saved, vid, {newVid});
      MovedAway(vids0, saved);
      InsertAll(saved, newVid);
      SetVidBack(vids0, Elems(saved), newVid);
    }

    /** Opens a VALUE_INCLUDES_TOPIC scan: the first VID it yields, or 0. */
    method FirstIncluding(t: Topic) returns (vid: Vid)
      requires StoreValid() && !kind.valueType.TextSetType?
      ensures vid != 0 ==> vid in Live() && t in TopicsOf(Live()[vid])
    {
      match vstore {
        case Plains(s) => vid := s.NextMeeting(0, Includes(t));
      }
    }

    /** The two assertions of _dispose_topic about one property. */
    method CheckGone(t: Topic)
      requires Valid() && t !in vidOf
      requires forall v :: v in Live() ==> t !in TopicsOf(Live()[v])
    {
      hide Coupled, Singles;
      var vid := GetVidOfTopic(t);
      assert vid == 0;
      if kind.valueType.AsidpType? || kind.valueType.TopicSetType? {
        var including := FirstIncluding(t);
        assert including == 0;
      }
    }

    /** A whole scan of the value store. */
    method Scan(q: Condition) returns (vids: seq<Vid>)
      requires StoreValid() && Fits(q, kind.valueType)
      ensures NoDup(vids)
      ensures forall v :: v in vids <==> v in Live() && Meets(q, Live()[v])
    {
      match vstore {
        case TextSets(s) => vids := s.ScanNotDisjoint(q.list);
        case Plains(s) => vids := s.Collect([], q);
      }
    }

    /** The loop of a simple query condition: the topics of all values that the scan yields (topicmap.c:2724-2738). */
    method TopicsMeeting(q: Condition) returns (found: seq<Topic>)
      requires Valid() && Fits(q, kind.valueType)
      ensures NoDup(found)
      ensures forall t :: t in found <==> t in Val() && Meets(q, Val()[t])
    {
      hide Coupled, Singles, Meets, FactsOf, NoDup;
      FactsKeys(kind.valueType, Live(), topicsOf, vidOf);
      var vids := Scan(q);
      found := [];
      NoneTwice();
      for k := 0 to |vids|
        invariant NoDup(found)
        invariant forall t :: t in found <==> t in vidOf && vidOf[t] in vids[..k]
      {
        assert vids[k] in vids;
        assert vids[..k + 1] == vids[..k] + [vids[k]];
        ListOf(kind.valueType, Live(), topicsOf, vidOf, {}, vids[k]);
        var topics := topicsOf[vids[k]];
        HoldersIn(vids[k], topics);
        found := AddedTopics(found, topics);
      }
      assert vids[..|vids|] == vids;
    }

    lemma HoldersIn(v: Vid, topics: seq<Topic>)
      requires Elems(topics) == Holders(vidOf, {v})
      ensures forall t :: t in topics <==> t in vidOf && vidOf[t] == v
    {
      assert forall t :: t in topics <==> t in Elems(topics);
    }

    /** tm_topicset_add for each of topics. */
    method AddedTopics(found: seq<Topic>, topics: seq<Topic>) returns (r: seq<Topic>)
      requires NoDup(found)
      ensures NoDup(r) && forall t :: t in r <==> t in found || t in topics
    {
      AddTopicsNoDup(found, topics);
      r := AddTopics(found, topics);
      assert forall t :: t in r <==> t in Elems(r);
    }

    lemma NoneTwice()
      ensures NoDup<Topic>([])
    {
    }

    /** _mempropertystore_is_normalized. */
    predicate IsNormalized()
      reads this
    {
      !kind.sidp || isNormalized
    }

    /** A number above all live VIDs: the size of the array that normalization walks. */
    method Bound() returns (n: Vid)
      requires StoreValid()
      ensures n > 0 && forall v :: v in Live() ==> v < n
    {
      match vstore {
        case TextSets(s) => n := s.count + 1;
        case Plains(s) => n := s.count + 1;
      }
    }

    /**
     * _mempropertystore_normalize: a value with several topics submits them as a merge
     * list and keeps the first. A labelling is constant on the merge sets afterwards
     * exactly when it was before and identifies topics that shared a value here. The
     * arrays submitted are disjoint.
     */
    method Normalize(ml: MergeLists) returns (ghost arrs: seq<seq<Topic>>)
      requires Valid() && ml.Valid()
      modifies this, ml
      ensures Valid() && ml.Valid() && IsNormalized()
      ensures if kind.sidp then Firsts(old(topicsOf), topicsOf) else topicsOf == old(topicsOf)
      ensures kind.sidp ==> OneEach(old(Val()), Val())
      ensures !kind.sidp ==> Val() == old(Val())
      ensures forall f: Labelling :: Constant(f, ml.lists) <==>
                Constant(f, old(ml.lists)) && (kind.sidp ==> RespectsValues(f, old(Val())))
      ensures AllTopics(ml.lists) <= AllTopics(old(ml.lists)) + old(vidOf).Keys
      ensures Partition(arrs) && ml.lists == FuseAll(old(ml.lists), arrs)
      ensures arrs == Submission(kind, old(topicsOf))
    {
      hide Coupled, FactsOf, ContentsOk, OneEach, RespectsValues, Singles, Constant, AllTopics, ConstantOn, Firsts;
      hide Submission;
      if kind.sidp && !isNormalized {
        arrs := NormalizeShared(ml);
        return;
      }
      arrs := [];
      assert FuseAll(ml.lists, arrs) == ml.lists;
      NoneSubmitted(kind, topicsOf);
      if kind.sidp {
        SinglesAreNormal(kind, Live(), topicsOf, vidOf);
        SinglesFirsts(kind.valueType, Live(), topicsOf, vidOf);
      }
    }

    method NormalizeShared(ml: MergeLists) returns (ghost arrs: seq<seq<Topic>>)
      requires Valid() && ml.Valid() && kind.sidp && !isNormalized
      modifies this, ml
      ensures Valid() && ml.Valid() && isNormalized
      ensures Firsts(old(topicsOf), topicsOf) && OneEach(old(Val()), Val())
      ensures forall f: Labelling ::
                Constant(f, ml.lists) <==> Constant(f, old(ml.lists)) && RespectsValues(f, old(Val()))
      ensures AllTopics(ml.lists) <= AllTopics(old(ml.lists)) + old(vidOf).Keys
      ensures Partition(arrs) && ml.lists == FuseAll(old(ml.lists), arrs)
      ensures arrs == Submission(kind, old(topicsOf))
    {
      hide Submission;
      hide Coupled, FactsOf, ContentsOk, OneEach, RespectsValues, Singles, ConstantBelow, Constant, AllTopics;
      hide Partition, ConstantOn, KeptLists, KeptVids, Firsts, Inverse, FuseAll, SharedLists;
      CoupledInverse(kind.valueType, Live(), topicsOf, vidOf, {});
      ghost var c, lists, vids, ml0 := Live(), topicsOf, vidOf, ml.lists;
      var n := Bound();
      Cut(ml, n);
      arrs := SharedLists(lists, n);
      ListsBelow(kind.valueType, c, lists, vids, n);
      SharedAll(kind, lists, n);
      SharedPartition(lists, vids, n);
      KeptFirsts(kind.valueType, c, lists, vids, n);
      KeptAll(kind, c, lists, vids, n);
      ListsAllValues(kind, c, lists, vids, n);
      isNormalized := true;
    }

    /** The loop over the VIDs below n. */
    method Cut(ml: MergeLists, n: Vid)
      requires Valid() && ml.Valid() && n > 0 && kind.sidp && !isNormalized
      modifies `topicsOf, `vidOf, ml
      ensures topicsOf == KeptLists(old(topicsOf), n) && vidOf == KeptVids(old(topicsOf), old(vidOf), n)
      ensures ml.Valid()
      ensures forall f: Labelling ::
                Constant(f, ml.lists) <==> Constant(f, old(ml.lists)) && ConstantBelow(f, old(topicsOf), n)
      ensures AllTopics(ml.lists) <= AllTopics(old(ml.lists)) + old(vidOf).Keys
      ensures ml.lists == FuseAll(old(ml.lists), SharedLists(old(topicsOf), n))
    {
      hide ContentsOk, Constant, AllTopics, Partition, ConstantOn, KeptLists, KeptVids, ConstantBelow;
      hide Singles, Inverse, Coupled;
      ghost var lists, vids, ml0 := topicsOf, vidOf, ml.lists;
      CoupledInverse(kind.valueType, Live(), lists, vids, {});
      KeptStart(lists, vids);
      BelowOne(lists);
      NoneShared(lists, vids, ml.lists);
      hide Fusion, AddTopics, SharedLists, FuseAll;
      assert CutTo(lists, vids, ml0, ml.lists, 1);
      for vid := 1 to n
        invariant ml.Valid() && CutTo(lists, vids, ml0, ml.lists, vid)
      {
        hide CutTo;
        CutOne(ml, lists, vids, ml0, vid);
      }
    }

    /** The VIDs below n have been cut. */
    ghost predicate CutTo(lists: TopicLists, vids: TopicVids, ml0: seq<seq<Topic>>, now: seq<seq<Topic>>, n: Vid)
      reads this
    {
      && topicsOf == KeptLists(lists, n) && vidOf == KeptVids(lists, vids, n)
      && (forall f: Labelling :: Constant(f, now) <==> Constant(f, ml0) && ConstantBelow(f, lists, n))
      && AllTopics(now) <= AllTopics(ml0) + vids.Keys
      && now == FuseAll(ml0, SharedLists(lists, n))
    }

    /** One turn of that loop. */
    method CutOne(ml: MergeLists, ghost lists: TopicLists, ghost vids: TopicVids, ghost ml0: seq<seq<Topic>>, vid: Vid)
      requires ml.Valid() && Inverse(lists, vids) && CutTo(lists, vids, ml0, ml.lists, vid)
      modifies `topicsOf, `vidOf, ml
      ensures ml.Valid() && CutTo(lists, vids, ml0, ml.lists, vid + 1)
    {
      hide ContentsOk, Constant, AllTopics, Partition, ConstantOn, KeptLists, KeptVids, ConstantBelow;
      hide Inverse, Fusion, AddTopics, SharedLists, FuseAll;
      SharedStep(lists, vid);
      KeptInverse(lists, vids, vid);
      if vid !in topicsOf {
        KeptSkip(lists, vids, vid);
        return;
      }
      var arr := topicsOf[vid];
      KeptCut(lists, vids, vid);
      if |arr| == 1 {
        KeptSkip(lists, vids, vid);
        return;
      }
      ListFacts(lists, vids, vid);
      SetOf(arr);
      FuseAllPush(ml0, SharedLists(lists, vid), arr);
      ml.Add(arr);
      ForgetTail(arr);
      topicsOf := topicsOf[vid := [arr[0]]];
    }

    /** Takes all topics of the list but the first out of the topic table. */
    method ForgetTail(arr: seq<Topic>)
      requires arr != []
      modifies `vidOf
      ensures vidOf == old(vidOf) - Elems(arr[1..])
    {
      for j := 1 to |arr|
        invariant vidOf == old(vidOf) - Elems(arr[1..j])
      {
        assert arr[1..j + 1] == arr[1..j] + [arr[j]];
        vidOf := vidOf - {arr[j]};
      }
      assert arr[1..|arr|] == arr[1..];
    }
  }

  lemma ElemsIn<T>(s: seq<T>, x: T)
    ensures x in Elems(s) <==> x in s
  {
  }

  lemma NonEmptyElems<T>(s: seq<T>, t: seq<T>)
    requires t != [] && Elems(t) <= Elems(s)
    ensures s != []
  {
    assert t[0] in Elems(t);
  }

  method IndexOf(arr: seq<Topic>, t: Topic) returns (i: nat)
    requires t in arr
    ensures i < |arr| && arr[i] == t
  {
    i := 0;
    while arr[i] != t
      invariant i < |arr| && forall k :: 0 <= k < i ==> arr[k] != t
      decreases |arr| - i
    {
      i := i + 1;
    }
  }

  /** Pushes the topics that acc does not contain yet. */
  method PushNew(acc: seq<Topic>, ts: seq<Topic>) returns (r: seq<Topic>)
    requires NoDup(acc)
    ensures NoDup(r) && Elems(r) == Elems(acc) + Elems(ts)
    ensures r == PushAll(acc, ts) && (ts != [] ==> r != [])
  {
    r := acc;
    for i := 0 to |ts|
      invariant NoDup(r) && Elems(r) == Elems(acc) + Elems(ts[..i])
      invariant r == PushAll(acc, ts[..i])
    {
      PushNext(acc, ts, i);
      assert ts[..i + 1] == ts[..i] + [ts[i]];
      if ts[i] !in r {
        ElemsConcat([ts[i]], r);
        r := [ts[i]] + r;
      } else {
        assert ts[i] in Elems(r);
      }
    }
    assert ts[..|ts|] == ts;
    if ts != [] { assert ts[0] in Elems(r); }
  }
}
