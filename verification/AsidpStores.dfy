/**
 * The ASIDP value store with its hash table and topic index (stores/memstore/asidp.c).
 * Its contracts are those of the linear store of PlainStores.dfy, so either can serve.
 */
module AsidpStores {
  import opened Basics
  import opened Values
  import opened AsidpArrays
  import opened AsidpIndex
  import opened PlainStores

  const INIT_SIZE := 100

  datatype Flag = Lookup | Create | LookupOrCreate

  // --- slots and hash table, as relations between values ---------------------------------

  /**
   * Slots hold well-formed arrays of at least two memberships, [] where a value was
   * deleted or none has been stored; the hash table maps each of them to its slot.
   */
  ghost predicate SlotsOk(slots: seq<seq<Topic>>, count: nat, vidOf: map<seq<Topic>, Vid>) {
    && count < |slots| && slots[0] == []
    && (forall v :: count < v < |slots| ==> slots[v] == [])
    && (forall v :: 0 <= v < |slots| && slots[v] != [] ==> GoodArray(slots[v]) && slots[v][1] >= 2)
    && (forall v :: 0 <= v < |slots| && slots[v] != [] ==> slots[v] in vidOf && vidOf[slots[v]] == v)
    && (forall a :: a in vidOf ==> a != [] && vidOf[a] < |slots| && slots[vidOf[a]] == a)
  }

  function LiveOf(slots: seq<seq<Topic>>): map<Vid, Value> {
    map v | 0 <= v < |slots| && |slots[v]| >= 2 :: ValueAt(slots[v])
  }

  lemma LiveSlot(slots: seq<seq<Topic>>, count: nat, vidOf: map<seq<Topic>, Vid>, v: Vid)
    requires SlotsOk(slots, count, vidOf)
    ensures v in LiveOf(slots) <==> v < |slots| && slots[v] != []
    ensures v in LiveOf(slots) ==> 1 <= v <= count && GoodArray(slots[v]) && slots[v][1] >= 2
    ensures v in LiveOf(slots) ==> LiveOf(slots)[v] == ValueAt(slots[v]) && ArrayOf(ValueAt(slots[v])) == slots[v]
    ensures v in LiveOf(slots) ==> slots[v] in vidOf && vidOf[slots[v]] == v
  {
    if v < |slots| && slots[v] != [] { ValueThenArray(slots[v]); }
  }

  lemma CountInSlots(slots: seq<seq<Topic>>, count: nat, vidOf: map<seq<Topic>, Vid>)
    requires SlotsOk(slots, count, vidOf)
    ensures count < |slots|
  {
  }

  /** The hash table finds a value's array exactly when an equal value is live. */
  lemma HashFinds(slots: seq<seq<Topic>>, count: nat, vidOf: map<seq<Topic>, Vid>, value: Value)
    requires SlotsOk(slots, count, vidOf) && value.Asidp?
    ensures ArrayOf(value) in vidOf ==>
              vidOf[ArrayOf(value)] in LiveOf(slots) && LiveOf(slots)[vidOf[ArrayOf(value)]] == value
    ensures ArrayOf(value) !in vidOf ==> forall v :: v in LiveOf(slots) ==> LiveOf(slots)[v] != value
  {
    ArrayThenValue(value);
    forall v | v in LiveOf(slots) && LiveOf(slots)[v] == value ensures ArrayOf(value) in vidOf {
      LiveSlot(slots, count, vidOf, v);
    }
    if ArrayOf(value) in vidOf { LiveSlot(slots, count, vidOf, vidOf[ArrayOf(value)]); }
  }

  lemma GrowSlots(slots: seq<seq<Topic>>, more: seq<seq<Topic>>, count: nat, vidOf: map<seq<Topic>, Vid>)
    requires SlotsOk(slots, count, vidOf)
    requires |slots| <= |more| && more[..|slots|] == slots
    requires forall v :: |slots| <= v < |more| ==> more[v] == []
    ensures SlotsOk(more, count, vidOf) && LiveOf(more) == LiveOf(slots)
  {
    forall v | 0 <= v < |slots| ensures more[v] == slots[v] { assert more[..|slots|][v] == slots[v]; }
  }

  lemma StoreSlot(slots: seq<seq<Topic>>, count: nat, vidOf: map<seq<Topic>, Vid>, a: seq<Topic>)
    requires SlotsOk(slots, count, vidOf) && count + 1 < |slots|
    requires GoodArray(a) && a[1] >= 2 && a !in vidOf
    ensures SlotsOk(slots[count + 1 := a], count + 1, vidOf[a := count + 1])
    ensures LiveOf(slots[count + 1 := a]) == LiveOf(slots)[count + 1 := ValueAt(a)]
    ensures Fields(slots[count + 1]) == [] && count + 1 !in LiveOf(slots)
  {
  }

  lemma ClearSlot(slots: seq<seq<Topic>>, count: nat, vidOf: map<seq<Topic>, Vid>, v: Vid)
    requires SlotsOk(slots, count, vidOf) && v < |slots| && slots[v] != []
    ensures SlotsOk(slots[v := []], count, vidOf - {slots[v]})
    ensures LiveOf(slots[v := []]) == LiveOf(slots) - {v}
  {
  }

  /** The VIDs the index has for t are those of the live values that include t. */
  lemma IndexFinds(slots: seq<seq<Topic>>, count: nat, vidOf: map<seq<Topic>, Vid>, t: Topic, v: Vid)
    requires SlotsOk(slots, count, vidOf)
    ensures (t, v) in Entries(slots) <==> v in LiveOf(slots) && t in TopicsOf(LiveOf(slots)[v])
  {
    LiveSlot(slots, count, vidOf, v);
    if v in LiveOf(slots) {
      FieldsAreTopics(slots[v]);
      assert t in Fields(slots[v]) <==> t in Elems(Fields(slots[v]));
    }
  }

  lemma IndexAfterStore(slots: seq<seq<Topic>>, v: nat, a: seq<Topic>)
    requires v < |slots| && Fields(slots[v]) == []
    ensures Occurrences(slots[v := a]) == Occurrences(slots) + multiset(Fields(a))
    ensures Entries(slots[v := a]) == Entries(slots) + EntriesOf(Fields(a), v)
  {
    hide Occurrences, Entries, Fields;
    OccurrencesUpdate(slots, v, a);
    EntriesUpdate(slots, v, a);
    assert EntriesOf([], v) == {};
  }

  lemma IndexAfterClear(slots: seq<seq<Topic>>, v: nat)
    requires v < |slots|
    ensures multiset(Fields(slots[v])) <= Occurrences(slots)
    ensures Occurrences(slots[v := []]) == Occurrences(slots) - multiset(Fields(slots[v]))
    ensures Entries(slots[v := []]) == Entries(slots) - EntriesOf(Fields(slots[v]), v)
  {
    OccurrencesUpdate(slots, v, []);
    EntriesUpdate(slots, v, []);
  }

  /** Everything that storing one more array does to slots, hash table and the contents of the index. */
  lemma Addition(slots: seq<seq<Topic>>, count: nat, vidOf: map<seq<Topic>, Vid>, a: seq<Topic>)
    requires SlotsOk(slots, count, vidOf) && count + 1 < |slots|
    requires GoodArray(a) && a[1] >= 2 && a !in vidOf
    ensures |a| >= 6 && count + 1 !in LiveOf(slots) && Covered(Occurrences(slots), Entries(slots))
    ensures SlotsOk(slots[count + 1 := a], count + 1, vidOf[a := count + 1])
    ensures LiveOf(slots[count + 1 := a]) == LiveOf(slots)[count + 1 := ValueAt(a)]
    ensures Occurrences(slots[count + 1 := a]) == Occurrences(slots) + multiset(Fields(a))
    ensures Entries(slots[count + 1 := a]) == Entries(slots) + EntriesOf(Fields(a), count + 1)
  {
    StoreSlot(slots, count, vidOf, a);
    hide SlotsOk, Fields;
    IndexAfterStore(slots, count + 1, a);
    OccurrencesCovered(slots);
  }

  /** And everything that deleting one does. */
  lemma Deletion(slots: seq<seq<Topic>>, count: nat, vidOf: map<seq<Topic>, Vid>, v: Vid)
    requires SlotsOk(slots, count, vidOf) && v in LiveOf(slots)
    ensures v < |slots| && |slots[v]| >= 6 && slots[v] in vidOf && vidOf[slots[v]] == v
    ensures SlotsOk(slots[v := []], count, vidOf - {slots[v]})
    ensures LiveOf(slots[v := []]) == LiveOf(slots) - {v}
    ensures multiset(Fields(slots[v])) <= Occurrences(slots)
    ensures Occurrences(slots[v := []]) == Occurrences(slots) - multiset(Fields(slots[v]))
    ensures Entries(slots[v := []]) == Entries(slots) - EntriesOf(Fields(slots[v]), v)
  {
    LiveSlot(slots, count, vidOf, v);
    assert |slots[v]| >= 6;
    hide SlotsOk, Fields, LiveOf;
    ClearSlot(slots, count, vidOf, v);
    IndexAfterClear(slots, v);
  }

  // --- the loops over the fields of one array -----------------------------------------------

  /** The topics among the first i fields. */
  function FirstFields(a: seq<Topic>, i: nat): seq<Topic>
    requires i <= |a|
  {
    if i == 0 then [] else if i == 1 then [a[0]] else [a[0]] + a[2..i]
  }

  lemma FirstFieldsStep(a: seq<Topic>, i: nat)
    requires i < |a|
    ensures FirstFields(a, i + 1) == if i == 1 then FirstFields(a, 1) else FirstFields(a, i) + [a[i]]
    ensures |a| >= 2 ==> FirstFields(a, |a|) == Fields(a)
  {
    if i >= 2 { assert a[2..i + 1] == a[2..i] + [a[i]]; }
  }

  lemma EntriesStep(ts: seq<Topic>, t: Topic, vid: Vid)
    ensures EntriesOf(ts + [t], vid) == EntriesOf(ts, vid) + {(t, vid)}
  {
  }

  lemma {:induction false} PairsAt(s: seq<Topic>, i: nat)
    requires 2 * i + 1 < |s|
    ensures i < |Pairs(s)| && Pairs(s)[i] == Member(s[2 * i], s[2 * i + 1])
    decreases i
  {
    if i > 0 { PairsAt(s[2..], i - 1); }
  }

  /** The test of the HAS_TYPE and HAS_PLAYER_PAIR scans on one array. */
  method ArrayMeets(a: seq<Topic>, q: Condition) returns (r: bool)
    requires GoodArray(a) && (q.HasType? || q.HasPair?)
    ensures r <==> Meets(q, ValueAt(a))
  {
    if q.HasType? {
      return a[0] == q.topic;
    }
    FlatOfPairs(a[2..], a[1]);
    for j := 0 to a[1]
      invariant Member(q.role, q.player) !in ValueAt(a).members[..j]
    {
      PairsAt(a[2..], j);
      if a[3 + 2 * j] == q.player && a[2 + 2 * j] == q.role {
        assert ValueAt(a).members[j] == Member(q.role, q.player);
        return true;
      }
      assert ValueAt(a).members[..j + 1] == ValueAt(a).members[..j] + [ValueAt(a).members[j]];
    }
    assert ValueAt(a).members[..a[1]] == ValueAt(a).members;
    return false;
  }

  class AsidpStore {
    var count: nat
    var asidps: array<seq<Topic>>
    var vidOf: map<seq<Topic>, Vid>
    var topicIndex: array<Bucket>

    constructor ()
      ensures Valid() && fresh(asidps) && fresh(topicIndex) && count == 0 && Live() == map[]
    {
      count, vidOf := 0, map[];
      asidps := new seq<Topic>[INIT_SIZE](_ => []);
      topicIndex := new Bucket[INIT_SIZE](_ => EMPTY_BUCKET);
      new;
      assert forall v :: 0 <= v < INIT_SIZE ==> asidps[..][v] == [];
      OccurrencesGrow([], asidps[..]);
      assert IndexIs([], multiset{}, {});
      GrowIndex([], topicIndex[..], multiset{}, {});
    }

    ghost predicate Valid()
      reads this, asidps, topicIndex
    {
      && SlotsOk(asidps[..], count, vidOf)
      && topicIndex.Length > 0
      && IndexIs(topicIndex[..], Occurrences(asidps[..]), Entries(asidps[..]))
    }

    ghost function Live(): (m: map<Vid, Value>)
      reads this, asidps
    {
      LiveOf(asidps[..])
    }

    /** _asidps_find_value: the hash lookup. */
    method FindValue(value: Value) returns (vid: Vid)
      requires Valid() && value.Asidp? && StrictRoles(value.members)
      ensures vid != 0 ==> vid in Live() && Live()[vid] == value
      ensures vid == 0 ==> forall v :: v in Live() ==> Live()[v] != value
      ensures ArrayOf(value) !in vidOf <==> vid == 0
    {
      var arr := MakeArray(value);
      var a := arr[..];
      HashFinds(asidps[..], count, vidOf, value);
      if a in vidOf {
        vid := vidOf[a];
        LiveSlot(asidps[..], count, vidOf, vid);
        assert asidps[vid] == a;
      } else {
        vid := 0;
      }
    }

    /**
     * _memasidpstore_lookup_vid. Creation needs an array of six fields at least (asidp.c:293), and
     * Create is for values that the caller knows to be absent (src/tmstorage.h:287).
     */
    method LookupVid(value: Value, flag: Flag) returns (vid: Vid)
      requires Valid() && value.Asidp? && StrictRoles(value.members)
      requires flag != Lookup ==> |ArrayOf(value)| >= 6
      requires flag == Create ==> forall v :: v in Live() ==> Live()[v] != value
      modifies this, asidps, topicIndex
      ensures Valid() && (asidps == old(asidps) || fresh(asidps))
              && (topicIndex == old(topicIndex) || fresh(topicIndex))
      ensures flag == Lookup ==> count == old(count) && Live() == old(Live())
      ensures flag == Lookup && vid != 0 ==> vid in Live() && Live()[vid] == value
      ensures flag == Lookup && vid == 0 ==> forall v :: v in Live() ==> Live()[v] != value
      ensures flag != Lookup ==> Serves(Log(old(count), old(Live())), Store(value), vid, Log(count, Live()))
    {
      if flag != Create {
        vid := FindValue(value);
        if vid != 0 {
          LiveSlot(asidps[..], count, vidOf, vid);
          return;
        }
        if flag == Lookup {
          return;
        }
      } else {
        HashFinds(asidps[..], count, vidOf, value);
      }
      GrowCore();
      var arr := MakeArray(value);
      ArrayThenValue(value);
      Append(arr[..]);
      vid := count;
    }

    /** The growth of the core array by doubling, before a VID beyond it is used (asidp.c:200-208). */
    method GrowCore()
      requires Valid()
      modifies this`asidps
      ensures Valid() && Live() == old(Live()) && count + 1 < asidps.Length
      ensures asidps == old(asidps) || fresh(asidps)
    {
      if count + 1 >= asidps.Length {
        var core := asidps;
        var more := new seq<Topic>[2 * core.Length](_ => []);
        for i := 0 to core.Length
          invariant more[..i] == core[..i] && forall v :: i <= v < more.Length ==> more[v] == []
        {
          more[i] := core[i];
        }
        assert more[..core.Length] == core[..];
        GrowSlots(core[..], more[..], count, vidOf);
        OccurrencesGrow(core[..], more[..]);
        asidps := more;
      }
    }

    method Append(a: seq<Topic>)
      requires Valid() && count + 1 < asidps.Length && GoodArray(a) && a[1] >= 2 && a !in vidOf
      modifies this, asidps, topicIndex
      ensures Valid() && asidps == old(asidps) && (topicIndex == old(topicIndex) || fresh(topicIndex))
      ensures count == old(count) + 1 && count !in old(Live()) && Live() == old(Live())[count := ValueAt(a)]
    {
      hide SlotsOk, IndexIs, Occurrences, Entries, Covered, LiveOf, Fields, GoodArray, EntriesOf, ValueAt;
      ghost var slots := asidps[..];
      Addition(slots, count, vidOf, a);
      count := count + 1;
      asidps[count] := a;
      assert asidps[..] == slots[count := a];
      InsertIntoIndexes(count, a, Occurrences(slots), Entries(slots));
      vidOf := vidOf[a := count];
    }

    /** The growth of the topic index by doubling until it has room for t (asidp.c:304-318). */
    method GrowTopicIndex(t: Topic, ghost bag: multiset<Topic>, ghost entries: set<Entry>)
      requires topicIndex.Length > 0 && IndexIs(topicIndex[..], bag, entries)
      modifies this`topicIndex
      ensures t < topicIndex.Length && IndexIs(topicIndex[..], bag, entries)
      ensures topicIndex == old(topicIndex) || fresh(topicIndex)
    {
      if t >= topicIndex.Length {
        var index := topicIndex;
        var size := index.Length;
        while size <= t
          invariant size >= index.Length
          decreases t - size
        {
          size := 2 * size;
        }
        var more := new Bucket[size](_ => EMPTY_BUCKET);
        for i := 0 to index.Length
          invariant more[..i] == index[..i] && forall j :: i <= j < size ==> more[j] == EMPTY_BUCKET
        {
          more[i] := index[i];
        }
        assert more[..index.Length] == index[..];
        GrowIndex(index[..], more[..], bag, entries);
        topicIndex := more;
      }
    }

    /** _insert_into_indexes: every field but the length goes into its topic's bucket. */
    method InsertIntoIndexes(vid: Vid, a: seq<Topic>, ghost bag: multiset<Topic>, ghost entries: set<Entry>)
      requires |a| >= 6 && topicIndex.Length > 0
      requires IndexIs(topicIndex[..], bag, entries) && Covered(bag, entries)
      modifies this`topicIndex, topicIndex
      ensures topicIndex.Length > 0 && (topicIndex == old(topicIndex) || fresh(topicIndex))
      ensures IndexIs(topicIndex[..], bag + multiset(Fields(a)), entries + EntriesOf(Fields(a), vid))
    {
      hide IndexIs, Covered, Shape, Vids, FirstFields, Fields, EntriesOf;
      NoFields(a, vid);
      ghost var done: seq<Topic> := [];
      ghost var b1, e1 := bag, entries;
      for i := 0 to |a|
        invariant topicIndex.Length > 0 && (topicIndex == old(topicIndex) || fresh(topicIndex))
        invariant done == FirstFields(a, i)
        invariant b1 == bag + multiset(done) && e1 == entries + EntriesOf(done, vid)
        invariant IndexIs(topicIndex[..], b1, e1) && Covered(b1, e1)
      {
        FirstFieldsStep(a, i);
        if i == 1 {
          continue;
        }
        var t := a[i];
        GrowTopicIndex(t, b1, e1);
        BucketCovered(topicIndex[..], b1, e1, t);
        var r := AddToBucket(topicIndex[t], vid);
        AddEntry(topicIndex[..], b1, e1, t, vid, r);
        AddCovered(b1, e1, t, vid);
        EntriesStep(done, t, vid);
        ghost var before := topicIndex[..];
        topicIndex[t] := r;
        assert topicIndex[..] == before[t := r];
        assert multiset(done + [t]) == multiset(done) + multiset{t};
        assert bag + multiset(done) + multiset{t} == bag + multiset(done + [t]);
        assert entries + EntriesOf(done, vid) + {(t, vid)} == entries + EntriesOf(done + [t], vid);
        b1, e1, done := b1 + multiset{t}, e1 + {(t, vid)}, done + [t];
      }
      FirstFieldsStep(a, 0);
    }

    lemma NoFields(a: seq<Topic>, vid: Vid)
      ensures FirstFields(a, 0) == [] && EntriesOf([], vid) == {}
    {
    }

    /** _remove_from_indexes. */
    method RemoveFromIndexes(vid: Vid, a: seq<Topic>, ghost bag: multiset<Topic>, ghost entries: set<Entry>)
      requires |a| >= 6 && topicIndex.Length > 0
      requires IndexIs(topicIndex[..], bag, entries) && multiset(Fields(a)) <= bag
      modifies topicIndex
      ensures IndexIs(topicIndex[..], bag - multiset(Fields(a)), entries - EntriesOf(Fields(a), vid))
    {
      hide IndexIs, Shape, Vids, FirstFields, Fields, EntriesOf, RemoveFromBucket;
      NoFields(a, vid);
      ghost var done: seq<Topic> := [];
      ghost var b1, e1 := bag, entries;
      for i := 0 to |a|
        invariant done == FirstFields(a, i)
        invariant b1 == bag - multiset(done) && e1 == entries - EntriesOf(done, vid)
        invariant IndexIs(topicIndex[..], b1, e1)
      {
        FirstFieldsStep(a, i);
        if i == 1 {
          continue;
        }
        var t := a[i];
        FieldLeft(a, i, bag);
        DropEntry(topicIndex[..], b1, e1, t, vid);
        EntriesStep(done, t, vid);
        ghost var before := topicIndex[..];
        topicIndex[t] := RemoveFromBucket(topicIndex[t], vid);
        assert topicIndex[..] == before[t := topicIndex[t]];
        assert multiset(done + [t]) == multiset(done) + multiset{t};
        assert bag - multiset(done) - multiset{t} == bag - multiset(done + [t]);
        assert entries - EntriesOf(done, vid) - {(t, vid)} == entries - EntriesOf(done + [t], vid);
        b1, e1, done := b1 - multiset{t}, e1 - {(t, vid)}, done + [t];
      }
      FirstFieldsStep(a, 0);
    }

    /** An occurrence that has not been removed yet is still counted. */
    lemma FieldLeft(a: seq<Topic>, i: nat, bag: multiset<Topic>)
      requires i < |a| && |a| >= 2 && i != 1 && multiset(Fields(a)) <= bag
      ensures a[i] in bag - multiset(FirstFields(a, i))
    {
      var done, all := FirstFields(a, i), Fields(a);
      var k := if i == 0 then 0 else i - 1;
      assert all == done + [a[i]] + all[k + 1..];
      assert multiset(all) == multiset(done) + multiset{a[i]} + multiset(all[k + 1..]);
    }

    /** _memasidpstore_delete_value. */
    method DeleteValue(vid: Vid)
      requires Valid() && vid in Live()
      modifies this`vidOf, asidps, topicIndex
      ensures Valid() && Live() == old(Live()) - {vid}
      ensures Serves(Log(old(count), old(Live())), Forget(vid), vid, Log(count, Live()))
    {
      hide SlotsOk, IndexIs, Occurrences, Entries, LiveOf, Fields, EntriesOf;
      ghost var slots := asidps[..];
      Deletion(slots, count, vidOf, vid);
      var a := asidps[vid];
      assert vidOf[a] == vid;
      asidps[vid] := [];
      assert asidps[..] == slots[vid := []];
      RemoveFromIndexes(vid, a, Occurrences(slots), Entries(slots));
      vidOf := vidOf - {a};
    }

    /** _memasidpstore_get_value. */
    method GetValue(vid: Vid) returns (value: Value)
      requires Valid() && vid in Live()
      ensures value == Live()[vid] && Canonical(value)
    {
      LiveSlot(asidps[..], count, vidOf, vid);
      value := ValueFromArray(asidps[vid]);
    }

    /** The next live VID after pos that meets q, or 0 when there is none (the HAS_TYPE and HAS_PLAYER_PAIR cursors). */
    method NextMeeting(pos: Vid, q: Condition) returns (vid: Vid)
      requires Valid() && (q.HasType? || q.HasPair?)
      ensures vid != 0 ==> vid > pos && vid in Live() && Meets(q, Live()[vid])
      ensures forall v :: v in Live() && pos < v && (vid == 0 || v < vid) ==> !Meets(q, Live()[v])
    {
      hide IndexIs, Meets, GoodArray, SlotsOk, LiveOf, ValueAt, ArrayOf;
      CountInSlots(asidps[..], count, vidOf);
      forall v: Vid ensures v in Live() ==> v <= count { LiveSlot(asidps[..], count, vidOf, v); }
      var i := pos + 1;
      while i <= count
        invariant pos < i
        invariant forall v :: v in Live() && pos < v < i ==> !Meets(q, Live()[v])
      {
        LiveSlot(asidps[..], count, vidOf, i);
        if asidps[i] != [] {
          var found := ArrayMeets(asidps[i], q);
          if found {
            return i;
          }
        }
        i := i + 1;
      }
      return 0;
    }

    /**
     * The VALUE_INCLUDES_TOPICS scan, served from the index: without repeats, exactly the
     * VIDs that the linear search of PlainStore.NextMeeting visits.
     */
    method ScanIncluding(t: Topic) returns (vids: seq<Vid>)
      requires Valid()
      ensures NoDup(vids)
      ensures forall v :: v in vids <==> v in Live() && t in TopicsOf(Live()[v])
    {
      vids := [];
      forall v ensures (t, v) in Entries(asidps[..]) <==> v in Live() && t in TopicsOf(Live()[v]) {
        IndexFinds(asidps[..], count, vidOf, t, v);
      }
      hide SlotsOk, Entries, LiveOf, TopicsOf;
      if topicIndex.Length > t {
        match topicIndex[t].table {
          case Some(table) => vids := Keys(table);
          case None => vids := topicIndex[t].list;
        }
        assert Elems(vids) == Vids(topicIndex[..][t]);
        assert forall v :: v in vids <==> v in Elems(vids);
      } else {
        forall v ensures (t, v) !in Entries(asidps[..]) {
          var e := (t, v);
          assert e.0 >= topicIndex.Length;
        }
      }
    }
  }

  /** tm_table_keys: the keys of a table, in some order. */
  method Keys(table: set<Vid>) returns (keys: seq<Vid>)
    ensures NoDup(keys) && Elems(keys) == table
  {
    keys := [];
    var rest := table;
    while rest != {}
      invariant NoDup(keys) && Elems(keys) == table - rest && rest <= table
      decreases |rest|
    {
      var v :| v in rest;
      ElemsConcat([v], keys);
      assert v !in Elems(keys);
      keys, rest := [v] + keys, rest - {v};
    }
  }
}
