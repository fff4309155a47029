/**
 * The topic index of the ASIDP store (stores/memstore/asidp.c:79-84, 288-397): for every
 * topic a bucket with the VIDs of the values that include it, kept as a list while there
 * are few and as a table from then on.
 */
module AsidpIndex {
  import opened Basics
  import opened AsidpArrays

  const THRESHOLD := 100

  /** len counts occurrences of the topic, not VIDs; once there is a table, the list is empty. */
  datatype Bucket = Bucket(len: nat, table: Option<set<Vid>>, list: seq<Vid>)

  const EMPTY_BUCKET := Bucket(0, None, [])

  function Vids(b: Bucket): set<Vid> {
    match b.table
    case Some(t) => t
    case None => Elems(b.list)
  }

  /** The list is duplicate-free, never coexists with a table, and never outlives the threshold. */
  ghost predicate Shape(b: Bucket) {
    && NoDup(b.list)
    && (b.table.Some? ==> b.list == [])
    && (b.table.None? ==> b.len <= THRESHOLD)
  }

  type Entry = (Topic, Vid)

  /**
   * The index records a bag of topic occurrences and a set of topic-in-value pairs:
   * every bucket has the number of occurrences and exactly the VIDs of its topic.
   */
  ghost predicate IndexIs(index: seq<Bucket>, bag: multiset<Topic>, entries: set<Entry>) {
    && (forall t :: 0 <= t < |index| ==> Shape(index[t]) && index[t].len == bag[t])
    && (forall t, v :: 0 <= t < |index| ==> (v in Vids(index[t]) <==> (t, v) in entries))
    && (forall t :: t in bag ==> t < |index|)
    && (forall e :: e in entries ==> e.0 < |index|)
  }

  ghost predicate HasEntry(entries: set<Entry>, t: Topic) {
    exists v :: (t, v) in entries
  }

  /** Whatever occurs is in some value. */
  ghost predicate Covered(bag: multiset<Topic>, entries: set<Entry>) {
    forall t :: t in bag ==> HasEntry(entries, t)
  }

  // --- one bucket --------------------------------------------------------------------

  /** One occurrence more (asidp.c:322-366). The requires is the assertion at 355. */
  method AddToBucket(b: Bucket, vid: Vid) returns (r: Bucket)
    requires Shape(b) && (b.len >= THRESHOLD ==> Vids(b) != {})
    ensures Shape(r) && r.len == b.len + 1 && Vids(r) == Vids(b) + {vid}
    ensures r.table.Some? <==> b.table.Some? || b.len >= THRESHOLD
  {
    var len := b.len + 1;
    if b.table.Some? {
      return b.(len := len, table := Some(b.table.value + {vid}));
    }
    if len <= THRESHOLD {
      var found := false;
      for i := 0 to |b.list|
        invariant found <==> vid in b.list[..i]
      {
        if b.list[i] == vid {
          found := true;
          break;
        }
      }
      r := b.(len := len);
      if !found {
        ElemsConcat([vid], b.list);
        r := r.(list := [vid] + b.list);
      } else {
        assert vid in Elems(b.list);
      }
    } else {
      assert b.list != [];
      var table: set<Vid> := {};
      for i := 0 to |b.list|
        invariant table == Elems(b.list[..i])
      {
        assert b.list[..i + 1] == b.list[..i] + [b.list[i]];
        table := table + {b.list[i]};
      }
      assert b.list[..|b.list|] == b.list;
      r := Bucket(len, Some(table + {vid}), []);
    }
  }

  /** tm_list_remove: drops the first occurrence. */
  function RemoveFirst(s: seq<Vid>, v: Vid): seq<Vid> {
    if s == [] then [] else if s[0] == v then s[1..] else [s[0]] + RemoveFirst(s[1..], v)
  }

  lemma {:induction false} RemoveFirstElems(s: seq<Vid>, v: Vid)
    requires NoDup(s)
    ensures Elems(RemoveFirst(s, v)) == Elems(s) - {v} && NoDup(RemoveFirst(s, v))
  {
    if s != [] {
      assert s == [s[0]] + s[1..] && s[0] !in s[1..];
      ElemsConcat([s[0]], s[1..]);
      RemoveFirstElems(s[1..], v);
      ElemsConcat([s[0]], RemoveFirst(s[1..], v));
      var rest := RemoveFirst(s[1..], v);
      assert s[0] != v ==> s[0] !in rest by { assert forall x :: x in rest ==> x in Elems(rest); }
      if s[0] != v { NoDupCons(s[0], rest); }
    }
  }

  lemma NoDupCons(x: Vid, s: seq<Vid>)
    requires NoDup(s) && x !in s
    ensures NoDup([x] + s)
  {
  }

  /** One occurrence fewer (asidp.c:384-394). */
  function RemoveFromBucket(b: Bucket, vid: Vid): Bucket
    requires b.len > 0
  {
    if b.table.Some? then b.(len := b.len - 1, table := Some(b.table.value - {vid}))
    else b.(len := b.len - 1, list := RemoveFirst(b.list, vid))
  }

  lemma RemoveFromBucketIs(b: Bucket, vid: Vid)
    requires Shape(b) && b.len > 0
    ensures var r := RemoveFromBucket(b, vid);
            Shape(r) && r.len == b.len - 1 && Vids(r) == Vids(b) - {vid} && (r.table.Some? <==> b.table.Some?)
  {
    if b.table.None? {
      RemoveFirstElems(b.list, vid);
    }
  }

  // --- the whole index ------------------------------------------------------------------

  lemma GrowIndex(index: seq<Bucket>, more: seq<Bucket>, bag: multiset<Topic>, entries: set<Entry>)
    requires IndexIs(index, bag, entries)
    requires |index| <= |more| && more[..|index|] == index
    requires forall t :: |index| <= t < |more| ==> more[t] == EMPTY_BUCKET
    ensures IndexIs(more, bag, entries)
  {
    forall t | 0 <= t < |index| ensures more[t] == index[t] {
      assert more[..|index|][t] == index[t];
    }
    forall t, v | |index| <= t < |more| ensures (t, v) !in entries && v !in Vids(more[t]) && bag[t] == 0 {
      var e := (t, v);
      assert e.0 >= |index|;
    }
  }

  lemma AddEntry(index: seq<Bucket>, bag: multiset<Topic>, entries: set<Entry>, t: Topic, vid: Vid, r: Bucket)
    requires IndexIs(index, bag, entries) && t < |index|
    requires Shape(r) && r.len == index[t].len + 1 && Vids(r) == Vids(index[t]) + {vid}
    ensures IndexIs(index[t := r], bag + multiset{t}, entries + {(t, vid)})
  {
    hide Shape, Vids;
  }

  lemma AddCovered(bag: multiset<Topic>, entries: set<Entry>, t: Topic, vid: Vid)
    requires Covered(bag, entries)
    ensures Covered(bag + multiset{t}, entries + {(t, vid)})
  {
    forall u | u in bag + multiset{t} ensures HasEntry(entries + {(t, vid)}, u) {
      if u == t {
        assert (u, vid) in entries + {(t, vid)};
      } else {
        assert HasEntry(entries, u);
        var v :| (u, v) in entries;
        assert (u, v) in entries + {(t, vid)};
      }
    }
  }

  lemma BucketCovered(index: seq<Bucket>, bag: multiset<Topic>, entries: set<Entry>, t: Topic)
    requires IndexIs(index, bag, entries) && Covered(bag, entries) && t < |index|
    ensures Shape(index[t]) && (index[t].len > 0 ==> Vids(index[t]) != {})
  {
    if index[t].len > 0 {
      assert t in bag;
      var v :| (t, v) in entries;
      assert v in Vids(index[t]);
    }
  }

  lemma DropEntry(index: seq<Bucket>, bag: multiset<Topic>, entries: set<Entry>, t: Topic, vid: Vid)
    requires IndexIs(index, bag, entries) && t in bag
    ensures t < |index| && index[t].len > 0
    ensures IndexIs(index[t := RemoveFromBucket(index[t], vid)], bag - multiset{t}, entries - {(t, vid)})
  {
    RemoveFromBucketIs(index[t], vid);
    hide Shape, Vids, RemoveFromBucket;
  }

  // --- what the slots of the store contain -----------------------------------------------

  function Occurrences(slots: seq<seq<Topic>>): multiset<Topic> {
    if slots == [] then multiset{}
    else Occurrences(slots[..|slots| - 1]) + multiset(Fields(slots[|slots| - 1]))
  }

  function Entries(slots: seq<seq<Topic>>): set<Entry> {
    set v, t | 0 <= v < |slots| && t in Fields(slots[v]) :: (t, v)
  }

  lemma {:induction false} OccurrencesUpdate(slots: seq<seq<Topic>>, v: nat, a: seq<Topic>)
    requires v < |slots|
    ensures multiset(Fields(slots[v])) <= Occurrences(slots)
    ensures Occurrences(slots[v := a]) == Occurrences(slots) - multiset(Fields(slots[v])) + multiset(Fields(a))
  {
    hide Fields;
    var n := |slots| - 1;
    var rest, last := Occurrences(slots[..n]), multiset(Fields(slots[n]));
    if v == n {
      assert slots[v := a][..n] == slots[..n];
      BagSwapLast(rest, last, multiset(Fields(a)));
    } else {
      OccurrencesUpdate(slots[..n], v, a);
      assert slots[v := a][..n] == slots[..n][v := a];
      assert slots[..n][v] == slots[v];
      BagSwap(rest, multiset(Fields(slots[v])), multiset(Fields(a)), last);
    }
  }

  lemma BagSwap(all: multiset<Topic>, out: multiset<Topic>, inn: multiset<Topic>, more: multiset<Topic>)
    requires out <= all
    ensures out <= all + more && (all - out + inn) + more == (all + more) - out + inn
  {
  }

  lemma BagSwapLast(all: multiset<Topic>, out: multiset<Topic>, inn: multiset<Topic>)
    ensures out <= all + out && (all + out) - out + inn == all + inn
  {
  }

  lemma {:induction false} OccurrencesGrow(slots: seq<seq<Topic>>, more: seq<seq<Topic>>)
    requires |slots| <= |more| && more[..|slots|] == slots
    requires forall v :: |slots| <= v < |more| ==> more[v] == []
    ensures Occurrences(more) == Occurrences(slots) && Entries(more) == Entries(slots)
    decreases |more|
  {
    forall v | 0 <= v < |slots| ensures more[v] == slots[v] { assert more[..|slots|][v] == slots[v]; }
    if |slots| < |more| {
      var shorter := more[..|more| - 1];
      assert shorter[..|slots|] == slots;
      OccurrencesGrow(slots, shorter);
      assert Fields(more[|more| - 1]) == [];
    } else {
      assert more == slots;
    }
  }

  lemma {:induction false} OccurrencesCovered(slots: seq<seq<Topic>>)
    ensures Covered(Occurrences(slots), Entries(slots))
  {
    if slots != [] {
      var n := |slots| - 1;
      OccurrencesCovered(slots[..n]);
      forall t | t in Occurrences(slots) ensures HasEntry(Entries(slots), t) {
        if t in Occurrences(slots[..n]) {
          assert HasEntry(Entries(slots[..n]), t);
          var v :| (t, v) in Entries(slots[..n]);
          assert slots[..n][v] == slots[v];
          assert (t, v) in Entries(slots);
        } else {
          assert t in Fields(slots[n]);
          assert (t, n) in Entries(slots);
        }
      }
    }
  }

  function EntriesOf(ts: seq<Topic>, vid: Vid): set<Entry> {
    set t | t in ts :: (t, vid)
  }

  lemma EntriesUpdate(slots: seq<seq<Topic>>, v: nat, a: seq<Topic>)
    requires v < |slots|
    ensures Entries(slots[v := a]) == (Entries(slots) - EntriesOf(Fields(slots[v]), v)) + EntriesOf(Fields(a), v)
  {
    var after := slots[v := a];
    forall e | e in Entries(after)
      ensures e in (Entries(slots) - EntriesOf(Fields(slots[v]), v)) + EntriesOf(Fields(a), v)
    {
      if e.1 != v { assert after[e.1] == slots[e.1]; }
    }
    forall e | e in (Entries(slots) - EntriesOf(Fields(slots[v]), v)) + EntriesOf(Fields(a), v)
      ensures e in Entries(after)
    {
      if e !in EntriesOf(Fields(a), v) { assert after[e.1] == slots[e.1]; }
    }
  }
}
