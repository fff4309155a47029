/**
 * The page cache of the file store (stores/filestore/storage.c): a fixed number of
 * slots between the callers and the file. A caller's page pointer is the index of a slot.
 */
module PageCache {
  import opened Basics
  import opened Pages

  datatype Slot = Slot(page: Page, usecount: nat, lock: bool)

  /** Pages are numbered from 1, by their place in the file. */
  ghost predicate DiskOk(disk: seq<Page>) {
    && |disk| < INT_LIMIT
    && forall k :: 0 <= k < |disk| ==> Number(disk[k]) == k + 1 && Flag(disk[k]) <= 1
  }

  /** An occupied slot holds a page of the file; one without the changed flag holds it as it is in the file. */
  ghost predicate SlotOk(s: Slot, disk: seq<Page>) {
    && 1 <= Number(s.page) <= |disk| && Flag(s.page) <= 1
    && (Flag(s.page) == 0 ==> s.page == disk[Number(s.page) - 1])
    && (s.lock <==> s.usecount > 0)
  }

  /** No page is in two slots. */
  ghost predicate OneSlotEach(slots: seq<Slot>, pcnt: nat)
    requires pcnt <= |slots|
  {
    forall i, j :: 0 <= i < j < pcnt ==> Number(slots[i].page) != Number(slots[j].page)
  }

  ghost predicate CacheOk(slots: seq<Slot>, pcnt: nat, disk: seq<Page>) {
    && pcnt <= |slots| && DiskOk(disk) && OneSlotEach(slots, pcnt)
    && (forall i :: 0 <= i < pcnt ==> SlotOk(slots[i], disk))
    && (forall i :: pcnt <= i < |slots| ==> slots[i].usecount == 0 && !slots[i].lock)
  }

  predicate Cached(slots: seq<Slot>, pcnt: nat, n: nat)
    requires pcnt <= |slots|
  {
    exists i :: 0 <= i < pcnt && Number(slots[i].page) == n
  }

  /** The pages as their users know them: from the slot where there is one, from the file otherwise. */
  ghost predicate Holds(slots: seq<Slot>, pcnt: nat, disk: seq<Page>, contents: seq<Page>)
    requires CacheOk(slots, pcnt, disk)
  {
    && |contents| == |disk|
    && (forall i :: 0 <= i < pcnt ==> contents[Number(slots[i].page) - 1] == Body(slots[i].page))
    && (forall k :: 0 <= k < |disk| && !Cached(slots, pcnt, k + 1) ==> contents[k] == Body(disk[k]))
  }

  /** Slots and file determine the contents. */
  lemma HoldsOne(slots: seq<Slot>, pcnt: nat, disk: seq<Page>, a: seq<Page>, b: seq<Page>)
    requires CacheOk(slots, pcnt, disk) && Holds(slots, pcnt, disk, a) && Holds(slots, pcnt, disk, b)
    ensures a == b
  {
    forall k | 0 <= k < |a| ensures a[k] == b[k] {
      if Cached(slots, pcnt, k + 1) {
        var i :| 0 <= i < pcnt && Number(slots[i].page) == k + 1;
        assert a[Number(slots[i].page) - 1] == b[Number(slots[i].page) - 1];
      }
    }
  }

  // --- what the steps do to slots, file and contents -------------------------------------

  lemma UseSlot(slots: seq<Slot>, pcnt: nat, disk: seq<Page>, contents: seq<Page>, i: nat, s: Slot)
    requires CacheOk(slots, pcnt, disk) && Holds(slots, pcnt, disk, contents) && i < pcnt
    requires s.page == slots[i].page && (s.lock <==> s.usecount > 0)
    ensures CacheOk(slots[i := s], pcnt, disk) && Holds(slots[i := s], pcnt, disk, contents)
  {
    var after := slots[i := s];
    forall n | Cached(slots, pcnt, n) ensures Cached(after, pcnt, n) {
      var j :| 0 <= j < pcnt && Number(slots[j].page) == n;
      assert Number(after[j].page) == n;
    }
  }

  /** _writepage of a slot: the flag is cleared, then the page goes to its place in the file. */
  lemma WriteBack(slots: seq<Slot>, pcnt: nat, disk: seq<Page>, contents: seq<Page>, i: nat)
    requires CacheOk(slots, pcnt, disk) && Holds(slots, pcnt, disk, contents) && i < pcnt
    ensures var p := Body(slots[i].page);
            var after, file := slots[i := slots[i].(page := p)], disk[Number(p) - 1 := p];
            Number(p) == Number(slots[i].page) && CacheOk(after, pcnt, file) && Holds(after, pcnt, file, contents)
  {
    var n, p := Number(slots[i].page), Body(slots[i].page);
    FlagApart(slots[i].page, 0);
    FlagApart(p, 0);
    hide Number, Flag, Body;
    var after, file := slots[i := slots[i].(page := p)], disk[n - 1 := p];
    forall j | 0 <= j < pcnt ensures SlotOk(after[j], file) {
      if j != i { assert Number(slots[j].page) != n; }
    }
    assert CacheOk(after, pcnt, file);
    forall k | 0 <= k < |disk| && !Cached(after, pcnt, k + 1) ensures contents[k] == Body(file[k]) {
      assert Number(after[i].page) != k + 1;
      SameCached(slots, after, pcnt, k + 1);
    }
  }

  lemma SameCached(slots: seq<Slot>, after: seq<Slot>, pcnt: nat, n: nat)
    requires pcnt <= |slots| == |after|
    requires forall j :: 0 <= j < pcnt ==> Number(slots[j].page) == Number(after[j].page)
    ensures Cached(slots, pcnt, n) <==> Cached(after, pcnt, n)
  {
    hide Number;
    if Cached(slots, pcnt, n) {
      var j :| 0 <= j < pcnt && Number(slots[j].page) == n;
      assert Number(after[j].page) == n;
    }
    if Cached(after, pcnt, n) {
      var j :| 0 <= j < pcnt && Number(after[j].page) == n;
      assert Number(slots[j].page) == n;
    }
  }

  /** _readpage of page n into a slot that holds no page, or one that is as it is in the file. */
  lemma ReadInto(slots: seq<Slot>, pcnt: nat, disk: seq<Page>, contents: seq<Page>, i: nat, n: nat)
    requires CacheOk(slots, pcnt, disk) && Holds(slots, pcnt, disk, contents)
    requires 1 <= n <= |disk| && !Cached(slots, pcnt, n)
    requires i <= pcnt && i < |slots| && (i < pcnt ==> Flag(slots[i].page) == 0)
    ensures var after, cnt := slots[i := Slot(disk[n - 1], 1, true)], if i == pcnt then pcnt + 1 else pcnt;
            && CacheOk(after, cnt, disk) && Holds(after, cnt, disk, contents)
            && Body(disk[n - 1]) == contents[n - 1] && Number(disk[n - 1]) == n
  {
    var after, cnt := slots[i := Slot(disk[n - 1], 1, true)], if i == pcnt then pcnt + 1 else pcnt;
    hide Number, Flag, Body;
    forall j | 0 <= j < pcnt ensures Number(slots[j].page) != n { }
    assert CacheOk(after, cnt, disk);
    forall k | 0 <= k < |disk| && !Cached(after, cnt, k + 1) ensures contents[k] == Body(disk[k]) {
      forall j | 0 <= j < pcnt && j != i ensures Number(slots[j].page) != k + 1 {
        assert Number(after[j].page) != k + 1;
      }
      if Cached(slots, pcnt, k + 1) {
        assert Number(slots[i].page) == k + 1;
      }
    }
  }

  /** A client's write through its page pointer, which sets the changed flag. */
  lemma WriteInto(slots: seq<Slot>, pcnt: nat, disk: seq<Page>, contents: seq<Page>, i: nat, p: Page)
    requires CacheOk(slots, pcnt, disk) && Holds(slots, pcnt, disk, contents) && i < pcnt
    requires Number(p) == Number(slots[i].page)
    ensures var after := slots[i := slots[i].(page := WithFlag(p, 1))];
            CacheOk(after, pcnt, disk) && Holds(after, pcnt, disk, contents[Number(p) - 1 := Body(p)])
  {
    FlagApart(p, 1);
    hide Number, Flag, Body, WithFlag;
    var n, q := Number(p), WithFlag(p, 1);
    var after := slots[i := slots[i].(page := q)];
    forall j | 0 <= j < pcnt ensures Number(after[j].page) == Number(slots[j].page)
    && (j != i ==> Number(slots[j].page) != n) { }
    WrittenOk(slots, pcnt, disk, i, q);
    forall k | 0 <= k < |disk| && !Cached(after, pcnt, k + 1) ensures contents[n - 1 := Body(p)][k] == Body(disk[k]) {
      assert Number(after[i].page) != k + 1;
      SameCached(slots, after, pcnt, k + 1);
    }
    hide CacheOk, Cached;
    forall j | 0 <= j < pcnt ensures contents[n - 1 := Body(p)][Number(after[j].page) - 1] == Body(after[j].page) {
      if j != i { assert Number(after[j].page) != n; }
    }
  }

  lemma WrittenOk(slots: seq<Slot>, pcnt: nat, disk: seq<Page>, i: nat, q: Page)
    requires CacheOk(slots, pcnt, disk) && i < pcnt && Number(q) == Number(slots[i].page) && Flag(q) == 1
    ensures CacheOk(slots[i := slots[i].(page := q)], pcnt, disk)
  {
    hide Number, Flag, DiskOk;
    var after := slots[i := slots[i].(page := q)];
    forall j | 0 <= j < pcnt ensures SlotOk(after[j], disk) && Number(after[j].page) == Number(slots[j].page) {
      assert SlotOk(slots[j], disk);
    }
  }

  lemma AppendPage(slots: seq<Slot>, pcnt: nat, disk: seq<Page>, contents: seq<Page>, p: Page)
    requires CacheOk(slots, pcnt, disk) && Holds(slots, pcnt, disk, contents)
    requires Number(p) == |disk| + 1 < INT_LIMIT && Flag(p) <= 1
    ensures CacheOk(slots, pcnt, disk + [p]) && Holds(slots, pcnt, disk + [p], contents + [Body(p)])
  {
    hide Number, Flag, Body;
    var file := disk + [p];
    forall i | 0 <= i < pcnt ensures SlotOk(slots[i], file) && Number(slots[i].page) <= |disk| {
      assert SlotOk(slots[i], disk);
    }
  }

  // --- the file -----------------------------------------------------------------------------

  class PageFile {
    var disk: seq<Page>
    const slots: array<Slot>
    var pcnt: nat

    /** The pages as their users know them. */
    ghost var contents: seq<Page>

    /** gs_storage_open_file on an existing file. The least cache it grants has 100 slots. */
    constructor (disk: seq<Page>, pmax: nat)
      requires DiskOk(disk) && pmax >= 100
      ensures Valid() && fresh(slots) && slots.Length == pmax && pcnt == 0 && this.disk == disk
      ensures contents == seq(|disk|, k requires 0 <= k < |disk| => Body(disk[k]))
    {
      this.disk, pcnt := disk, 0;
      slots := new Slot[pmax](_ => Slot(seq(PAGE_SIZE, _ => 0), 0, false));
      contents := seq(|disk|, k requires 0 <= k < |disk| => Body(disk[k]));
    }

    ghost predicate Valid()
      reads this, slots
    {
      CacheOk(slots[..], pcnt, disk) && Holds(slots[..], pcnt, disk, contents)
    }

    ghost predicate Pinned(i: nat)
      reads slots
    {
      i < slots.Length && slots[i].usecount > 0
    }

    /** Writes the page of slot i to the file. */
    method WritePage(i: nat)
      requires Valid() && i < pcnt
      modifies `disk, slots
      ensures Valid() && contents == old(contents) && |disk| == |old(disk)|
      ensures slots[i] == old(slots[i]).(page := Body(old(slots[i]).page))
      ensures 1 <= Number(slots[i].page) == Number(old(slots[i]).page) <= |old(disk)| && Flag(slots[i].page) == 0
      ensures forall j :: 0 <= j < slots.Length && j != i ==> slots[j] == old(slots[j])
      ensures disk == old(disk)[Number(slots[i].page) - 1 := slots[i].page]
    {
      hide CacheOk, Holds, Number, Flag, Body;
      ghost var before := slots[..];
      WriteBack(slots[..], pcnt, disk, contents, i);
      InFile(slots[..], pcnt, disk, i);
      InRange(slots[..], pcnt, disk, contents);
      FlagApart(slots[i].page, 0);
      BodyFlag(slots[i].page);
      slots[i] := slots[i].(page := Body(slots[i].page));
      disk := disk[Number(slots[i].page) - 1 := slots[i].page];
      assert slots[..] == before[i := slots[i]];
    }

    /**
     * gs_storage_fetch_page. None is the assertion at 311: the page is not cached, and all
     * slots are in use. Otherwise the caller gets the page as it was last written, pinned,
     * and whatever was pinned before stays where it is.
     */
    method FetchPage(n: nat) returns (r: Option<nat>)
      requires Valid() && 1 <= n <= |disk|
      modifies this, slots
      ensures Valid() && contents == old(contents) && |disk| == |old(disk)|
      ensures r == None
              <==> old(!Cached(slots[..], pcnt, n) && pcnt == slots.Length && forall j :: 0 <= j < slots.Length ==>
                slots[j].usecount > 0)
      ensures r == None ==> disk == old(disk) && slots[..] == old(slots[..])
      ensures r.Some? ==>
                r.value < pcnt && Pinned(r.value) && Body(slots[r.value].page) == contents[n - 1]
                && Number(slots[r.value].page) == n
      ensures r.Some? && old(Cached(slots[..], pcnt, n)) ==>
                && r.value < old(pcnt)
                && var s := old(slots[r.value]);
                   slots[..] == old(slots[..])[r.value := s.(usecount := s.usecount + 1, lock := true)]
      ensures r.Some? && !old(Cached(slots[..], pcnt, n)) ==>
                slots[r.value].usecount == 1 && old(slots[r.value].usecount) == 0
      ensures r.Some? ==> forall j :: 0 <= j < slots.Length && j != r.value ==> slots[j] == old(slots[j])
      ensures pcnt == old(pcnt) + if !old(Cached(slots[..], pcnt, n)) && old(pcnt) < slots.Length then 1 else 0
      ensures forall k :: 0 <= k < |disk| && disk[k] != old(disk[k]) ==>
                r.Some? && Number(old(slots[r.value].page)) == k + 1
    {
      hide CacheOk, Holds, Number, Flag, Body, Cached;
      ghost var before := slots[..];
      var found := FindPage(n);
      if found.Some? {
        var i := found.value;
        UseSlot(slots[..], pcnt, disk, contents, i, slots[i].(usecount := slots[i].usecount + 1, lock := true));
        slots[i] := slots[i].(usecount := slots[i].usecount + 1, lock := true);
        assert slots[..] == before[i := slots[i]];
        Given(slots[..], pcnt, disk, contents, i);
        return found;
      }
      InRange(slots[..], pcnt, disk, contents);
      if pcnt < slots.Length {
        var i := pcnt;
        ReadInto(slots[..], pcnt, disk, contents, i, n);
        Empty(slots[..], pcnt, disk, i);
        slots[i] := Slot(disk[n - 1], 1, true);
        assert slots[..] == before[i := slots[i]];
        pcnt := pcnt + 1;
        return Some(i);
      }
      var free := FindFree();
      if free == None {
        return None;
      }
      var i := free.value;
      Evictable(slots[..], pcnt, disk, i);
      if Flag(slots[i].page) != 0 {
        WritePage(i);
      }
      SameCachedAfter(before, slots[..], pcnt, i, n);
      InRange(slots[..], pcnt, disk, contents);
      ReadInto(slots[..], pcnt, disk, contents, i, n);
      ghost var middle := slots[..];
      slots[i] := Slot(disk[n - 1], 1, true);
      assert slots[..] == middle[i := slots[i]];
      return Some(i);
    }

    lemma SameCachedAfter(before: seq<Slot>, after: seq<Slot>, pcnt: nat, i: nat, n: nat)
      requires pcnt <= |before| == |after| && i < |before|
      requires Number(before[i].page) == Number(after[i].page)
      requires forall j :: 0 <= j < |before| && j != i ==> before[j] == after[j]
      ensures Cached(before, pcnt, n) <==> Cached(after, pcnt, n)
    {
      SameCached(before, after, pcnt, n);
    }

    /** The search among the occupied slots (storage.c:254-272). */
    method FindPage(n: nat) returns (r: Option<nat>)
      requires Valid()
      ensures r.Some? ==>
                r.value < pcnt <= slots.Length && Number(slots[r.value].page) == n && Cached(slots[..], pcnt, n)
      ensures r == None ==> pcnt <= slots.Length && !Cached(slots[..], pcnt, n)
    {
      hide Number;
      for i := 0 to pcnt
        invariant forall j :: 0 <= j < i ==> Number(slots[j].page) != n
      {
        if Number(slots[i].page) == n {
          assert slots[..][i] == slots[i];
          return Some(i);
        }
      }
      return None;
    }

    /** The search for a slot nobody uses (storage.c:302-309). */
    method FindFree() returns (r: Option<nat>)
      requires Valid() && pcnt == slots.Length
      ensures r.Some? ==> r.value < slots.Length && slots[r.value].usecount == 0 && !slots[r.value].lock
      ensures r == None ==> forall j :: 0 <= j < slots.Length ==> slots[j].usecount > 0
    {
      hide Number, Holds, OneSlotEach, DiskOk;
      for i := 0 to slots.Length
        invariant forall j :: 0 <= j < i ==> slots[j].usecount > 0
      {
        assert SlotOk(slots[..][i], disk);
        if !slots[i].lock && slots[i].usecount == 0 {
          return Some(i);
        }
      }
      return None;
    }

    /** gs_storage_drop_page: the caller gives its page back. */
    method DropPage(i: nat)
      requires Valid() && Pinned(i)
      modifies slots
      ensures Valid()
      ensures var s := old(slots[i]);
              slots[..] == old(slots[..])[i := s.(usecount := s.usecount - 1, lock := s.usecount > 1)]
    {
      hide CacheOk, Holds, Number;
      ghost var before := slots[..];
      Occupied(slots[..], pcnt, disk, i);
      var count := slots[i].usecount - 1;
      UseSlot(slots[..], pcnt, disk, contents, i, slots[i].(usecount := count, lock := count > 0));
      slots[i] := slots[i].(usecount := count);
      if count == 0 {
        slots[i] := slots[i].(lock := false);
      }
      assert slots[..] == before[i := slots[i]];
    }

    /** A client that holds slot i stores new bytes in it, under the same page number, and sets the changed flag. */
    method ModifyPage(i: nat, p: Page)
      requires Valid() && Pinned(i) && Number(p) == Number(slots[i].page)
      modifies `contents, slots
      ensures Valid() && |old(contents)| >= Number(p) >= 1 && contents == old(contents)[Number(p) - 1 := Body(p)]
      ensures slots[..] == old(slots[..])[i := old(slots[i]).(page := WithFlag(p, 1))]
    {
      hide CacheOk, Holds, Number, Body, WithFlag;
      ghost var before := slots[..];
      Occupied(slots[..], pcnt, disk, i);
      InRange(slots[..], pcnt, disk, contents);
      InFile(slots[..], pcnt, disk, i);
      WriteInto(slots[..], pcnt, disk, contents, i, p);
      slots[i] := slots[i].(page := WithFlag(p, 1));
      assert slots[..] == before[i := slots[i]];
      contents := contents[Number(p) - 1 := Body(p)];
    }

    /** gs_storage_new_page: appends to the file what the init function writes for the next number. */
    method NewPage(init: nat -> Page) returns (n: nat)
      requires Valid() && |disk| + 1 < INT_LIMIT
      requires Number(init(|disk| + 1)) == |disk| + 1 && Flag(init(|disk| + 1)) <= 1
      modifies `disk, `contents
      ensures Valid() && n == |old(contents)| + 1 && contents == old(contents) + [Body(init(n))]
      ensures disk == old(disk) + [init(n)]
    {
      hide CacheOk, Number, Flag, Body;
      InRange(slots[..], pcnt, disk, contents);
      n := |disk| + 1;
      AppendPage(slots[..], pcnt, disk, contents, init(n));
      hide Holds;
      disk := disk + [init(n)];
      contents := contents + [Body(init(n))];
    }

    /** gs_storage_flush_cache: afterwards the file has the contents. */
    method Flush()
      requires Valid()
      modifies `disk, slots
      ensures Valid() && contents == old(contents) && |disk| == |contents|
      ensures forall k :: 0 <= k < |contents| ==> Body(disk[k]) == contents[k]
      ensures forall i :: 0 <= i < slots.Length ==>
                Number(slots[i].page) == Number(old(slots[i]).page) && slots[i].usecount == old(slots[i]).usecount
      ensures forall i :: 0 <= i < pcnt ==> Flag(slots[i].page) == 0
    {
      hide CacheOk, Holds, Number, Flag, Body;
      InRange(slots[..], pcnt, disk, contents);
      for i := 0 to pcnt
        invariant Valid() && contents == old(contents) && |disk| == |old(disk)|
        invariant forall j :: 0 <= j < slots.Length ==>
                    Number(slots[j].page) == Number(old(slots[j]).page) && slots[j].usecount == old(slots[j]).usecount
        invariant forall j :: 0 <= j < i ==> Flag(slots[j].page) == 0
      {
        WritePage(i);
      }
      Flushed(slots[..], pcnt, disk, contents);
    }
  }

  lemma Occupied(slots: seq<Slot>, pcnt: nat, disk: seq<Page>, i: nat)
    requires CacheOk(slots, pcnt, disk) && i < |slots| && slots[i].usecount > 0
    ensures i < pcnt && slots[i].lock
  {
  }

  lemma BodyFlag(p: Page)
    ensures Flag(Body(p)) == 0 && Body(Body(p)) == Body(p)
  {
  }

  lemma Empty(slots: seq<Slot>, pcnt: nat, disk: seq<Page>, i: nat)
    requires CacheOk(slots, pcnt, disk) && pcnt <= i < |slots|
    ensures slots[i].usecount == 0
  {
  }

  lemma InFile(slots: seq<Slot>, pcnt: nat, disk: seq<Page>, i: nat)
    requires CacheOk(slots, pcnt, disk) && i < pcnt
    ensures 1 <= Number(slots[i].page) <= |disk|
  {
  }

  lemma InRange(slots: seq<Slot>, pcnt: nat, disk: seq<Page>, contents: seq<Page>)
    requires CacheOk(slots, pcnt, disk) && Holds(slots, pcnt, disk, contents)
    ensures pcnt <= |slots| && |contents| == |disk|
  {
  }

  lemma Given(slots: seq<Slot>, pcnt: nat, disk: seq<Page>, contents: seq<Page>, i: nat)
    requires CacheOk(slots, pcnt, disk) && Holds(slots, pcnt, disk, contents) && i < pcnt
    ensures 1 <= Number(slots[i].page) <= |contents| && contents[Number(slots[i].page) - 1] == Body(slots[i].page)
  {
    hide Number, Body, Flag;
  }

  lemma Evictable(slots: seq<Slot>, pcnt: nat, disk: seq<Page>, i: nat)
    requires CacheOk(slots, pcnt, disk) && i < pcnt
    ensures Flag(slots[i].page) == 0 || Flag(slots[i].page) == 1
  {
  }

  /** When no slot differs from the file, the file alone gives the contents. */
  lemma Flushed(slots: seq<Slot>, pcnt: nat, disk: seq<Page>, contents: seq<Page>)
    requires CacheOk(slots, pcnt, disk) && Holds(slots, pcnt, disk, contents)
    requires forall i :: 0 <= i < pcnt ==> Flag(slots[i].page) == 0
    ensures |disk| == |contents| && forall k :: 0 <= k < |contents| ==> Body(disk[k]) == contents[k]
  {
    hide Number, Body, Flag;
    forall k | 0 <= k < |contents| ensures Body(disk[k]) == contents[k] {
      if Cached(slots, pcnt, k + 1) {
        var i :| 0 <= i < pcnt && Number(slots[i].page) == k + 1;
        assert SlotOk(slots[i], disk);
      }
    }
  }
}
