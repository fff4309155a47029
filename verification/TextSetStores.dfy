/**
 * The value store for TextSet properties (stores/memstore/textsetstore.c). It finds a
 * set through any one of its locators, which is right only while its sets are disjoint.
 */
module TextSetStores {
  import opened Basics
  import opened Values

  /**
   * The NOT_DISJOINT scan cursor: the VID to fetch next (0: finished) and the rest of the argument
   * list, current item first.
   */
  datatype Scan = Scan(nextVid: Vid, rest: seq<Locator>)

  function SetsOf(sets: map<Vid, seq<Locator>>): map<Vid, Value> {
    map v | v in sets :: Locators(Elems(sets[v]))
  }

  class TextSetStore {
    var count: nat
    var sets: map<Vid, seq<Locator>>
    var loctab: map<Locator, Vid>

    constructor ()
      ensures Valid() && sets == map[]
    {
      count := 0;
      sets := map[];
      loctab := map[];
    }

    /** loctab maps each locator to the one set that holds it; so sets are pairwise disjoint. */
    ghost predicate Valid()
      reads this
    {
      && (forall v :: v in sets ==> 1 <= v <= count && sets[v] != [] && NoDup(sets[v]))
      && (forall l :: l in loctab ==> loctab[l] in sets && l in sets[loctab[l]])
      && (forall v, l :: v in sets && l in sets[v] ==> l in loctab && loctab[l] == v)
    }

    /** The values as sets. */
    ghost function Live(): map<Vid, Value>
      reads this
    {
      SetsOf(sets)
    }

    /** Different live sets share no locator, and none is empty. */
    lemma SetsDisjoint(v: Vid, w: Vid)
      requires Valid() && v in sets && w in sets
      ensures Elems(sets[v]) != {}
      ensures v != w ==> Elems(sets[v]) !! Elems(sets[w])
    {
      assert sets[v][0] in Elems(sets[v]);
      if v != w {
        forall l | l in Elems(sets[v]) ensures l !in Elems(sets[w]) {
          assert loctab[l] == v;
        }
      }
    }

    /** The locator table knows exactly the locators of the live sets. */
    lemma KnownLocators(l: Locator)
      requires Valid()
      ensures l in loctab ==> loctab[l] in Live() && l in Live()[loctab[l]].locs
      ensures forall v :: v in Live() && l in Live()[v].locs ==> l in loctab && loctab[l] == v
    {
    }

    /**
     * A whole NOT_DISJOINT scan, as _pstore_vput runs it: fetch until finished, skipping
     * VIDs already seen. It yields exactly the sets that overlap the argument, once each.
     */
    method ScanNotDisjoint(list: seq<Locator>) returns (vids: seq<Vid>)
      requires Valid()
      ensures NoDup(vids)
      ensures forall v :: v in vids <==> v in Live() && Live()[v].locs * Elems(list) != {}
      ensures vids == Scanned(list, |list|)
    {
      hide *;
      vids := [];
      var scan := Advance(list);
      Begins(list, scan);
      while scan.nextVid != 0
        invariant UnderWay(list, scan, vids)
        decreases |scan.rest|
      {
        NotFinished(list, scan, vids);
        ghost var vids0, scan0 := vids, scan;
        if scan.nextVid !in vids {
          vids := [scan.nextVid] + vids;
        }
        scan := Advance(scan.rest[1..]);
        MovesOn(list, scan0, vids0, scan);
      }
      Finished(list, scan, vids);
    }

    /** The VIDs of all locators before the cursor have been collected. */
    ghost predicate UnderWay(list: seq<Locator>, scan: Scan, vids: seq<Vid>)
      reads this
    {
      && Cursor(list, scan) && NoDup(vids)
      && Passed(list, |list| - |scan.rest|, vids) && vids == Scanned(list, |list| - |scan.rest|)
      && forall v :: v in vids ==> Touches(list, v)
    }

    lemma Begins(list: seq<Locator>, scan: Scan)
      requires Cursor(list, scan) && Unknown(list, |list| - |scan.rest|)
      ensures UnderWay(list, scan, [])
    {
      CursorEnd(list, scan);
      hide Unknown, Cursor, Passed, Scanned, Touches;
      StartPassed(list, |list| - |scan.rest|);
      NoHits(list, |list| - |scan.rest|);
    }

    lemma NotFinished(list: seq<Locator>, scan: Scan, vids: seq<Vid>)
      requires UnderWay(list, scan, vids) && scan.nextVid != 0
      ensures scan.rest != []
    {
    }

    lemma MovesOn(list: seq<Locator>, scan: Scan, vids: seq<Vid>, scan': Scan)
      requires UnderWay(list, scan, vids) && scan.nextVid != 0 && scan.rest != []
      requires Cursor(scan.rest[1..], scan') && Unknown(scan.rest[1..], |scan.rest[1..]| - |scan'.rest|)
      ensures UnderWay(list, scan', if scan.nextVid in vids then vids else [scan.nextVid] + vids)
      ensures |scan'.rest| < |scan.rest|
    {
      var v, rest := scan.nextVid, scan.rest[1..];
      var at, n, vids' := |list| - |scan.rest|, |rest| - |scan'.rest|, if v in vids then vids else [v] + vids;
      CursorEnd(list, scan);
      CursorEnd(rest, scan');
      CursorAt(list, scan);
      Push(v, vids);
      TouchesAt(list, at);
      assert forall w :: w in vids' <==> w in vids || w == v;
      assert list[at] in loctab && v == loctab[list[at]] && rest == list[at + 1..];
      assert Passed(list, at, vids) && vids == Scanned(list, at) && |list| - |scan'.rest| == at + 1 + n;
      hide *;
      PassedStep(list, at, rest, n, vids, vids');
      ScannedOn(list, at, rest, n, vids);
      CursorMoved(list, at, rest, scan');
      Collected(list, scan', vids');
    }

    lemma Collected(list: seq<Locator>, scan: Scan, vids: seq<Vid>)
      requires Cursor(list, scan) && |scan.rest| <= |list| && NoDup(vids)
      requires Passed(list, |list| - |scan.rest|, vids) && vids == Scanned(list, |list| - |scan.rest|)
      requires forall v :: v in vids ==> Touches(list, v)
      ensures UnderWay(list, scan, vids)
    {
    }

    lemma ScannedOn(list: seq<Locator>, at: nat, rest: seq<Locator>, n: nat, vids: seq<Vid>)
      requires at < |list| && rest == list[at + 1..] && n <= |rest| && Unknown(rest, n)
      requires list[at] in loctab && vids == Scanned(list, at)
      ensures var v := loctab[list[at]];
              Scanned(list, at + 1 + n) == if v in vids then vids else [v] + vids
    {
      hide Unknown, Scanned;
      HitAt(list, at);
      HitsSame(list, at + 1, rest, n);
    }

    lemma Finished(list: seq<Locator>, scan: Scan, vids: seq<Vid>)
      requires Valid() && UnderWay(list, scan, vids) && scan.nextVid == 0
      ensures NoDup(vids) && vids == Scanned(list, |list|)
      ensures forall v :: v in vids <==> v in Live() && Live()[v].locs * Elems(list) != {}
    {
      CursorEnd(list, scan);
      hide Valid, Live, Touches, Passed, Unknown, NoDup, Scanned, Cursor;
      ScanResult(list, vids);
    }

    /** The VIDs of the known locators of list, in order. */
    ghost function Hits(list: seq<Locator>): seq<Vid>
      reads this
    {
      if list == [] then []
      else
        var l := list[|list| - 1];
        Hits(list[..|list| - 1]) + if l in loctab then [loctab[l]] else []
    }

    /** The VIDs that a scan has yielded after n locators, each once, the newest first. */
    ghost function Scanned(list: seq<Locator>, n: nat): seq<Vid>
      requires n <= |list|
      reads this
    {
      PushAll([], Hits(list[..n]))
    }

    lemma HitsNext(list: seq<Locator>, n: nat)
      requires n < |list|
      ensures Hits(list[..n + 1]) == Hits(list[..n]) + if list[n] in loctab then [loctab[list[n]]] else []
    {
      assert list[..n + 1][..n] == list[..n];
    }

    lemma {:induction false} NoHits(list: seq<Locator>, n: nat)
      requires n <= |list| && Unknown(list, n)
      ensures Hits(list[..n]) == [] && Scanned(list, n) == []
    {
      if n > 0 {
        HitsNext(list, n - 1);
        NoHits(list, n - 1);
      }
    }

    lemma HitAt(list: seq<Locator>, at: nat)
      requires at < |list| && list[at] in loctab
      ensures var before, v := Scanned(list, at), loctab[list[at]];
              Scanned(list, at + 1) == if v in before then before else [v] + before
    {
      var hits := Hits(list[..at + 1]);
      HitsNext(list, at);
      PushNext([], hits, |hits| - 1);
      assert hits[..|hits|] == hits && hits[..|hits| - 1] == Hits(list[..at]);
    }

    /** Unknown locators change nothing. */
    lemma {:induction false} HitsSame(list: seq<Locator>, from: nat, rest: seq<Locator>, n: nat)
      requires from <= |list| && rest == list[from..] && n <= |rest| && Unknown(rest, n)
      ensures Hits(list[..from + n]) == Hits(list[..from]) && Scanned(list, from + n) == Scanned(list, from)
    {
      if n > 0 {
        assert list[from + n - 1] == rest[n - 1];
        HitsNext(list, from + n - 1);
        HitsSame(list, from, rest, n - 1);
      }
    }

    lemma Push(v: Vid, vids: seq<Vid>)
      requires NoDup(vids)
      ensures v !in vids ==> NoDup([v] + vids)
    {
    }

    /** The VIDs of the first n locators have been seen. */
    ghost predicate Passed(list: seq<Locator>, n: nat, vids: seq<Vid>)
      reads this
    {
      forall k :: 0 <= k < n && k < |list| && list[k] in loctab ==> loctab[list[k]] in vids
    }

    ghost predicate Unknown(list: seq<Locator>, n: nat)
      reads this
    {
      forall k :: 0 <= k < n && k < |list| ==> list[k] !in loctab
    }

    lemma StartPassed(list: seq<Locator>, n: nat)
      requires Unknown(list, n)
      ensures Passed(list, n, []) && NoDup<Vid>([])
    {
    }

    lemma PassedStep(list: seq<Locator>, at: nat, rest: seq<Locator>, n: nat, vids: seq<Vid>, vids': seq<Vid>)
      requires at < |list| && rest == list[at + 1..] && n <= |rest|
      requires Passed(list, at, vids) && Unknown(rest, n)
      requires list[at] in loctab && loctab[list[at]] in vids' && forall v :: v in vids ==> v in vids'
      ensures Passed(list, at + 1 + n, vids')
    {
      forall k | at < k < at + 1 + n ensures list[k] !in loctab {
        assert list[k] == rest[k - at - 1];
      }
    }

    ghost predicate Touches(list: seq<Locator>, v: Vid)
      reads this
    {
      exists l :: l in list && l in loctab && loctab[l] == v
    }

    ghost predicate Cursor(list: seq<Locator>, scan: Scan)
      reads this
    {
      && |scan.rest| <= |list| && scan.rest == list[|list| - |scan.rest|..]
      && (scan.nextVid == 0 <==> scan.rest == [])
      && (scan.rest != [] ==> scan.rest[0] in loctab && scan.nextVid == loctab[scan.rest[0]])
    }

    lemma CursorAt(list: seq<Locator>, scan: Scan)
      requires Cursor(list, scan) && scan.nextVid != 0
      ensures scan.rest != [] && |scan.rest| <= |list|
      ensures var at := |list| - |scan.rest|;
              list[at] in loctab && scan.nextVid == loctab[list[at]] && scan.rest[1..] == list[at + 1..]
    {
    }

    lemma CursorEnd(list: seq<Locator>, scan: Scan)
      requires Cursor(list, scan)
      ensures |scan.rest| <= |list| && (scan.nextVid == 0 ==> scan.rest == [])
    {
    }

    lemma CursorMoved(list: seq<Locator>, at: nat, rest: seq<Locator>, scan: Scan)
      requires at < |list| && rest == list[at + 1..] && Cursor(rest, scan)
      ensures Cursor(list, scan) && |scan.rest| < |list| - at
    {
      assert rest[|rest| - |scan.rest|..] == list[|list| - |scan.rest|..];
    }

    lemma TouchesAt(list: seq<Locator>, k: nat)
      requires k < |list| && list[k] in loctab
      ensures Touches(list, loctab[list[k]])
    {
    }

    lemma ScanResult(list: seq<Locator>, vids: seq<Vid>)
      requires Valid()
      requires Passed(list, |list|, vids)
      requires forall v :: v in vids ==> Touches(list, v)
      ensures forall v :: v in vids <==> v in Live() && Live()[v].locs * Elems(list) != {}
    {
      forall v ensures v in vids <==> v in Live() && Live()[v].locs * Elems(list) != {} {
        if v in Live() && Live()[v].locs * Elems(list) != {} {
          var l :| l in Live()[v].locs * Elems(list);
          KnownLocators(l);
        }
        if v in vids {
          var l :| l in list && l in loctab && loctab[l] == v;
          KnownLocators(l);
          assert l in Live()[v].locs * Elems(list);
        }
      }
    }

    /** Lookup by the first element decides set equality (_find_set_vid). */
    method FindSetVid(list: seq<Locator>) returns (vid: Vid)
      requires Valid() && list != [] && NoDup(list)
      ensures vid != 0 ==> vid in sets && Elems(sets[vid]) == Elems(list)
      ensures vid == 0 ==> forall v :: v in sets ==> Elems(sets[v]) != Elems(list)
    {
      SharedFirst(list);
      if list[0] !in loctab {
        return 0;
      }
      var found := loctab[list[0]];
      var arr := sets[found];
      if |list| != |arr| {
        if Elems(arr) == Elems(list) { NoDupSize(list); NoDupSize(arr); }
        return 0;
      }
      for i := 0 to |arr|
        invariant forall k :: 0 <= k < i ==> arr[k] in list
      {
        if arr[i] !in list {
          assert arr[i] in Elems(arr);
          return 0;
        }
      }
      SameSizeSubset(arr, list);
      return found;
    }

    lemma SharedFirst(list: seq<Locator>)
      requires Valid() && list != []
      ensures forall v :: v in sets && Elems(sets[v]) == Elems(list) ==> list[0] in loctab && v == loctab[list[0]]
    {
      forall v | v in sets && Elems(sets[v]) == Elems(list) ensures list[0] in loctab && v == loctab[list[0]] {
        assert list[0] in Elems(list);
        assert list[0] in sets[v];
      }
    }

    /** Stores a new set under a new VID; the source asserts that none of its locators is known. */
    method Create(list: seq<Locator>) returns (vid: Vid)
      requires Valid() && list != [] && NoDup(list)
      requires forall l :: l in list ==> l !in loctab
      modifies this
      ensures Valid()
      ensures vid == count == old(count) + 1 && vid !in old(sets)
      ensures sets == old(sets)[vid := list]
    {
      count := count + 1;
      vid := count;
      for i := 0 to |list|
        invariant count == vid && sets == old(sets)
        invariant forall l :: l in loctab <==> l in old(loctab) || l in list[..i]
        invariant forall l :: l in old(loctab) ==> loctab[l] == old(loctab)[l]
        invariant forall k :: 0 <= k < i ==> loctab[list[k]] == vid
      {
        loctab := loctab[list[i] := vid];
      }
      assert list[..|list|] == list;
      sets := sets[vid := list];
    }

    /** Builds the value by repeated push, so in reverse order. */
    method GetValue(vid: Vid) returns (list: seq<Locator>)
      requires Valid() && vid in sets
      ensures list != [] && NoDup(list) && Elems(list) == Elems(sets[vid])
      ensures list == PushAll([], sets[vid])
    {
      list := [];
      var arr := sets[vid];
      for i := 0 to |arr|
        invariant |list| == i && forall k :: 0 <= k < i ==> list[k] == arr[i - 1 - k]
        invariant list == PushAll([], arr[..i])
      {
        PushNext([], arr, i);
        list := [arr[i]] + list;
      }
      assert arr[..|arr|] == arr;
      forall l | l in arr ensures l in list {
        var k :| 0 <= k < |arr| && arr[k] == l;
        assert list[|arr| - 1 - k] == l;
      }
      forall l | l in list ensures l in arr {
        var k :| 0 <= k < |list| && list[k] == l;
      }
    }

    method DeleteValue(vid: Vid)
      requires Valid() && vid in sets
      modifies this
      ensures Valid() && sets == old(sets) - {vid} && count == old(count)
    {
      var arr := sets[vid];
      for i := 0 to |arr|
        invariant sets == old(sets) && count == old(count)
        invariant forall l :: l in loctab <==> l in old(loctab) && l !in arr[..i]
        invariant forall l :: l in loctab ==> loctab[l] == old(loctab)[l]
      {
        assert arr[..i + 1] == arr[..i] + [arr[i]];
        loctab := loctab - {arr[i]};
      }
      assert arr[..|arr|] == arr;
      sets := sets - {vid};
      forall l | l in loctab ensures loctab[l] in sets && l in sets[loctab[l]] {
        assert l in old(sets)[old(loctab)[l]];
      }
      forall v, l | v in sets && l in sets[v] ensures l in loctab && loctab[l] == v {
        assert l in old(sets)[v] && old(loctab)[l] == v;
      }
    }

    /** Moves the cursor to the first known locator of list. */
    method Advance(list: seq<Locator>) returns (scan: Scan)
      requires Valid()
      ensures Cursor(list, scan)
      ensures Unknown(list, |list| - |scan.rest|)
    {
      for i := 0 to |list|
        invariant forall k :: 0 <= k < i ==> list[k] !in loctab
      {
        if list[i] in loctab {
          return Scan(loctab[list[i]], list[i..]);
        }
      }
      return Scan(0, []);
    }
  }
}
