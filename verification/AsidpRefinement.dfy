/**
 * The indexed ASIDP store (stores/memstore/asidp.c) and the linear one
 * (stores/memstore/slow_asidp.c) driven side by side through the interface they share.
 */
module AsidpRefinement {
  import opened Basics
  import opened Values
  import opened PlainStores
  import opened AsidpArrays
  import opened AsidpIndex
  import opened AsidpStores

  /** What the indexed store can be asked to hold: roles in order, and the fields that asidp.c:293 asserts. */
  ghost predicate Storable(r: Request) {
    r.Store? ==> r.value.Asidp? && StrictRoles(r.value.members) && |ArrayOf(r.value)| >= 6
  }

  /** That is every canonical ASIDP which the property store does not refuse, and no other. */
  lemma StorableIff(value: Value)
    requires value.Asidp? && Canonical(value)
    ensures Storable(Store(value)) <==> Indexable(value)
  {
    IndexableFields(value);
  }

  /** Deleting a VID that is not live is no request. */
  predicate Due(r: Request, log: Log) {
    r.Store? || r.vid in log.values
  }

  /**
   * served are the requests of rs that are due when their turn comes: at[k] of them come
   * before request k, and logs[n] is what the store holds when n have been served.
   */
  ghost predicate Sifts(rs: seq<Request>, served: seq<Request>, logs: seq<Log>, at: seq<nat>) {
    && |logs| == |served| + 1 && |at| == |rs| + 1 && at[0] == 0 && at[|rs|] == |served|
    && (forall k :: 0 <= k <= |rs| ==> at[k] <= |served|)
    && (forall k :: 0 <= k < |rs| ==> SiftAt(rs, served, logs, at, k))
  }

  /** Request k is served next if it is due, else passed over. */
  ghost predicate SiftAt(rs: seq<Request>, served: seq<Request>, logs: seq<Log>, at: seq<nat>, k: nat) {
    && k < |rs| && k + 1 < |at| && at[k] < |logs|
    && if Due(rs[k], logs[at[k]]) then at[k + 1] == at[k] + 1 && at[k] < |served| && served[at[k]] == rs[k]
       else at[k + 1] == at[k]
  }

  lemma SiftMore(rs: seq<Request>, served: seq<Request>, logs: seq<Log>, at: seq<nat>, vids: seq<Vid>, r: Request,
                 vid: Vid, log: Log)
    requires Sifts(rs, served, logs, at) && ServesAll(logs, served, vids)
    requires Due(r, logs[|served|]) && Serves(logs[|served|], r, vid, log)
    ensures Sifts(rs + [r], served + [r], logs + [log], at + [|served| + 1])
    ensures ServesAll(logs + [log], served + [r], vids + [vid])
  {
    hide Serves, Due;
    var rs', at' := rs + [r], at + [|served| + 1];
    forall k | 0 <= k < |rs'| ensures SiftAt(rs', served + [r], logs + [log], at', k) {
      if k < |rs| { assert SiftAt(rs, served, logs, at, k); }
    }
  }

  lemma SiftSkip(rs: seq<Request>, served: seq<Request>, logs: seq<Log>, at: seq<nat>, r: Request)
    requires Sifts(rs, served, logs, at) && !Due(r, logs[|served|])
    ensures Sifts(rs + [r], served, logs, at + [|served|])
  {
    hide Due;
    var rs', at' := rs + [r], at + [|served|];
    forall k | 0 <= k < |rs'| ensures SiftAt(rs', served, logs, at', k) {
      if k < |rs| { assert SiftAt(rs, served, logs, at, k); }
    }
  }

  lemma SiftPrefix(rs: seq<Request>, served: seq<Request>, logs: seq<Log>, at: seq<nat>, vids: seq<Vid>)
    requires rs != [] && Sifts(rs, served, logs, at) && ServesAll(logs, served, vids)
    ensures var n := |rs| - 1; var k := at[n];
            && k <= |served| && (forall j :: 0 <= j <= n ==> at[j] <= k)
            && Sifts(rs[..n], served[..k], logs[..k + 1], at[..n + 1])
            && ServesAll(logs[..k + 1], served[..k], vids[..k])
  {
    hide Serves, Due;
    var n := |rs| - 1;
    var k := at[n];
    forall j | 0 <= j <= n ensures at[j] <= k { AtIncreases(rs, served, logs, at, j, n); }
    var rs', served', logs', at' := rs[..n], served[..k], logs[..k + 1], at[..n + 1];
    forall j | 0 <= j < n ensures SiftAt(rs', served', logs', at', j) {
      assert SiftAt(rs, served, logs, at, j) && at[j + 1] <= k;
    }
  }

  lemma {:induction false} AtIncreases(rs: seq<Request>, served: seq<Request>, logs: seq<Log>, at: seq<nat>, j: nat,
                                       n: nat)
    requires Sifts(rs, served, logs, at) && j <= n <= |rs|
    ensures at[j] <= at[n]
    decreases n - j
  {
    if j < n {
      assert SiftAt(rs, served, logs, at, j);
      AtIncreases(rs, served, logs, at, j + 1, n);
    }
  }

  /** The last request is served, and the last served, if it is due. */
  lemma SiftLast(rs: seq<Request>, served: seq<Request>, logs: seq<Log>, at: seq<nat>, vids: seq<Vid>)
    requires rs != [] && Sifts(rs, served, logs, at) && ServesAll(logs, served, vids)
    ensures var n := |rs| - 1; var k := at[n];
            && k <= |served| && at == at[..n + 1] + [|served|] && logs[..k + 1][k] == logs[k]
            && (if Due(rs[n], logs[k]) then
                  && |served| == k + 1 && served == served[..k] + [rs[n]] && vids == vids[..k] + [vids[k]]
                  && logs == logs[..k + 1] + [logs[k + 1]] && Serves(logs[k], rs[n], vids[k], logs[k + 1])
                else
                  served == served[..k] && vids == vids[..k] && logs == logs[..k + 1])
  {
    hide Serves, Due;
    assert SiftAt(rs, served, logs, at, |rs| - 1);
  }

  /**
   * The requests determine everything: which of them are served, with which answers, and
   * what the store holds in between.
   */
  lemma {:induction false} SameSift(rs: seq<Request>, served: seq<Request>, logs: seq<Log>, at: seq<nat>,
                                    vids: seq<Vid>, served': seq<Request>, logs': seq<Log>, at': seq<nat>,
                                    vids': seq<Vid>)
    requires Sifts(rs, served, logs, at) && ServesAll(logs, served, vids)
    requires Sifts(rs, served', logs', at') && ServesAll(logs', served', vids')
    requires logs[0] == logs'[0] && Distinct(logs[0].values)
    ensures served == served' && logs == logs' && vids == vids' && at == at'
    decreases |rs|
  {
    if rs != [] {
      var n := |rs| - 1;
      var k, k' := at[n], at'[n];
      SiftPrefix(rs, served, logs, at, vids);
      SiftPrefix(rs, served', logs', at', vids');
      assert k == at[..n + 1][n] && k' == at'[..n + 1][n];
      hide Sifts, ServesAll, Serves, Distinct, Due;
      SameSift(rs[..n], served[..k], logs[..k + 1], at[..n + 1], vids[..k], served'[..k'], logs'[..k' + 1],
               at'[..n + 1], vids'[..k']);
      LogDistinct(logs[..k + 1], vids[..k], served[..k]);
      SameLast(rs, served, logs, at, vids, served', logs', at', vids', k);
    } else {
      assert served == [] && served' == [] && logs == [logs[0]] && logs' == [logs'[0]] && at == [0] && at' == [0];
    }
  }

  lemma LogDistinct(logs: seq<Log>, vids: seq<Vid>, served: seq<Request>)
    requires ServesAll(logs, served, vids) && Distinct(logs[0].values)
    ensures Distinct(logs[|served|].values)
  {
    SameRun(logs, vids, logs, vids, served);
  }

  lemma SameLast(rs: seq<Request>, served: seq<Request>, logs: seq<Log>, at: seq<nat>, vids: seq<Vid>,
                 served': seq<Request>, logs': seq<Log>, at': seq<nat>, vids': seq<Vid>, k: nat)
    requires rs != [] && Sifts(rs, served, logs, at) && ServesAll(logs, served, vids)
    requires Sifts(rs, served', logs', at') && ServesAll(logs', served', vids')
    requires at[|rs| - 1] == k == at'[|rs| - 1] && k <= |served| && k <= |served'|
    requires served[..k] == served'[..k] && logs[..k + 1] == logs'[..k + 1] && vids[..k] == vids'[..k]
    requires at[..|rs|] == at'[..|rs|] && Distinct(logs[k].values)
    ensures served == served' && logs == logs' && vids == vids' && at == at'
  {
    SiftLast(rs, served, logs, at, vids);
    SiftLast(rs, served', logs', at', vids');
    hide *;
    if Due(rs[|rs| - 1], logs[k]) {
      SameAnswer(logs[k], rs[|rs| - 1], vids[k], logs[k + 1], vids'[k], logs'[k + 1]);
    }
  }

  /** When nothing is deleted, every request is served. */
  lemma {:induction false} StoresServed(rs: seq<Request>, served: seq<Request>, logs: seq<Log>, at: seq<nat>, n: nat)
    requires Sifts(rs, served, logs, at) && n <= |rs| && forall r :: r in rs ==> r.Store?
    ensures at[n] == n && served[..n] == rs[..n]
    ensures n == |rs| ==> served == rs
  {
    if n > 0 {
      StoresServed(rs, served, logs, at, n - 1);
      assert rs[n - 1] in rs && SiftAt(rs, served, logs, at, n - 1);
      assert at[n] == n && n <= |served|;
      assert served[..n] == served[..n - 1] + [served[n - 1]] && rs[..n] == rs[..n - 1] + [rs[n - 1]];
    }
  }

  /** Both stores are in order, and they hold the same values under the same VIDs. */
  ghost predicate InStep(indexed: AsidpStore, plain: PlainStore)
    reads indexed, indexed.asidps, indexed.topicIndex, plain
  {
    indexed.Valid() && plain.Valid() && indexed.count == plain.count && indexed.Live() == plain.values
  }

  /** One request to both. */
  method Serve(indexed: AsidpStore, plain: PlainStore, r: Request) returns (a: Vid, b: Vid)
    requires InStep(indexed, plain) && Storable(r) && (r.Forget? ==> r.vid in plain.values)
    modifies indexed, indexed.asidps, indexed.topicIndex, plain
    ensures InStep(indexed, plain) && a == b
    ensures indexed.asidps == old(indexed.asidps) || fresh(indexed.asidps)
    ensures indexed.topicIndex == old(indexed.topicIndex) || fresh(indexed.topicIndex)
    ensures Serves(old(Log(plain.count, plain.values)), r, b, Log(plain.count, plain.values))
  {
    hide SlotsOk, IndexIs, Occurrences, Entries, LiveOf;
    ghost var before := Log(plain.count, plain.values);
    match r {
      case Store(value) =>
        a := indexed.LookupVid(value, LookupOrCreate);
        b := plain.LookupOrCreate(value);
      case Forget(vid) =>
        indexed.DeleteValue(vid);
        plain.DeleteValue(vid);
        a, b := vid, vid;
    }
    SameAnswer(before, r, a, Log(indexed.count, indexed.Live()), b, Log(plain.count, plain.values));
  }

  /**
   * Any sequence of requests, the deletion of a VID that is not live being left out: all
   * others are served, in order, the two stores give the same answers and hold the same
   * values throughout.
   */
  method ServeAll(indexed: AsidpStore, plain: PlainStore, rs: seq<Request>)
    returns (fast: seq<Vid>, slow: seq<Vid>, ghost served: seq<Request>, ghost logs: seq<Log>, ghost at: seq<nat>)
    requires InStep(indexed, plain) && forall r :: r in rs ==> Storable(r)
    modifies indexed, indexed.asidps, indexed.topicIndex, plain
    ensures InStep(indexed, plain) && fast == slow
    ensures Sifts(rs, served, logs, at) && ServesAll(logs, served, slow)
    ensures logs[0] == old(Log(plain.count, plain.values)) && logs[|served|] == Log(plain.count, plain.values)
    ensures indexed.asidps == old(indexed.asidps) || fresh(indexed.asidps)
    ensures indexed.topicIndex == old(indexed.topicIndex) || fresh(indexed.topicIndex)
  {
    hide InStep, Storable, Serves;
    fast, slow := [], [];
    served, logs, at := [], [Log(plain.count, plain.values)], [0];
    for k := 0 to |rs|
      invariant InStep(indexed, plain) && fast == slow
      invariant Sifts(rs[..k], served, logs, at) && ServesAll(logs, served, slow)
      invariant logs[0] == old(Log(plain.count, plain.values)) && logs[|served|] == Log(plain.count, plain.values)
      invariant indexed.asidps == old(indexed.asidps) || fresh(indexed.asidps)
      invariant indexed.topicIndex == old(indexed.topicIndex) || fresh(indexed.topicIndex)
    {
      assert rs[..k + 1] == rs[..k] + [rs[k]];
      if rs[k].Store? || rs[k].vid in plain.values {
        var a, b := Serve(indexed, plain, rs[k]);
        SiftMore(rs[..k], served, logs, at, slow, rs[k], b, Log(plain.count, plain.values));
        at, served, logs := at + [|served| + 1], served + [rs[k]], logs + [Log(plain.count, plain.values)];
        fast, slow := fast + [a], slow + [b];
      } else {
        SiftSkip(rs[..k], served, logs, at, rs[k]);
        at := at + [|served|];
      }
    }
    assert rs[..|rs|] == rs;
  }

  /** The VALUE_INCLUDES_TOPIC scan of both: by the topic index, and by going through all VIDs. */
  method Scan(indexed: AsidpStore, plain: PlainStore, t: Topic) returns (a: seq<Vid>, b: seq<Vid>)
    requires InStep(indexed, plain)
    ensures NoDup(a) && NoDup(b) && Elems(a) == Elems(b)
    ensures forall v :: v in a <==> v in plain.values && t in TopicsOf(plain.values[v])
  {
    hide SlotsOk, IndexIs, Occurrences, Entries, LiveOf, TopicsOf;
    a := indexed.ScanIncluding(t);
    b := plain.Collect([], Includes(t));
    forall v ensures v in Elems(a) <==> v in Elems(b) {
      assert v in b <==> v in plain.values && Meets(Includes(t), plain.values[v]);
    }
  }
}
