/**
 * A value store that finds values by searching its VIDs in turn: the TopicSet store
 * (stores/memstore/topicsetstore.c) and the linear ASIDP store (stores/memstore/slow_asidp.c).
 */
module PlainStores {
  import opened Basics
  import opened Values

  /**
   * What LOOKUP_OR_CREATE does in any of the value stores: an equal live value is found,
   * otherwise the value goes under the next VID.
   */
  ghost predicate Answered(count: nat, values: map<Vid, Value>, value: Value, vid: Vid, count': nat,
                           values': map<Vid, Value>) {
    if IsLive(values, value) then vid in values && values[vid] == value && count' == count && values' == values
    else vid == count' == count + 1 && vid !in values && values' == values[vid := value]
  }

  ghost predicate IsLive(values: map<Vid, Value>, value: Value) {
    exists v :: v in values && values[v] == value
  }

  /** The contents of a value store, and the requests that change them. */
  datatype Log = Log(count: nat, values: map<Vid, Value>)
  datatype Request = Store(value: Value) | Forget(vid: Vid)

  ghost predicate Distinct(values: map<Vid, Value>) {
    forall v, w :: v in values && w in values && values[v] == values[w] ==> v == w
  }

  ghost predicate Serves(before: Log, r: Request, vid: Vid, after: Log) {
    match r
    case Store(value) => Answered(before.count, before.values, value, vid, after.count, after.values)
    case Forget(v) => v in before.values && vid == v && after == Log(before.count, before.values - {v})
  }

  /** A store that goes through the contents logs and answers vids serves the requests. */
  ghost predicate ServesAll(logs: seq<Log>, rs: seq<Request>, vids: seq<Vid>) {
    && |logs| == |rs| + 1 && |vids| == |rs|
    && forall k :: 0 <= k < |rs| ==> Serves(logs[k], rs[k], vids[k], logs[k + 1])
  }

  lemma ServedDistinct(before: Log, r: Request, vid: Vid, after: Log)
    requires Distinct(before.values) && Serves(before, r, vid, after)
    ensures Distinct(after.values)
  {
    if r.Store? && !IsLive(before.values, r.value) {
      assert forall v :: v in before.values ==> before.values[v] != r.value;
    }
  }

  /**
   * Any two stores that serve the same requests from the same start give the same answers
   * and have the same contents throughout, so that their scans range over the same values.
   */
  lemma {:induction false} SameRun(logs: seq<Log>, vids: seq<Vid>, logs': seq<Log>, vids': seq<Vid>, rs: seq<Request>)
    requires ServesAll(logs, rs, vids) && ServesAll(logs', rs, vids')
    requires logs[0] == logs'[0] && Distinct(logs[0].values)
    ensures logs == logs' && vids == vids' && Distinct(logs[|rs|].values)
    decreases |rs|
  {
    if rs != [] {
      var n := |rs| - 1;
      assert Serves(logs[n], rs[n], vids[n], logs[n + 1]) && Serves(logs'[n], rs[n], vids'[n], logs'[n + 1]);
      SameRun(logs[..n + 1], vids[..n], logs'[..n + 1], vids'[..n], rs[..n]);
      assert logs[n] == logs[..n + 1][n] && logs'[n] == logs'[..n + 1][n];
      SameAnswer(logs[n], rs[n], vids[n], logs[n + 1], vids'[n], logs'[n + 1]);
      assert logs == logs[..n + 1] + [logs[n + 1]] && logs' == logs'[..n + 1] + [logs'[n + 1]];
      assert vids == vids[..n] + [vids[n]] && vids' == vids'[..n] + [vids'[n]];
    }
  }

  lemma SameAnswer(before: Log, r: Request, vid: Vid, after: Log, vid': Vid, after': Log)
    requires Distinct(before.values) && Serves(before, r, vid, after) && Serves(before, r, vid', after')
    ensures vid == vid' && after == after' && Distinct(after.values)
  {
    ServedDistinct(before, r, vid, after);
  }

  /** The VIDs below n whose value meets q, in increasing order. */
  ghost function MeetingIn(values: map<Vid, Value>, q: Condition, n: nat): seq<Vid> {
    if n == 0 then []
    else MeetingIn(values, q, n - 1) + if n - 1 in values && Meets(q, values[n - 1]) then [n - 1] else []
  }

  lemma {:induction false} MeetingGap(values: map<Vid, Value>, q: Condition, m: nat, n: nat)
    requires m <= n && forall v :: v in values && m <= v < n ==> !Meets(q, values[v])
    ensures MeetingIn(values, q, n) == MeetingIn(values, q, m)
    decreases n
  {
    if m < n { MeetingGap(values, q, m, n - 1); }
  }

  /** From one meeting VID to the next, the scan pushes that one. */
  lemma MeetingNext(acc: seq<Vid>, values: map<Vid, Value>, q: Condition, pos: nat, vid: nat)
    requires pos < vid && vid in values && Meets(q, values[vid])
    requires forall v :: v in values && pos < v < vid ==> !Meets(q, values[v])
    ensures var before := PushAll(acc, MeetingIn(values, q, pos + 1));
            PushAll(acc, MeetingIn(values, q, vid + 1)) == if vid in before then before else [vid] + before
  {
    MeetingGap(values, q, pos + 1, vid);
    var more := MeetingIn(values, q, vid + 1);
    assert more == MeetingIn(values, q, pos + 1) + [vid];
    PushNext(acc, more, |more| - 1);
    assert more[..|more|] == more && more[..|more| - 1] == MeetingIn(values, q, pos + 1);
  }

  lemma NoneMeeting(acc: seq<Vid>, values: map<Vid, Value>, q: Condition)
    requires 0 !in values
    ensures PushAll(acc, MeetingIn(values, q, 1)) == acc
  {
    assert MeetingIn(values, q, 1) == MeetingIn(values, q, 0) + [];
  }

  class PlainStore {
    var count: nat
    var values: map<Vid, Value>

    constructor ()
      ensures Valid() && values == map[]
    {
      count := 0;
      values := map[];
    }

    ghost predicate Valid()
      reads this
    {
      && (forall v :: v in values ==> 1 <= v <= count && !values[v].Locators? && Canonical(values[v]))
      && (forall v, w :: v in values && w in values && values[v] == values[w] ==> v == w)
    }

    /** The linear search: a live VID with this value, or 0. */
    method FindValue(value: Value) returns (vid: Vid)
      requires Valid()
      ensures vid != 0 ==> vid in values && values[vid] == value
      ensures vid == 0 ==> forall v :: v in values ==> values[v] != value
    {
      for i := 1 to count + 1
        invariant forall v :: v in values && v < i ==> values[v] != value
      {
        if i in values && values[i] == value {
          return i;
        }
      }
      return 0;
    }

    /** TM_VALUE_LOOKUP_OR_CREATE. */
    method LookupOrCreate(value: Value) returns (vid: Vid)
      requires Valid() && Canonical(value) && !value.Locators?
      modifies this
      ensures Valid()
      ensures vid in values && values[vid] == value
      ensures vid != 0
      ensures Serves(Log(old(count), old(values)), Store(value), vid, Log(count, values))
      ensures vid in old(values) ==> values == old(values)
      ensures vid !in old(values) ==> values == old(values)[vid := value] && forall v :: v in old(values) ==>
                old(values)[v] != value
    {
      vid := FindValue(value);
      if vid == 0 {
        count := count + 1;
        vid := count;
        values := values[vid := value];
      }
    }

    method DeleteValue(vid: Vid)
      requires Valid() && vid in values
      modifies this
      ensures Valid() && values == old(values) - {vid}
      ensures Serves(Log(old(count), old(values)), Forget(vid), vid, Log(count, values))
    {
      values := values - {vid};
    }

    /** The next live VID after pos whose value meets q, or 0 when there is none: a scan cursor. */
    method NextMeeting(pos: Vid, q: Condition) returns (vid: Vid)
      requires Valid()
      ensures vid != 0 ==> vid > pos && vid in values && Meets(q, values[vid])
      ensures forall v :: v in values && pos < v && (vid == 0 || v < vid) ==> !Meets(q, values[v])
    {
      var i := pos + 1;
      while i <= count
        invariant pos < i
        invariant forall v :: v in values && pos < v < i ==> !Meets(q, values[v])
      {
        if i in values && Meets(q, values[i]) {
          return i;
        }
        i := i + 1;
      }
      return 0;
    }

    /** A whole scan, adding the VIDs that acc does not have yet. */
    method Collect(acc: seq<Vid>, q: Condition) returns (vids: seq<Vid>)
      requires Valid() && NoDup(acc)
      ensures NoDup(vids)
      ensures forall v :: v in vids <==> v in acc || (v in values && Meets(q, values[v]))
      ensures vids == PushAll(acc, MeetingIn(values, q, count + 1))
    {
      hide Meets, PushAll, MeetingIn;
      vids := acc;
      var vid := NextMeeting(0, q);
      ghost var pos: Vid := 0;
      NoneMeeting(acc, values, q);
      while vid != 0
        invariant NoDup(vids) && pos <= count
        invariant vid != 0 ==> vid > pos && vid in values && Meets(q, values[vid])
        invariant forall v :: v in values && pos < v && (vid == 0 || v < vid) ==> !Meets(q, values[v])
        invariant forall v :: v in vids <==> v in acc || (v in values && v <= pos && Meets(q, values[v]))
        invariant vids == PushAll(acc, MeetingIn(values, q, pos + 1))
        decreases if vid == 0 then 0 else 1 + count - vid
      {
        MeetingNext(acc, values, q, pos, vid);
        if vid !in vids {
          vids := [vid] + vids;
        }
        pos := vid;
        vid := NextMeeting(vid, q);
      }
      MeetingGap(values, q, pos + 1, count + 1);
    }
  }
}
