/**
 * The array form of ASIDP values (stores/memstore/asidp.c): type, number of memberships,
 * then role and player of each, ordered by role.
 */
module AsidpArrays {
  import opened Basics
  import opened Values

  function Flat(ms: seq<Member>): (s: seq<Topic>)
    ensures |s| == 2 * |ms|
  {
    if ms == [] then [] else [ms[0].role, ms[0].player] + Flat(ms[1..])
  }

  function Pairs(s: seq<Topic>): seq<Member> {
    if |s| < 2 then [] else [Member(s[0], s[1])] + Pairs(s[2..])
  }

  function ArrayOf(v: Value): seq<Topic>
    requires v.Asidp?
  {
    [v.typ, |v.members|] + Flat(v.members)
  }

  /** Type and memberships, without the length field. */
  function ValueAt(a: seq<Topic>): Value
    requires |a| >= 2
  {
    Asidp(a[0], Pairs(a[2..]))
  }

  /** The second field gives the length (NELEMS), and the roles increase. */
  ghost predicate GoodArray(a: seq<Topic>) {
    |a| >= 2 && |a| == 2 + 2 * a[1] && Canonical(ValueAt(a))
  }

  lemma {:induction false} PairsOfFlat(ms: seq<Member>)
    ensures Pairs(Flat(ms)) == ms
  {
    if ms != [] {
      PairsOfFlat(ms[1..]);
      assert Flat(ms)[2..] == Flat(ms[1..]);
    }
  }

  lemma {:induction false} FlatOfPairs(s: seq<Topic>, n: nat)
    requires |s| == 2 * n
    ensures |Pairs(s)| == n && Flat(Pairs(s)) == s
    decreases n
  {
    if n > 0 {
      FlatOfPairs(s[2..], n - 1);
      assert s == [s[0], s[1]] + s[2..];
      assert Pairs(s)[1..] == Pairs(s[2..]);
    }
  }

  lemma {:induction false} FlatConcat(a: seq<Member>, b: seq<Member>)
    ensures Flat(a + b) == Flat(a) + Flat(b)
  {
    if a == [] {
      assert a + b == b;
    } else {
      FlatConcat(a[1..], b);
      assert (a + b)[1..] == a[1..] + b;
    }
  }

  /** _make_array and _asidp_value_from_array undo each other: a value survives the array form. */
  lemma ArrayThenValue(v: Value)
    requires v.Asidp?
    ensures ValueAt(ArrayOf(v)) == v
    ensures GoodArray(ArrayOf(v)) <==> Canonical(v)
  {
    var a := ArrayOf(v);
    assert a[2..] == Flat(v.members);
    PairsOfFlat(v.members);
  }

  /** And an array survives the value form; so equal values have identical arrays. */
  lemma ValueThenArray(a: seq<Topic>)
    requires GoodArray(a)
    ensures ArrayOf(ValueAt(a)) == a
  {
    FlatOfPairs(a[2..], a[1]);
    assert a == [a[0], a[1]] + a[2..];
  }

  lemma FlatStep(ms: seq<Member>, j: nat)
    requires j < |ms|
    ensures Flat(ms[..j + 1]) == Flat(ms[..j]) + [ms[j].role, ms[j].player]
  {
    FlatConcat(ms[..j], [ms[j]]);
    assert ms[..j + 1] == ms[..j] + [ms[j]];
    assert Flat([ms[j]]) == [ms[j].role, ms[j].player];
  }

  /** The loop of _make_array; the source asserts the order of the roles as it copies. */
  method MakeArray(v: Value) returns (n: array<Topic>)
    requires v.Asidp? && StrictRoles(v.members)
    ensures fresh(n) && n[..] == ArrayOf(v)
  {
    var ms := v.members;
    assert forall j :: 0 < j < |ms| ==> ms[j - 1].role < ms[j].role;
    hide Flat, StrictRoles;
    n := new Topic[2 + 2 * |ms|](_ => 0);
    n[0], n[1] := v.typ, |ms|;
    NoneFlat(ms);
    var k := 2;
    for j := 0 to |ms|
      invariant k == 2 + 2 * j && n[..k] == [v.typ, |ms|] + Flat(ms[..j])
      invariant j > 0 ==> n[k - 2] == ms[j - 1].role
    {
      FlatStep(ms, j);
      Extended([v.typ, |ms|], Flat(ms[..j]), ms[j]);
      PutPair(n, k, ms[j].role, ms[j].player);
      if j > 0 {
        assert n[k] > n[k - 2];
      }
      k := k + 2;
    }
    assert ms[..|ms|] == ms && n[..] == n[..k];
  }

  lemma Extended(head: seq<Topic>, tail: seq<Topic>, m: Member)
    ensures (head + tail) + [m.role, m.player] == head + (tail + [m.role, m.player])
  {
  }

  method PutPair(n: array<Topic>, k: nat, role: Topic, player: Topic)
    requires k + 2 <= n.Length
    modifies n
    ensures n[..k + 2] == old(n[..k]) + [role, player]
    ensures n[k] == role && n[k + 1] == player && forall i :: 0 <= i < k ==> n[i] == old(n[i])
  {
    n[k], n[k + 1] := role, player;
  }

  lemma NoneFlat(ms: seq<Member>)
    ensures Flat(ms[..0]) == []
  {
  }

  /** The loop of _asidp_value_from_array. */
  method ValueFromArray(a: seq<Topic>) returns (v: Value)
    requires GoodArray(a)
    ensures v == ValueAt(a)
  {
    var ms: seq<Member> := [];
    for i := 0 to a[1]
      invariant |ms| == i && Flat(ms) == a[2..2 + 2 * i]
    {
      var m := Member(a[2 + 2 * i], a[3 + 2 * i]);
      FlatConcat(ms, [m]);
      assert Flat([m]) == [m.role, m.player];
      assert a[2..4 + 2 * i] == a[2..2 + 2 * i] + [m.role, m.player];
      ms := ms + [m];
    }
    assert a[2..2 + 2 * a[1]] == a[2..];
    PairsOfFlat(ms);
    return Asidp(a[0], ms);
  }

  /** r is the role and p the player of one of the memberships in the array. */
  ghost predicate PairInFields(a: seq<Topic>, r: Topic, p: Topic) {
    exists j :: 0 <= 2 * j && 3 + 2 * j < |a| && a[2 + 2 * j] == r && a[3 + 2 * j] == p
  }

  lemma {:induction false} FlatAt(ms: seq<Member>, j: nat)
    requires j < |ms|
    ensures Flat(ms)[2 * j] == ms[j].role && Flat(ms)[2 * j + 1] == ms[j].player
  {
    if j > 0 { FlatAt(ms[1..], j - 1); }
  }

  /** The conditions of the scans, on the fields that the C code compares (asidp.c:546, 676). */
  lemma MeetsFields(v: Value, t: Topic, r: Topic, p: Topic)
    requires v.Asidp?
    ensures Meets(HasType(t), v) <==> ArrayOf(v)[0] == t
    ensures Meets(HasPair(r, p), v) <==> PairInFields(ArrayOf(v), r, p)
    ensures Meets(Includes(t), v) <==> t in Fields(ArrayOf(v))
  {
    var a, ms := ArrayOf(v), v.members;
    assert a[2..] == Flat(ms);
    if Member(r, p) in ms {
      var j :| 0 <= j < |ms| && ms[j] == Member(r, p);
      FlatAt(ms, j);
      assert a[2 + 2 * j] == Flat(ms)[2 * j] && a[3 + 2 * j] == Flat(ms)[2 * j + 1];
    }
    if j :| 0 <= 2 * j && 3 + 2 * j < |a| && a[2 + 2 * j] == r && a[3 + 2 * j] == p {
      FlatAt(ms, j);
      assert a[2 + 2 * j] == Flat(ms)[2 * j] && a[3 + 2 * j] == Flat(ms)[2 * j + 1];
    }
    FlatTopics(ms);
    assert t in Flat(ms) <==> t in Elems(Flat(ms));
  }

  /** What can be indexed has an array of six fields at least, as asidp.c:293 asserts. */
  lemma IndexableFields(v: Value)
    requires v.Asidp?
    ensures Indexable(v) <==> |ArrayOf(v)| >= 6
  {
  }

  /** The topics in the array: every field but the length. */
  function Fields(a: seq<Topic>): seq<Topic> {
    if |a| < 2 then [] else [a[0]] + a[2..]
  }

  lemma {:induction false} FlatTopics(ms: seq<Member>)
    ensures Elems(Flat(ms)) == MemberTopics(ms)
  {
    if ms != [] {
      var m, rest := ms[0], ms[1..];
      FlatTopics(rest);
      ElemsConcat([m.role, m.player], Flat(rest));
      assert ms == [m] + rest;
      assert MemberTopics(ms) == {m.role, m.player} + MemberTopics(rest);
    }
  }

  lemma FieldsAreTopics(a: seq<Topic>)
    requires GoodArray(a)
    ensures Elems(Fields(a)) == TopicsOf(ValueAt(a))
  {
    FlatOfPairs(a[2..], a[1]);
    FlatTopics(Pairs(a[2..]));
    ElemsConcat([a[0]], a[2..]);
  }
}
