/**
 * The value-type operations that storing and merging call: union and equality of
 * TextSets (src/textset.c), and replaceTopics of ASIDPs (src/asidp.c) and TopicSets
 * (src/vt_topicset.c), with the loops of the source.
 */
module ValueOps {
  import opened Basics
  import opened Values
  import opened Facts

  /** locatorset_union: pushes all of self, then what other adds. */
  method Union(self: seq<Locator>, other: seq<Locator>) returns (res: seq<Locator>)
    requires NoDup(self)
    ensures NoDup(res) && Elems(res) == Elems(self) + Elems(other)
    ensures res == PushAll(PushAll([], self), other)
  {
    hide PushAll, NoDup;
    res := Reversed(self);
    ghost var start := res;
    PushNone(start, other);
    for i := 0 to |other|
      invariant NoDup(res) && Elems(res) == Elems(self) + Elems(other[..i])
      invariant res == PushAll(start, other[..i])
    {
      PushNext(start, other, i);
      PushOne(res, other[i]);
      assert other[..i + 1] == other[..i] + [other[i]];
      if other[i] !in res {
        res := [other[i]] + res;
      }
    }
    assert other[..|other|] == other;
  }

  /** The first of the two loops. */
  method Reversed(self: seq<Locator>) returns (res: seq<Locator>)
    requires NoDup(self)
    ensures NoDup(res) && Elems(res) == Elems(self) && res == PushAll([], self)
  {
    res := [];
    for i := 0 to |self|
      invariant |res| == i && forall k :: 0 <= k < i ==> res[k] == self[i - 1 - k]
      invariant res == PushAll([], self[..i])
    {
      PushNext([], self, i);
      assert self[i] !in res;
      res := [self[i]] + res;
    }
    assert self[..|self|] == self;
    ReversedElems(self, res);
  }

  lemma PushNone(acc: seq<Locator>, ts: seq<Locator>)
    ensures PushAll(acc, ts[..0]) == acc
  {
  }

  lemma PushOne(s: seq<Locator>, l: Locator)
    requires NoDup(s)
    ensures if l in s then Elems(s) + {l} == Elems(s) else NoDup([l] + s) && Elems([l] + s) == Elems(s) + {l}
  {
    if l !in s { ElemsConcat([l], s); }
  }

  lemma ReversedElems<T>(s: seq<T>, r: seq<T>)
    requires |r| == |s| && forall k :: 0 <= k < |s| ==> r[k] == s[|s| - 1 - k]
    requires NoDup(s)
    ensures Elems(r) == Elems(s) && NoDup(r)
  {
    forall x | x in s ensures x in r {
      var k :| 0 <= k < |s| && s[k] == x;
      assert r[|s| - 1 - k] == x;
    }
  }

  /** locatorset_equal: inclusion both ways. */
  method SetEqual(lhs: seq<Locator>, rhs: seq<Locator>) returns (r: bool)
    ensures r <==> Elems(lhs) == Elems(rhs)
  {
    for i := 0 to |lhs|
      invariant forall k :: 0 <= k < i ==> lhs[k] in rhs
    {
      if lhs[i] !in rhs {
        assert lhs[i] in Elems(lhs);
        return false;
      }
    }
    for i := 0 to |rhs|
      invariant forall k :: 0 <= k < i ==> rhs[k] in lhs
    {
      if rhs[i] !in lhs {
        assert rhs[i] in Elems(rhs);
        return false;
      }
    }
    return true;
  }

  /** t with the disappearing topics ts[1..n] replaced by ts[0]. */
  function AtUpTo(ts: seq<Topic>, n: nat, t: Topic): Topic
    requires 1 <= n <= |ts|
  {
    if t in ts[1..n] then ts[0] else t
  }

  function UpTo(ts: seq<Topic>, n: nat): Topic -> Topic
    requires 1 <= n <= |ts|
  {
    t => AtUpTo(ts, n, t)
  }

  function Swap(t: Topic, disap: Topic, stays: Topic): Topic {
    if t == disap then stays else t
  }

  lemma AtUpToStep(ts: seq<Topic>, n: nat, t: Topic)
    requires NoDup(ts) && 1 <= n < |ts|
    ensures AtUpTo(ts, n + 1, t) == Swap(AtUpTo(ts, n, t), ts[n], ts[0])
  {
    assert ts[1..n + 1] == ts[1..n] + [ts[n]];
    assert ts[n] !in ts[1..n] && ts[0] != ts[n];
  }

  lemma AtUpToAll(ts: seq<Topic>, t: Topic)
    requires ts != []
    ensures AtUpTo(ts, |ts|, t) == At(ts, t)
  {
    assert ts == [ts[0]] + ts[1..];
  }

  /** The disappearing topics of a merge set. */
  function Disappearing(ts: seq<Topic>): set<Topic>
    requires ts != []
  {
    Elems(ts[1..])
  }

  /** The inner loop of asidp_replace_topics: one disappearing topic in all roles and players. */
  method SwapMembers(members: seq<Member>, disap: Topic, stays: Topic) returns (r: seq<Member>, changed: bool)
    ensures r == Rename(t => Swap(t, disap, stays), members)
    ensures changed <==> disap in MemberTopics(members)
  {
    r := members;
    changed := false;
    for j := 0 to |members|
      invariant |r| == |members|
      invariant forall k :: 0 <= k < j ==>
                  r[k] == Member(Swap(members[k].role, disap, stays), Swap(members[k].player, disap, stays))
      invariant forall k :: j <= k < |members| ==> r[k] == members[k]
      invariant changed <==> exists k :: 0 <= k < j && (members[k].role == disap || members[k].player == disap)
    {
      var m := r[j];
      if m.role == disap {
        m := m.(role := stays);
        changed := true;
      }
      if m.player == disap {
        m := m.(player := stays);
        changed := true;
      }
      r := r[j := m];
    }
    if changed {
      var k :| 0 <= k < |members| && (members[k].role == disap || members[k].player == disap);
      assert members[k] in members;
    }
  }

  /** asidp_add_membership for each membership of list in turn, starting from none. */
  method Resort(list: seq<Member>) returns (r: seq<Member>)
    ensures r == InsertAll([], list)
  {
    r := [];
    for i := 0 to |list|
      invariant InsertAll(r, list[i..]) == InsertAll([], list)
    {
      r := AddMembership(r, list[i]);
    }
  }

  /** asidp_add_membership: insertion after the last membership before the first larger role. */
  method AddMembership(members: seq<Member>, m: Member) returns (r: seq<Member>)
    ensures r == InsertMember(members, m)
  {
    var pos := 0;
    while pos < |members| && members[pos].role <= m.role
      invariant 0 <= pos <= |members|
      invariant InsertMember(members, m) == members[..pos] + InsertMember(members[pos..], m)
    {
      InsertLater(members, pos, m);
      pos := pos + 1;
    }
    r := members[..pos] + [m] + members[pos..];
  }

  lemma InsertLater(members: seq<Member>, pos: nat, m: Member)
    requires pos < |members| && members[pos].role <= m.role
    ensures members[..pos] + InsertMember(members[pos..], m) == members[..pos + 1] + InsertMember(members[pos + 1..], m)
  {
    assert members[pos..][1..] == members[pos + 1..];
    assert members[..pos + 1] == members[..pos] + [members[pos]];
  }

  /**
   * asidp_replace_topics: topic by topic in place, then re-sorting if anything changed.
   * The result is one simultaneous replacement in canonical form, and "changed" tells
   * whether a disappearing topic was present.
   */
  method ReplaceInAsidp(v: Value, ts: seq<Topic>) returns (r: Value, changed: bool)
    requires v.Asidp? && Canonical(v) && ts != [] && NoDup(ts)
    ensures r == Image(AtFun(ts), v)
    ensures changed <==> TopicsOf(v) * Disappearing(ts) != {}
  {
    hide StrictRoles, InsertAll, TopicsOf, Rename, Canonical;
    var typ, members := v.typ, v.members;
    changed := false;
    AsidpStart(v, ts);
    for i := 1 to |ts|
      invariant typ == AtUpTo(ts, i, v.typ)
      invariant members == Rename(UpTo(ts, i), v.members)
      invariant changed <==> TopicsOf(v) * Elems(ts[1..i]) != {}
    {
      ghost var was := Asidp(typ, members);
      var c := false;
      if typ == ts[i] {
        typ := ts[0];
        c := true;
      }
      var d;
      members, d := SwapMembers(members, ts[i], ts[0]);
      OneMore(v, ts, i, was);
      changed := changed || c || d;
    }
    UpToAll(v, ts);
    if changed {
      members := Resort(members);
    } else {
      UnchangedImage(v, ts);
    }
    r := Asidp(typ, members);
  }

  lemma AsidpStart(v: Value, ts: seq<Topic>)
    requires v.Asidp? && ts != []
    ensures v.typ == AtUpTo(ts, 1, v.typ) && v.members == Rename(UpTo(ts, 1), v.members)
    ensures TopicsOf(v) * Elems(ts[1..1]) == {}
  {
  }

  lemma UpToAll(v: Value, ts: seq<Topic>)
    requires v.Asidp? && ts != []
    ensures AtUpTo(ts, |ts|, v.typ) == At(ts, v.typ)
    ensures Rename(UpTo(ts, |ts|), v.members) == Rename(AtFun(ts), v.members)
    ensures Elems(ts[1..|ts|]) == Disappearing(ts)
  {
    forall t ensures AtUpTo(ts, |ts|, t) == At(ts, t) { AtUpToAll(ts, t); }
    assert ts[1..|ts|] == ts[1..];
  }

  /** A value without disappearing topics is its own image already, so it need not be re-sorted. */
  lemma UnchangedImage(v: Value, ts: seq<Topic>)
    requires v.Asidp? && Canonical(v) && ts != [] && TopicsOf(v) * Disappearing(ts) == {}
    ensures Asidp(At(ts, v.typ), Rename(AtFun(ts), v.members)) == Image(AtFun(ts), v)
  {
    forall t | t in TopicsOf(v) ensures At(ts, t) == t {
      assert t !in TopicsOf(v) * Disappearing(ts);
      assert ts == [ts[0]] + ts[1..];
    }
    ImageFixed(AtFun(ts), v);
    RenameFixed(AtFun(ts), v);
    assert v.typ in TopicsOf(v);
  }

  lemma RenameFixed(r: Topic -> Topic, v: Value)
    requires v.Asidp? && forall t :: t in TopicsOf(v) ==> r(t) == t
    ensures Rename(r, v.members) == v.members
  {
    forall i | 0 <= i < |v.members|
      ensures r(v.members[i].role) == v.members[i].role && r(v.members[i].player) == v.members[i].player
    {
      assert v.members[i] in v.members;
      assert v.members[i].role in TopicsOf(v) && v.members[i].player in TopicsOf(v);
    }
  }

  /** One more round of the outer loop: what it replaces, and whether the topic was there. */
  lemma OneMore(v: Value, ts: seq<Topic>, i: nat, was: Value)
    requires v.Asidp? && NoDup(ts) && 1 <= i < |ts|
    requires was == Asidp(AtUpTo(ts, i, v.typ), Rename(UpTo(ts, i), v.members))
    ensures Rename(t => Swap(t, ts[i], ts[0]), was.members) == Rename(UpTo(ts, i + 1), v.members)
    ensures Swap(was.typ, ts[i], ts[0]) == AtUpTo(ts, i + 1, v.typ)
    ensures was.typ == ts[i] || ts[i] in MemberTopics(was.members) <==> ts[i] in TopicsOf(v)
    ensures TopicsOf(v) * Elems(ts[1..i + 1]) != {} <==> TopicsOf(v) * Elems(ts[1..i]) != {} || ts[i] in TopicsOf(v)
  {
    forall t ensures AtUpTo(ts, i + 1, t) == Swap(AtUpTo(ts, i, t), ts[i], ts[0]) { AtUpToStep(ts, i, t); }
    forall t ensures AtUpTo(ts, i, t) == ts[i] <==> t == ts[i] {
      assert ts[i] !in ts[1..i] && ts[0] != ts[i];
    }
    RenameTopics(UpTo(ts, i), v.members);
    assert ts[1..i + 1] == ts[1..i] + [ts[i]];
    ElemsConcat(ts[1..i], [ts[i]]);
    assert TopicsOf(v) * Elems(ts[1..i + 1]) == TopicsOf(v) * Elems(ts[1..i]) + TopicsOf(v) * {ts[i]};
  }

  /**
   * topicset_replace_topics. ok is false when its assertion that stays is not in the set
   * yet fails, which happens exactly when the replacement would fuse two members.
   */
  method ReplaceInTopicSet(v: Value, ts: seq<Topic>) returns (ok: bool, r: Value, changed: bool)
    requires v.Topics? && ts != [] && NoDup(ts)
    ensures ok <==> !Collides(AtFun(ts), v)
    ensures ok ==> r == Image(AtFun(ts), v)
    ensures ok ==> (changed <==> TopicsOf(v) * Disappearing(ts) != {})
  {
    hide AtUpTo, MembersApart, Elems;
    var topics := v.topics;
    changed := false;
    SetStart(v.topics, ts);
    for i := 1 to |ts|
      invariant topics == Swapped(v.topics, ts, i)
      invariant MembersApart(UpTo(ts, i), v.topics)
      invariant changed <==> v.topics * Elems(ts[1..i]) != {}
    {
      SetStep(v.topics, ts, i);
      if ts[i] in topics {
        if ts[0] in topics {
          CollisionNow(v, ts, i);
          return false, v, changed;
        }
        topics := topics - {ts[i]} + {ts[0]};
        changed := true;
      }
    }
    SetEnd(v.topics, ts);
    return true, Topics(topics), changed;
  }

  /** The set after the first n - 1 disappearing topics have been replaced. */
  function Swapped(s: set<Topic>, ts: seq<Topic>, n: nat): set<Topic>
    requires 1 <= n <= |ts|
  {
    set t | t in s :: AtUpTo(ts, n, t)
  }

  lemma SetStart(s: set<Topic>, ts: seq<Topic>)
    requires ts != []
    ensures Swapped(s, ts, 1) == s && MembersApart(UpTo(ts, 1), s) && s * Elems(ts[1..1]) == {}
  {
  }

  lemma SetStep(s: set<Topic>, ts: seq<Topic>, i: nat)
    requires NoDup(ts) && 1 <= i < |ts| && MembersApart(UpTo(ts, i), s)
    ensures ts[i] in Swapped(s, ts, i) <==> ts[i] in s
    ensures Swapped(s, ts, i + 1) == if ts[i] in s then Swapped(s, ts, i) - {ts[i]} + {ts[0]} else Swapped(s, ts, i)
    ensures ts[i] !in s || ts[0] !in Swapped(s, ts, i) ==> MembersApart(UpTo(ts, i + 1), s)
    ensures s * Elems(ts[1..i + 1]) != {} <==> s * Elems(ts[1..i]) != {} || ts[i] in s
  {
    forall t ensures AtUpTo(ts, i + 1, t) == Swap(AtUpTo(ts, i, t), ts[i], ts[0]) { AtUpToStep(ts, i, t); }
    forall t ensures AtUpTo(ts, i, t) == ts[i] <==> t == ts[i] {
      assert ts[i] !in ts[1..i] && ts[0] != ts[i];
    }
    assert ts[1..i + 1] == ts[1..i] + [ts[i]];
    ElemsConcat(ts[1..i], [ts[i]]);
    assert s * Elems(ts[1..i + 1]) == s * Elems(ts[1..i]) + s * {ts[i]};
    assert ts[i] in s <==> ts[i] in s * {ts[i]};
    SwapImage(s, UpTo(ts, i), UpTo(ts, i + 1), ts[i], ts[0]);
    if ts[i] !in s || ts[0] !in Swapped(s, ts, i) {
      SwapApart(s, UpTo(ts, i), UpTo(ts, i + 1), ts[i], ts[0]);
    }
  }

  /** Swapping one topic for another in the image of a set, when only that topic maps to itself. */
  lemma SwapImage(s: set<Topic>, g: Topic -> Topic, h: Topic -> Topic, d: Topic, stays: Topic)
    requires forall t :: h(t) == Swap(g(t), d, stays)
    requires forall t :: g(t) == d <==> t == d
    requires d != stays
    ensures var image := set t | t in s :: g(t);
            && (d in image <==> d in s)
            && (set t | t in s :: h(t)) == if d in s then image - {d} + {stays} else image
  {
    var image := set t | t in s :: g(t);
    forall t | t in s ensures g(t) in image { }
    if d in s { assert h(d) == stays; }
    var image' := set t | t in s :: h(t);
    forall x | x in (if d in s then image - {d} + {stays} else image) ensures x in image' {
      if x in image && x != d {
        var t :| t in s && g(t) == x;
        assert h(t) == x;
      }
    }
  }

  /** The swap keeps members apart unless it makes one of them the topic that stays. */
  lemma SwapApart(s: set<Topic>, g: Topic -> Topic, h: Topic -> Topic, d: Topic, stays: Topic)
    requires forall t :: h(t) == Swap(g(t), d, stays)
    requires forall t :: g(t) == d <==> t == d
    requires MembersApart(g, s) && (d !in s || stays !in set t | t in s :: g(t))
    ensures MembersApart(h, s)
  {
    var image := set t | t in s :: g(t);
    forall x, y | x in s && y in s && x != y ensures h(x) != h(y) {
      assert g(x) in image && g(y) in image;
    }
  }

  lemma SetEnd(s: set<Topic>, ts: seq<Topic>)
    requires ts != []
    ensures Swapped(s, ts, |ts|) == set t | t in s :: At(ts, t)
    ensures MembersApart(UpTo(ts, |ts|), s) <==> MembersApart(AtFun(ts), s)
    ensures Elems(ts[1..|ts|]) == Disappearing(ts)
  {
    forall t ensures AtUpTo(ts, |ts|, t) == At(ts, t) { AtUpToAll(ts, t); }
    assert ts[1..|ts|] == ts[1..];
  }

  lemma CollisionNow(v: Value, ts: seq<Topic>, i: nat)
    requires v.Topics? && NoDup(ts) && 1 <= i < |ts| && ts[i] in v.topics && ts[0] in Swapped(v.topics, ts, i)
    ensures Collides(AtFun(ts), v)
  {
    var t :| t in v.topics && AtUpTo(ts, i, t) == ts[0];
    assert ts[i] !in ts[1..i];
    assert t in ts && t != ts[i] && ts[i] in ts;
    assert AtFun(ts)(t) == AtFun(ts)(ts[i]);
  }

  /** The check of _make_array (stores/memstore/asidp.c:466): roles strictly increase. */
  method StrictlySorted(members: seq<Member>) returns (r: bool)
    ensures r <==> StrictRoles(members)
  {
    if members == [] {
      return true;
    }
    for i := 1 to |members|
      invariant StrictRoles(members[..i])
    {
      if members[i].role <= members[i - 1].role {
        return false;
      }
      assert members[..i + 1] == members[..i] + [members[i]];
      assert members[..i][i - 1] == members[i - 1];
    }
    assert members[..|members|] == members;
    return true;
  }

  /**
   * "replaceTopics" followed by the check that storing the result makes. ok is false
   * exactly when one of the two assertions fails.
   */
  method ReplaceInValue(v: Value, ts: seq<Topic>) returns (ok: bool, r: Value, changed: bool)
    requires (v.Asidp? || v.Topics?) && Canonical(v) && ts != [] && NoDup(ts)
    ensures ok <==> !Collides(AtFun(ts), v)
    ensures ok ==> r == Image(AtFun(ts), v) && Canonical(r)
    ensures ok ==> (changed <==> TopicsOf(v) * Disappearing(ts) != {})
  {
    if v.Topics? {
      ok, r, changed := ReplaceInTopicSet(v, ts);
    } else {
      r, changed := ReplaceInAsidp(v, ts);
      StrictIffApart(AtFun(ts), v.members);
      ok := StrictlySorted(r.members);
    }
  }
}
