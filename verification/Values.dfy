/**
 * Property values: TextSet, Text, ASIDP and TopicSet, and the two operations that
 * merging applies to them, in-value topic replacement and its canonical re-sorting.
 */
module Values {
  import opened Basics

  datatype Member = Member(role: Topic, player: Topic)

  datatype Value =
    | Locators(locs: set<Locator>)
    | Text(text: string)
    | Asidp(typ: Topic, members: seq<Member>)
    | Topics(topics: set<Topic>)

  // --- membership lists ------------------------------------------------------

  /** Insertion before the first membership with a larger role. */
  function InsertMember(ms: seq<Member>, m: Member): seq<Member> {
    if ms == [] || ms[0].role > m.role then [m] + ms
    else [ms[0]] + InsertMember(ms[1..], m)
  }

  /** Insertion of each membership of ms in turn into acc. */
  function InsertAll(acc: seq<Member>, ms: seq<Member>): seq<Member>
    decreases |ms|
  {
    if ms == [] then acc else InsertAll(InsertMember(acc, ms[0]), ms[1..])
  }

  function Rename(r: Topic -> Topic, ms: seq<Member>): (n: seq<Member>)
    ensures |n| == |ms|
    ensures forall i :: 0 <= i < |ms| ==> n[i] == Member(r(ms[i].role), r(ms[i].player))
  {
    seq(|ms|, i requires 0 <= i < |ms| => Member(r(ms[i].role), r(ms[i].player)))
  }

  ghost predicate StrictRoles(ms: seq<Member>) {
    forall i, j :: 0 <= i < j < |ms| ==> ms[i].role < ms[j].role
  }

  /** The memberships up to a labelling and up to order. */
  ghost function Bag(f: Labelling, ms: seq<Member>): multiset<(nat, nat)> {
    if ms == [] then multiset{}
    else multiset{(f(ms[0].role), f(ms[0].player))} + Bag(f, ms[1..])
  }

  function Roles(ms: seq<Member>): set<Topic> {
    set m | m in ms :: m.role
  }

  /** r gives different roles to different memberships. */
  ghost predicate RolesApart(r: Topic -> Topic, ms: seq<Member>) {
    forall i, j :: 0 <= i < j < |ms| ==> r(ms[i].role) != r(ms[j].role)
  }

  const SAME: Topic -> Topic := t => t

  lemma BagPush(f: Labelling, m: Member, ms: seq<Member>)
    ensures Bag(f, [m] + ms) == multiset{(f(m.role), f(m.player))} + Bag(f, ms)
  {
    assert ([m] + ms)[1..] == ms;
  }

  lemma {:induction false} InsertMemberBag(f: Labelling, ms: seq<Member>, m: Member)
    ensures Bag(f, InsertMember(ms, m)) == Bag(f, ms) + multiset{(f(m.role), f(m.player))}
  {
    if ms == [] || ms[0].role > m.role {
      BagPush(f, m, ms);
    } else {
      var first, rest := ms[0], InsertMember(ms[1..], m);
      InsertMemberBag(f, ms[1..], m);
      assert InsertMember(ms, m) == [first] + rest && ms == [first] + ms[1..];
      hide Bag, InsertMember;
      BagPush(f, first, ms[1..]);
      BagPush(f, first, rest);
      BagsAssociate(multiset{(f(first.role), f(first.player))}, Bag(f, ms[1..]), multiset{(f(m.role), f(m.player))});
    }
  }

  lemma BagsAssociate(x: multiset<(nat, nat)>, y: multiset<(nat, nat)>, z: multiset<(nat, nat)>)
    ensures x + (y + z) == (x + y) + z
  {
  }

  lemma {:induction false} InsertAllBag(f: Labelling, acc: seq<Member>, ms: seq<Member>)
    ensures Bag(f, InsertAll(acc, ms)) == Bag(f, acc) + Bag(f, ms)
    decreases |ms|
  {
    if ms != [] {
      InsertMemberBag(f, acc, ms[0]);
      InsertAllBag(f, InsertMember(acc, ms[0]), ms[1..]);
    }
  }

  lemma {:induction false} RenameBag(f: Labelling, r: Topic -> Topic, ms: seq<Member>)
    ensures Bag(f, Rename(r, ms)) == Bag(t => f(r(t)), ms)
  {
    if ms != [] {
      RenameBag(f, r, ms[1..]);
      assert Rename(r, ms)[1..] == Rename(r, ms[1..]);
    }
  }

  lemma {:induction false} BagAgrees(f: Labelling, g: Labelling, ms: seq<Member>)
    requires forall m :: m in ms ==> f(m.role) == g(m.role) && f(m.player) == g(m.player)
    ensures Bag(f, ms) == Bag(g, ms)
  {
    if ms != [] {
      BagAgrees(f, g, ms[1..]);
    }
  }

  lemma {:induction false} InsertMemberElems(ms: seq<Member>, m: Member)
    ensures Elems(InsertMember(ms, m)) == Elems(ms) + {m}
    ensures |InsertMember(ms, m)| == |ms| + 1
  {
    if ms == [] || ms[0].role > m.role {
      ElemsConcat([m], ms);
    } else {
      InsertMemberElems(ms[1..], m);
      ElemsConcat([ms[0]], InsertMember(ms[1..], m));
      assert ms == [ms[0]] + ms[1..];
    }
  }

  lemma {:induction false} InsertMemberStrict(ms: seq<Member>, m: Member)
    requires StrictRoles(ms) && m.role !in Roles(ms)
    ensures StrictRoles(InsertMember(ms, m))
  {
    if ms == [] || ms[0].role > m.role {
    } else {
      var rest := InsertMember(ms[1..], m);
      InsertMemberStrict(ms[1..], m);
      InsertMemberElems(ms[1..], m);
      assert ms[0] in ms;
      assert ms[0].role < m.role;
      FirstBelow(ms, m, rest);
      hide Roles, Elems, InsertMember;
      PushStrict(ms[0], rest);
    }
  }

  lemma FirstBelow(ms: seq<Member>, m: Member, rest: seq<Member>)
    requires StrictRoles(ms) && ms != [] && ms[0].role < m.role && Elems(rest) == Elems(ms[1..]) + {m}
    ensures forall x :: x in rest ==> ms[0].role < x.role
  {
    forall x | x in rest ensures ms[0].role < x.role {
      assert x in Elems(rest);
    }
  }

  lemma PushStrict(first: Member, rest: seq<Member>)
    requires StrictRoles(rest) && forall x :: x in rest ==> first.role < x.role
    ensures StrictRoles([first] + rest)
  {
  }

  lemma {:induction false} InsertAllStrict(acc: seq<Member>, ms: seq<Member>)
    requires StrictRoles(acc)
    requires RolesApart(SAME, ms)
    requires Roles(acc) !! Roles(ms)
    ensures StrictRoles(InsertAll(acc, ms))
    decreases |ms|
  {
    if ms != [] {
      assert ms[0] in ms;
      InsertMemberStrict(acc, ms[0]);
      InsertMemberElems(acc, ms[0]);
      var acc' := InsertMember(acc, ms[0]);
      assert forall x :: x in acc' <==> x in Elems(acc');
      assert Roles(acc') == Roles(acc) + {ms[0].role};
      assert forall x :: x in ms[1..] ==> x in ms && x.role != ms[0].role;
      assert Roles(ms[1..]) <= Roles(ms) && ms[0].role !in Roles(ms[1..]);
      InsertAllStrict(acc', ms[1..]);
    }
  }

  lemma {:induction false} BagHas(ms: seq<Member>, m: Member)
    ensures (m.role, m.player) in Bag(SAME, ms) <==> m in ms
  {
    if ms != [] {
      BagHas(ms[1..], m);
    }
  }

  /** A strictly sorted membership list is determined by its bag of memberships. */
  lemma {:induction false} StrictUnique(a: seq<Member>, b: seq<Member>)
    requires StrictRoles(a) && StrictRoles(b) && Bag(SAME, a) == Bag(SAME, b)
    ensures a == b
  {
    if a != [] {
      BagHas(a, a[0]);
      BagHas(b, a[0]);
      BagHas(b, b[0]);
      BagHas(a, b[0]);
      assert a[0] == b[0];
      var first := multiset{(a[0].role, a[0].player)};
      assert Bag(SAME, a[1..]) == Bag(SAME, a) - first;
      assert Bag(SAME, b[1..]) == Bag(SAME, b) - first;
      StrictUnique(a[1..], b[1..]);
    }
  }

  /** Re-inserting a sorted list reproduces it. */
  lemma SortedStays(ms: seq<Member>)
    requires StrictRoles(ms)
    ensures InsertAll([], ms) == ms
  {
    InsertAllStrict([], ms);
    InsertAllBag(SAME, [], ms);
    StrictUnique(InsertAll([], ms), ms);
  }

  /** Canonical form: memberships with distinct roles give one list, whatever the order they are added in. */
  lemma AddOrderIrrelevant(a: seq<Member>, b: seq<Member>)
    requires RolesApart(SAME, a) && Bag(SAME, a) == Bag(SAME, b) && |a| == |b|
    requires RolesApart(SAME, b)
    ensures InsertAll([], a) == InsertAll([], b)
  {
    InsertAllStrict([], a);
    InsertAllStrict([], b);
    InsertAllBag(SAME, [], a);
    InsertAllBag(SAME, [], b);
    StrictUnique(InsertAll([], a), InsertAll([], b));
  }

  // --- values ----------------------------------------------------------------

  function MemberTopics(ms: seq<Member>): set<Topic> {
    (set m | m in ms :: m.role) + (set m | m in ms :: m.player)
  }

  lemma RenameTopics(r: Topic -> Topic, ms: seq<Member>)
    ensures MemberTopics(Rename(r, ms)) == set t | t in MemberTopics(ms) :: r(t)
  {
    var ns, target := Rename(r, ms), set t | t in MemberTopics(ms) :: r(t);
    forall m | m in ns ensures m.role in target && m.player in target {
      var i :| 0 <= i < |ns| && ns[i] == m;
      assert ms[i] in ms;
    }
    forall m | m in ms ensures r(m.role) in MemberTopics(ns) && r(m.player) in MemberTopics(ns) {
      var i :| 0 <= i < |ms| && ms[i] == m;
      assert ns[i] in ns;
    }
  }

  lemma SameElemsSameTopics(a: seq<Member>, b: seq<Member>)
    requires Elems(a) == Elems(b)
    ensures MemberTopics(a) == MemberTopics(b)
  {
    assert forall m :: m in a <==> m in Elems(a);
    assert forall m :: m in b <==> m in Elems(b);
  }

  /** The topics a value contains. */
  function TopicsOf(v: Value): set<Topic> {
    match v
    case Locators(_) => {}
    case Text(_) => {}
    case Asidp(t, ms) => {t} + MemberTopics(ms)
    case Topics(ts) => ts
  }

  /** The conditions of the value stores' scans: HAS_TYPE, HAS_PLAYER_PAIR, VALUE_INCLUDES_TOPIC, NOT_DISJOINT. */
  datatype Condition =
    | HasType(topic: Topic)
    | HasPair(role: Topic, player: Topic)
    | Includes(topic: Topic)
    | NotDisjoint(list: seq<Locator>)

  predicate Meets(q: Condition, v: Value) {
    match q
    case HasType(t) => v.Asidp? && v.typ == t
    case HasPair(r, p) => v.Asidp? && Member(r, p) in v.members
    case Includes(t) => t in TopicsOf(v)
    case NotDisjoint(list) => v.Locators? && v.locs * Elems(list) != {}
  }

  /**
   * A value built from memberships meets the pairs that were added, role for role and player for
   * player, and no other.
   */
  lemma PairsMet(t: Topic, ms: seq<Member>, r: Topic, p: Topic)
    ensures Meets(HasPair(r, p), Asidp(t, InsertAll([], ms)))
            <==> exists i :: 0 <= i < |ms| && ms[i].role == r && ms[i].player == p
  {
    var all, m := InsertAll([], ms), Member(r, p);
    InsertAllBag(SAME, [], ms);
    BagHas(all, m);
    BagHas(ms, m);
    if i :| 0 <= i < |ms| && ms[i].role == r && ms[i].player == p { assert ms[i] == m; }
  }

  /** Adding a membership makes a value meet its pair, and it still meets the pairs that it met. */
  lemma AddedPairMet(t: Topic, ms: seq<Member>, m: Member, r: Topic, p: Topic)
    ensures Meets(HasPair(r, p), Asidp(t, InsertMember(ms, m)))
            <==> Meets(HasPair(r, p), Asidp(t, ms)) || (r == m.role && p == m.player)
  {
    InsertMemberElems(ms, m);
    var after := InsertMember(ms, m);
    assert forall x :: x in after <==> x in Elems(after);
    assert forall x :: x in ms <==> x in Elems(ms);
  }

  /** An ASIDP that its store can index has two memberships at least (stores/memstore/asidp.c:293). */
  predicate Indexable(v: Value) {
    v.Asidp? ==> |v.members| >= 2
  }

  /** So it can be stored from its second membership on. */
  lemma SecondMembership(t: Topic, ms: seq<Member>, m: Member)
    ensures Indexable(Asidp(t, InsertMember(ms, m))) <==> ms != []
  {
    InsertMemberElems(ms, m);
  }

  ghost predicate Canonical(v: Value) {
    v.Asidp? ==> StrictRoles(v.members)
  }

  /** The value after every topic in it is replaced by its image under r, memberships re-sorted. */
  function Image(r: Topic -> Topic, v: Value): Value {
    match v
    case Locators(_) => v
    case Text(_) => v
    case Asidp(t, ms) => Asidp(r(t), InsertAll([], Rename(r, ms)))
    case Topics(ts) => Topics(set t | t in ts :: r(t))
  }

  /** r gives different topics to different members. */
  ghost predicate MembersApart(r: Topic -> Topic, ts: set<Topic>) {
    forall x, y :: x in ts && y in ts && x != y ==> r(x) != r(y)
  }

  /**
   * Replacement by r makes two roles of one ASIDP, or two members of one TopicSet, the
   * same. The C library aborts on that: stores/memstore/asidp.c:466, src/vt_topicset.c:147.
   */
  ghost predicate Collides(r: Topic -> Topic, v: Value) {
    match v
    case Locators(_) => false
    case Text(_) => false
    case Asidp(_, ms) => !RolesApart(r, ms)
    case Topics(ts) => !MembersApart(r, ts)
  }

  function ImageSet(r: Topic -> Topic, ts: set<Topic>): set<Topic> {
    set t | t in ts :: r(t)
  }

  /** Replacement in a TopicSet collides exactly when the set gets smaller. */
  lemma {:induction false} CollidesIffSmaller(r: Topic -> Topic, ts: set<Topic>)
    ensures |ImageSet(r, ts)| <= |ts|
    ensures Collides(r, Topics(ts)) <==> |ImageSet(r, ts)| < |ts|
    decreases |ts|
  {
    if ts != {} {
      var x :| x in ts;
      var rest := ts - {x};
      CollidesIffSmaller(r, rest);
      assert ImageSet(r, ts) == ImageSet(r, rest) + {r(x)};
      if r(x) in ImageSet(r, rest) {
        var y :| y in rest && r(y) == r(x);
        assert ImageSet(r, ts) == ImageSet(r, rest);
      } else {
        assert MembersApart(r, ts) <==> MembersApart(r, rest);
      }
    }
  }

  /** What a labelling can tell about a value. */
  datatype Print =
    | PrintLocators(locs: set<Locator>)
    | PrintText(text: string)
    | PrintAsidp(typ: nat, bag: multiset<(nat, nat)>)
    | PrintTopics(topics: set<nat>)

  ghost function PrintOf(f: Labelling, v: Value): Print {
    match v
    case Locators(ls) => PrintLocators(ls)
    case Text(s) => PrintText(s)
    case Asidp(t, ms) => PrintAsidp(f(t), Bag(f, ms))
    case Topics(ts) => PrintTopics(set t | t in ts :: f(t))
  }

  /**
   * The values identify their topics, given that f's classes are already identified:
   * overlapping locator sets, or values equal up to f.
   */
  ghost predicate Alike(f: Labelling, v: Value, w: Value) {
    if v.Locators? && w.Locators? then v.locs * w.locs != {}
    else PrintOf(f, v) == PrintOf(f, w)
  }

  lemma ImagePrint(f: Labelling, r: Topic -> Topic, v: Value)
    ensures PrintOf(f, Image(r, v)) == PrintOf(t => f(r(t)), v)
  {
    match v
    case Locators(_) =>
    case Text(_) =>
    case Asidp(t, ms) =>
      InsertAllBag(f, [], Rename(r, ms));
      RenameBag(f, r, ms);
    case Topics(ts) =>
  }

  lemma PrintAgrees(f: Labelling, g: Labelling, v: Value)
    requires forall t :: t in TopicsOf(v) ==> f(t) == g(t)
    ensures PrintOf(f, v) == PrintOf(g, v)
  {
    match v
    case Locators(_) =>
    case Text(_) =>
    case Asidp(t, ms) =>
      assert forall m :: m in ms ==> m.role in TopicsOf(v) && m.player in TopicsOf(v);
      BagAgrees(f, g, ms);
    case Topics(ts) =>
      assert forall t :: t in ts ==> f(t) == g(t);
      assert (set t | t in ts :: f(t)) == (set t | t in ts :: g(t));
  }

  lemma {:induction false} BagConcat(f: Labelling, a: seq<Member>, b: seq<Member>)
    ensures Bag(f, a + b) == Bag(f, a) + Bag(f, b)
  {
    if a == [] {
      assert a + b == b;
    } else {
      var tail := a[1..] + b;
      assert (a + b)[0] == a[0] && (a + b)[1..] == tail;
      var first := multiset{(f(a[0].role), f(a[0].player))};
      assert Bag(f, a + b) == first + Bag(f, tail);
      BagConcat(f, a[1..], b);
    }
  }

  lemma BagOne(f: Labelling, m: Member)
    ensures Bag(f, [m]) == multiset{(f(m.role), f(m.player))}
  {
    assert [m][1..] == [];
  }

  lemma BagWithout(f: Labelling, ms: seq<Member>, i: nat)
    requires i < |ms|
    ensures Bag(f, ms) == Bag(f, Without(ms, i)) + multiset{(f(ms[i].role), f(ms[i].player))}
  {
    hide Bag;
    assert ms == ms[..i] + ([ms[i]] + ms[i + 1..]);
    BagBetween(f, ms[..i], ms[i], ms[i + 1..]);
  }

  lemma BagBetween(f: Labelling, head: seq<Member>, m: Member, tail: seq<Member>)
    ensures Bag(f, head + ([m] + tail)) == Bag(f, head + tail) + multiset{(f(m.role), f(m.player))}
  {
    BagOne(f, m);
    hide Bag;
    BagConcat(f, head, [m] + tail);
    BagConcat(f, [m], tail);
    BagConcat(f, head, tail);
    BagsReordered(Bag(f, head), Bag(f, [m]), Bag(f, tail));
  }

  lemma BagsReordered(x: multiset<(nat, nat)>, y: multiset<(nat, nat)>, z: multiset<(nat, nat)>)
    ensures x + (y + z) == (x + z) + y
  {
  }

  lemma BagsCancel(x: multiset<(nat, nat)>, y: multiset<(nat, nat)>, z: multiset<(nat, nat)>)
    ensures x + z == y + z <==> x == y
  {
    assert (x + z) - z == x && (y + z) - z == y;
  }

  lemma {:induction false} BagMember(f: Labelling, ms: seq<Member>, p: (nat, nat)) returns (i: nat)
    requires p in Bag(f, ms)
    ensures i < |ms| && p == (f(ms[i].role), f(ms[i].player))
  {
    if p == (f(ms[0].role), f(ms[0].player)) {
      i := 0;
    } else {
      i := BagMember(f, ms[1..], p);
      i := i + 1;
    }
  }

  /** Lists with one bag under f have one bag under every coarser labelling. */
  lemma {:induction false} BagCompose(h: Labelling, f: Labelling, a: seq<Member>, b: seq<Member>)
    requires Bag(f, a) == Bag(f, b)
    ensures Bag(t => h(f(t)), a) == Bag(t => h(f(t)), b)
    decreases |a|
  {
    if a == [] {
      assert b == [];
    } else {
      var i := BagMember(f, b, (f(a[0].role), f(a[0].player)));
      BagMatched(f, a, b, 0, i);
      BagCompose(h, f, Without(a, 0), Without(b, i));
      BagMatched(t => h(f(t)), a, b, 0, i);
    }
  }

  /** Two lists have one bag exactly when they have one without a membership that they share. */
  lemma BagMatched(f: Labelling, a: seq<Member>, b: seq<Member>, i: nat, j: nat)
    requires i < |a| && j < |b| && f(a[i].role) == f(b[j].role) && f(a[i].player) == f(b[j].player)
    ensures Bag(f, a) == Bag(f, b) <==> Bag(f, Without(a, i)) == Bag(f, Without(b, j))
  {
    BagWithout(f, a, i);
    BagWithout(f, b, j);
    hide Bag, Without;
    BagsCancel(Bag(f, Without(a, i)), Bag(f, Without(b, j)), multiset{(f(a[i].role), f(a[i].player))});
  }

  lemma TopicsPrintCompose(h: Labelling, f: Labelling, a: set<Topic>, b: set<Topic>)
    requires (set t | t in a :: f(t)) == (set t | t in b :: f(t))
    ensures (set t | t in a :: h(f(t))) == (set t | t in b :: h(f(t)))
  {
    var x := set t | t in a :: f(t);
    assert (set t | t in a :: h(f(t))) == set y | y in x :: h(y) by { ImageTwice(f, h, a); }
    assert (set t | t in b :: h(f(t))) == set y | y in x :: h(y) by { ImageTwice(f, h, b); }
  }

  /** Values that are equal up to f are equal up to every coarser labelling. */
  lemma PrintCompose(h: Labelling, f: Labelling, v: Value, w: Value)
    requires PrintOf(f, v) == PrintOf(f, w)
    ensures PrintOf(t => h(f(t)), v) == PrintOf(t => h(f(t)), w)
  {
    var hf: Labelling := t => h(f(t));
    match v
    case Locators(_) =>
    case Text(_) =>
    case Asidp(_, ms) =>
      BagCompose(h, f, ms, w.members);
    case Topics(ts) =>
      TopicsPrintCompose(h, f, ts, w.topics);
      assert PrintOf(hf, v) == PrintTopics(set t | t in ts :: h(f(t)));
  }

  /** Where one of two lists with the same bag keeps its roles apart, so does the other. */
  lemma BagApart(f: Labelling, a: seq<Member>, b: seq<Member>)
    requires Bag(f, a) == Bag(f, b) && RolesApart(f, b)
    ensures RolesApart(f, a)
  {
    forall i, j | 0 <= i < j < |a| ensures f(a[i].role) != f(a[j].role) {
      var k, l := BagPair(f, a, b, i, j);
    }
  }

  /** Two memberships of one list have counterparts at two places of the other. */
  lemma BagPair(f: Labelling, a: seq<Member>, b: seq<Member>, i: nat, j: nat) returns (k: nat, l: nat)
    requires Bag(f, a) == Bag(f, b) && i < j < |a|
    ensures k < |b| && l < |b| && k != l && f(b[k].role) == f(a[i].role) && f(b[l].role) == f(a[j].role)
  {
    var a' := Without(a, j);
    assert a'[i] == a[i];
    BagWithout(f, a, j);
    BagWithout(f, a', i);
    l := BagMember(f, b, (f(a[j].role), f(a[j].player)));
    BagMatched(f, a, b, j, l);
    k := BagMember(f, Without(b, l), (f(a[i].role), f(a[i].player)));
    assert Without(b, l)[k] == if k < l then b[k] else b[k + 1];
    k := if k < l then k else k + 1;
  }

  lemma ImageCanonical(r: Topic -> Topic, v: Value)
    requires !Collides(r, v)
    ensures Canonical(Image(r, v))
  {
    if v.Asidp? {
      InsertAllStrict([], Rename(r, v.members));
    }
  }

  /** Canonical values that no labelling argument separates are equal. */
  lemma PrintDetermines(v: Value, w: Value)
    requires Canonical(v) && Canonical(w)
    requires PrintOf(SAME, v) == PrintOf(SAME, w)
    ensures v == w
  {
    match v
    case Locators(_) =>
    case Text(_) =>
    case Asidp(t, ms) =>
      StrictUnique(ms, w.members);
    case Topics(ts) =>
      assert (set t | t in ts :: SAME(t)) == ts;
      assert (set t | t in w.topics :: SAME(t)) == w.topics;
  }

  lemma {:induction false} InsertAllElems(acc: seq<Member>, ms: seq<Member>)
    ensures Elems(InsertAll(acc, ms)) == Elems(acc) + Elems(ms)
    decreases |ms|
  {
    if ms != [] {
      InsertMemberElems(acc, ms[0]);
      InsertAllElems(InsertMember(acc, ms[0]), ms[1..]);
      assert ms == [ms[0]] + ms[1..];
    }
  }

  lemma ImageTopics(r: Topic -> Topic, v: Value)
    ensures TopicsOf(Image(r, v)) == set t | t in TopicsOf(v) :: r(t)
  {
    if v.Asidp? {
      var ns := Rename(r, v.members);
      InsertAllElems([], ns);
      SameElemsSameTopics(InsertAll([], ns), ns);
      RenameTopics(r, v.members);
    }
  }

  lemma {:induction false} InsertAllSize(acc: seq<Member>, ms: seq<Member>)
    ensures |InsertAll(acc, ms)| == |acc| + |ms|
    decreases |ms|
  {
    if ms != [] {
      InsertMemberElems(acc, ms[0]);
      InsertAllSize(InsertMember(acc, ms[0]), ms[1..]);
    }
  }

  lemma ImageIndexable(r: Topic -> Topic, v: Value)
    ensures Indexable(Image(r, v)) <==> Indexable(v)
  {
    if v.Asidp? { InsertAllSize([], Rename(r, v.members)); }
  }

  /** A replacement that moves none of the topics in a canonical value leaves it alone. */
  lemma ImageFixed(r: Topic -> Topic, v: Value)
    requires Canonical(v)
    requires forall t :: t in TopicsOf(v) ==> r(t) == t
    ensures Image(r, v) == v && !Collides(r, v)
  {
    match v
    case Locators(_) =>
    case Text(_) =>
    case Asidp(t, ms) =>
      forall m | m in ms ensures r(m.role) == m.role && r(m.player) == m.player {
        assert m.role in TopicsOf(v) && m.player in TopicsOf(v);
      }
      assert Rename(r, ms) == ms;
      assert t in TopicsOf(v);
      SortedStays(ms);
    case Topics(ts) =>
      assert (set t | t in ts :: r(t)) == ts;
  }

  lemma ImageAgrees(r: Topic -> Topic, q: Topic -> Topic, v: Value)
    requires forall t :: t in TopicsOf(v) ==> r(t) == q(t)
    ensures Image(r, v) == Image(q, v) && (Collides(r, v) <==> Collides(q, v))
  {
    match v
    case Locators(_) =>
    case Text(_) =>
    case Asidp(t, ms) =>
      forall m | m in ms ensures r(m.role) == q(m.role) && r(m.player) == q(m.player) {
        assert m.role in TopicsOf(v) && m.player in TopicsOf(v);
      }
      assert Rename(r, ms) == Rename(q, ms);
      assert t in TopicsOf(v);
    case Topics(ts) =>
      assert (set t | t in ts :: r(t)) == (set t | t in ts :: q(t));
  }

  /** Two replacements in a row are one simultaneous replacement, as long as neither collides. */
  lemma ImageCompose(r: Topic -> Topic, q: Topic -> Topic, v: Value)
    requires !Collides(r, v) && !Collides(q, Image(r, v))
    ensures !Collides(t => q(r(t)), v)
    ensures Image(q, Image(r, v)) == Image(t => q(r(t)), v)
  {
    match v
    case Locators(_) =>
    case Text(_) =>
    case Asidp(_, _) => AsidpCompose(r, q, v);
    case Topics(ts) => TopicsCompose(r, q, ts);
  }

  /** The same, for any function that is the composition. */
  lemma ImageComposeAs(r: Topic -> Topic, q: Topic -> Topic, c: Topic -> Topic, v: Value)
    requires !Collides(r, v) && !Collides(q, Image(r, v)) && forall t :: c(t) == q(r(t))
    ensures !Collides(c, v) && Image(q, Image(r, v)) == Image(c, v)
  {
    hide Image, Collides;
    var qr: Topic -> Topic := t => q(r(t));
    ImageCompose(r, q, v);
    ImageAgrees(c, qr, v);
  }

  lemma TopicsCompose(r: Topic -> Topic, q: Topic -> Topic, ts: set<Topic>)
    requires !Collides(r, Topics(ts)) && !Collides(q, Image(r, Topics(ts)))
    ensures !Collides(t => q(r(t)), Topics(ts))
    ensures Image(q, Image(r, Topics(ts))) == Image(t => q(r(t)), Topics(ts))
  {
    ApartTwice(r, q, ts);
    ImageTwice(r, q, ts);
  }

  lemma ApartTwice(r: Topic -> Topic, q: Topic -> Topic, ts: set<Topic>)
    requires MembersApart(r, ts) && MembersApart(q, set t | t in ts :: r(t))
    ensures MembersApart(t => q(r(t)), ts)
  {
    var ts' := set t | t in ts :: r(t);
    forall x, y | x in ts && y in ts && x != y ensures q(r(x)) != q(r(y)) {
      assert r(x) in ts' && r(y) in ts' && r(x) != r(y);
    }
  }

  lemma ImageTwice(r: Topic -> Topic, q: Topic -> Topic, ts: set<Topic>)
    ensures (set t | t in (set t | t in ts :: r(t)) :: q(t)) == set t | t in ts :: q(r(t))
  {
  }

  lemma AsidpCompose(r: Topic -> Topic, q: Topic -> Topic, v: Value)
    requires v.Asidp? && !Collides(r, v) && !Collides(q, Image(r, v))
    ensures !Collides(t => q(r(t)), v)
    ensures Image(q, Image(r, v)) == Image(t => q(r(t)), v)
  {
    var qr: Topic -> Topic := t => q(r(t));
    RenamedApart(r, q, v.members);
    ImageCanonical(q, Image(r, v));
    ImageCanonical(qr, v);
    hide InsertAll, Rename, Bag, StrictRoles;
    ImagePrint(SAME, q, Image(r, v));
    ImagePrint(t => SAME(q(t)), r, v);
    ImagePrint(SAME, qr, v);
    PrintAgrees(t => SAME(qr(t)), t => (t => SAME(q(t)))(r(t)), v);
    PrintDetermines(Image(q, Image(r, v)), Image(qr, v));
  }

  /** Roles kept apart by q after sorting are kept apart by the composition before it. */
  lemma RenamedApart(r: Topic -> Topic, q: Topic -> Topic, ms: seq<Member>)
    requires RolesApart(r, ms) && RolesApart(q, InsertAll([], Rename(r, ms)))
    ensures RolesApart(t => q(r(t)), ms)
  {
    var ns := Rename(r, ms);
    InsertAllElems([], ns);
    var sorted := InsertAll([], ns);
    assert forall m :: m in ns <==> m in Elems(ns);
    assert forall m :: m in sorted <==> m in Elems(sorted);
    forall i, j | 0 <= i < j < |ms| ensures q(r(ms[i].role)) != q(r(ms[j].role)) {
      assert ns[i] in sorted && ns[j] in sorted;
      var a :| 0 <= a < |sorted| && sorted[a] == ns[i];
      var b :| 0 <= b < |sorted| && sorted[b] == ns[j];
      assert a != b;
      if a < b { } else { }
    }
  }

  lemma {:induction false} RolesAtMost(ms: seq<Member>)
    ensures |Roles(ms)| <= |ms|
    ensures StrictRoles(ms) ==> |Roles(ms)| == |ms|
  {
    if ms != [] {
      RolesAtMost(ms[1..]);
      RolesStep(ms);
      hide Roles;
      if StrictRoles(ms) {
        assert StrictRoles(ms[1..]);
      }
    }
  }

  lemma RolesStep(ms: seq<Member>)
    requires ms != []
    ensures Roles(ms) == {ms[0].role} + Roles(ms[1..])
    ensures StrictRoles(ms) ==> ms[0].role !in Roles(ms[1..])
  {
    assert ms == [ms[0]] + ms[1..];
  }

  lemma SharedRoleCount(ms: seq<Member>, i: nat, j: nat)
    requires i < j < |ms| && ms[i].role == ms[j].role
    ensures |Roles(ms)| < |ms|
  {
    var rest := ms[..j] + ms[j + 1..];
    assert ms == ms[..j] + [ms[j]] + ms[j + 1..];
    assert rest[i] == ms[i] && rest[i] in rest;
    assert Roles(ms) == Roles(rest);
    RolesAtMost(rest);
  }

  lemma {:induction false} InsertAllLength(acc: seq<Member>, ms: seq<Member>)
    ensures |InsertAll(acc, ms)| == |acc| + |ms|
    decreases |ms|
  {
    if ms != [] {
      InsertMemberElems(acc, ms[0]);
      InsertAllLength(InsertMember(acc, ms[0]), ms[1..]);
    }
  }

  /** Re-sorted memberships are strictly sorted exactly when no two roles fell together. */
  lemma StrictIffApart(r: Topic -> Topic, ms: seq<Member>)
    ensures StrictRoles(InsertAll([], Rename(r, ms))) <==> RolesApart(r, ms)
  {
    var ns := Rename(r, ms);
    var sorted := InsertAll([], ns);
    if RolesApart(r, ms) {
      InsertAllStrict([], ns);
    }
    if StrictRoles(sorted) {
      InsertAllElems([], ns);
      InsertAllLength([], ns);
      assert forall m :: m in ns <==> m in Elems(ns);
      assert forall m :: m in sorted <==> m in Elems(sorted);
      assert Roles(sorted) == Roles(ns);
      RolesAtMost(sorted);
      forall i, j | 0 <= i < j < |ms| ensures r(ms[i].role) != r(ms[j].role) {
        if ns[i].role == ns[j].role { SharedRoleCount(ns, i, j); }
      }
    }
  }
}
