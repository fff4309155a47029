/**
 * The collapse of repeated roles in an association (www-df/xtm_simple.c:880-923): after
 * sorting by role, each run of one role becomes one membership whose player is the topic
 * of the set of all its players.
 */
module RoleCollapse {
  import opened Basics
  import opened Values

  /** How many memberships have the role. */
  function Times(ms: seq<Member>, role: Topic): nat {
    if ms == [] then 0 else (if ms[0].role == role then 1 else 0) + Times(ms[1..], role)
  }

  function Players(ms: seq<Member>, role: Topic): set<Topic> {
    set m | m in ms && m.role == role :: m.player
  }

  ghost predicate SortedByRole(ms: seq<Member>) {
    forall i, j :: 0 <= i < j < |ms| ==> ms[i].role <= ms[j].role
  }

  /** setTopic stands for tm_topicmap_add_subject: the topic of a set of players, if it can be added. */
  ghost predicate PlayerOf(e: Member, ms: seq<Member>, setTopic: set<Topic> -> Option<Topic>) {
    if Times(ms, e.role) == 1 then e in ms else setTopic(Players(ms, e.role)) == Some(e.player)
  }

  /** One membership for every role that occurs, in strict order, with the player it must have. */
  ghost predicate Collapsed(r: seq<Member>, ms: seq<Member>, setTopic: set<Topic> -> Option<Topic>) {
    && StrictRoles(r) && Roles(r) == Roles(ms)
    && forall e :: e in r ==> PlayerOf(e, ms, setTopic)
  }

  /** For some repeated role there is no topic for its players. */
  ghost predicate Refused(ms: seq<Member>, setTopic: set<Topic> -> Option<Topic>) {
    exists role :: Times(ms, role) >= 2 && setTopic(Players(ms, role)).None?
  }

  // --- counting --------------------------------------------------------------------

  lemma {:induction false} TimesConcat(a: seq<Member>, b: seq<Member>, role: Topic)
    ensures Times(a + b, role) == Times(a, role) + Times(b, role)
  {
    if a == [] {
      assert a + b == b;
    } else {
      assert (a + b)[1..] == a[1..] + b;
      TimesConcat(a[1..], b, role);
    }
  }

  lemma {:induction false} TimesNone(ms: seq<Member>, role: Topic)
    ensures Times(ms, role) == 0 <==> role !in Roles(ms)
  {
    if ms != [] {
      TimesNone(ms[1..], role);
      assert ms == [ms[0]] + ms[1..];
      assert ms[0] in ms;
      assert Roles(ms) == {ms[0].role} + Roles(ms[1..]);
    }
  }

  lemma {:induction false} TimesAll(ms: seq<Member>, role: Topic)
    requires forall m :: m in ms ==> m.role == role
    ensures Times(ms, role) == |ms|
  {
    if ms != [] {
      TimesAll(ms[1..], role);
    }
  }

  lemma TimesWithout(b: seq<Member>, j: nat, role: Topic)
    requires j < |b|
    ensures Times(b, role) == Times(b[..j] + b[j + 1..], role) + if b[j].role == role then 1 else 0
  {
    hide Times;
    assert b == b[..j] + ([b[j]] + b[j + 1..]);
    TimesMiddle(b[..j], b[j], b[j + 1..], role);
  }

  lemma BagWithout(b: seq<Member>, j: nat)
    requires j < |b|
    ensures multiset(b) == multiset{b[j]} + multiset(b[..j] + b[j + 1..])
  {
    assert b == b[..j] + ([b[j]] + b[j + 1..]);
  }

  lemma TimesMiddle(l: seq<Member>, m: Member, r: seq<Member>, role: Topic)
    ensures Times(l + ([m] + r), role) == Times(l + r, role) + if m.role == role then 1 else 0
  {
    assert ([m] + r)[1..] == r;
    TimesConcat(l, r, role);
    TimesConcat(l, [m] + r, role);
  }

  lemma {:induction false} TimesPermuted(a: seq<Member>, b: seq<Member>, role: Topic)
    requires multiset(a) == multiset(b)
    ensures Times(a, role) == Times(b, role)
    decreases |a|
  {
    if a == [] {
      assert |multiset(b)| == 0;
    } else {
      assert a[0] in multiset(a);
      var j :| 0 <= j < |b| && b[j] == a[0];
      hide Times;
      assert a[..0] + a[0 + 1..] == a[1..];
      TimesWithout(a, 0, role);
      TimesWithout(b, j, role);
      BagWithout(a, 0);
      BagWithout(b, j);
      SameLeft(multiset(a), a[0], multiset(a[1..]), multiset(b[..j] + b[j + 1..]));
      TimesPermuted(a[1..], b[..j] + b[j + 1..], role);
    }
  }

  lemma SameLeft(all: multiset<Member>, m: Member, x: multiset<Member>, y: multiset<Member>)
    requires all == multiset{m} + x && all == multiset{m} + y
    ensures x == y
  {
    assert x == all - multiset{m} && y == all - multiset{m};
  }

  /** What the collapse must yield does not depend on the order of the memberships. */
  lemma CollapsedPermuted(r: seq<Member>, a: seq<Member>, b: seq<Member>, setTopic: set<Topic> -> Option<Topic>)
    requires multiset(a) == multiset(b) && Collapsed(r, a, setTopic)
    ensures Collapsed(r, b, setTopic)
  {
    assert forall m :: m in a <==> m in multiset(a);
    assert forall m :: m in b <==> m in multiset(b);
    forall role ensures Times(a, role) == Times(b, role) && Players(a, role) == Players(b, role) {
      TimesPermuted(a, b, role);
    }
  }

  /** Where no role repeats there is nothing to collapse; so a second collapse changes nothing. */
  lemma StrictStays(ms: seq<Member>, setTopic: set<Topic> -> Option<Topic>)
    requires StrictRoles(ms)
    ensures Collapsed(ms, ms, setTopic)
  {
    forall e | e in ms ensures Times(ms, e.role) == 1 {
      OnceInStrict(ms, e);
    }
  }

  lemma {:induction false} OnceInStrict(ms: seq<Member>, e: Member)
    requires StrictRoles(ms) && e in ms
    ensures Times(ms, e.role) == 1
  {
    var rest := ms[1..];
    if ms[0] == e {
      TimesNone(rest, e.role);
      assert forall m :: m in rest ==> m.role != e.role;
    } else {
      assert ms == [ms[0]] + rest;
      OnceInStrict(rest, e);
      assert ms[0].role != e.role;
    }
  }

  /** The players 5 and 6 of role 1 become the topic of the set {5, 6}; role 2 keeps its only player. */
  lemma CollapseExample(ms: seq<Member>, x: Topic, setTopic: set<Topic> -> Option<Topic>)
    requires ms == [Member(1, 5), Member(1, 6), Member(2, 7)]
    ensures Collapsed([Member(1, x), Member(2, 7)], ms, setTopic) <==> setTopic({5, 6}) == Some(x)
  {
    var r := [Member(1, x), Member(2, 7)];
    assert ms[0] in ms && ms[1] in ms && ms[2] in ms && r[0] in r && r[1] in r;
    assert ms[1..] == [Member(1, 6), Member(2, 7)] && ms[1..][1..] == [Member(2, 7)] && ms[1..][1..][1..] == [];
    CountThree(ms, 1);
    CountThree(ms, 2);
    assert Players(ms, 1) == {5, 6};
    assert Roles(r) == {1, 2} && Roles(ms) == {1, 2};
  }

  lemma CountThree(ms: seq<Member>, role: Topic)
    requires |ms| == 3
    ensures Times(ms, role) == (if ms[0].role == role then 1 else 0) + (if ms[1].role == role then 1 else 0)
                               + (if ms[2].role == role then 1 else 0)
  {
    assert ms[1..][1..][1..] == [] && ms[1..][0] == ms[1] && ms[1..][1..][0] == ms[2];
    assert Times(ms[1..][1..], role) == (if ms[2].role == role then 1 else 0) + Times(ms[1..][1..][1..], role);
  }

  lemma {:induction false} OnceUnique(ms: seq<Member>, e: Member, f: Member)
    requires e in ms && f in ms && e.role == f.role && Times(ms, e.role) == 1
    ensures e == f
  {
    var rest := ms[1..];
    assert ms == [ms[0]] + rest;
    if ms[0].role == e.role {
      TimesNone(rest, e.role);
      assert forall m :: m in rest ==> m.role in Roles(rest);
    } else {
      OnceUnique(rest, e, f);
    }
  }

  /** And it is unique: strict order, the roles and the players leave no choice. */
  lemma CollapsedUnique(r: seq<Member>, s: seq<Member>, ms: seq<Member>, setTopic: set<Topic> -> Option<Topic>)
    requires Collapsed(r, ms, setTopic) && Collapsed(s, ms, setTopic)
    ensures r == s
  {
    forall e | e in r ensures e in s {
      assert e.role in Roles(r);
      SameEntry(e, s, ms, setTopic);
    }
    forall e | e in s ensures e in r {
      assert e.role in Roles(s);
      SameEntry(e, r, ms, setTopic);
    }
    assert Elems(r) == Elems(s);
    SameElemsSameList(r, s);
  }

  lemma SameEntry(e: Member, s: seq<Member>, ms: seq<Member>, setTopic: set<Topic> -> Option<Topic>)
    requires Collapsed(s, ms, setTopic) && e.role in Roles(s) && PlayerOf(e, ms, setTopic)
    ensures e in s
  {
    var f :| f in s && f.role == e.role;
    assert PlayerOf(f, ms, setTopic);
    if Times(ms, e.role) == 1 { OnceUnique(ms, e, f); }
  }

  lemma {:induction false} SameElemsSameList(r: seq<Member>, s: seq<Member>)
    requires StrictRoles(r) && StrictRoles(s) && Elems(r) == Elems(s)
    ensures r == s
  {
    NoDupSize(r);
    NoDupSize(s);
    if r != [] {
      LeastFirst(r, s[0]);
      LeastFirst(s, r[0]);
      assert r[0].role == s[0].role;
      OneOfRole(s, r[0]);
      TailElems(r);
      TailElems(s);
      SameElemsSameList(r[1..], s[1..]);
    }
  }

  lemma LeastFirst(r: seq<Member>, e: Member)
    requires StrictRoles(r) && r != [] && e in Elems(r)
    ensures r[0].role <= e.role
  {
  }

  lemma OneOfRole(s: seq<Member>, e: Member)
    requires StrictRoles(s) && s != [] && e in Elems(s) && e.role == s[0].role
    ensures e == s[0]
  {
  }

  lemma TailElems(r: seq<Member>)
    requires StrictRoles(r) && r != []
    ensures Elems(r[1..]) == Elems(r) - {r[0]} && StrictRoles(r[1..])
  {
    assert r == [r[0]] + r[1..];
  }

  // --- one run of a role --------------------------------------------------------------

  /** The memberships taken so far, and the entries made of them. */
  lemma CollapseRun(r: seq<Member>, taken: seq<Member>, run: seq<Member>, e: Member,
                    setTopic: set<Topic> -> Option<Topic>)
    requires Collapsed(r, taken, setTopic) && run != []
    requires forall m :: m in run ==> m.role == e.role
    requires forall m :: m in taken ==> m.role < e.role
    requires if |run| == 1 then e == run[0] else setTopic(Players(run, e.role)) == Some(e.player)
    ensures Collapsed(r + [e], taken + run, setTopic)
  {
    var all := taken + run;
    assert run[0] in run;
    forall f | f in r ensures f.role < e.role && PlayerOf(f, all, setTopic) {
      EarlierEntry(f, r, taken, run, e.role, setTopic);
    }
    assert PlayerOf(e, all, setTopic) by {
      TimesConcat(taken, run, e.role);
      TimesAll(run, e.role);
      TimesNone(taken, e.role);
      assert Players(all, e.role) == Players(run, e.role);
    }
    forall i, j | 0 <= i < j < |r + [e]| ensures (r + [e])[i].role < (r + [e])[j].role {
      if j == |r| { assert r[i] in r; }
    }
    RolesConcat(taken, run);
    RolesConcat(r, [e]);
    assert Roles(run) == {e.role};
  }

  lemma EarlierEntry(f: Member, r: seq<Member>, taken: seq<Member>, run: seq<Member>, role: Topic,
                     setTopic: set<Topic> -> Option<Topic>)
    requires Collapsed(r, taken, setTopic) && f in r
    requires forall m :: m in run ==> m.role == role
    requires forall m :: m in taken ==> m.role < role
    ensures f.role < role && PlayerOf(f, taken + run, setTopic)
  {
    assert f.role in Roles(r);
    var m :| m in taken && m.role == f.role;
    TimesConcat(taken, run, f.role);
    TimesNone(run, f.role);
    assert Players(taken + run, f.role) == Players(taken, f.role);
  }

  lemma RolesConcat(a: seq<Member>, b: seq<Member>)
    ensures Roles(a + b) == Roles(a) + Roles(b)
  {
    assert forall m :: m in a + b <==> m in a || m in b;
  }

  class TopicAssertion {
    var N: nat
    const memberships: array<Member>

    /** TM_MAXMEMBERS entries. */
    constructor ()
      ensures N == 0 && fresh(memberships) && memberships.Length == 40
    {
      N := 0;
      memberships := new Member[40](_ => Member(0, 0));
    }

    ghost function Current(): seq<Member>
      requires N <= memberships.Length
      reads this, memberships
    {
      memberships[..N]
    }

    /** The shift that takes out entry at (xtm_simple.c:900-905). */
    method TakeOut(at: nat)
      requires at < N <= memberships.Length
      modifies `N, memberships
      ensures N == old(N) - 1 && Current() == old(Current()[..at] + Current()[at + 1..])
    {
      ghost var all := memberships[..];
      for j := at to N - 1
        invariant N == old(N)
        invariant forall k :: 0 <= k < at ==> memberships[k] == all[k]
        invariant forall k :: at <= k < j ==> memberships[k] == all[k + 1]
        invariant forall k :: j <= k < memberships.Length ==> memberships[k] == all[k]
      {
        memberships[j] := memberships[j + 1];
      }
      N := N - 1;
    }

    /**
     * The loop after the sort. The memberships that are left are the collapse of those
     * that were there. It ends with an error exactly when the topic of the players of some
     * repeated role cannot be added.
     */
    method CollapseRoles(setTopic: set<Topic> -> Option<Topic>) returns (ok: bool)
      requires 2 <= N <= memberships.Length && SortedByRole(memberships[..N])
      modifies `N, memberships
      ensures ok ==> 1 <= N <= old(N) && Collapsed(memberships[..N], old(memberships[..N]), setTopic)
      ensures ok <==> !Refused(old(memberships[..N]), setTopic)
    {
      hide Collapsed, Times, Players, SortedByRole, Progress, Refused;
      ghost var ms := memberships[..N];
      ghost var k, done := 0, ms[..0];
      var i := 0;
      NothingYet(ms, setTopic);
      while i < N - 1
        invariant i == |done| && N <= old(N) && N <= memberships.Length
        invariant Progress(Current(), done, ms, k, setTopic)
        decreases N - i
      {
        ProgressHere(Current(), done, ms, k, setTopic);
        assert memberships[i] == Current()[i] && memberships[i + 1] == Current()[i + 1];
        if memberships[i].role == memberships[i + 1].role {
          ok, k, done := CollapseOne(i, k, ms, done, setTopic);
          if !ok {
            return;
          }
        } else {
          done := KeepOne(Current(), done, ms, k, setTopic);
          k := k + 1;
        }
        i := i + 1;
      }
      MergedEnd(Current(), done, ms, k, setTopic);
      NotRefused(Current(), ms, setTopic);
      return true;
    }

    /** The inner loop: takes out all memberships of the role at i but the first, and collects the players. */
    method CollectRun(i: nat, ghost k: nat, ghost ms: seq<Member>, ghost done: seq<Member>)
      returns (players: seq<Topic>, ghost end: nat)
      requires N <= memberships.Length && i == |done| && k + 1 < |ms| && Merged(Current(), done, ms, k)
      requires ms[k].role == ms[k + 1].role
      modifies `N, memberships
      ensures i < N <= old(N) && N <= memberships.Length && k + 1 < end <= |ms|
      ensures Merged(Current(), done + [ms[k]], ms, end)
      ensures AllOfRole(ms[k..end], ms[k].role) && Elems(players) == Players(ms[k..end], ms[k].role)
      ensures end < |ms| ==> ms[end].role != ms[k].role
    {
      hide Players, AllOfRole, Merged;
      MergedHere(Current(), done, ms, k);
      assert memberships[i] == Current()[i];
      var role := memberships[i].role;
      players, end := [memberships[i].player], k + 1;
      ghost var more := done + [ms[k]];
      OnePlayer(ms, k);
      while i < N - 1 && role == memberships[i + 1].role
        invariant i < N <= old(N) && N <= memberships.Length && k < end <= |ms|
        invariant Merged(Current(), more, ms, end)
        invariant AllOfRole(ms[k..end], role) && Elems(players) == Players(ms[k..end], role)
        invariant end == k + 1 ==> end < |ms| && ms[end].role == role
        decreases N
      {
        MergedHere(Current(), more, ms, end);
        assert memberships[i + 1] == Current()[i + 1];
        MorePlayers(ms, k, end, role);
        players := AddTopic(players, memberships[i + 1].player);
        MergedOut(Current(), more, ms, end);
        TakeOut(i + 1);
        end := end + 1;
      }
      MergedHere(Current(), more, ms, end);
      assert i < N - 1 ==> memberships[i + 1] == Current()[i + 1];
    }

    /** The run of one role at i becomes one membership of its set topic. */
    method CollapseOne(i: nat, ghost k: nat, ghost ms: seq<Member>, ghost done: seq<Member>,
                       setTopic: set<Topic> -> Option<Topic>)
      returns (ok: bool, ghost end: nat, ghost more: seq<Member>)
      requires N <= memberships.Length && i == |done| && k + 1 < |ms| && SortedByRole(ms)
      requires Progress(Current(), done, ms, k, setTopic) && ms[k].role == ms[k + 1].role
      modifies `N, memberships
      ensures ok ==> i < N <= old(N) && |more| == i + 1 && Progress(Current(), more, ms, end, setTopic)
      ensures !ok ==> Refused(ms, setTopic)
    {
      hide Collapsed, Times, Players, Splits, SortedByRole, AllOfRole, Merged, Refused;
      ghost var role := ms[k].role;
      var players;
      players, end := CollectRun(i, k, ms, done);
      SplitsNext(ms, k, end, role);
      var answer := setTopic(Elems(players));
      if answer.None? {
        RunRefused(ms, k, end, role, setTopic);
        return false, end, done;
      }
      ghost var e := Member(role, answer.value);
      ghost var before := Current();
      MergedLast(before, done, ms[k], ms, end, e);
      assert memberships[i] == before[i];
      memberships[i] := Member(memberships[i].role, answer.value);
      assert Current() == before[i := e];
      TakeRun(done, ms, k, end, e, setTopic);
      more := done + [e];
      ok := true;
    }
  }

  /**
   * done is the collapse of the first k memberships and in place, followed by the rest of ms, of
   * which it has no role.
   */
  ghost predicate Progress(cur: seq<Member>, done: seq<Member>, ms: seq<Member>, k: nat,
                           setTopic: set<Topic> -> Option<Topic>) {
    Merged(cur, done, ms, k) && Splits(ms, k) && Collapsed(done, ms[..k], setTopic)
  }

  lemma ProgressHere(cur: seq<Member>, done: seq<Member>, ms: seq<Member>, k: nat,
                     setTopic: set<Topic> -> Option<Topic>)
    requires Progress(cur, done, ms, k, setTopic)
    ensures k <= |ms| && |cur| == |done| + |ms| - k
    ensures k < |ms| ==> cur[|done|] == ms[k]
    ensures k + 1 < |ms| ==> cur[|done| + 1] == ms[k + 1]
  {
    MergedHere(cur, done, ms, k);
  }

  /** done is in place, followed by what is left of ms from k on. */
  ghost predicate Merged(cur: seq<Member>, done: seq<Member>, ms: seq<Member>, k: nat) {
    k <= |ms| && cur == done + ms[k..]
  }

  lemma MergedHere(cur: seq<Member>, done: seq<Member>, ms: seq<Member>, k: nat)
    requires Merged(cur, done, ms, k)
    ensures k <= |ms| && |cur| == |done| + |ms| - k
    ensures k == |ms| ==> cur == done
    ensures k < |ms| ==> cur[|done|] == ms[k] && Merged(cur, done + [ms[k]], ms, k + 1)
    ensures k + 1 < |ms| ==> cur[|done| + 1] == ms[k + 1]
  {
    if k < |ms| {
      assert ms[k..] == [ms[k]] + ms[k + 1..];
    }
  }

  /** The only membership of its role stays as it is. */
  lemma KeepOne(cur: seq<Member>, done: seq<Member>, ms: seq<Member>, k: nat, setTopic: set<Topic> -> Option<Topic>)
    returns (more: seq<Member>)
    requires Progress(cur, done, ms, k, setTopic) && k < |ms| && SortedByRole(ms)
    requires k + 1 < |ms| ==> ms[k].role != ms[k + 1].role
    ensures |more| == |done| + 1 && Progress(cur, more, ms, k + 1, setTopic)
  {
    hide Collapsed, Times, Players, Splits, SortedByRole;
    MergedHere(cur, done, ms, k);
    TakeRun(done, ms, k, k + 1, ms[k], setTopic);
    more := done + [ms[k]];
  }

  lemma MergedEnd(cur: seq<Member>, done: seq<Member>, ms: seq<Member>, k: nat, setTopic: set<Topic> -> Option<Topic>)
    requires Progress(cur, done, ms, k, setTopic) && |cur| <= |done| + 1 && SortedByRole(ms) && ms != []
    ensures cur != [] && Collapsed(cur, ms, setTopic)
  {
    hide Collapsed, Times, Players, Splits, SortedByRole;
    MergedHere(cur, done, ms, k);
    if k < |ms| {
      var more := KeepOne(cur, done, ms, k, setTopic);
      MergedHere(cur, more, ms, k + 1);
      assert ms[..k + 1] == ms;
    } else {
      assert ms[..k] == ms;
    }
    AtLeastOne(cur, ms, setTopic);
  }

  lemma MergedOut(cur: seq<Member>, done: seq<Member>, ms: seq<Member>, k: nat)
    requires Merged(cur, done, ms, k) && k < |ms|
    ensures |done| < |cur| && Merged(cur[..|done|] + cur[|done| + 1..], done, ms, k + 1)
  {
  }

  lemma MergedLast(cur: seq<Member>, done: seq<Member>, x: Member, ms: seq<Member>, k: nat, e: Member)
    requires Merged(cur, done + [x], ms, k)
    ensures |done| < |cur| && cur[|done|] == x && Merged(cur[|done| := e], done + [e], ms, k)
  {
  }

  lemma NotRefused(r: seq<Member>, ms: seq<Member>, setTopic: set<Topic> -> Option<Topic>)
    requires Collapsed(r, ms, setTopic)
    ensures !Refused(ms, setTopic)
  {
    forall role | Times(ms, role) >= 2 ensures setTopic(Players(ms, role)).Some? {
      TimesNone(ms, role);
      assert role in Roles(r);
      var e :| e in r && e.role == role;
      assert PlayerOf(e, ms, setTopic);
    }
  }

  /** The run of a role has all memberships of that role. */
  lemma RunRefused(ms: seq<Member>, k: nat, end: nat, role: Topic, setTopic: set<Topic> -> Option<Topic>)
    requires Splits(ms, k) && Splits(ms, end) && k + 1 < end <= |ms| && AllOfRole(ms[k..end], role)
    requires setTopic(Players(ms[k..end], role)).None?
    ensures Refused(ms, setTopic)
  {
    var a, b, c := ms[..k], ms[k..end], ms[end..];
    assert ms == a + (b + c);
    assert b[0] == ms[k] && b[0].role == role && ms[end - 1] in b by { assert b[|b| - 1] == ms[end - 1]; }
    forall m | m in a ensures m.role != role { }
    forall m | m in c ensures m.role != role { }
    TimesConcat(a, b + c, role);
    TimesConcat(b, c, role);
    TimesAll(b, role);
    TimesNone(a, role);
    TimesNone(c, role);
    assert Players(ms, role) == Players(b, role);
  }

  lemma AtLeastOne(r: seq<Member>, ms: seq<Member>, setTopic: set<Topic> -> Option<Topic>)
    requires Collapsed(r, ms, setTopic) && ms != []
    ensures r != []
  {
    assert ms[0].role in Roles(ms);
  }

  ghost predicate AllOfRole(ms: seq<Member>, role: Topic) {
    forall m :: m in ms ==> m.role == role
  }

  /** Everything before k has a smaller role than everything from k on. */
  ghost predicate Splits(ms: seq<Member>, k: nat) {
    k <= |ms| && forall a, b :: 0 <= a < k <= b < |ms| ==> ms[a].role < ms[b].role
  }

  lemma NothingYet(ms: seq<Member>, setTopic: set<Topic> -> Option<Topic>)
    ensures Progress(ms, ms[..0], ms, 0, setTopic)
  {
  }

  lemma OnePlayer(ms: seq<Member>, k: nat)
    requires k < |ms|
    ensures AllOfRole(ms[k..k + 1], ms[k].role) && Elems([ms[k].player]) == Players(ms[k..k + 1], ms[k].role)
  {
    assert ms[k..k + 1] == [ms[k]];
  }

  lemma MorePlayers(ms: seq<Member>, k: nat, end: nat, role: Topic)
    requires k < end < |ms| && AllOfRole(ms[k..end], role) && ms[end].role == role
    ensures AllOfRole(ms[k..end + 1], role)
    ensures Players(ms[k..end + 1], role) == Players(ms[k..end], role) + {ms[end].player}
  {
    assert ms[k..end + 1] == ms[k..end] + [ms[end]];
  }

  lemma SplitsNext(ms: seq<Member>, k: nat, end: nat, role: Topic)
    requires SortedByRole(ms) && k < end <= |ms| && AllOfRole(ms[k..end], role)
    requires end < |ms| ==> ms[end].role != role
    ensures Splits(ms, end)
  {
    assert ms[k..end][end - 1 - k] == ms[end - 1];
    assert ms[end - 1].role == role;
  }

  /** The run ms[k..end] of one role is entered as e. */
  lemma TakeRun(done: seq<Member>, ms: seq<Member>, k: nat, end: nat, e: Member, setTopic: set<Topic> -> Option<Topic>)
    requires k < end <= |ms| && Splits(ms, k) && Collapsed(done, ms[..k], setTopic) && e.role == ms[k].role
    requires end == k + 1 || AllOfRole(ms[k..end], e.role)
    requires if end == k + 1 then e == ms[k] else setTopic(Players(ms[k..end], e.role)) == Some(e.player)
    requires SortedByRole(ms) && (end == k + 1 && end < |ms| ==> ms[k].role != ms[end].role)
    ensures Collapsed(done + [e], ms[..end], setTopic)
    ensures end == k + 1 ==> Splits(ms, end)
  {
    var run := ms[k..end];
    if end == k + 1 {
      assert run == [ms[k]];
      SplitsNext(ms, k, end, e.role);
    }
    forall m | m in ms[..k] ensures m.role < e.role {
      var a :| 0 <= a < k && ms[a] == m;
    }
    CollapseRun(done, ms[..k], run, e, setTopic);
    assert ms[..end] == ms[..k] + run;
  }
}
