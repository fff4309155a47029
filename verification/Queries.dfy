/** Query conditions over the properties and their evaluation (tm_topicmap_cetree_eval, src/topicmap.c:2672-2747). */
module Queries {
  import opened Basics
  import opened Values
  import opened Rounds
  import opened PropertyStores
  import opened TopicMaps

  /** prop: the index of a property. */
  datatype Tree =
    | Both(left: Tree, right: Tree)
    | Either(left: Tree, right: Tree)
    | Simple(prop: nat, condition: Condition)

  ghost predicate WellFormed(tree: Tree, kinds: seq<Kind>) {
    match tree
    case Both(l, r) => WellFormed(l, kinds) && WellFormed(r, kinds)
    case Either(l, r) => WellFormed(l, kinds) && WellFormed(r, kinds)
    case Simple(i, q) => i < |kinds| && Fits(q, kinds[i].valueType)
  }

  /** The stored values of t meet the tree. */
  ghost predicate Satisfies(tree: Tree, s: State, t: Topic) {
    match tree
    case Both(l, r) => Satisfies(l, s, t) && Satisfies(r, s, t)
    case Either(l, r) => Satisfies(l, s, t) || Satisfies(r, s, t)
    case Simple(i, q) => i < |s| && t in s[i] && Meets(q, s[i][t])
  }

  /** AND narrows and OR widens. */
  lemma Between(l: Tree, r: Tree, s: State, t: Topic)
    ensures Satisfies(Both(l, r), s, t) ==> Satisfies(l, s, t)
    ensures Satisfies(l, s, t) ==> Satisfies(Either(l, r), s, t) && Satisfies(Either(r, l), s, t)
    ensures Satisfies(Both(l, Either(l, r)), s, t) <==> Satisfies(l, s, t)
  {
  }

  /** Evaluates the tree on the topic map: exactly the topics that satisfy it, each once; s is what the map holds. */
  method Eval(m: TopicMap, tree: Tree, ghost s: State) returns (found: seq<Topic>)
    requires m.StoresValid() && m.Vals() == s && WellFormed(tree, m.Kinds())
    ensures m.StoresValid() && m.Vals() == s
    ensures NoDup(found)
    ensures forall t :: t in found <==> Satisfies(tree, s, t)
    decreases tree
  {
    hide TopicMap.StoresValid, TopicMap.Vals, Meets, NoDup;
    match tree {
      case Both(l, r) =>
        var left := Eval(m, l, s);
        var right := Eval(m, r, s);
        found := Common(left, right);
        m.Untouched();
      case Either(l, r) =>
        var left := Eval(m, l, s);
        var right := Eval(m, r, s);
        AddTopicsNoDup(left, right);
        found := AddTopics(left, right);
        forall t ensures t in found <==> t in left || t in right {
          assert t in found <==> t in Elems(found);
        }
      case Simple(i, q) =>
        found := EvalSimple(m, i, q, s);
    }
  }

  method EvalSimple(m: TopicMap, i: nat, q: Condition, ghost s: State) returns (found: seq<Topic>)
    requires m.StoresValid() && m.Vals() == s && i < |m.props| && Fits(q, m.props[i].kind.valueType)
    ensures m.StoresValid() && m.Vals() == s
    ensures NoDup(found)
    ensures i < |s| && forall t :: t in found <==> t in s[i] && Meets(q, s[i][t])
  {
    hide Meets;
    assert m.props[i].Valid() && s[i] == m.props[i].Val();
    hide TopicMap.StoresValid, TopicMap.Vals;
    found := m.props[i].TopicsMeeting(q);
    m.Untouched();
  }

  /** The loop of the AND case. */
  method Common(left: seq<Topic>, right: seq<Topic>) returns (found: seq<Topic>)
    requires NoDup(left)
    ensures NoDup(found)
    ensures forall t :: t in found <==> t in left && t in right
  {
    found := [];
    for i := 0 to |left|
      invariant NoDup(found)
      invariant forall t :: t in found <==> t in left[..i] && t in right
    {
      assert left[..i + 1] == left[..i] + [left[i]];
      if left[i] in right {
        found := AddTopic(found, left[i]);
      }
    }
    assert left[..|left|] == left;
  }
}
