/** Element trees, what a processing model sees of them, and what it should see. */
module Trees {
  datatype Node = Element(name: string, kids: seq<Node>) | Chars(data: string)

  /** The parts of a processing model that steer the parser: elements to ignore, and elements whose text is wanted. */
  datatype Model = Model(ignored: string -> bool, text: string -> bool)

  /** A step of an xpointer: the element is the position-th child of that name. */
  datatype Step = Step(name: string, position: nat)

  /** The calls of a processing model's handlers. */
  datatype Call = Begin(address: seq<Step>) | Finish(address: seq<Step>, text: string)

  /** The character data directly in an element. */
  function Direct(kids: seq<Node>): string {
    if kids == [] then ""
    else (if kids[0].Chars? then kids[0].data else "") + Direct(kids[1..])
  }

  function Loose(kids: seq<Node>): seq<Node> {
    if kids == [] then []
    else (if kids[0].Chars? then [kids[0]] else []) + Loose(kids[1..])
  }

  /** An ignored element goes, with everything below it; but its own character data stays in its place. */
  function PruneOne(m: Model, node: Node): seq<Node>
    decreases node
  {
    match node
    case Chars(_) => [node]
    case Element(name, kids) => if m.ignored(name) then Loose(kids) else [Element(name, Prune(m, kids))]
  }

  function Prune(m: Model, kids: seq<Node>): seq<Node>
    decreases kids
  {
    if kids == [] then [] else PruneOne(m, kids[0]) + Prune(m, kids[1..])
  }

  /** An ignored element goes, with everything in it: what ignoring is meant to be. */
  function StripOne(m: Model, node: Node): seq<Node>
    decreases node
  {
    match node
    case Chars(_) => [node]
    case Element(name, kids) => if m.ignored(name) then [] else [Element(name, Strip(m, kids))]
  }

  function Strip(m: Model, kids: seq<Node>): seq<Node>
    decreases kids
  {
    if kids == [] then [] else StripOne(m, kids[0]) + Strip(m, kids[1..])
  }

  /** How many elements in the list have the name. */
  function Same(kids: seq<Node>, name: string): nat {
    if kids == [] then 0
    else (if kids[0].Element? && kids[0].name == name then 1 else 0) + Same(kids[1..], name)
  }

  function TextOf(m: Model, name: string, kids: seq<Node>): string {
    if m.text(name) then Direct(kids) else ""
  }

  /** The traversal of a list of siblings: before are the siblings in front of it, address leads to their parent. */
  function Traverse(m: Model, before: seq<Node>, kids: seq<Node>, address: seq<Step>): seq<Call>
    decreases kids
  {
    if kids == [] then []
    else TraverseOne(m, before, kids[0], address) + Traverse(m, before + [kids[0]], kids[1..], address)
  }

  function TraverseOne(m: Model, before: seq<Node>, node: Node, address: seq<Step>): seq<Call>
    decreases node
  {
    match node
    case Chars(_) => []
    case Element(name, kids) =>
      var a := address + [Step(name, 1 + Same(before, name))];
      [Begin(a)] + Traverse(m, [], kids, a) + [Finish(a, TextOf(m, name, kids))]
  }

  function Names(kids: seq<Node>): set<string> {
    set k | k in kids && k.Element? :: k.name
  }

  // --- lists -----------------------------------------------------------------------

  lemma {:induction false} SameConcat(a: seq<Node>, b: seq<Node>, name: string)
    ensures Same(a + b, name) == Same(a, name) + Same(b, name)
  {
    if a == [] {
      assert a + b == b;
    } else {
      assert (a + b)[1..] == a[1..] + b;
      SameConcat(a[1..], b, name);
    }
  }

  lemma {:induction false} DirectConcat(a: seq<Node>, b: seq<Node>)
    ensures Direct(a + b) == Direct(a) + Direct(b)
  {
    if a == [] {
      assert a + b == b;
    } else {
      assert (a + b)[1..] == a[1..] + b;
      DirectConcat(a[1..], b);
    }
  }

  lemma {:induction false} LooseIs(kids: seq<Node>)
    ensures Direct(Loose(kids)) == Direct(kids) && (forall k :: k in Loose(kids) ==> k.Chars?)
  {
    if kids != [] {
      LooseIs(kids[1..]);
      var head := if kids[0].Chars? then [kids[0]] else [];
      DirectConcat(head, Loose(kids[1..]));
    }
  }

  lemma {:induction false} TraverseConcat(m: Model, before: seq<Node>, a: seq<Node>, b: seq<Node>, address: seq<Step>)
    ensures Traverse(m, before, a + b, address) == Traverse(m, before, a, address) + Traverse(m, before + a, b, address)
    decreases |a|
  {
    if a == [] {
      assert a + b == b && before + a == before;
    } else {
      assert (a + b)[1..] == a[1..] + b;
      assert before + [a[0]] + a[1..] == before + a;
      TraverseConcat(m, before + [a[0]], a[1..], b, address);
    }
  }

  lemma {:induction false} TraverseLoose(m: Model, before: seq<Node>, kids: seq<Node>, address: seq<Step>)
    requires forall k :: k in kids ==> k.Chars?
    ensures Traverse(m, before, kids, address) == []
    decreases |kids|
  {
    if kids != [] { assert kids[0] in kids; TraverseLoose(m, before + [kids[0]], kids[1..], address); }
  }

  lemma {:induction false} SameNone(kids: seq<Node>, name: string)
    requires forall k :: k in kids ==> k.Chars?
    ensures Same(kids, name) == 0
  {
    if kids != [] { assert kids[0] in kids; SameNone(kids[1..], name); }
  }

  // --- what ignoring should leave, and what it does leave -------------------------------

  /** The calls without their texts. */
  function Shape(calls: seq<Call>): seq<Call> {
    seq(|calls|, i requires 0 <= i < |calls| => if calls[i].Finish? then Finish(calls[i].address, "") else calls[i])
  }

  /** No element whose text is wanted has an ignored child with character data of its own. */
  predicate NoLeak(m: Model, kids: seq<Node>, wanted: bool)
    decreases kids
  {
    kids == [] || (NoLeakOne(m, kids[0], wanted) && NoLeak(m, kids[1..], wanted))
  }

  predicate NoLeakOne(m: Model, node: Node, wanted: bool)
    decreases node
  {
    match node
    case Chars(_) => true
    case Element(name, kids) =>
      if m.ignored(name) then wanted ==> Direct(kids) == "" else NoLeak(m, kids, m.text(name))
  }

  lemma ShapeConcat(a: seq<Call>, b: seq<Call>)
    ensures Shape(a + b) == Shape(a) + Shape(b)
  {
  }

  /** The siblings in front count the same whether ignored elements are pruned or stripped. */
  ghost predicate Alike(a: seq<Node>, b: seq<Node>) {
    forall name :: Same(a, name) == Same(b, name)
  }

  lemma AlikeConcat(a: seq<Node>, b: seq<Node>, a': seq<Node>, b': seq<Node>)
    requires Alike(a, b) && Alike(a', b')
    ensures Alike(a + a', b + b')
  {
    forall name ensures Same(a + a', name) == Same(b + b', name) {
      SameConcat(a, a', name);
      SameConcat(b, b', name);
      assert Same(a, name) == Same(b, name);
    }
  }

  lemma PrunedAlike(m: Model, node: Node)
    ensures Alike(PruneOne(m, node), StripOne(m, node))
  {
    if node.Element? && m.ignored(node.name) {
      LooseIs(node.kids);
      forall name ensures Same(Loose(node.kids), name) == 0 { SameNone(Loose(node.kids), name); }
    }
  }

  lemma TraverseSingle(m: Model, before: seq<Node>, node: Node, address: seq<Step>)
    ensures Traverse(m, before, [node], address) == TraverseOne(m, before, node, address)
  {
    assert [node][1..] == [];
  }

  /** Pruning one sibling, traversed: nothing but the element itself, if it is kept. */
  lemma PrunedOne(m: Model, before: seq<Node>, node: Node, address: seq<Step>)
    ensures Traverse(m, before, PruneOne(m, node), address) ==
              if node.Chars? || m.ignored(node.name) then []
              else TraverseOne(m, before, Element(node.name, Prune(m, node.kids)), address)
  {
    if node.Element? && m.ignored(node.name) {
      LooseIs(node.kids);
      TraverseLoose(m, before, Loose(node.kids), address);
    } else {
      TraverseSingle(m, before, PruneOne(m, node)[0], address);
    }
  }

  lemma StrippedOne(m: Model, before: seq<Node>, node: Node, address: seq<Step>)
    ensures Traverse(m, before, StripOne(m, node), address) ==
              if node.Chars? || m.ignored(node.name) then []
              else TraverseOne(m, before, Element(node.name, Strip(m, node.kids)), address)
  {
    if node.Chars? || !m.ignored(node.name) {
      TraverseSingle(m, before, StripOne(m, node)[0], address);
    }
  }

  /** Either way the same start and end calls are made, at the same addresses. */
  lemma {:induction false} ShapesAgree(m: Model, b: seq<Node>, b': seq<Node>, kids: seq<Node>, address: seq<Step>)
    requires Alike(b, b')
    ensures Shape(Traverse(m, b, Prune(m, kids), address)) == Shape(Traverse(m, b', Strip(m, kids), address))
    decreases kids
  {
    if kids != [] {
      var k, rest := kids[0], kids[1..];
      var p, q := PruneOne(m, k), StripOne(m, k);
      PrunedAlike(m, k);
      AlikeConcat(b, b', p, q);
      TraverseConcat(m, b, p, Prune(m, rest), address);
      TraverseConcat(m, b', q, Strip(m, rest), address);
      ShapesAgree(m, b + p, b' + q, rest, address);
      ShapesAgreeOne(m, b, b', k, address);
      ShapeConcat(Traverse(m, b, p, address), Traverse(m, b + p, Prune(m, rest), address));
      ShapeConcat(Traverse(m, b', q, address), Traverse(m, b' + q, Strip(m, rest), address));
    }
  }

  lemma {:induction false} ShapesAgreeOne(m: Model, b: seq<Node>, b': seq<Node>, node: Node, address: seq<Step>)
    requires Alike(b, b')
    ensures Shape(Traverse(m, b, PruneOne(m, node), address)) == Shape(Traverse(m, b', StripOne(m, node), address))
    decreases node
  {
    PrunedOne(m, b, node, address);
    StrippedOne(m, b', node, address);
    if node.Element? && !m.ignored(node.name) {
      var name, kids := node.name, node.kids;
      var a := address + [Step(name, 1 + Same(b, name))];
      assert Same(b, name) == Same(b', name);
      ShapesAgree(m, [], [], kids, a);
      Framed(a, Traverse(m, [], Prune(m, kids), a), TextOf(m, name, Prune(m, kids)));
      Framed(a, Traverse(m, [], Strip(m, kids), a), TextOf(m, name, Strip(m, kids)));
    }
  }

  lemma Framed(a: seq<Step>, calls: seq<Call>, text: string)
    ensures Shape([Begin(a)] + calls + [Finish(a, text)]) == [Begin(a)] + Shape(calls) + [Finish(a, "")]
  {
  }

  /** How much character data of ignored children comes along. */
  function Leak(m: Model, kids: seq<Node>): nat {
    if kids == [] then 0
    else (if kids[0].Element? && m.ignored(kids[0].name) then |Direct(kids[0].kids)| else 0) + Leak(m, kids[1..])
  }

  lemma {:induction false} LeakedText(m: Model, kids: seq<Node>)
    ensures |Direct(Prune(m, kids))| == |Direct(Strip(m, kids))| + Leak(m, kids)
    ensures Leak(m, kids) == 0 ==> Direct(Prune(m, kids)) == Direct(Strip(m, kids))
  {
    if kids != [] {
      var k, rest := kids[0], kids[1..];
      LeakedText(m, rest);
      DirectConcat(PruneOne(m, k), Prune(m, rest));
      DirectConcat(StripOne(m, k), Strip(m, rest));
      if k.Element? {
        LooseIs(k.kids);
        assert !m.ignored(k.name) ==> Direct(PruneOne(m, k)) == "" && Direct(StripOne(m, k)) == "";
      }
    }
  }

  lemma {:induction false} NoLeakMeans(m: Model, kids: seq<Node>, wanted: bool)
    ensures NoLeak(m, kids, wanted) <==> NoLeak(m, kids, false) && (wanted ==> Leak(m, kids) == 0)
  {
    if kids != [] {
      NoLeakMeans(m, kids[1..], wanted);
    }
  }

  lemma SameConcatParts(a: seq<Call>, b: seq<Call>, a': seq<Call>, b': seq<Call>)
    requires |a| == |a'|
    ensures a + b == a' + b' <==> a == a' && b == b'
  {
    if a + b == a' + b' {
      assert a == (a + b)[..|a|] && a' == (a' + b')[..|a|];
      assert b == (a + b)[|a|..] && b' == (a' + b')[|a|..];
    }
  }

  /**
   * The calls are those for the tree with the ignored elements stripped exactly when
   * nothing leaks.
   */
  lemma {:induction false} StrippedIffNoLeak(m: Model, b: seq<Node>, b': seq<Node>, kids: seq<Node>, address: seq<Step>)
    requires Alike(b, b')
    ensures Traverse(m, b, Prune(m, kids), address) == Traverse(m, b', Strip(m, kids), address)
            <==> NoLeak(m, kids, false)
    decreases kids
  {
    if kids != [] {
      var k, rest := kids[0], kids[1..];
      var p, q := PruneOne(m, k), StripOne(m, k);
      PrunedAlike(m, k);
      AlikeConcat(b, b', p, q);
      TraverseConcat(m, b, p, Prune(m, rest), address);
      TraverseConcat(m, b', q, Strip(m, rest), address);
      StrippedIffNoLeak(m, b + p, b' + q, rest, address);
      StrippedIffNoLeakOne(m, b, b', k, address);
      ShapesAgreeOne(m, b, b', k, address);
      SameConcatParts(Traverse(m, b, p, address), Traverse(m, b + p, Prune(m, rest), address),
                      Traverse(m, b', q, address), Traverse(m, b' + q, Strip(m, rest), address));
    }
  }

  lemma {:induction false} StrippedIffNoLeakOne(m: Model, b: seq<Node>, b': seq<Node>, node: Node, address: seq<Step>)
    requires Alike(b, b')
    ensures Traverse(m, b, PruneOne(m, node), address) == Traverse(m, b', StripOne(m, node), address)
            <==> NoLeakOne(m, node, false)
    decreases node
  {
    PrunedOne(m, b, node, address);
    StrippedOne(m, b', node, address);
    if node.Element? && !m.ignored(node.name) {
      var name, kids := node.name, node.kids;
      var a := address + [Step(name, 1 + Same(b, name))];
      assert Same(b, name) == Same(b', name);
      StrippedIffNoLeak(m, [], [], kids, a);
      ShapesAgree(m, [], [], kids, a);
      LeakedText(m, kids);
      NoLeakMeans(m, kids, m.text(name));
      var x, y := Traverse(m, [], Prune(m, kids), a), Traverse(m, [], Strip(m, kids), a);
      assert |x| == |Shape(x)| == |Shape(y)| == |y|;
      SameFrames(a, x, TextOf(m, name, Prune(m, kids)), y, TextOf(m, name, Strip(m, kids)));
    }
  }

  lemma SameFrames(a: seq<Step>, x: seq<Call>, s: string, y: seq<Call>, t: string)
    requires |x| == |y|
    ensures [Begin(a)] + x + [Finish(a, s)] == [Begin(a)] + y + [Finish(a, t)] <==> x == y && s == t
  {
    SameConcatParts([Begin(a)] + x, [Finish(a, s)], [Begin(a)] + y, [Finish(a, t)]);
    SameConcatParts([Begin(a)], x, [Begin(a)], y);
    assert [Finish(a, s)] == [Finish(a, t)]
           <==> s == t by { assert [Finish(a, s)][0] == Finish(a, s) && [Finish(a, t)][0] == Finish(a, t); }
  }

  /** <a><b>x</b></a> with b ignored and the text of a wanted: a is given the text "x" instead of none. */
  lemma LeakExample(m: Model, kids: seq<Node>, address: seq<Step>)
    requires m.ignored("b") && !m.ignored("a") && m.text("a")
    requires kids == [Element("a", [Element("b", [Chars("x")])])] && address == [Step("a", 1)]
    ensures Traverse(m, [], Prune(m, kids), []) == [Begin(address), Finish(address, "x")]
    ensures Traverse(m, [], Strip(m, kids), []) == [Begin(address), Finish(address, "")]
    ensures !NoLeak(m, kids, false)
  {
    var inner: seq<Node>, data: seq<Node> := [Element("b", [Chars("x")])], [Chars("x")];
    assert inner[1..] == [] && data[1..] == [] && kids[1..] == [];
    LeakInside(m, inner, data);
    PruneSingle(m, Element("a", inner));
    OneElement(m, data, address);
    OneElement(m, [], address);
  }

  lemma PruneSingle(m: Model, node: Node)
    ensures Prune(m, [node]) == PruneOne(m, node) && Strip(m, [node]) == StripOne(m, node)
  {
    assert [node][1..] == [];
  }

  lemma LeakInside(m: Model, inner: seq<Node>, data: seq<Node>)
    requires m.ignored("b") && inner == [Element("b", data)] && data == [Chars("x")]
    ensures Prune(m, inner) == data && Strip(m, inner) == [] && Direct(data) == "x" && !NoLeak(m, inner, true)
  {
    PruneSingle(m, Element("b", data));
    assert inner[1..] == [] && data[1..] == [];
    assert Loose(data) == data && Direct(data) == "x" + Direct([]);
  }

  lemma OneElement(m: Model, data: seq<Node>, address: seq<Step>)
    requires m.text("a") && address == [Step("a", 1)] && forall k :: k in data ==> k.Chars?
    ensures Traverse(m, [], [Element("a", data)], []) == [Begin(address), Finish(address, Direct(data))]
  {
    TraverseSingle(m, [], Element("a", data), []);
    TraverseLoose(m, [], data, address);
    assert [] + [Step("a", 1 + Same([], "a"))] == address;
  }
}
