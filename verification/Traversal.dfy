/**
 * Omnivore's handlers for the events of an XML parser (src/omnivore.c:735-1035): the
 * element stack, the depth counters that skip ignored subtrees, and the child counts that
 * give every element its xpointer address.
 */
module Traversal {
  import opened Basics
  import opened Trees

  const MAXITEMS := 20
  const MAX_CHILDS := 10

  datatype ChildCount = ChildCount(name: string, count: nat)

  /** struct element. */
  datatype Entry = Entry(name: string, address: seq<Step>, text: string, counts: seq<ChildCount>)

  // --- child counts -----------------------------------------------------------------

  ghost predicate DistinctNames(cs: seq<ChildCount>) {
    forall i, j :: 0 <= i < j < |cs| ==> cs[i].name != cs[j].name
  }

  function CountOf(cs: seq<ChildCount>, name: string): nat {
    if cs == [] then 0 else if cs[0].name == name then cs[0].count else CountOf(cs[1..], name)
  }

  function CountedNames(cs: seq<ChildCount>): set<string> {
    set c | c in cs :: c.name
  }

  lemma {:induction false} CountAt(cs: seq<ChildCount>, i: nat)
    requires i < |cs| && forall k :: 0 <= k < i ==> cs[k].name != cs[i].name
    ensures CountOf(cs, cs[i].name) == cs[i].count
  {
    if i > 0 { CountAt(cs[1..], i - 1); }
  }

  lemma {:induction false} CountNone(cs: seq<ChildCount>, name: string)
    requires forall k :: 0 <= k < |cs| ==> cs[k].name != name
    ensures CountOf(cs, name) == 0
  {
    if cs != [] { CountNone(cs[1..], name); }
  }

  lemma {:induction false} CountUpdate(cs: seq<ChildCount>, i: nat, name: string)
    requires i < |cs| && DistinctNames(cs)
    ensures CountOf(cs[i := cs[i].(count := cs[i].count + 1)], name)
            == CountOf(cs, name) + if name == cs[i].name then 1 else 0
  {
    if i > 0 {
      CountUpdate(cs[1..], i - 1, name);
      assert cs[i := cs[i].(count := cs[i].count + 1)][1..] == cs[1..][i - 1 := cs[i].(count := cs[i].count + 1)];
    }
  }

  lemma {:induction false} CountAppend(cs: seq<ChildCount>, name: string, other: string)
    requires forall k :: 0 <= k < |cs| ==> cs[k].name != name
    ensures CountOf(cs + [ChildCount(name, 1)], other) == CountOf(cs, other) + if other == name then 1 else 0
  {
    if cs != [] {
      CountAppend(cs[1..], name, other);
      assert (cs + [ChildCount(name, 1)])[1..] == cs[1..] + [ChildCount(name, 1)];
    }
  }

  /** The search without increment. */
  method GetCount(cs: seq<ChildCount>, name: string) returns (n: nat)
    ensures n == CountOf(cs, name)
  {
    for i := 0 to |cs|
      invariant forall k :: 0 <= k < i ==> cs[k].name != name
    {
      if cs[i].name == name {
        CountAt(cs, i);
        return cs[i].count;
      }
    }
    CountNone(cs, name);
    return 0;
  }

  /** The search with increment; room for MAX_CHILDS names. */
  method Increment(cs: seq<ChildCount>, name: string) returns (r: seq<ChildCount>, n: nat)
    requires DistinctNames(cs) && |CountedNames(cs) + {name}| <= MAX_CHILDS
    ensures DistinctNames(r) && CountedNames(r) == CountedNames(cs) + {name} && |r| <= MAX_CHILDS
    ensures forall other :: CountOf(r, other) == CountOf(cs, other) + if other == name then 1 else 0
    ensures n == CountOf(r, name)
  {
    for i := 0 to |cs|
      invariant forall k :: 0 <= k < i ==> cs[k].name != name
    {
      if cs[i].name == name {
        r := cs[i := cs[i].(count := cs[i].count + 1)];
        n := r[i].count;
        forall other
          ensures CountOf(r, other) == CountOf(cs, other) + if other == name then 1 else 0
        {
          CountUpdate(cs, i, other);
        }
        CountAt(cs, i);
        UpdatedNames(cs, i, r[i]);
        NamesAsMany(r);
        return;
      }
    }
    r := cs + [ChildCount(name, 1)];
    n := 1;
    forall other
      ensures CountOf(r, other) == CountOf(cs, other) + if other == name then 1 else 0
    {
      CountAppend(cs, name, other);
    }
    CountNone(cs, name);
    AppendedNames(cs, name);
    NamesAsMany(r);
  }

  lemma UpdatedNames(cs: seq<ChildCount>, i: nat, c: ChildCount)
    requires i < |cs| && c.name == cs[i].name && DistinctNames(cs)
    ensures CountedNames(cs[i := c]) == CountedNames(cs) + {c.name} && DistinctNames(cs[i := c])
  {
    var r := cs[i := c];
    forall k | 0 <= k < |cs| ensures r[k].name == cs[k].name { }
    forall x | x in cs ensures x.name in CountedNames(r) {
      var k :| 0 <= k < |cs| && cs[k] == x;
      assert r[k] in r;
    }
    forall x | x in r ensures x.name in CountedNames(cs) {
      var k :| 0 <= k < |r| && r[k] == x;
      assert cs[k] in cs;
    }
    assert cs[i] in cs;
  }

  lemma AppendedNames(cs: seq<ChildCount>, name: string)
    requires DistinctNames(cs) && forall k :: 0 <= k < |cs| ==> cs[k].name != name
    ensures CountedNames(cs + [ChildCount(name, 1)]) == CountedNames(cs) + {name}
            && DistinctNames(cs + [ChildCount(name, 1)])
  {
    assert ChildCount(name, 1) in cs + [ChildCount(name, 1)];
  }

  lemma {:induction false} NamesAsMany(cs: seq<ChildCount>)
    requires DistinctNames(cs)
    ensures |CountedNames(cs)| == |cs|
  {
    if cs != [] {
      NamesAsMany(cs[1..]);
      assert cs == [cs[0]] + cs[1..];
      assert CountedNames(cs) == {cs[0].name} + CountedNames(cs[1..]);
      assert cs[0].name !in CountedNames(cs[1..]);
    }
  }

  // --- the stack -----------------------------------------------------------------------

  /** The entry of an open element, and the siblings that have been read below it. */
  ghost predicate Reflects(e: Entry, m: Model, before: seq<Node>) {
    && DistinctNames(e.counts) && CountedNames(e.counts) == Names(before)
    && (forall name :: CountOf(e.counts, name) == Same(before, name))
    && e.text == TextOf(m, e.name, before)
  }

  /** The address that continues that of the parent by the place the element has there. */
  function Continued(open: seq<Entry>, i: nat): seq<Step>
    requires i < |open|
  {
    if i == 0 then [Step(open[i].name, 1)]
    else open[i - 1].address + [Step(open[i].name, CountOf(open[i - 1].counts, open[i].name))]
  }

  ghost predicate Chain(open: seq<Entry>) {
    forall i :: 0 <= i < |open| ==> open[i].address == Continued(open, i)
  }

  ghost predicate Counted(open: seq<Entry>) {
    forall i :: 0 < i < |open| ==> CountOf(open[i - 1].counts, open[i].name) > 0
  }

  /** The parent's entry after one more child of that name. */
  ghost predicate Bumped(p: Entry, name: string, q: Entry) {
    && q == p.(counts := q.counts) && DistinctNames(q.counts)
    && CountedNames(q.counts) == CountedNames(p.counts) + {name}
    && forall other :: CountOf(q.counts, other) == CountOf(p.counts, other) + if other == name then 1 else 0
  }

  /** The stack after an element has been opened. */
  ghost predicate Opened(open: seq<Entry>, name: string, after: seq<Entry>) {
    var n := |open|;
    && |after| == n + 1 && after[n].name == name && after[n].text == "" && after[n].counts == []
    && (n == 0 ==> after[n].address == [Step(name, 1)])
    && (n > 0 ==> after[..n - 1] == open[..n - 1] && Bumped(open[n - 1], name, after[n - 1]))
    && (n > 0 ==> after[n].address == open[n - 1].address + [Step(name, 1 + CountOf(open[n - 1].counts, name))])
  }

  lemma Recounted(open: seq<Entry>, name: string, q: Entry)
    requires Chain(open) && Counted(open) && open != [] && Bumped(open[|open| - 1], name, q)
    ensures Chain(open[|open| - 1 := q]) && Counted(open[|open| - 1 := q])
  {
    var n := |open| - 1;
    var after := open[n := q];
    forall i | 0 <= i <= n
      ensures after[i].address == Continued(after, i)
      ensures i > 0 ==> CountOf(after[i - 1].counts, after[i].name) > 0
    {
      assert after[i].name == open[i].name && after[i].address == open[i].address;
      if i > 0 { assert after[i - 1] == open[i - 1]; }
    }
  }

  lemma ChainAt(open: seq<Entry>, i: nat)
    requires Chain(open) && Counted(open) && i < |open|
    ensures i == 0 ==> open[i].address == [Step(open[i].name, 1)]
    ensures i > 0 ==> CountOf(open[i - 1].counts, open[i].name) > 0
    ensures i > 0 ==>
              open[i].address == open[i - 1].address + [Step(open[i].name, CountOf(open[i - 1].counts, open[i].name))]
  {
  }

  lemma Pushed(open: seq<Entry>, e: Entry)
    requires Chain(open) && Counted(open)
    requires open == [] ==> e.address == [Step(e.name, 1)]
    requires open != [] ==> CountOf(open[|open| - 1].counts, e.name) > 0
    requires open != [] ==>
               e.address == open[|open| - 1].address + [Step(e.name, CountOf(open[|open| - 1].counts, e.name))]
    ensures Chain(open + [e]) && Counted(open + [e])
  {
    var after := open + [e];
    forall i | 0 <= i < |after|
      ensures after[i].address == Continued(after, i)
      ensures i > 0 ==> CountOf(after[i - 1].counts, after[i].name) > 0
    {
      if i > 0 { assert after[i - 1] == open[i - 1]; }
      if i < |open| {
        assert after[i] == open[i];
        ChainAt(open, i);
      }
    }
  }

  lemma Shorter(open: seq<Entry>)
    requires Chain(open) && Counted(open) && open != []
    ensures Chain(open[..|open| - 1]) && Counted(open[..|open| - 1])
  {
    SameLinks(open, open[..|open| - 1]);
  }

  lemma Retexted(open: seq<Entry>, q: Entry)
    requires Chain(open) && Counted(open) && open != [] && q == open[|open| - 1].(text := q.text)
    ensures Chain(open[|open| - 1 := q]) && Counted(open[|open| - 1 := q])
  {
    hide Chain, Counted, Continued, CountOf;
    var after := open[|open| - 1 := q];
    forall i | 0 <= i < |after| ensures after[i] == open[i].(text := after[i].text) {
      if i < |open| - 1 { assert after[i] == open[i]; }
    }
    SameLinks(open, after);
  }

  lemma OpenedBy(open: seq<Entry>, name: string, bumped: seq<Entry>, e: Entry)
    requires |bumped| == |open| && e.name == name && e.text == "" && e.counts == []
    requires open == [] ==> e.address == [Step(name, 1)]
    requires open != [] ==>
               var n := |open| - 1;
               && bumped[..n] == open[..n] && Bumped(open[n], name, bumped[n])
               && e.address == bumped[n].address + [Step(name, CountOf(bumped[n].counts, name))]
    ensures Opened(open, name, bumped + [e])
  {
    if open != [] {
      assert (bumped + [e])[..|open| - 1] == bumped[..|open| - 1];
    }
  }

  lemma SameLinks(open: seq<Entry>, after: seq<Entry>)
    requires Chain(open) && Counted(open) && |after| <= |open|
    requires forall i :: 0 <= i < |after| ==> after[i] == open[i].(text := after[i].text)
    ensures Chain(after) && Counted(after)
  {
    forall i | 0 <= i < |after|
      ensures after[i].address == Continued(after, i)
      ensures i > 0 ==> CountOf(after[i - 1].counts, after[i].name) > 0
    {
      ChainAt(open, i);
      assert after[i].name == open[i].name && after[i].address == open[i].address;
      if i > 0 { assert after[i - 1].counts == open[i - 1].counts && after[i - 1].address == open[i - 1].address; }
    }
  }

  lemma NewReflects(e: Entry, m: Model)
    requires e.text == "" && e.counts == []
    ensures Reflects(e, m, [])
  {
  }

  lemma NamesConcat(a: seq<Node>, b: seq<Node>)
    ensures Names(a + b) == Names(a) + Names(b)
  {
    assert forall k :: k in a + b <==> k in a || k in b;
  }

  lemma BumpedReflects(p: Entry, q: Entry, m: Model, before: seq<Node>, node: Node)
    requires Reflects(p, m, before) && node.Element? && Bumped(p, node.name, q)
    ensures Reflects(q, m, before + [node])
  {
    NamesConcat(before, [node]);
    assert Names([node]) == {node.name};
    DirectConcat(before, [node]);
    assert Direct([node]) == "";
    forall name ensures CountOf(q.counts, name) == Same(before + [node], name) {
      SameConcat(before, [node], name);
      assert Same([node], name) == if name == node.name then 1 else 0;
    }
  }

  lemma CharsReflects(p: Entry, m: Model, before: seq<Node>, data: string)
    requires Reflects(p, m, before)
    ensures Reflects(if m.text(p.name) then p.(text := p.text + data) else p, m, before + [Chars(data)])
  {
    NamesConcat(before, [Chars(data)]);
    assert Names([Chars(data)]) == {};
    DirectConcat(before, [Chars(data)]);
    assert Direct([Chars(data)]) == data;
    forall name ensures Same(before + [Chars(data)], name) == Same(before, name) {
      SameConcat(before, [Chars(data)], name);
      assert Same([Chars(data)], name) == 0;
    }
  }

  /** What opening a kept element means for the entry of its parent and for its own. */
  lemma Entered(open: seq<Entry>, name: string, within: seq<Entry>, m: Model, before: seq<Node>, inner: seq<Node>)
    requires open != [] && Opened(open, name, within) && Reflects(open[|open| - 1], m, before)
    ensures var n := |open|;
            && |within| == n + 1 && within[n].name == name && Reflects(within[n], m, [])
            && within[..n - 1] == open[..n - 1] && within[n - 1].name == open[n - 1].name
            && within[n - 1].address == open[n - 1].address
            && within[n].address == open[n - 1].address + [Step(name, 1 + Same(before, name))]
            && Reflects(within[n - 1], m, before + [Element(name, inner)])
  {
    var n := |open|;
    NewReflects(within[n], m);
    BumpedReflects(open[n - 1], within[n - 1], m, before, Element(name, inner));
  }

  /**
   * The tree is within the limits of the parser's fixed arrays: no more than room kept
   * elements above one another, and no more than MAX_CHILDS names of children in one.
   */
  ghost predicate Fits(m: Model, node: Node, room: int)
    decreases node
  {
    match node
    case Chars(_) => true
    case Element(name, kids) =>
      m.ignored(name) || (room > 0 && |Names(Prune(m, kids))| <= MAX_CHILDS && FitAll(m, kids, room - 1))
  }

  ghost predicate FitAll(m: Model, kids: seq<Node>, room: int)
    decreases kids
  {
    kids == [] || (Fits(m, kids[0], room) && FitAll(m, kids[1..], room))
  }

  class Omnivore {
    const model: Model
    var depth: nat
    var ignoreDepth: nat
    var elemIndex: nat
    const stack: array<Entry>

    /** The calls made so far. */
    var calls: seq<Call>

    constructor (model: Model)
      ensures Valid() && fresh(stack) && this.model == model && depth == 0 && ignoreDepth == 0 && Open() == []
              && calls == []
    {
      this.model := model;
      depth, ignoreDepth, elemIndex, calls := 0, 0, 0, [];
      stack := new Entry[MAXITEMS](_ => Entry("", [], "", []));
    }

    ghost predicate Valid()
      reads this, stack
    {
      && stack.Length == MAXITEMS && elemIndex <= MAXITEMS && ignoreDepth <= depth
      && Chain(stack[..elemIndex]) && Counted(stack[..elemIndex])
    }

    /** The elements that are open, outermost first. */
    ghost function Open(): seq<Entry>
      requires elemIndex <= stack.Length
      reads this, stack
    {
      stack[..elemIndex]
    }

    // --- the handlers ------------------------------------------------------------

    /** expat_start: nothing inside an ignored element is looked at, and an element to be ignored sets the mark. */
    method Start(name: string)
      requires Valid()
      requires ignoreDepth == 0 && !model.ignored(name) ==> elemIndex < MAXITEMS
      requires ignoreDepth == 0 && !model.ignored(name) && elemIndex > 0 ==>
                 DistinctNames(Open()[elemIndex - 1].counts)
                 && |CountedNames(Open()[elemIndex - 1].counts) + {name}| <= MAX_CHILDS
      modifies this, stack
      ensures Valid() && depth == old(depth) + 1
      ensures old(ignoreDepth) > 0 || model.ignored(name) ==> Open() == old(Open()) && calls == old(calls)
      ensures old(ignoreDepth) > 0 ==> ignoreDepth == old(ignoreDepth)
      ensures old(ignoreDepth) == 0 && model.ignored(name) ==> ignoreDepth == depth
      ensures old(ignoreDepth) == 0 && !model.ignored(name) ==>
                && ignoreDepth == 0 && Opened(old(Open()), name, Open()) && elemIndex == old(elemIndex) + 1
                && calls == old(calls) + [Begin(Open()[elemIndex - 1].address)]
    {
      depth := depth + 1;
      if ignoreDepth > 0 {
        return;
      }
      if model.ignored(name) {
        ignoreDepth := depth;
        return;
      }
      OpenElement(name);
    }

    /** The rest of expat_start, for an element that is kept. */
    method OpenElement(name: string)
      requires Valid() && elemIndex < MAXITEMS
      requires elemIndex > 0 ==>
                 DistinctNames(Open()[elemIndex - 1].counts)
                 && |CountedNames(Open()[elemIndex - 1].counts) + {name}| <= MAX_CHILDS
      modifies `elemIndex, `calls, stack
      ensures Valid() && Opened(old(Open()), name, Open()) && elemIndex == old(elemIndex) + 1
      ensures calls == old(calls) + [Begin(Open()[elemIndex - 1].address)]
    {
      hide Chain, Counted, DistinctNames, CountedNames, Opened;
      ghost var open := Open();
      var position := CountChild(name);
      var parent := AddressOf();
      ghost var bumped := Open();
      var e := Entry(name, parent + [Step(name, position)], "", []);
      Pushed(bumped, e);
      OpenedBy(open, name, bumped, e);
      stack[elemIndex] := e;
      elemIndex := elemIndex + 1;
      assert Open() == bumped + [e];
      calls := calls + [Begin(e.address)];
    }

    /** Counts the element in its parent's entry and returns its position there (omnivore.c:791-802). */
    method CountChild(name: string) returns (position: nat)
      requires Valid() && elemIndex < MAXITEMS
      requires elemIndex > 0 ==>
                 DistinctNames(Open()[elemIndex - 1].counts)
                 && |CountedNames(Open()[elemIndex - 1].counts) + {name}| <= MAX_CHILDS
      modifies stack
      ensures Valid()
      ensures elemIndex == 0 ==> Open() == old(Open()) && position == 1
      ensures elemIndex > 0 ==>
                && Open()[..elemIndex - 1] == old(Open()[..elemIndex - 1])
                && Bumped(old(Open()[elemIndex - 1]), name, Open()[elemIndex - 1])
                && position == CountOf(Open()[elemIndex - 1].counts, name)
    {
      hide Chain, Counted, DistinctNames, CountedNames, CountOf;
      position := 1;
      if elemIndex > 0 {
        ghost var open := Open();
        var top := stack[elemIndex - 1];
        assert top == open[elemIndex - 1];
        var counts;
        counts, position := Increment(top.counts, name);
        Recounted(open, name, top.(counts := counts));
        stack[elemIndex - 1] := top.(counts := counts);
        assert Open() == open[elemIndex - 1 := stack[elemIndex - 1]];
      }
    }

    /** The loop that rebuilds the innermost open element's address from names and counts (omnivore.c:836-870). */
    method AddressOf() returns (address: seq<Step>)
      requires Valid()
      ensures address == if elemIndex == 0 then [] else Open()[elemIndex - 1].address
    {
      hide Chain, Counted;
      ghost var open := Open();
      address := [];
      for i := 0 to elemIndex
        invariant address == if i == 0 then [] else open[i - 1].address
      {
        ChainAt(open, i);
        assert open[i] == stack[i];
        if i == 0 {
          address := address + [Step(stack[i].name, 1)];
        } else {
          assert open[i - 1] == stack[i - 1];
          var n := GetCount(stack[i - 1].counts, stack[i].name);
          assert n > 0; // so the source's correction of 0 to 1 never applies
          address := address + [Step(stack[i].name, n)];
        }
      }
    }

    /** expat_end. */
    method End()
      requires Valid() && depth > 0 && (ignoreDepth == 0 ==> elemIndex > 0)
      modifies `depth, `ignoreDepth, `elemIndex, `calls
      ensures Valid() && depth == old(depth) - 1
      ensures old(ignoreDepth) > 0 ==> Open() == old(Open()) && calls == old(calls)
      ensures old(ignoreDepth) > 0 ==> ignoreDepth == if old(ignoreDepth) == old(depth) then 0 else old(ignoreDepth)
      ensures old(ignoreDepth) == 0 ==>
                && ignoreDepth == 0 && elemIndex == old(elemIndex) - 1 && Open() == old(Open()[..elemIndex - 1])
                && calls == old(calls) + [Finish(old(Open()[elemIndex - 1]).address, old(Open()[elemIndex - 1]).text)]
    {
      if ignoreDepth > 0 && ignoreDepth < depth {
        depth := depth - 1;
        return;
      }
      if ignoreDepth > 0 && ignoreDepth == depth {
        ignoreDepth := 0;
        depth := depth - 1;
        return;
      }
      Shorter(Open());
      ghost var open := Open();
      elemIndex := elemIndex - 1;
      assert Open() == open[..|open| - 1];
      depth := depth - 1;
      calls := calls + [Finish(stack[elemIndex].address, stack[elemIndex].text)];
    }

    /**
     * expat_char_data. Deeper inside an ignored element the data is dropped; directly
     * inside it, depth and ignoreDepth are equal and it goes to the innermost open element.
     */
    method CharData(data: string)
      requires Valid() && (!(0 < ignoreDepth < depth) ==> elemIndex > 0)
      modifies stack
      ensures Valid()
      ensures 0 < ignoreDepth < depth ==> Open() == old(Open())
      ensures !(0 < ignoreDepth < depth) ==>
                var e := old(Open()[elemIndex - 1]);
                Open() == old(Open())[elemIndex - 1 := if model.text(e.name) then e.(text := e.text + data) else e]
    {
      hide Chain, Counted, Continued, CountOf;
      if ignoreDepth > 0 && ignoreDepth < depth {
        return;
      }
      ghost var open := Open();
      var e := stack[elemIndex - 1];
      if !model.text(e.name) {
        return;
      }
      Retexted(open, e.(text := e.text + data));
      stack[elemIndex - 1] := e.(text := e.text + data);
      assert Open() == open[elemIndex - 1 := stack[elemIndex - 1]];
    }

    // --- the events of a tree, as the parser delivers them ------------------------------

    /** Inside an ignored element's children nothing has any effect. */
    method FeedBuried(kids: seq<Node>)
      requires Valid() && 0 < ignoreDepth < depth
      modifies this, stack
      ensures Valid() && depth == old(depth) && ignoreDepth == old(ignoreDepth) && elemIndex == old(elemIndex)
      ensures Open() == old(Open()) && calls == old(calls)
      decreases kids
    {
      if kids != [] {
        match kids[0] {
          case Chars(data) =>
            CharData(data);
          case Element(name, inner) =>
            Start(name);
            FeedBuried(inner);
            End();
        }
        FeedBuried(kids[1..]);
      }
    }

    ghost predicate TopReflects(before: seq<Node>)
      reads this, stack
    {
      0 < elemIndex <= stack.Length && Reflects(Open()[elemIndex - 1], model, before)
    }

    /** The rest of the stack, and the name and address of its top. */
    ghost function Frame(): (seq<Entry>, string, seq<Step>)
      requires 0 < elemIndex <= stack.Length
      reads this, stack
    {
      (Open()[..elemIndex - 1], Open()[elemIndex - 1].name, Open()[elemIndex - 1].address)
    }

    /** Character data that goes to the innermost open element. */
    method FeedChars(data: string, ghost before: seq<Node>)
      requires Valid() && !(0 < ignoreDepth < depth) && TopReflects(before)
      modifies stack
      ensures Valid() && TopReflects(before + [Chars(data)]) && Frame() == old(Frame())
    {
      hide Valid, Reflects;
      ghost var open, n := Open(), elemIndex - 1;
      ghost var e := open[n];
      CharsReflects(e, model, before, data);
      ghost var more := if model.text(e.name) then e.(text := e.text + data) else e;
      CharData(data);
      assert Open() == open[n := more];
      assert Open()[n] == more && Open()[..n] == open[..n];
    }

    /** An element inside an ignored one, with everything below it. */
    method SkipOne(name: string, kids: seq<Node>)
      requires Valid() && 0 < ignoreDepth <= depth
      modifies this, stack
      ensures Valid() && depth == old(depth) && ignoreDepth == old(ignoreDepth) && elemIndex == old(elemIndex)
      ensures Open() == old(Open()) && calls == old(calls)
    {
      hide Chain, Counted;
      Start(name);
      FeedBuried(kids);
      End();
    }

    /** The same, below an open element. */
    method SkipBelow(name: string, kids: seq<Node>, ghost before: seq<Node>)
      requires Valid() && 0 < ignoreDepth <= depth && TopReflects(before)
      modifies this, stack
      ensures Valid() && depth == old(depth) && ignoreDepth == old(ignoreDepth) && elemIndex == old(elemIndex)
      ensures TopReflects(before) && Frame() == old(Frame()) && calls == old(calls)
    {
      hide Chain, Counted, Reflects;
      SkipOne(name, kids);
    }

    lemma LooseStep(kids: seq<Node>, before: seq<Node>)
      ensures kids == [] ==> before + Loose(kids) == before
      ensures kids != [] && kids[0].Chars? ==> (before + [kids[0]]) + Loose(kids[1..]) == before + Loose(kids)
      ensures kids != [] && kids[0].Element? ==> before + Loose(kids[1..]) == before + Loose(kids)
    {
      if kids == [] {
        assert before + [] == before;
      } else {
        var head, rest := if kids[0].Chars? then [kids[0]] else [], Loose(kids[1..]);
        assert Loose(kids) == head + rest;
        hide Loose;
        assert before + (head + rest) == (before + head) + rest;
        assert before + [] == before;
      }
    }

    /** The children of an ignored element: only its own character data has an effect. */
    method FeedIgnored(kids: seq<Node>, ghost before: seq<Node>)
      requires Valid() && 0 < ignoreDepth == depth && TopReflects(before)
      modifies this, stack
      ensures Valid() && depth == old(depth) && ignoreDepth == old(ignoreDepth) && elemIndex == old(elemIndex)
      ensures TopReflects(before + Loose(kids)) && Frame() == old(Frame()) && calls == old(calls)
      decreases kids
    {
      LooseStep(kids, before);
      if kids != [] {
        match kids[0] {
          case Chars(data) =>
            FeedChars(data, before);
            hide *;
            FeedIgnored(kids[1..], before + [Chars(data)]);
          case Element(name, inner) =>
            SkipBelow(name, inner, before);
            hide *;
            FeedIgnored(kids[1..], before);
        }
      }
    }

    /** An ignored child of the innermost open element. */
    method FeedSkipped(name: string, kids: seq<Node>, ghost before: seq<Node>)
      requires Valid() && ignoreDepth == 0 && TopReflects(before) && model.ignored(name)
      modifies this, stack
      ensures Valid() && depth == old(depth) && ignoreDepth == 0 && elemIndex == old(elemIndex)
      ensures TopReflects(before + Loose(kids)) && Frame() == old(Frame()) && calls == old(calls)
    {
      hide Chain, Counted, Reflects;
      Start(name);
      FeedIgnored(kids, before);
      End();
    }

    lemma PrunedIs(node: Node, before: seq<Node>)
      ensures node.Chars? ==> PruneOne(model, node) == [Chars(node.data)]
      ensures node.Element? && model.ignored(node.name) ==> PruneOne(model, node) == Loose(node.kids)
      ensures node.Element? && !model.ignored(node.name)
              ==> PruneOne(model, node) == [Element(node.name, Prune(model, node.kids))]
                  && Names(before + PruneOne(model, node)) == Names(before) + {node.name}
    {
      NamesConcat(before, PruneOne(model, node));
    }

    lemma FitsIs(node: Node, room: int)
      requires Fits(model, node, room) && node.Element? && !model.ignored(node.name)
      ensures room > 0 && |Names(Prune(model, node.kids))| <= MAX_CHILDS && FitAll(model, node.kids, room - 1)
    {
    }

    /** One child of the innermost open element, with everything below it. */
    method Feed(node: Node, ghost before: seq<Node>)
      requires Valid() && ignoreDepth == 0 && TopReflects(before)
      requires Fits(model, node, MAXITEMS - elemIndex) && |Names(before + PruneOne(model, node))| <= MAX_CHILDS
      modifies this, stack
      ensures Valid() && depth == old(depth) && ignoreDepth == 0 && elemIndex == old(elemIndex)
      ensures TopReflects(before + PruneOne(model, node)) && Frame() == old(Frame())
      ensures calls == old(calls) + Traverse(model, before, PruneOne(model, node), Frame().2)
      decreases node
    {
      PrunedOne(model, before, node, Frame().2);
      PrunedIs(node, before);
      if node.Element? && !model.ignored(node.name) { FitsIs(node, MAXITEMS - elemIndex); }
      hide *;
      match node {
        case Chars(data) =>
          FeedChars(data, before);
        case Element(name, kids) =>
          if model.ignored(name) {
            FeedSkipped(name, kids, before);
          } else {
            FeedKept(name, kids, before);
          }
      }
    }

    method FeedKept(name: string, kids: seq<Node>, ghost before: seq<Node>)
      requires Valid() && ignoreDepth == 0 && TopReflects(before) && !model.ignored(name)
      requires elemIndex < MAXITEMS && FitAll(model, kids, MAXITEMS - elemIndex - 1)
      requires |Names(Prune(model, kids))| <= MAX_CHILDS && |Names(before) + {name}| <= MAX_CHILDS
      modifies this, stack
      ensures Valid() && depth == old(depth) && ignoreDepth == 0 && elemIndex == old(elemIndex)
      ensures TopReflects(before + [Element(name, Prune(model, kids))]) && Frame() == old(Frame())
      ensures calls == old(calls) + TraverseOne(model, before, Element(name, Prune(model, kids)), Frame().2)
      decreases kids, 1
    {
      hide Chain, Counted, Reflects, Opened, Names, TextOf, Same, DistinctNames, CountOf, CountedNames, Traverse;
      ghost var open, calls0, inner := Open(), calls, Prune(model, kids);
      TopCounts(open[|open| - 1], before);
      Start(name);
      ghost var within := Open();
      Entered(open, name, within, model, before, inner);
      assert [] + inner == inner;
      FeedAll(kids, []);
      ghost var e := Open()[elemIndex - 1];
      TopCounts(e, inner);
      End();
      assert Open() == within[..|open|] && Open()[..|open| - 1] == within[..|open| - 1];
      assert calls == calls0
             + ([Begin(e.address)] + Traverse(model, [], inner, e.address) + [Finish(e.address, e.text)]);
    }

    lemma TopCounts(e: Entry, before: seq<Node>)
      requires Reflects(e, model, before)
      ensures DistinctNames(e.counts) && CountedNames(e.counts) == Names(before)
      ensures forall name :: CountOf(e.counts, name) == Same(before, name)
      ensures e.text == TextOf(model, e.name, before)
    {
    }

    /** The children of the innermost open element. */
    method FeedAll(kids: seq<Node>, ghost before: seq<Node>)
      requires Valid() && ignoreDepth == 0 && TopReflects(before)
      requires FitAll(model, kids, MAXITEMS - elemIndex) && |Names(before + Prune(model, kids))| <= MAX_CHILDS
      modifies this, stack
      ensures Valid() && depth == old(depth) && ignoreDepth == 0 && elemIndex == old(elemIndex)
      ensures TopReflects(before + Prune(model, kids)) && Frame() == old(Frame())
      ensures calls == old(calls) + Traverse(model, before, Prune(model, kids), Frame().2)
      decreases kids, 0
    {
      hide Chain, Counted, Reflects, Names;
      if kids == [] {
        assert before + [] == before;
        return;
      }
      ghost var one, rest := PruneOne(model, kids[0]), Prune(model, kids[1..]);
      assert before + (one + rest) == (before + one) + rest;
      FewerNames(before + one, rest);
      TraverseConcat(model, before, one, rest, Frame().2);
      Feed(kids[0], before);
      FeedAll(kids[1..], before + one);
    }

    lemma FewerNames(a: seq<Node>, b: seq<Node>)
      ensures |Names(a)| <= |Names(a + b)|
    {
      NamesConcat(a, b);
      SubsetAtMost(Names(a), Names(a + b));
    }

    /**
     * A whole document. The calls made are the traversal of the pruned tree, and the
     * counters are back where they were. It fails exactly when an ignored document element
     * has character data of its own: there is no open element for it to go to, and the
     * source reads in front of its stack.
     */
    method FeedDocument(root: Node) returns (ok: bool)
      requires Valid() && ignoreDepth == 0 && elemIndex == 0 && root.Element? && Fits(model, root, MAXITEMS)
      modifies this, stack
      ensures ok <==> !model.ignored(root.name) || Loose(root.kids) == []
      ensures ok ==> Valid() && depth == old(depth) && ignoreDepth == 0 && elemIndex == 0
      ensures ok ==> calls == old(calls) + Traverse(model, [], PruneOne(model, root), [])
      ensures !ok ==> calls == old(calls)
    {
      hide Chain, Counted, Reflects;
      PrunedOne(model, [], root, []);
      if model.ignored(root.name) {
        Start(root.name);
        ok := SkipElements(root.kids);
        if ok {
          End();
        }
        return;
      }
      FeedRoot(root.name, root.kids);
      return true;
    }

    /** A document element that is kept. */
    method FeedRoot(name: string, kids: seq<Node>)
      requires Valid() && ignoreDepth == 0 && elemIndex == 0 && !model.ignored(name)
      requires FitAll(model, kids, MAXITEMS - 1) && |Names(Prune(model, kids))| <= MAX_CHILDS
      modifies this, stack
      ensures Valid() && depth == old(depth) && ignoreDepth == 0 && elemIndex == 0
      ensures calls == old(calls) + TraverseOne(model, [], Element(name, Prune(model, kids)), [])
    {
      hide Chain, Counted, Reflects, DistinctNames, CountOf, CountedNames, Names, Traverse;
      ghost var calls0, inner := calls, Prune(model, kids);
      Start(name);
      NewReflects(Open()[0], model);
      assert [] + inner == inner;
      FeedAll(kids, []);
      ghost var e := Open()[elemIndex - 1];
      TopCounts(e, inner);
      End();
      assert [] + [Step(name, 1)] == [Step(name, 1)];
      assert calls == calls0
             + ([Begin(e.address)] + Traverse(model, [], inner, e.address) + [Finish(e.address, e.text)]);
    }

    /** The children of an ignored document element: its own character data has nowhere to go. */
    method SkipElements(kids: seq<Node>) returns (ok: bool)
      requires Valid() && 0 < ignoreDepth == depth && elemIndex == 0
      modifies this, stack
      ensures ok <==> Loose(kids) == []
      ensures Valid() && depth == old(depth) && ignoreDepth == old(ignoreDepth) && elemIndex == old(elemIndex)
      ensures Open() == old(Open()) && calls == old(calls)
      decreases kids
    {
      if kids == [] {
        return true;
      }
      if kids[0].Chars? {
        return false;
      }
      SkipOne(kids[0].name, kids[0].kids);
      ok := SkipElements(kids[1..]);
    }
  }
}
