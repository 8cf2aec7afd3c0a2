/**
 * TreeIterator: a depth-first iteration over a tree in definition order,
 * driven by a stack of child iterators.  Each iterator on the stack is a
 * cursor (the sequence it walks and how far it has got); the first one walks
 * the root's children and is never removed.
 */
module TreeIter {
  import opened Results

  /** A tree node; it has children when its child sequence is non-empty. */
  datatype Node = Node(children: seq<Node>) {
    predicate HasChildren() {
      |children| > 0
    }
  }

  /** A Java iterator over `items` that has already returned `items[..pos]`. */
  datatype Cursor = Cursor(items: seq<Node>, pos: nat) {
    predicate Valid() {
      pos <= |items|
    }

    predicate HasMore() {
      pos < |items|
    }
  }

  /** Definition order: each node, then its descendants, then its later siblings. */
  function Preorder(ns: seq<Node>): seq<Node>
    decreases ns
  {
    if ns == [] then [] else [ns[0]] + Preorder(ns[0].children) + Preorder(ns[1..])
  }

  predicate CursorsValid(stack: seq<Cursor>) {
    forall i :: 0 <= i < |stack| ==> stack[i].Valid()
  }

  function Top(stack: seq<Cursor>): Cursor
    requires |stack| > 0
  {
    stack[|stack| - 1]
  }

  function Pop(stack: seq<Cursor>): seq<Cursor>
    requires |stack| > 0
  {
    stack[..|stack| - 1]
  }

  /** `hasNext` as written: only the first and the last iterator are asked. */
  predicate HasNextOf(stack: seq<Cursor>)
    requires |stack| > 0
  {
    stack[0].HasMore() || Top(stack).HasMore()
  }

  /** The nodes a cursor has yet to reach, its own items' subtrees included. */
  function Unvisited(c: Cursor): seq<Node>
    requires c.Valid()
  {
    Preorder(c.items[c.pos..])
  }

  /**
   * The nodes a complete depth-first walk of the stack would still return:
   * the top cursor's, then those of the cursors below it.
   */
  function Remaining(stack: seq<Cursor>): seq<Node>
    requires CursorsValid(stack)
  {
    if stack == [] then [] else Unvisited(Top(stack)) + Remaining(Pop(stack))
  }

  /**
   * The pop loop of `next`: while `hasNext` holds and the top iterator is
   * exhausted, remove it.  The root iterator stays at the bottom.
   */
  function Settle(stack: seq<Cursor>): (r: seq<Cursor>)
    requires |stack| > 0 && CursorsValid(stack) && HasNextOf(stack)
    ensures 0 < |r| <= |stack| && r[0] == stack[0]
    ensures CursorsValid(r) && Top(r).HasMore()
    decreases |stack|
  {
    if Top(stack).HasMore() then stack
    else
      assert |stack| >= 2;
      var popped := Pop(stack);
      assert popped[0] == stack[0];
      Settle(popped)
  }

  /** Popping exhausted iterators leaves what is left to walk unchanged. */
  lemma {:induction false} SettleKeepsRemaining(stack: seq<Cursor>)
    requires |stack| > 0 && CursorsValid(stack) && HasNextOf(stack)
    ensures Remaining(Settle(stack)) == Remaining(stack)
    decreases |stack|
  {
    if !Top(stack).HasMore() {
      var popped := Pop(stack);
      assert popped[0] == stack[0];
      SettleKeepsRemaining(popped);
    }
  }

  /**
   * Taking a node from the iterator `t` on top of the stack `below`: advance
   * `t`, and push an iterator over the node's children when it has any.
   */
  function TakeFrom(below: seq<Cursor>, t: Cursor): (Node, seq<Cursor>)
    requires t.Valid() && t.HasMore()
  {
    var node := t.items[t.pos];
    var advanced := below + [Cursor(t.items, t.pos + 1)];
    (node, if node.HasChildren() then advanced + [Cursor(node.children, 0)] else advanced)
  }

  /** Taking a node from a stack whose top iterator has more. */
  function Take(s: seq<Cursor>): (Node, seq<Cursor>)
    requires |s| > 0 && CursorsValid(s) && Top(s).HasMore()
  {
    TakeFrom(Pop(s), Top(s))
  }

  /** One call of `next` when `hasNext` holds: pop exhausted iterators, then take a node. */
  function Advance(stack: seq<Cursor>): (Node, seq<Cursor>)
    requires |stack| > 0 && CursorsValid(stack) && HasNextOf(stack)
  {
    Take(Settle(stack))
  }

  lemma AdvanceValid(stack: seq<Cursor>)
    requires |stack| > 0 && CursorsValid(stack) && HasNextOf(stack)
    ensures |Advance(stack).1| > 0 && CursorsValid(Advance(stack).1)
  {
    var s := Settle(stack);
    var t := Top(s);
    assert CursorsValid(Pop(s) + [Cursor(t.items, t.pos + 1)]);
  }

  lemma PreorderUnfold(items: seq<Node>, pos: nat)
    requires pos < |items|
    ensures Preorder(items[pos..]) == [items[pos]] + Preorder(items[pos].children) + Preorder(items[pos + 1..])
  {
    assert items[pos..][1..] == items[pos + 1..];
  }

  lemma RemainingPush(stack: seq<Cursor>, c: Cursor)
    requires CursorsValid(stack) && c.Valid()
    ensures CursorsValid(stack + [c])
    ensures Remaining(stack + [c]) == Unvisited(c) + Remaining(stack)
  {
    assert Pop(stack + [c]) == stack;
  }

  lemma TakeShape(s: seq<Cursor>)
    requires |s| > 0 && CursorsValid(s) && Top(s).HasMore()
    ensures |Take(s).1| > 0 && CursorsValid(Take(s).1) && Take(s).1[0].items == s[0].items
    ensures Take(s).0.HasChildren() ==> Top(Take(s).1) == Cursor(Take(s).0.children, 0) && |Take(s).1| == |s| + 1
    ensures !Take(s).0.HasChildren() ==> |Take(s).1| == |s|
  {
    var t := Top(s);
    var advanced := Pop(s) + [Cursor(t.items, t.pos + 1)];
    assert CursorsValid(advanced);
    assert |s| == 1 ==> advanced[0].items == t.items == s[0].items;
  }

  /** Regrouping a three-part concatenation, stated on plain values. */
  lemma Regroup<T>(r: seq<T>, a: seq<T>, b: seq<T>, c: seq<T>, bc: seq<T>)
    requires r == a + b + c && bc == b + c
    ensures r == a + bc
  {
  }

  /** Pushing an iterator over a node's children puts that node's subtree in front. */
  lemma DescendRemaining(stack: seq<Cursor>, n: Node)
    requires CursorsValid(stack) && n.HasChildren()
    ensures CursorsValid(stack + [Cursor(n.children, 0)])
    ensures Remaining(stack + [Cursor(n.children, 0)]) == Preorder(n.children) + Remaining(stack)
  {
    assert n.children[0..] == n.children;
    RemainingPush(stack, Cursor(n.children, 0));
  }

  /** The two shapes of `TakeFrom`, on the stack after the top iterator has advanced. */
  lemma TakeBranches(r: seq<Node>, node: Node, advanced: seq<Cursor>, after: seq<Cursor>)
    requires CursorsValid(advanced) && r == [node] + Preorder(node.children) + Remaining(advanced)
    requires after == if node.HasChildren() then advanced + [Cursor(node.children, 0)] else advanced
    ensures CursorsValid(after) && r == [node] + Remaining(after)
  {
    if node.HasChildren() {
      DescendRemaining(advanced, node);
    }
    Regroup(r, [node], Preorder(node.children), Remaining(advanced), Remaining(after));
  }

  /** Taking a node from `t` returns the first of what `t` and `below` still hold. */
  lemma TakeFromRemaining(below: seq<Cursor>, t: Cursor)
    requires CursorsValid(below) && t.Valid() && t.HasMore()
    ensures CursorsValid(TakeFrom(below, t).1)
    ensures Unvisited(t) + Remaining(below) == [TakeFrom(below, t).0] + Remaining(TakeFrom(below, t).1)
  {
    var node := t.items[t.pos];
    var next := Cursor(t.items, t.pos + 1);
    PreorderUnfold(t.items, t.pos);
    RemainingPush(below, next);
    Regroup(Unvisited(t) + Remaining(below), [node] + Preorder(node.children), Unvisited(next),
      Remaining(below), Remaining(below + [next]));
    TakeBranches(Unvisited(t) + Remaining(below), node, below + [next], TakeFrom(below, t).1);
  }

  lemma TakeRemaining(s: seq<Cursor>)
    requires |s| > 0 && CursorsValid(s) && Top(s).HasMore()
    ensures CursorsValid(Take(s).1) && Remaining(s) == [Take(s).0] + Remaining(Take(s).1)
  {
    TakeFromRemaining(Pop(s), Top(s));
  }

  /**
   * `next` returns the first node still to walk, and the walk left after it
   * is the rest; the root iterator keeps its place at the bottom; when the
   * node has children, their iterator is on top, and otherwise the stack is
   * no higher than before.
   */
  lemma AdvanceTakesNext(stack: seq<Cursor>)
    requires |stack| > 0 && CursorsValid(stack) && HasNextOf(stack)
    ensures |Advance(stack).1| > 0 && CursorsValid(Advance(stack).1)
    ensures Advance(stack).1[0].items == stack[0].items
    ensures Remaining(stack) != [] && Advance(stack).0 == Remaining(stack)[0]
    ensures Remaining(Advance(stack).1) == Remaining(stack)[1..]
    ensures Advance(stack).0.HasChildren() ==>
      Top(Advance(stack).1) == Cursor(Advance(stack).0.children, 0) && |Advance(stack).1| <= |stack| + 1
    ensures !Advance(stack).0.HasChildren() ==> |Advance(stack).1| <= |stack|
  {
    var settled := Settle(stack);
    SettleKeepsRemaining(stack);
    TakeShape(settled);
    TakeRemaining(settled);
  }

  /** When the root iterator has more, so has the whole walk. */
  lemma {:induction false} RootHasMore(stack: seq<Cursor>)
    requires |stack| > 0 && CursorsValid(stack) && stack[0].HasMore()
    ensures Remaining(stack) != []
  {
    if |stack| == 1 {
      PreorderUnfold(stack[0].items, stack[0].pos);
    } else {
      assert Pop(stack)[0] == stack[0];
      RootHasMore(Pop(stack));
    }
  }

  /** `hasNext` is sound: when it says true, some node is still to be returned. */
  lemma HasNextSound(stack: seq<Cursor>)
    requires |stack| > 0 && CursorsValid(stack) && HasNextOf(stack)
    ensures Remaining(stack) != []
  {
    if Top(stack).HasMore() {
      PreorderUnfold(Top(stack).items, Top(stack).pos);
    } else {
      RootHasMore(stack);
    }
  }

  /**
   * With at most two iterators on the stack, `hasNext` is also complete: it
   * is false only when every node has been returned.
   */
  lemma HasNextExactWhenShallow(stack: seq<Cursor>)
    requires 0 < |stack| <= 2 && CursorsValid(stack)
    ensures HasNextOf(stack) <==> Remaining(stack) != []
  {
    if HasNextOf(stack) {
      HasNextSound(stack);
    } else {
      assert Unvisited(Top(stack)) == [];
      assert Unvisited(stack[0]) == [];
      if |stack| == 2 {
        assert Pop(stack) == [stack[0]];
      }
    }
  }

  /** A walk of up to `k` calls of `next` from `stack`, stopping at the first that throws. */
  function Walk(stack: seq<Cursor>, k: nat): (r: (seq<Node>, seq<Cursor>))
    requires |stack| > 0 && CursorsValid(stack)
    ensures |r.0| <= k && |r.1| > 0 && CursorsValid(r.1)
    decreases k
  {
    if k == 0 || !HasNextOf(stack) then ([], stack)
    else
      AdvanceValid(stack);
      var next := Advance(stack);
      var rest := Walk(next.1, k - 1);
      ([next.0] + rest.0, rest.1)
  }

  /**
   * Whatever `next` has returned, followed by what is left to walk, is the
   * walk the stack started with: the nodes returned from a fresh iterator are
   * a prefix of the root's definition order, each position at most once.
   */
  lemma {:induction false} WalkIsPrefix(stack: seq<Cursor>, k: nat)
    requires |stack| > 0 && CursorsValid(stack)
    ensures Walk(stack, k).0 + Remaining(Walk(stack, k).1) == Remaining(stack)
    decreases k
  {
    if k != 0 && HasNextOf(stack) {
      var k' := k - 1;
      var (node, after) := Advance(stack);
      AdvanceTakesNext(stack);
      WalkStep(stack, k, k', node, after);
      WalkIsPrefix(after, k');
      var rest := Walk(after, k');
      ConsJoin(node, rest.0, Remaining(rest.1), Remaining(stack));
    }
  }

  lemma ConsJoin<T>(x: T, a: seq<T>, b: seq<T>, r: seq<T>)
    requires r != [] && x == r[0] && a + b == r[1..]
    ensures ([x] + a) + b == r
  {
  }

  lemma FreshWalkIsPrefix(root: seq<Node>, k: nat)
    ensures var returned := Walk([Cursor(root, 0)], k).0;
      |returned| <= |Preorder(root)| && returned == Preorder(root)[..|returned|]
  {
    var stack := [Cursor(root, 0)];
    WalkIsPrefix(stack, k);
    assert Pop(stack) == [];
    assert root[0..] == root;
    assert Remaining(stack) == Preorder(root);
  }

  /** One step of a walk: the node `next` returns, then the walk from the stack it leaves. */
  lemma WalkStep(stack: seq<Cursor>, k: nat, k': nat, node: Node, after: seq<Cursor>)
    requires |stack| > 0 && CursorsValid(stack) && HasNextOf(stack) && k == k' + 1
    requires Advance(stack) == (node, after) && |after| > 0 && CursorsValid(after)
    ensures Walk(stack, k) == ([node] + Walk(after, k').0, Walk(after, k').1)
  {
  }

  /**
   * The quirk of `hasNext`: the root [A] with A's children [B, C] and B's
   * child [D] is walked A, B, D; then the root iterator and the top iterator
   * (over B's children) are both exhausted, so `hasNext` is false although
   * A's iterator, in the middle, still holds C.
   */
  lemma HasNextMissesMiddle()
    ensures var d := Node([]);
      var c := Node([]);
      var b := Node([d]);
      var a := Node([b, c]);
      var s0 := [Cursor([a], 0)];
      var s1 := [Cursor([a], 1), Cursor([b, c], 0)];
      var s2 := [Cursor([a], 1), Cursor([b, c], 1), Cursor([d], 0)];
      var s3 := [Cursor([a], 1), Cursor([b, c], 1), Cursor([d], 1)];
      && Preorder([a]) == [a, b, d, c]
      && HasNextOf(s0) && Advance(s0) == (a, s1)
      && HasNextOf(s1) && Advance(s1) == (b, s2)
      && HasNextOf(s2) && Advance(s2) == (d, s3)
      && !HasNextOf(s3) && Remaining(s3) == [c]
  {
    var d := Node([]);
    var c := Node([]);
    var b := Node([d]);
    var a := Node([b, c]);
    ExampleOrder(a, b, c, d);
    ExampleFirstStep(a, b, c);
    ExampleSecondStep(a, b, c, d);
    ExampleThirdStep(a, b, c, d);
    ExampleLeftover(a, b, c, d);
  }

  lemma ExampleOrder(a: Node, b: Node, c: Node, d: Node)
    requires d == Node([]) && c == Node([]) && b == Node([d]) && a == Node([b, c])
    ensures Preorder([a]) == [a, b, d, c]
  {
    assert Preorder([d]) == [d];
    assert Preorder([c]) == [c];
    assert Preorder([b, c]) == [b, d, c] by {
      assert [b, c][1..] == [c];
    }
  }

  lemma ExampleFirstStep(a: Node, b: Node, c: Node)
    requires a == Node([b, c])
    ensures HasNextOf([Cursor([a], 0)])
    ensures Advance([Cursor([a], 0)]) == (a, [Cursor([a], 1), Cursor([b, c], 0)])
  {
    var s0 := [Cursor([a], 0)];
    assert Settle(s0) == s0;
    assert Pop(s0) + [Cursor([a], 1)] + [Cursor(a.children, 0)] == [Cursor([a], 1), Cursor([b, c], 0)];
  }

  lemma ExampleSecondStep(a: Node, b: Node, c: Node, d: Node)
    requires b == Node([d])
    ensures HasNextOf([Cursor([a], 1), Cursor([b, c], 0)])
    ensures Advance([Cursor([a], 1), Cursor([b, c], 0)])
      == (b, [Cursor([a], 1), Cursor([b, c], 1), Cursor([d], 0)])
  {
    var s1 := [Cursor([a], 1), Cursor([b, c], 0)];
    assert Settle(s1) == s1;
    assert Pop(s1) + [Cursor([b, c], 1)] + [Cursor(b.children, 0)]
      == [Cursor([a], 1), Cursor([b, c], 1), Cursor([d], 0)];
  }

  lemma ExampleThirdStep(a: Node, b: Node, c: Node, d: Node)
    requires d == Node([])
    ensures HasNextOf([Cursor([a], 1), Cursor([b, c], 1), Cursor([d], 0)])
    ensures Advance([Cursor([a], 1), Cursor([b, c], 1), Cursor([d], 0)])
      == (d, [Cursor([a], 1), Cursor([b, c], 1), Cursor([d], 1)])
  {
    var s2 := [Cursor([a], 1), Cursor([b, c], 1), Cursor([d], 0)];
    assert Settle(s2) == s2;
    assert Pop(s2) + [Cursor([d], 1)] == [Cursor([a], 1), Cursor([b, c], 1), Cursor([d], 1)];
  }

  lemma ExampleLeftover(a: Node, b: Node, c: Node, d: Node)
    requires c == Node([])
    ensures !HasNextOf([Cursor([a], 1), Cursor([b, c], 1), Cursor([d], 1)])
    ensures Remaining([Cursor([a], 1), Cursor([b, c], 1), Cursor([d], 1)]) == [c]
  {
    var s3 := [Cursor([a], 1), Cursor([b, c], 1), Cursor([d], 1)];
    var s3a := [Cursor([a], 1), Cursor([b, c], 1)];
    var s3b := [Cursor([a], 1)];
    assert Pop(s3) == s3a && Pop(s3a) == s3b && Pop(s3b) == [];
    assert [b, c][1..] == [c] && [d][1..] == [] && [a][1..] == [];
    assert Unvisited(Cursor([d], 1)) == [];
    assert Preorder([c]) == [c] by {
      assert [c][1..] == [];
    }
    assert Unvisited(Cursor([b, c], 1)) == [c];
    assert Unvisited(Cursor([a], 1)) == [];
    assert Remaining(s3b) == [];
    assert Remaining(s3a) == [c];
  }

  /** The intended `hasNext`: some iterator on the stack has more. */
  predicate AnyHasMore(stack: seq<Cursor>) {
    exists i :: 0 <= i < |stack| && stack[i].HasMore()
  }

  /** An iterator has nodes left to walk exactly when it has more. */
  lemma UnvisitedEmpty(c: Cursor)
    requires c.Valid()
    ensures Unvisited(c) == [] <==> !c.HasMore()
  {
    if c.HasMore() {
      PreorderUnfold(c.items, c.pos);
    } else {
      assert c.items[c.pos..] == [];
    }
  }

  /** With the top iterator exhausted, some iterator has more exactly when one below it has. */
  lemma AnyHasMorePop(stack: seq<Cursor>)
    requires |stack| > 0 && !Top(stack).HasMore()
    ensures AnyHasMore(stack) <==> AnyHasMore(Pop(stack))
  {
    var below := Pop(stack);
    if AnyHasMore(stack) {
      var i :| 0 <= i < |stack| && stack[i].HasMore();
      assert i < |below| && below[i] == stack[i];
    }
    if AnyHasMore(below) {
      var i :| 0 <= i < |below| && below[i].HasMore();
      assert stack[i] == below[i];
    }
  }

  /** The intended `hasNext` is false exactly when every node has been returned. */
  lemma {:induction false} AnyHasMoreIffRemaining(stack: seq<Cursor>)
    requires CursorsValid(stack)
    ensures AnyHasMore(stack) <==> Remaining(stack) != []
  {
    if stack != [] {
      var below := Pop(stack);
      AnyHasMoreIffRemaining(below);
      UnvisitedEmpty(Top(stack));
      if Top(stack).HasMore() {
        assert stack[|stack| - 1].HasMore();
      } else {
        AnyHasMorePop(stack);
      }
    }
  }

  /** Popping an exhausted top iterator changes neither what is left nor what `next` does. */
  lemma PopExhausted(stack: seq<Cursor>)
    requires |stack| > 0 && CursorsValid(stack) && HasNextOf(stack) && !Top(stack).HasMore()
    ensures |Pop(stack)| > 0 && CursorsValid(Pop(stack)) && Pop(stack)[0] == stack[0] && HasNextOf(Pop(stack))
    ensures Remaining(Pop(stack)) == Remaining(stack)
    ensures Advance(Pop(stack)) == Advance(stack)
  {
    assert |stack| >= 2;
    assert Pop(stack)[0] == stack[0];
    assert Top(stack).items[Top(stack).pos..] == [];
  }

  /** With more in the top iterator, `next` takes from it straight away. */
  lemma TakeIsAdvance(stack: seq<Cursor>)
    requires |stack| > 0 && CursorsValid(stack) && Top(stack).HasMore()
    ensures HasNextOf(stack) && Advance(stack) == Take(stack)
    ensures |Take(stack).1| > 0 && CursorsValid(Take(stack).1) && Take(stack).1[0].items == stack[0].items
    ensures Remaining(stack) == [Take(stack).0] + Remaining(Take(stack).1)
  {
    TakeShape(stack);
    TakeRemaining(stack);
  }

  /** Moving the first element of the rest onto the end of the prefix keeps the whole. */
  lemma ShiftOne<T>(prefix: seq<T>, x: T, rest: seq<T>, tail: seq<T>, whole: seq<T>)
    requires prefix + rest == whole && rest == [x] + tail
    ensures (prefix + [x]) + tail == whole
  {
  }

  class TreeIterator {
    /** The stack of child iterators; the bottom one walks the root's children. */
    var iterators: seq<Cursor>
    /** The root's children. */
    ghost var root: seq<Node>
    /** The nodes `next` has returned so far. */
    ghost var returned: seq<Node>

    /**
     * The stack is never empty, its bottom iterator is the root's, and the
     * nodes returned so far followed by what is left to walk are the root's
     * definition order.
     */
    ghost predicate Valid()
      reads this
    {
      && |iterators| > 0 && CursorsValid(iterators)
      && iterators[0].items == root
      && returned + Remaining(iterators) == Preorder(root)
    }

    constructor (root: seq<Node>)
      ensures Valid() && this.root == root && returned == []
      ensures iterators == [Cursor(root, 0)]
    {
      iterators := [Cursor(root, 0)];
      this.root := root;
      returned := [];
      new;
      assert Pop(iterators) == [];
      assert root[0..] == root;
    }

    /**
     * Whether the first or the last iterator has more.  When true, some node
     * is still to be returned; with at most two iterators on the stack, the
     * converse holds too.
     */
    function HasNext(): (b: bool)
      reads this
      requires Valid()
      ensures b ==> |returned| < |Preorder(root)|
      ensures |iterators| <= 2 ==> (b <==> |returned| < |Preorder(root)|)
    {
      if HasNextOf(iterators) then
        HasNextSound(iterators);
        true
      else
        if |iterators| <= 2 then
          HasNextExactWhenShallow(iterators);
          false
        else
          false
    }

    /**
     * Returns the next node in definition order, or throws
     * NoSuchElementException, changing nothing, when `hasNext` is false.
     */
    method Next() returns (r: Result<Node, Error>)
      requires Valid()
      modifies this
      ensures Valid() && root == old(root)
      ensures r.Failure? <==> !old(HasNext())
      ensures r.Failure? ==> r.error == NoSuchElement && iterators == old(iterators) && returned == old(returned)
      ensures r.Success? ==> (r.value, iterators) == Advance(old(iterators))
      ensures r.Success? ==> returned == old(returned) + [r.value]
      decreases |iterators|
    {
      if !HasNextOf(iterators) {
        return Failure(NoSuchElement);
      }
      var top := iterators[|iterators| - 1];
      if !top.HasMore() {
        PopExhausted(iterators);
        iterators := iterators[..|iterators| - 1];
        r := Next();
        return;
      }
      TakeIsAdvance(iterators);
      ghost var before := iterators;
      var node := top.items[top.pos];
      iterators := iterators[..|iterators| - 1] + [Cursor(top.items, top.pos + 1)];
      if node.HasChildren() {
        iterators := iterators + [Cursor(node.children, 0)];
      }
      assert (node, iterators) == TakeFrom(Pop(before), Top(before));
      ShiftOne(returned, node, Remaining(before), Remaining(iterators), Preorder(root));
      returned := returned + [node];
      r := Success(node);
    }
  }
}
