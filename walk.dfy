/**
 * The ghost bookkeeping of the in-order walk of rbtree_to_array
 * (src/rbtree.c): which nodes sit on the explicit stack, which subtree the
 * cursor stands on, and how much of the output has been written.  The walk
 * itself is `RedBlackTree.RBTree.ToArray`; the lemmas here carry its loop
 * invariant across one push and one pop.
 */
module InorderWalk {
  import opened RBTrees
  import opened Arena

  /** The keys the walk still owes for the stacked nodes `st` (bottom first): top node, its right subtree, then the rest. */
  function Pending(st: seq<Tree>): seq<int>
  {
    if st == [] then []
    else
      var t := st[|st| - 1];
      (if t.Node? then [t.key] + Inorder(t.right) else []) + Pending(st[..|st| - 1])
  }

  /**
   * Every stacked node is stored in `h`, and the entry at depth `j` still
   * has its right subtree to visit: `j + 1` entries plus that subtree's
   * height fit in `height`.
   */
  ghost predicate Stacked(st: seq<Tree>, h: Heap, height: nat)
    decreases |st|
  {
    st == [] ||
    (Stacked(st[..|st| - 1], h, height) &&
     var x := st[|st| - 1];
     x.Node? && Rooted(x, h) && |st| + Height(x.right) <= height)
  }

  /** The nodes still to visit: the stack `st` and the subtree `ct` under the cursor are stored in `h`. */
  ghost predicate WalkShape(h: Heap, height: nat, st: seq<Tree>, ct: Tree, cpar: int)
  {
    Stacked(st, h, height) && Repr(ct, cpar, h) && |st| + Height(ct) <= height
  }

  /** The keys still to emit are exactly `s` after its first `i`. */
  ghost predicate WalkKeys(s: seq<int>, st: seq<Tree>, ct: Tree, i: int)
  {
    0 <= i <= |s| && Inorder(ct) + Pending(st) == s[i..]
  }

  /** The first `|st|` slots of the stack array `a` point at the nodes of `st`, bottom first. */
  ghost predicate Holds(a: seq<int>, st: seq<Tree>)
  {
    |st| <= |a| && forall j :: 0 <= j < |st| ==> a[j] == Ptr(st[j])
  }

  /** The first `i` keys of `s` are written to `out`; the rest of `out` is still `a0`. */
  ghost predicate Written(s: seq<int>, a0: seq<int>, out: seq<int>, i: int)
  {
    |s| <= |out| == |a0| && 0 <= i <= |s| && out[..i] == s[..i] && out[i..] == a0[i..]
  }

  /** The loop state of the walk over the tree of height `height` whose in-order keys are `s`. */
  ghost predicate Walking(h: Heap, height: nat, s: seq<int>, a0: seq<int>, out: seq<int>, stk: seq<int>,
                          st: seq<Tree>, ct: Tree, cpar: int, i: int, cur: int)
  {
    WalkShape(h, height, st, ct, cpar) && cur == Ptr(ct) && WalkKeys(s, st, ct, i) &&
    Holds(stk, st) && Written(s, a0, out, i)
  }

  lemma PushShape(h: Heap, height: nat, st: seq<Tree>, ct: Tree, cpar: int)
    requires WalkShape(h, height, st, ct, cpar) && ct.Node?
    ensures Has(h, ct.id) && h.lefts[ct.id] == Ptr(ct.left)
    ensures WalkShape(h, height, st + [ct], ct.left, ct.id)
  {
    assert (st + [ct])[..|st|] == st;
  }

  lemma PushKeys(s: seq<int>, st: seq<Tree>, ct: Tree, i: int)
    requires WalkKeys(s, st, ct, i) && ct.Node?
    ensures WalkKeys(s, st + [ct], ct.left, i)
  {
    assert (st + [ct])[..|st|] == st;
  }

  lemma PopShape(h: Heap, height: nat, st: seq<Tree>, cpar: int)
    requires WalkShape(h, height, st, Nil, cpar) && st != []
    ensures var x := st[|st| - 1];
      x.Node? && Has(h, x.id) && h.keys[x.id] == x.key && h.rights[x.id] == Ptr(x.right) &&
      WalkShape(h, height, st[..|st| - 1], x.right, x.id)
  {
  }

  lemma PopKeys(s: seq<int>, st: seq<Tree>, i: int)
    requires WalkKeys(s, st, Nil, i) && st != [] && st[|st| - 1].Node?
    ensures var x := st[|st| - 1];
      i < |s| && s[i] == x.key && WalkKeys(s, st[..|st| - 1], x.right, i + 1)
  {
    var x := st[|st| - 1];
    var tail := Inorder(x.right) + Pending(st[..|st| - 1]);
    assert s[i..] == [x.key] + tail;
    assert s[i..][0] == x.key;
    assert s[i + 1..] == s[i..][1..];
  }

  lemma HoldsPush(a: seq<int>, st: seq<Tree>, t: Tree)
    requires Holds(a, st) && |st| < |a|
    ensures Holds(a[|st| := Ptr(t)], st + [t])
  {
  }

  lemma HoldsPop(a: seq<int>, st: seq<Tree>)
    requires Holds(a, st) && st != []
    ensures Holds(a, st[..|st| - 1]) && a[|st| - 1] == Ptr(st[|st| - 1])
  {
  }

  lemma WriteNext(s: seq<int>, a0: seq<int>, out: seq<int>, i: int)
    requires Written(s, a0, out, i) && i < |s|
    ensures Written(s, a0, out[i := s[i]], i + 1)
  {
    var out' := out[i := s[i]];
    assert out'[..i + 1] == out[..i] + [s[i]];
    assert s[..i + 1] == s[..i] + [s[i]];
    assert out'[i + 1..] == out[i..][1..];
  }

  /** The walk starts on the whole tree with an empty stack and nothing written. */
  lemma WalkStart(h: Heap, t: Tree, a0: seq<int>, stk: seq<int>)
    requires Repr(t, NIL, h) && |Inorder(t)| <= |a0|
    ensures Walking(h, Height(t), Inorder(t), a0, a0, stk, [], t, NIL, 0, Ptr(t))
  {
  }

  /** With the stack empty and the cursor at NIL, every key has been written. */
  lemma WalkDone(h: Heap, height: nat, s: seq<int>, a0: seq<int>, out: seq<int>, stk: seq<int>, cpar: int, i: int)
    requires Walking(h, height, s, a0, out, stk, [], Nil, cpar, i, NIL)
    ensures out[..|s|] == s && out[|s|..] == a0[|s|..]
  {
    assert s[i..] == [];
  }

  /** stack[sbp++] = cur; cur = cur->left; */
  lemma WalkPush(h: Heap, height: nat, s: seq<int>, a0: seq<int>, out: seq<int>, stk: seq<int>,
                 st: seq<Tree>, ct: Tree, cpar: int, i: int, cur: int)
    requires Walking(h, height, s, a0, out, stk, st, ct, cpar, i, cur) && ct.Node? && |st| < |stk|
    ensures Has(h, cur) && Height(ct.left) < Height(ct)
    ensures Walking(h, height, s, a0, out, stk[|st| := cur], st + [ct], ct.left, ct.id, i, h.lefts[cur])
  {
    PushShape(h, height, st, ct, cpar);
    PushKeys(s, st, ct, i);
    HoldsPush(stk, st, ct);
  }

  /** cur = stack[--sbp]; arr[i++] = cur->key; cur = cur->right; */
  lemma WalkPop(h: Heap, height: nat, s: seq<int>, a0: seq<int>, out: seq<int>, stk: seq<int>,
                st: seq<Tree>, cpar: int, i: int)
    requires Walking(h, height, s, a0, out, stk, st, Nil, cpar, i, NIL) && st != []
    ensures var x := st[|st| - 1];
      i < |out| && stk[|st| - 1] == x.id && Has(h, x.id) &&
      Walking(h, height, s, a0, out[i := h.keys[x.id]], stk, st[..|st| - 1], x.right, x.id, i + 1, h.rights[x.id])
  {
    PopShape(h, height, st, cpar);
    PopKeys(s, st, i);
    HoldsPop(stk, st);
    WriteNext(s, a0, out, i);
  }
}
