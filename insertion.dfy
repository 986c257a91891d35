/**
 * Pure side of rbtree_insert (src/rbtree.c:78-133).
 *
 * `InsertLeaf` is the binary-search placement: the new RED node goes left
 * only when the key is smaller, so it lands after every equal key, which
 * `InsertAfterEqual` states on key sequences.  The fixup loop is described
 * on a zipper: `InsInv(path, s)` says that the subtree `s` under the cursor
 * N is red and sound and that the only possible red-red edge is the one
 * between N and its parent.  One lemma per case of the loop shows what each
 * recolouring or rotation leaves behind.
 */
module Insertion {
  import opened RBTrees

  // ---------------------------------------------------------------------
  // Placement

  /** The tree after the descent of rbtree_insert has hung a new RED leaf `z` holding `key`. */
  function InsertLeaf(t: Tree, key: int, z: nat): Tree
  {
    match t
    case Nil => Node(Nil, z, key, Red, Nil)
    case Node(l, x, k, c, r) =>
      if key < k then Node(InsertLeaf(l, key, z), x, k, c, r) else Node(l, x, k, c, InsertLeaf(r, key, z))
  }

  /** `key` inserted into `s` just before the first element greater than it, i.e. after all equal ones. */
  function InsertAfterEqual(s: seq<int>, key: int): seq<int>
  {
    if s == [] then [key]
    else if key < s[0] then [key] + s
    else [s[0]] + InsertAfterEqual(s[1..], key)
  }

  lemma {:induction false} InsertAfterEqualMultiset(s: seq<int>, key: int)
    ensures multiset(InsertAfterEqual(s, key)) == multiset(s) + multiset{key}
  {
    if s != [] && key >= s[0] {
      InsertAfterEqualMultiset(s[1..], key);
      assert s == [s[0]] + s[1..];
    }
  }

  /** How many leading elements of `s` are not greater than `key`. */
  function UpperIndex(s: seq<int>, key: int): (i: nat)
    ensures i <= |s|
  {
    if s == [] || key < s[0] then 0 else 1 + UpperIndex(s[1..], key)
  }

  /** The inserted key is preceded only by keys not greater than it and followed by a greater key. */
  lemma {:induction false} InsertAfterEqualPlace(s: seq<int>, key: int)
    ensures var i := UpperIndex(s, key);
      InsertAfterEqual(s, key) == s[..i] + [key] + s[i..] &&
      (forall j :: 0 <= j < i ==> s[j] <= key) && (i < |s| ==> key < s[i])
  {
    if s != [] && key >= s[0] {
      var i := UpperIndex(s[1..], key);
      InsertAfterEqualPlace(s[1..], key);
      assert s[..i + 1] == [s[0]] + s[1..][..i];
      assert s[i + 1..] == s[1..][i..];
      forall j | 0 <= j < i + 1
        ensures s[j] <= key
      {
        if j > 0 {
          assert s[j] == s[1..][j - 1];
        }
      }
    }
  }

  lemma SortedCons(a: int, s: seq<int>)
    requires Sorted(s) && forall x :: x in s ==> a <= x
    ensures Sorted([a] + s)
  {
    var t := [a] + s;
    forall i, j | 0 <= i < j < |t|
      ensures t[i] <= t[j]
    {
      if i == 0 {
        assert t[j] == s[j - 1] && s[j - 1] in s;
      } else {
        assert t[i] == s[i - 1] && t[j] == s[j - 1];
      }
    }
  }

  /** Inserting into a sorted sequence keeps it sorted. */
  lemma {:induction false} InsertAfterEqualSorted(s: seq<int>, key: int)
    requires Sorted(s)
    ensures Sorted(InsertAfterEqual(s, key))
  {
    if s == [] {
    } else if key < s[0] {
      forall x | x in s
        ensures key <= x
      {
        var j :| 0 <= j < |s| && s[j] == x;
        assert s[0] <= s[j];
      }
      SortedCons(key, s);
    } else {
      var rest := s[1..];
      assert Sorted(rest) by {
        forall i, j | 0 <= i < j < |rest|
          ensures rest[i] <= rest[j]
        {
          assert rest[i] == s[i + 1] && rest[j] == s[j + 1];
        }
      }
      InsertAfterEqualSorted(rest, key);
      InsertAfterEqualMultiset(rest, key);
      forall x | x in InsertAfterEqual(rest, key)
        ensures s[0] <= x
      {
        assert x in multiset(InsertAfterEqual(rest, key));
        if x != key {
          assert x in multiset(rest);
          var j :| 0 <= j < |rest| && rest[j] == x;
          assert s[0] <= s[j + 1];
        }
      }
      SortedCons(s[0], InsertAfterEqual(rest, key));
    }
  }

  lemma {:induction false} InsertAfterEqualLeft(a: seq<int>, b: seq<int>, key: int)
    requires forall x :: x in a ==> x <= key
    ensures InsertAfterEqual(a + b, key) == a + InsertAfterEqual(b, key)
  {
    if a != [] {
      assert (a + b)[0] == a[0] && (a + b)[1..] == a[1..] + b;
      assert a[0] in a;
      assert forall x :: x in a[1..] ==> x in a;
      InsertAfterEqualLeft(a[1..], b, key);
      assert a == [a[0]] + a[1..];
    } else {
      assert a + b == b;
    }
  }

  lemma {:induction false} InsertAfterEqualRight(a: seq<int>, b: seq<int>, key: int)
    requires b != [] && key < b[0]
    ensures InsertAfterEqual(a + b, key) == InsertAfterEqual(a, key) + b
  {
    if a == [] {
      assert a + b == b;
    } else {
      assert (a + b)[0] == a[0] && (a + b)[1..] == a[1..] + b;
      if key >= a[0] {
        InsertAfterEqualRight(a[1..], b, key);
      }
    }
  }

  /** In a sorted tree the placement of rbtree_insert puts `key` after every equal key. */
  lemma {:induction false} InsertLeafInorder(t: Tree, key: int, z: nat)
    requires Sorted(Inorder(t))
    ensures Inorder(InsertLeaf(t, key, z)) == InsertAfterEqual(Inorder(t), key)
  {
    match t
    case Nil =>
      assert Inorder(InsertLeaf(t, key, z)) == [key];
    case Node(l, x, k, c, r) =>
      SortedSplit(Inorder(l), k, Inorder(r));
      if key < k {
        InsertLeafInorder(l, key, z);
        InsertAfterEqualRight(Inorder(l), [k] + Inorder(r), key);
        assert Inorder(InsertLeaf(t, key, z)) == Inorder(InsertLeaf(l, key, z)) + ([k] + Inorder(r));
        assert Inorder(t) == Inorder(l) + ([k] + Inorder(r));
      } else {
        InsertLeafInorder(r, key, z);
        assert forall x :: x in Inorder(l) + [k] ==> x <= key;
        InsertAfterEqualLeft(Inorder(l) + [k], Inorder(r), key);
        assert Inorder(InsertLeaf(t, key, z)) == (Inorder(l) + [k]) + Inorder(InsertLeaf(r, key, z));
      }
  }

  /** The placement adds exactly one copy of `key` to the keys. */
  lemma {:induction false} InsertLeafMultiset(t: Tree, key: int, z: nat)
    ensures multiset(Inorder(InsertLeaf(t, key, z))) == multiset(Inorder(t)) + multiset{key}
  {
    match t
    case Nil =>
    case Node(l, x, k, c, r) =>
      if key < k {
        InsertLeafMultiset(l, key, z);
        assert Inorder(InsertLeaf(t, key, z)) == Inorder(InsertLeaf(l, key, z)) + [k] + Inorder(r);
        assert multiset(Inorder(InsertLeaf(t, key, z))) ==
          multiset(Inorder(InsertLeaf(l, key, z))) + multiset{k} + multiset(Inorder(r));
      } else {
        InsertLeafMultiset(r, key, z);
        assert Inorder(InsertLeaf(t, key, z)) == Inorder(l) + [k] + Inorder(InsertLeaf(r, key, z));
        assert multiset(Inorder(InsertLeaf(t, key, z))) ==
          multiset(Inorder(l)) + multiset{k} + multiset(Inorder(InsertLeaf(r, key, z)));
      }
  }

  /** The placement adds the node `z` and keeps the links a tree when `z` is a fresh slot. */
  lemma {:induction false} InsertLeafIds(t: Tree, key: int, z: nat)
    ensures Ids(InsertLeaf(t, key, z)) == Ids(t) + {z}
    ensures Distinct(t) && z !in Ids(t) ==> Distinct(InsertLeaf(t, key, z))
  {
    match t
    case Nil =>
    case Node(l, x, k, c, r) =>
      InsertLeafIds(l, key, z);
      InsertLeafIds(r, key, z);
  }

  // ---------------------------------------------------------------------
  // The fixup loop

  /**
   * The loop invariant of the fixup: `s`, topped by the cursor N, is red,
   * free of red-red edges and balanced; its ancestors would be sound if N
   * were black, and they accept its black height.
   */
  ghost predicate InsInv(path: Path, s: Tree)
  {
    s.Node? && s.color == Red && RedFree(s) && Balanced(s) &&
    PathBalanced(path, BH(s)) && PathRedFree(path, Black)
  }

  /** The new leaf hung into a red-black tree satisfies the loop invariant. */
  lemma InsStart(path: Path, z: nat, key: int)
    requires RedFree(Plug(path, Nil)) && Balanced(Plug(path, Nil))
    ensures InsInv(path, Node(Nil, z, key, Red, Nil))
  {
    RedFreePlug(path, Nil);
    BalancedPlug(path, Nil);
  }

  /** The loop stops when the parent is absent or black: the tree is then sound. */
  lemma InsDone(path: Path, s: Tree)
    requires InsInv(path, s) && (path == [] || path[0].color == Black)
    ensures RedFree(Plug(path, s)) && Balanced(Plug(path, s))
  {
    RedFreePlug(path, s);
    BalancedPlug(path, s);
  }

  /** A red parent that is the root is recoloured black (src/rbtree.c:106-108). */
  lemma InsRoot(f: Frame, s: Tree)
    requires InsInv([f], s)
    ensures RedFree(Attach(f.(color := Black), s)) && Balanced(Attach(f.(color := Black), s))
  {
    MakeFacts(f.dir, s, f.id, f.key, Black, f.other);
  }

  /**
   * Whether the first round of the fixup loop of rbtree_insert, entered
   * with N on top of the subtree at `path`, takes N off its node: P is
   * RED and not the root, and either the uncle is RED (N climbs to G) or
   * N is an inner grandchild (the first rotation makes N the old P).
   */
  predicate CursorMoves(path: Path)
  {
    |path| >= 2 && path[0].color == Red && (RootColor(path[1].other) == Red || path[0].dir != path[1].dir)
  }

  /**
   * Inserting 2 into the red-black tree 1 -> (right) 3 hangs the new leaf as
   * an inner grandchild of a RED parent under a BLACK grandparent with no
   * uncle, so the fixup moves its cursor off the new node.  The path is
   * the only position of the new leaf, because slot ids are distinct:
   * slot 2 sits under slot 1, on its left, and slot 1 under slot 0, on
   * its right.
   */
  lemma InnerInsertMoves()
    ensures var t := Node(Nil, 0, 1, Black, Node(Nil, 1, 3, Red, Nil));
      var path := [Frame(Left, 1, 3, Red, Nil), Frame(Right, 0, 1, Black, Nil)];
      IsRB(t) && t == Plug(path, Nil) && InsertLeaf(t, 2, 2) == Plug(path, Node(Nil, 2, 2, Red, Nil)) && CursorMoves(path)
  {
  }

  /** The tree `G` roots after the red-uncle recolouring of src/rbtree.c:123-127. */
  function RedUncleTree(path: Path, s: Tree): Tree
    requires |path| >= 2 && path[1].other.Node?
  {
    var fP, fG := path[0], path[1];
    Make(fG.dir, Make(fP.dir, s, fP.id, fP.key, Black, fP.other), fG.id, fG.key, Red, fG.other.(color := Black))
  }

  /** In the loop a red parent always has a black parent, whose other child is sound and as black-high as `s`. */
  lemma InsGrand(path: Path, s: Tree)
    requires |path| >= 2 && InsInv(path, s) && path[0].color == Red
    ensures path[1].color == Black && PathRedFree(path[2..], Black) && PathBalanced(path[2..], BH(s) + 1)
    ensures RedFree(path[0].other) && Balanced(path[0].other) && BH(path[0].other) == BH(s)
    ensures RootColor(path[0].other) == Black
    ensures RedFree(path[1].other) && Balanced(path[1].other) && BH(path[1].other) == BH(s)
  {
    var q := path[1..];
    assert q[0] == path[1] && q[1..] == path[2..];
    assert PathRedFree(q, Red) && PathBalanced(q, BH(s));
    assert PathRedFree(q[1..], q[0].color) && PathBalanced(q[1..], BH(s) + 1);
  }

  /** A red uncle: after the recolouring the grandparent is the new cursor and the invariant holds two levels up. */
  lemma InsRedUncle(path: Path, s: Tree)
    requires |path| >= 2 && InsInv(path, s) && path[0].color == Red
    requires path[1].other.Node? && path[1].other.color == Red
    ensures InsInv(path[2..], RedUncleTree(path, s))
  {
    var fP, fG := path[0], path[1];
    InsGrand(path, s);
    var b := BH(s);
    MakeFacts(fP.dir, s, fP.id, fP.key, Black, fP.other);
    var p' := Make(fP.dir, s, fP.id, fP.key, Black, fP.other);
    var u' := fG.other.(color := Black);
    assert RedFree(u') && Balanced(u') && BH(u') == b + 1;
    MakeFacts(fG.dir, p', fG.id, fG.key, Red, u');
  }

  /**
   * The tree that takes the grandparent's place after the black-uncle case
   * of src/rbtree.c:109-119: an outer N gives a single rotation of P over
   * G, an inner N a rotation of N over P followed by one of N over G; the
   * promoted node is BLACK and G is RED.
   */
  function RotateFixTree(path: Path, s: Tree): Tree
    requires |path| >= 2 && s.Node?
  {
    var fP, fG := path[0], path[1];
    var e := fG.dir;
    if fP.dir == e then
      Make(Opp(e), Make(e, fP.other, fG.id, fG.key, Red, fG.other), fP.id, fP.key, Black, s)
    else
      Make(Opp(e), Make(e, Child(s, Opp(e)), fG.id, fG.key, Red, fG.other), s.id, s.key, Black,
           Make(Opp(e), Child(s, e), fP.id, fP.key, Red, fP.other))
  }

  /** A black uncle: the rotations and recolouring leave a sound tree and the loop stops. */
  lemma InsRotate(path: Path, s: Tree)
    requires |path| >= 2 && InsInv(path, s) && path[0].color == Red
    requires RootColor(path[1].other) == Black
    ensures RedFree(Plug(path[2..], RotateFixTree(path, s))) && Balanced(Plug(path[2..], RotateFixTree(path, s)))
  {
    var fP, fG := path[0], path[1];
    InsGrand(path, s);
    var e := fG.dir;
    var y := RotateFixTree(path, s);
    var b := BH(s);
    if fP.dir == e {
      MakeFacts(e, fP.other, fG.id, fG.key, Red, fG.other);
      MakeFacts(Opp(e), Make(e, fP.other, fG.id, fG.key, Red, fG.other), fP.id, fP.key, Black, s);
    } else {
      var near, far := Child(s, e), Child(s, Opp(e));
      assert RedFree(near) && Balanced(near) && BH(near) == b && RootColor(near) == Black;
      assert RedFree(far) && Balanced(far) && BH(far) == b && RootColor(far) == Black;
      MakeFacts(e, far, fG.id, fG.key, Red, fG.other);
      MakeFacts(Opp(e), near, fP.id, fP.key, Red, fP.other);
      MakeFacts(Opp(e), Make(e, far, fG.id, fG.key, Red, fG.other), s.id, s.key, Black,
                Make(Opp(e), near, fP.id, fP.key, Red, fP.other));
    }
    RedFreePlug(path[2..], y);
    BalancedPlug(path[2..], y);
  }

  // ---------------------------------------------------------------------
  // Shapes met by the loop body

  /** Under its parent frame `f`, the node `s` is the `f.dir` child, and promoting it turns that way. */
  lemma RotDirAttach(f: Frame, s: Tree)
    requires s.Node? && s.id !in Ids(f.other)
    ensures Attach(f, s).Node? && Child(Attach(f, s), f.dir) == s && RotDir(Attach(f, s), s.id) == f.dir
  {
    if f.other.Node? {
      assert f.other.id in Ids(f.other);
    }
  }

  /** The cursor, its parent and grandparent and the subtrees beside them use distinct slots. */
  lemma ZipDistinct(path: Path, s: Tree)
    requires Distinct(Plug(path, s)) && s.Node? && |path| >= 2
    ensures Ids(s) !! Ids(path[0].other) && Ids(s) !! Ids(path[1].other)
    ensures path[0].id !in Ids(s) && path[0].id !in Ids(path[1].other)
  {
    IdsPlug(path, s);
    assert path[1..][0] == path[1];
    assert PathIds(path) == {path[0].id} + Ids(path[0].other) + PathIds(path[1..]);
    assert PathIds(path[1..]) == {path[1].id} + Ids(path[1].other) + PathIds(path[2..]);
  }

  /** The parent's subtree after the optional first rotation of the black-uncle case: it now leans towards `G`'s side. */
  function Lifted(path: Path, s: Tree): Tree
    requires |path| >= 2 && s.Node?
  {
    var fP := path[0];
    if fP.dir == path[1].dir then Attach(fP, s)
    else (MakeFlip(fP.dir, s, fP.id, fP.key, fP.color, fP.other); Rot(Attach(fP, s), fP.dir))
  }

  /** Promoting the top of `Lifted` over `G`, blackening it and reddening `G` gives `RotateFixTree`. */
  lemma RotateFixShape(path: Path, s: Tree)
    requires |path| >= 2 && s.Node? && path[0].color == Red
    ensures var q, fG := Lifted(path, s), path[1];
      q.Node? && Child(q, fG.dir).Node? &&
      Make(Opp(fG.dir), Make(fG.dir, Child(q, Opp(fG.dir)), fG.id, fG.key, Red, fG.other), q.id, q.key, Black,
           Child(q, fG.dir)) == RotateFixTree(path, s)
  {
    var fP, e := path[0], path[1].dir;
    MakeFlip(fP.dir, s, fP.id, fP.key, fP.color, fP.other);
    if fP.dir != e {
      var n := Child(Attach(fP, s), fP.dir);
      var lowered := Make(fP.dir, Child(n, Opp(fP.dir)), fP.id, fP.key, fP.color, Child(Attach(fP, s), Opp(fP.dir)));
      MakeFlip(Opp(fP.dir), lowered, n.id, n.key, n.color, Child(n, fP.dir));
    }
  }
}
