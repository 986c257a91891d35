/**
 * Pure view of the red-black tree of src/rbtree.c.
 *
 * A `Tree` value mirrors the node graph: every node carries the arena slot
 * (`id`) of the C node it stands for, its key and its colour.  An absent
 * link is `Nil`, and `Nil` counts as BLACK, as IS_BLACK does in the source.
 * The four invariants of the structure are stated here as predicates:
 * in-order keys non-decreasing (`Sorted(Inorder(t))`), black root
 * (`RootColor(t) == Black`), no red node with a red child (`RedFree`) and
 * the same number of black nodes on every path down (`Balanced`).
 */
module RBTrees {

  datatype Color = Red | Black

  datatype Tree = Nil | Node(left: Tree, id: nat, key: int, color: Color, right: Tree)

  /** The key sequence met by an in-order walk. */
  function Inorder(t: Tree): seq<int>
  {
    match t
    case Nil => []
    case Node(l, _, k, _, r) => Inorder(l) + [k] + Inorder(r)
  }

  /** The arena slots used by the nodes of `t`. */
  function Ids(t: Tree): set<nat>
  {
    match t
    case Nil => {}
    case Node(l, x, _, _, r) => Ids(l) + {x} + Ids(r)
  }

  /** No slot is used twice: the links form a tree, not a DAG. */
  predicate Distinct(t: Tree)
  {
    match t
    case Nil => true
    case Node(l, x, _, _, r) =>
      Distinct(l) && Distinct(r) && Ids(l) !! Ids(r) && x !in Ids(l) && x !in Ids(r)
  }

  function Height(t: Tree): nat
  {
    match t
    case Nil => 0
    case Node(l, _, _, _, r) => 1 + (if Height(l) < Height(r) then Height(r) else Height(l))
  }

  /** The colour of the top of `t`; an absent node is BLACK. */
  function RootColor(t: Tree): Color
  {
    if t.Nil? then Black else t.color
  }

  /** Black nodes on the leftmost path from the top of `t` down to an absent link. */
  function BH(t: Tree): nat
  {
    match t
    case Nil => 0
    case Node(l, _, _, c, _) => BH(l) + (if c == Black then 1 else 0)
  }

  /** Every path from a node down to an absent link meets the same number of black nodes. */
  predicate Balanced(t: Tree)
  {
    match t
    case Nil => true
    case Node(l, _, _, _, r) => Balanced(l) && Balanced(r) && BH(l) == BH(r)
  }

  /** No red node has a red child. */
  predicate RedFree(t: Tree)
  {
    match t
    case Nil => true
    case Node(l, _, _, c, r) =>
      RedFree(l) && RedFree(r) && (c == Red ==> RootColor(l) == Black && RootColor(r) == Black)
  }

  predicate Sorted(s: seq<int>)
  {
    forall i, j :: 0 <= i < j < |s| ==> s[i] <= s[j]
  }

  /** The three invariants that the operations of src/rbtree.c keep. */
  predicate IsRB(t: Tree)
  {
    Sorted(Inorder(t)) && RedFree(t) && Balanced(t)
  }

  // ---------------------------------------------------------------------
  // Directions, rotation

  datatype Dir = Left | Right

  function Opp(d: Dir): Dir
  {
    if d == Left then Right else Left
  }

  function Child(t: Tree, d: Dir): Tree
    requires t.Node?
  {
    if d == Left then t.left else t.right
  }

  /** The node `x` with `near` as its `d` child and `far` as its other child. */
  function Make(d: Dir, near: Tree, x: nat, k: int, c: Color, far: Tree): Tree
  {
    if d == Left then Node(near, x, k, c, far) else Node(far, x, k, c, near)
  }

  lemma MakeFlip(d: Dir, near: Tree, x: nat, k: int, c: Color, far: Tree)
    ensures Make(Opp(d), far, x, k, c, near) == Make(d, near, x, k, c, far)
    ensures Child(Make(d, near, x, k, c, far), d) == near
    ensures Child(Make(d, near, x, k, c, far), Opp(d)) == far
  {
  }

  /** The facts about one node built with `Make` that the fixup cases of insert and erase need. */
  lemma MakeFacts(d: Dir, near: Tree, x: nat, k: int, c: Color, far: Tree)
    ensures RootColor(Make(d, near, x, k, c, far)) == c
    ensures Balanced(Make(d, near, x, k, c, far)) <==> Balanced(near) && Balanced(far) && BH(near) == BH(far)
    ensures RedFree(Make(d, near, x, k, c, far)) <==>
      RedFree(near) && RedFree(far) && (c == Red ==> RootColor(near) == Black && RootColor(far) == Black)
    ensures BH(near) == BH(far) ==> BH(Make(d, near, x, k, c, far)) == BH(near) + (if c == Black then 1 else 0)
  {
  }

  /** Recolouring the top of a node built with `Make`. */
  lemma MakeRecolor(d: Dir, near: Tree, x: nat, k: int, c: Color, far: Tree, c': Color)
    ensures Make(d, near, x, k, c, far).Node?
    ensures Make(d, near, x, k, c, far).(color := c') == Make(d, near, x, k, c', far)
  {
  }

  /**
   * The rotation of _rotate_tree: the `d` child of `t` is promoted over `t`,
   * `t` becomes its child on the other side and takes over its inner subtree.
   */
  function Rot(t: Tree, d: Dir): Tree
    requires t.Node? && Child(t, d).Node?
  {
    var n := Child(t, d);
    var lowered := Make(d, Child(n, Opp(d)), t.id, t.key, t.color, Child(t, Opp(d)));
    Make(Opp(d), lowered, n.id, n.key, n.color, Child(n, d))
  }

  /** Which way _rotate_tree turns when node `n` is promoted: it tests `N == P->right`. */
  function RotDir(t: Tree, n: int): Dir
    requires t.Node?
  {
    if t.right.Node? && t.right.id == n then Right else Left
  }

  /** The two shapes a rotation moves between hold the same keys and nodes. */
  lemma SwingShape(a: Tree, x: nat, kx: int, cx: Color, b: Tree, y: nat, ky: int, cy: Color, c: Tree)
    ensures Inorder(Node(Node(a, x, kx, cx, b), y, ky, cy, c)) == Inorder(Node(a, x, kx, cx, Node(b, y, ky, cy, c)))
    ensures Ids(Node(Node(a, x, kx, cx, b), y, ky, cy, c)) == Ids(Node(a, x, kx, cx, Node(b, y, ky, cy, c)))
    ensures Distinct(Node(Node(a, x, kx, cx, b), y, ky, cy, c)) <==> Distinct(Node(a, x, kx, cx, Node(b, y, ky, cy, c)))
  {
    calc {
      Inorder(Node(Node(a, x, kx, cx, b), y, ky, cy, c));
      Inorder(a) + [kx] + Inorder(b) + [ky] + Inorder(c);
      Inorder(a) + [kx] + (Inorder(b) + [ky] + Inorder(c));
      Inorder(Node(a, x, kx, cx, Node(b, y, ky, cy, c)));
    }
  }

  /** A rotation keeps the in-order key sequence and the set of nodes. */
  lemma RotInorder(t: Tree, d: Dir)
    requires t.Node? && Child(t, d).Node?
    ensures Inorder(Rot(t, d)) == Inorder(t)
    ensures Ids(Rot(t, d)) == Ids(t)
    ensures Distinct(t) ==> Distinct(Rot(t, d))
  {
    var n := Child(t, d);
    if d == Left {
      SwingShape(n.left, n.id, n.key, n.color, n.right, t.id, t.key, t.color, t.right);
    } else {
      SwingShape(t.left, t.id, t.key, t.color, n.left, n.id, n.key, n.color, n.right);
    }
  }

  // ---------------------------------------------------------------------
  // Zippers: a node of the tree seen from its ancestors

  /**
   * One ancestor on the way up from a position in the tree: node `id`, whose
   * `dir` child holds the position and whose other child is `other`.
   */
  datatype Frame = Frame(dir: Dir, id: nat, key: int, color: Color, other: Tree)

  /** Ancestors, nearest first. */
  type Path = seq<Frame>

  function Attach(f: Frame, s: Tree): Tree
  {
    Make(f.dir, s, f.id, f.key, f.color, f.other)
  }

  /** The whole tree, rebuilt from the subtree `s` and its ancestors. */
  function Plug(path: Path, s: Tree): Tree
    decreases |path|
  {
    if path == [] then s else Plug(path[1..], Attach(path[0], s))
  }

  /** Keys that an in-order walk meets before the position `path` leads to. */
  function Pre(path: Path): seq<int>
    decreases |path|
  {
    if path == [] then []
    else Pre(path[1..]) + (if path[0].dir == Right then Inorder(path[0].other) + [path[0].key] else [])
  }

  /** Keys that an in-order walk meets after the position `path` leads to. */
  function Post(path: Path): seq<int>
    decreases |path|
  {
    if path == [] then []
    else (if path[0].dir == Left then [path[0].key] + Inorder(path[0].other) else []) + Post(path[1..])
  }

  function PathIds(path: Path): set<nat>
    decreases |path|
  {
    if path == [] then {} else {path[0].id} + Ids(path[0].other) + PathIds(path[1..])
  }

  predicate PathDistinct(path: Path)
    decreases |path|
  {
    path == [] ||
    (Distinct(path[0].other) && path[0].id !in Ids(path[0].other) &&
     ({path[0].id} + Ids(path[0].other)) !! PathIds(path[1..]) &&
     PathDistinct(path[1..]))
  }

  /** The context `path` accepts a hole of black height `b`. */
  predicate PathBalanced(path: Path, b: nat)
    decreases |path|
  {
    path == [] ||
    (Balanced(path[0].other) && BH(path[0].other) == b &&
     PathBalanced(path[1..], b + (if path[0].color == Black then 1 else 0)))
  }

  /** The context `path` has no red-red edge when its hole is topped with colour `c`. */
  predicate PathRedFree(path: Path, c: Color)
    decreases |path|
  {
    path == [] ||
    (RedFree(path[0].other) &&
     (path[0].color == Red ==> c == Black && RootColor(path[0].other) == Black) &&
     PathRedFree(path[1..], path[0].color))
  }

  lemma {:induction false} InorderPlug(path: Path, s: Tree)
    ensures Inorder(Plug(path, s)) == Pre(path) + Inorder(s) + Post(path)
    decreases |path|
  {
    if path != [] {
      InorderPlug(path[1..], Attach(path[0], s));
    }
  }

  lemma {:induction false} IdsPlug(path: Path, s: Tree)
    ensures Ids(Plug(path, s)) == Ids(s) + PathIds(path)
    ensures Distinct(Plug(path, s)) <==> Distinct(s) && PathDistinct(path) && Ids(s) !! PathIds(path)
    decreases |path|
  {
    if path != [] {
      IdsPlug(path[1..], Attach(path[0], s));
    }
  }

  lemma {:induction false} BalancedPlug(path: Path, s: Tree)
    ensures Balanced(Plug(path, s)) <==> Balanced(s) && PathBalanced(path, BH(s))
    decreases |path|
  {
    if path != [] {
      BalancedPlug(path[1..], Attach(path[0], s));
    }
  }

  lemma {:induction false} RedFreePlug(path: Path, s: Tree)
    ensures RedFree(Plug(path, s)) <==> RedFree(s) && PathRedFree(path, RootColor(s))
    decreases |path|
  {
    if path != [] {
      RedFreePlug(path[1..], Attach(path[0], s));
    }
  }

  lemma {:induction false} PlugAppend(a: Path, b: Path, s: Tree)
    ensures Plug(a + b, s) == Plug(b, Plug(a, s))
    decreases |a|
  {
    if a == [] {
      assert a + b == b;
    } else {
      assert (a + b)[0] == a[0] && (a + b)[1..] == a[1..] + b;
      PlugAppend(a[1..], b, Attach(a[0], s));
      calc {
        Plug(a + b, s);
        Plug(a[1..] + b, Attach(a[0], s));
        Plug(b, Plug(a[1..], Attach(a[0], s)));
        Plug(b, Plug(a, s));
      }
    }
  }

  /** The keys and ids on either side of a cursor, for a path made of two pieces. */
  lemma PreAppend(a: Path, b: Path)
    ensures Pre(a + b) == Pre(b) + Pre(a)
    ensures Post(a + b) == Post(a) + Post(b)
    ensures PathIds(a + b) == PathIds(a) + PathIds(b)
  {
    PreConcat(a, b);
    PostConcat(a, b);
    PathIdsConcat(a, b);
  }

  lemma {:induction false} PreConcat(a: Path, b: Path)
    ensures Pre(a + b) == Pre(b) + Pre(a)
    decreases |a|
  {
    if a == [] {
      assert a + b == b;
    } else {
      assert (a + b)[0] == a[0] && (a + b)[1..] == a[1..] + b;
      PreConcat(a[1..], b);
      var f := a[0];
      var pre := if f.dir == Right then Inorder(f.other) + [f.key] else [];
      calc {
        Pre(a + b);
        Pre(a[1..] + b) + pre;
        Pre(b) + Pre(a[1..]) + pre;
        Pre(b) + Pre(a);
      }
    }
  }

  lemma {:induction false} PostConcat(a: Path, b: Path)
    ensures Post(a + b) == Post(a) + Post(b)
    decreases |a|
  {
    if a == [] {
      assert a + b == b;
    } else {
      assert (a + b)[0] == a[0] && (a + b)[1..] == a[1..] + b;
      PostConcat(a[1..], b);
      var f := a[0];
      var post := if f.dir == Left then [f.key] + Inorder(f.other) else [];
      calc {
        Post(a + b);
        post + Post(a[1..] + b);
        post + (Post(a[1..]) + Post(b));
        Post(a) + Post(b);
      }
    }
  }

  lemma {:induction false} PathIdsConcat(a: Path, b: Path)
    ensures PathIds(a + b) == PathIds(a) + PathIds(b)
    decreases |a|
  {
    if a == [] {
      assert a + b == b;
    } else {
      assert (a + b)[0] == a[0] && (a + b)[1..] == a[1..] + b;
      PathIdsConcat(a[1..], b);
    }
  }

  lemma PathIdsFirst(path: Path)
    requires path != []
    ensures path[0].id in PathIds(path)
    ensures Ids(path[0].other) <= PathIds(path)
  {
  }

  // ---------------------------------------------------------------------
  // Extremes and the left spine

  /** The subtree of the leftmost node of `t`. */
  function LeftmostSub(t: Tree): (r: Tree)
    requires t.Node?
    ensures r.Node? && r.left.Nil? && Height(r) <= Height(t)
  {
    if t.left.Nil? then t else LeftmostSub(t.left)
  }

  /** The subtree of the rightmost node of `t`. */
  function RightmostSub(t: Tree): (r: Tree)
    requires t.Node?
    ensures r.Node? && r.right.Nil?
  {
    if t.right.Nil? then t else RightmostSub(t.right)
  }

  /** The ancestors of the leftmost node of `t`, inside `t`. */
  function LeftSpine(t: Tree): Path
    requires t.Node?
  {
    if t.left.Nil? then [] else LeftSpine(t.left) + [Frame(Left, t.id, t.key, t.color, t.right)]
  }

  lemma {:induction false} LeftSpinePlug(t: Tree)
    requires t.Node?
    ensures Plug(LeftSpine(t), LeftmostSub(t)) == t
    ensures Pre(LeftSpine(t)) == []
    decreases t
  {
    if t.left.Node? {
      var f := Frame(Left, t.id, t.key, t.color, t.right);
      LeftSpinePlug(t.left);
      PlugAppend(LeftSpine(t.left), [f], LeftmostSub(t.left));
      PreAppend(LeftSpine(t.left), [f]);
    }
  }

  // ---------------------------------------------------------------------
  // Search, extremes, height

  /** A sorted sequence split around one element: both parts sorted, on either side of it. */
  lemma SortedSplit(a: seq<int>, k: int, b: seq<int>)
    requires Sorted(a + [k] + b)
    ensures Sorted(a) && Sorted(b)
    ensures forall x :: x in a ==> x <= k
    ensures forall x :: x in b ==> k <= x
  {
    var s := a + [k] + b;
    assert forall i :: 0 <= i < |a| ==> s[i] == a[i];
    assert forall i :: 0 <= i < |b| ==> s[|a| + 1 + i] == b[i];
    assert s[|a|] == k;
  }

  /**
   * The subtree at which the descent of rbtree_find stops: it stops at a node
   * holding `key`, goes left when `key` is smaller and right otherwise.
   */
  function Search(t: Tree, key: int): Tree
  {
    match t
    case Nil => Nil
    case Node(l, _, k, _, r) => if k == key then t else if key < k then Search(l, key) else Search(r, key)
  }

  /** The descent finds a node holding `key`; when the keys are sorted it misses only absent keys. */
  lemma {:induction false} SearchSpec(t: Tree, key: int)
    ensures Search(t, key).Node? ==> Search(t, key).key == key && Search(t, key).id in Ids(t)
    ensures Sorted(Inorder(t)) ==> (Search(t, key).Nil? <==> key !in Inorder(t))
  {
    match t
    case Nil =>
    case Node(l, _, k, _, r) =>
      SearchSpec(l, key);
      SearchSpec(r, key);
      if Sorted(Inorder(t)) {
        SortedSplit(Inorder(l), k, Inorder(r));
      }
  }

  /** The leftmost node has no left child and holds the first key of the in-order walk. */
  lemma {:induction false} LeftmostFirst(t: Tree)
    requires t.Node?
    ensures LeftmostSub(t).id in Ids(t)
    ensures Inorder(t)[0] == LeftmostSub(t).key
  {
    if t.left.Node? {
      LeftmostFirst(t.left);
    }
  }

  /** The rightmost node has no right child and holds the last key of the in-order walk. */
  lemma {:induction false} RightmostLast(t: Tree)
    requires t.Node?
    ensures RightmostSub(t).id in Ids(t)
    ensures Inorder(t)[|Inorder(t)| - 1] == RightmostSub(t).key
  {
    if t.right.Node? {
      RightmostLast(t.right);
    }
  }

  /** In a sorted sequence the first element is a minimum and the last a maximum. */
  lemma SortedEnds(s: seq<int>)
    requires Sorted(s) && s != []
    ensures forall x :: x in s ==> s[0] <= x && x <= s[|s| - 1]
  {
    forall x | x in s
      ensures s[0] <= x && x <= s[|s| - 1]
    {
      var j :| 0 <= j < |s| && s[j] == x;
    }
  }

  /** No path down is longer than the number of nodes. */
  lemma {:induction false} HeightSize(t: Tree)
    ensures Height(t) <= |Inorder(t)|
  {
    match t
    case Nil =>
    case Node(l, _, _, _, r) =>
      HeightSize(l);
      HeightSize(r);
  }
}
