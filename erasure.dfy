/**
 * The pure side of rbtree_erase (src/rbtree.c:170-248).
 *
 * Erasing first shifts keys down: the node to erase takes the key of the
 * node `_find_successor` returns (`Heir`), which is then erased in its
 * turn, until a leaf is reached.  Removing a BLACK leaf would leave its
 * position one black node short; the fixup loop carries that shortage up
 * the tree (`Short`) until one of its cases absorbs it.  One lemma per
 * case of the loop shows what the case does to the shortage and that the
 * keys on either side of the leaf stay put.  `Rank` names the position of
 * a node in the in-order walk, which is where the erased key sits.
 */
module Erasure {
  import opened RBTrees

  // ---------------------------------------------------------------------
  // Where a node sits

  /** The index of the key of node `x` in the in-order walk of `t`. */
  function Rank(t: Tree, x: nat): nat
  {
    match t
    case Nil => 0
    case Node(l, y, _, _, r) =>
      if x in Ids(l) then Rank(l, x) else if x == y then |Inorder(l)| else |Inorder(l)| + 1 + Rank(r, x)
  }

  /** Seen from the whole tree, a node inside `s` comes after everything the ancestors put before `s`. */
  lemma {:induction false} RankPlug(path: Path, s: Tree, x: nat)
    requires x in Ids(s) && Distinct(Plug(path, s))
    ensures Rank(Plug(path, s), x) == |Pre(path)| + Rank(s, x)
    decreases |path|
  {
    if path != [] {
      var a := Attach(path[0], s);
      IdsPlug(path[1..], a);
      RankPlug(path[1..], a, x);
    }
  }

  /** The ancestors of node `x` in `t`, nearest first. */
  function Locate(t: Tree, x: nat): Path
  {
    match t
    case Nil => []
    case Node(l, y, k, c, r) =>
      if x in Ids(l) then Locate(l, x) + [Frame(Left, y, k, c, r)]
      else if x in Ids(r) then Locate(r, x) + [Frame(Right, y, k, c, l)]
      else []
  }

  /** The subtree of `t` topped by node `x`. */
  function SubAt(t: Tree, x: nat): Tree
  {
    match t
    case Nil => Nil
    case Node(l, _, _, _, r) =>
      if x in Ids(l) then SubAt(l, x) else if x in Ids(r) then SubAt(r, x) else t
  }

  /** Every node of `t` can be reached: its subtree, plugged into its ancestors, gives `t` back. */
  lemma {:induction false} LocateSpec(t: Tree, x: nat)
    requires x in Ids(t)
    ensures SubAt(t, x).Node? && SubAt(t, x).id == x
    ensures Plug(Locate(t, x), SubAt(t, x)) == t
  {
    match t
    case Node(l, y, k, c, r) =>
      if x in Ids(l) {
        LocateSpec(l, x);
        PlugAppend(Locate(l, x), [Frame(Left, y, k, c, r)], SubAt(l, x));
      } else if x in Ids(r) {
        LocateSpec(r, x);
        PlugAppend(Locate(r, x), [Frame(Right, y, k, c, l)], SubAt(r, x));
      }
  }

  /** The sequence `w` without its entry at index `i`. */
  function Without(w: seq<int>, i: nat): seq<int>
    requires i < |w|
    decreases i
  {
    if i == 0 then w[1..] else [w[0]] + Without(w[1..], i - 1)
  }

  /** `Without` cuts the sequence around index `i`. */
  lemma {:induction false} WithoutSlices(w: seq<int>, i: nat)
    requires i < |w|
    ensures Without(w, i) == w[..i] + w[i + 1..]
    decreases i
  {
    if i > 0 {
      WithoutSlices(w[1..], i - 1);
      assert w[1..][..i - 1] == w[1..i] && w[1..][i..] == w[i + 1..];
      assert [w[0]] + w[1..i] == w[..i];
    }
  }

  /**
   * Node `s.id` holds the key at position `Rank` of the in-order walk, and
   * the walk without that position is everything but `s`'s own key.
   */
  lemma RankKey(path: Path, s: Tree)
    requires s.Node? && Distinct(Plug(path, s))
    ensures var w, i := Inorder(Plug(path, s)), Rank(Plug(path, s), s.id);
      i < |w| && w[i] == s.key &&
      Without(w, i) == Pre(path) + Inorder(s.left) + Inorder(s.right) + Post(path)
  {
    var a, b := Pre(path) + Inorder(s.left), Inorder(s.right) + Post(path);
    assert a + b == Pre(path) + Inorder(s.left) + Inorder(s.right) + Post(path);
    RankTop(path, s);
    InorderAround(path, s);
    SliceAround(a, s.key, b);
  }

  lemma RankTop(path: Path, s: Tree)
    requires s.Node? && Distinct(Plug(path, s))
    ensures Rank(Plug(path, s), s.id) == |Pre(path) + Inorder(s.left)|
  {
    IdsPlug(path, s);
    RankPlug(path, s, s.id);
  }

  lemma InorderAround(path: Path, s: Tree)
    requires s.Node?
    ensures Inorder(Plug(path, s)) == (Pre(path) + Inorder(s.left)) + [s.key] + (Inorder(s.right) + Post(path))
  {
    InorderPlug(path, s);
  }

  lemma SliceAround(a: seq<int>, k: int, b: seq<int>)
    ensures var w := a + [k] + b;
      |a| < |w| && w[|a|] == k && Without(w, |a|) == a + b
  {
    var w := a + [k] + b;
    assert w[..|a|] == a && w[|a| + 1..] == b;
    WithoutSlices(w, |a|);
  }

  /** Taking the entry at `i` out of a sequence leaves one copy fewer of it, and a sorted sequence sorted. */
  lemma RemoveAt(w: seq<int>, i: nat)
    requires i < |w|
    ensures multiset(w[..i] + w[i + 1..]) == multiset(w) - multiset{w[i]}
    ensures Sorted(w) ==> Sorted(w[..i] + w[i + 1..])
  {
    var a, k, b := w[..i], w[i], w[i + 1..];
    assert w == a + [k] + b;
    if Sorted(w) {
      SortedSplit(a, k, b);
      var s := a + b;
      forall x, y | 0 <= x < y < |s|
        ensures s[x] <= s[y]
      {
        if y < |a| {
        } else if x >= |a| {
          assert s[x] == b[x - |a|] && s[y] == b[y - |a|];
        } else {
          assert s[x] in a && s[y] in b;
        }
      }
    }
  }

  /** `Without` drops one copy of the entry at `i` and keeps a sorted sequence sorted. */
  lemma WithoutKeys(w: seq<int>, i: nat)
    requires i < |w|
    ensures multiset(Without(w, i)) == multiset(w) - multiset{w[i]}
    ensures Sorted(w) ==> Sorted(Without(w, i))
  {
    WithoutSlices(w, i);
    RemoveAt(w, i);
  }

  /** With the leaf cut off, the in-order keys are those on either side of its position. */
  lemma CutInorder(path: Path)
    ensures Inorder(Plug(path, Nil)) == Pre(path) + Post(path)
  {
    InorderPlug(path, Nil);
  }

  // ---------------------------------------------------------------------
  // Shifting keys down to a leaf

  /** The node `_find_successor` returns for a node with a child: leftmost on the right, else the left child. */
  function Heir(s: Tree): (r: Tree)
    requires s.Node? && (s.left.Node? || s.right.Node?)
    ensures r.Node?
  {
    if s.right.Node? then LeftmostSub(s.right) else s.left
  }

  /** The ancestors of `Heir(s)` inside `s`, once `s` holds key `k`. */
  function HeirPath(s: Tree, k: int): Path
    requires s.Node? && (s.left.Node? || s.right.Node?)
  {
    if s.right.Node? then LeftSpine(s.right) + [Frame(Right, s.id, k, s.color, s.left)]
    else [Frame(Left, s.id, k, s.color, s.right)]
  }

  /** Ancestors that see the same keys on either side stay interchangeable under more ancestors. */
  lemma SidesAppend(q: Path, q': Path, rest: Path)
    requires Pre(q) == Pre(q') && Post(q) == Post(q')
    ensures Pre(q + rest) == Pre(q' + rest) && Post(q + rest) == Post(q' + rest)
  {
    PreAppend(q, rest);
    PreAppend(q', rest);
  }

  /**
   * One step of the key shift of src/rbtree.c:175-179 in a red-black tree:
   * `s` takes the key of its heir, and the cursor moves to the heir, which
   * is lower.  Seen from the cursor, the keys other than its own are the
   * same before and after.  Without a right subtree the left child is a
   * RED leaf, so the fallback of `_find_successor` is sound.
   */
  lemma ShiftStep(path: Path, s: Tree)
    requires s.Node? && (s.left.Node? || s.right.Node?) && RedFree(s) && Balanced(s)
    ensures var h := Heir(s);
      var path' := HeirPath(s, h.key) + path;
      Plug(path', h) == Plug(path, s.(key := h.key)) && Height(h) < Height(s) &&
      Pre(path') + Inorder(h.left) + Inorder(h.right) + Post(path') ==
        Pre(path) + Inorder(s.left) + Inorder(s.right) + Post(path)
  {
    if s.right.Node? {
      ShiftRightShape(path, s);
      ShiftRightKeys(path, s);
    } else {
      ShiftLeft(path, s);
    }
  }

  /** The fallback: a node with only a left child in a red-black tree has a RED leaf there. */
  lemma ShiftLeft(path: Path, s: Tree)
    requires s.Node? && s.left.Node? && s.right.Nil? && RedFree(s) && Balanced(s)
    ensures var h := Heir(s);
      var path' := HeirPath(s, h.key) + path;
      Plug(path', h) == Plug(path, s.(key := h.key)) && Height(h) < Height(s) &&
      Pre(path') + Inorder(h.left) + Inorder(h.right) + Post(path') ==
        Pre(path) + Inorder(s.left) + Inorder(s.right) + Post(path)
  {
    var h := s.left;
    assert h.left.Nil? && h.right.Nil?;
    var f := Frame(Left, s.id, h.key, s.color, s.right);
    assert ([f] + path)[0] == f && ([f] + path)[1..] == path;
  }

  lemma ShiftRightShape(path: Path, s: Tree)
    requires s.Node? && s.right.Node?
    ensures var h := Heir(s);
      Plug(HeirPath(s, h.key) + path, h) == Plug(path, s.(key := h.key)) && Height(h) < Height(s)
  {
    var h := Heir(s);
    var ls := LeftSpine(s.right);
    var f := Frame(Right, s.id, h.key, s.color, s.left);
    LeftSpinePlug(s.right);
    PlugAppend(ls + [f], path, h);
    PlugAppend(ls, [f], h);
  }

  lemma ShiftRightKeys(path: Path, s: Tree)
    requires s.Node? && s.right.Node?
    ensures var h := Heir(s);
      var path' := HeirPath(s, h.key) + path;
      Pre(path') + Inorder(h.left) + Inorder(h.right) + Post(path') ==
        Pre(path) + Inorder(s.left) + Inorder(s.right) + Post(path)
  {
    var h := Heir(s);
    var ls := LeftSpine(s.right);
    SpineKeys(s.right);
    SpineSides(path, s, ls, Frame(Right, s.id, h.key, s.color, s.left));
    Regroup(Pre(path), Inorder(s.left), [h.key], Inorder(h.right), Post(ls), Post(path));
  }

  /** The right subtree is its leftmost key, that node's right subtree, then the keys above it on the spine. */
  lemma SpineKeys(t: Tree)
    requires t.Node?
    ensures Inorder(t) == [LeftmostSub(t).key] + Inorder(LeftmostSub(t).right) + Post(LeftSpine(t))
  {
    LeftSpinePlug(t);
    InorderPlug(LeftSpine(t), LeftmostSub(t));
  }

  lemma SpineSides(path: Path, s: Tree, ls: Path, f: Frame)
    requires s.Node? && s.right.Node? && ls == LeftSpine(s.right) && f.dir == Right && f.other == s.left
    ensures Pre(ls + [f] + path) == Pre(path) + (Inorder(s.left) + [f.key])
    ensures Post(ls + [f] + path) == Post(ls) + Post(path)
  {
    assert Pre([f]) == Inorder(s.left) + [f.key] && Post([f]) == [] by {
      assert [f][1..] == [] && [f][0] == f;
      assert Pre([f]) == Pre([]) + (Inorder(f.other) + [f.key]);
    }
    assert Pre(ls + [f]) == Pre([f]) && Post(ls + [f]) == Post(ls) by {
      LeftSpinePlug(s.right);
      PreAppend(ls, [f]);
      assert Pre([f]) + Pre(ls) == Pre([f]) && Post(ls) + Post([f]) == Post(ls);
    }
    PreAppend(ls + [f], path);
  }

  lemma Regroup(a: seq<int>, b: seq<int>, c: seq<int>, d: seq<int>, e: seq<int>, g: seq<int>)
    ensures a + (b + c) + [] + d + (e + g) == a + b + (c + d + e) + g
  {
  }

  /** Rewriting a key changes neither the colours nor the shape. */
  lemma RekeyShape(path: Path, s: Tree, k: int)
    requires s.Node?
    ensures RedFree(Plug(path, s.(key := k))) == RedFree(Plug(path, s))
    ensures Balanced(Plug(path, s.(key := k))) == Balanced(Plug(path, s))
  {
    RedFreePlug(path, s);
    RedFreePlug(path, s.(key := k));
    BalancedPlug(path, s);
    BalancedPlug(path, s.(key := k));
  }

  // ---------------------------------------------------------------------
  // The fixup loop

  /**
   * The loop invariant of the fixup: `c`, the cursor N's subtree with the
   * leaf to delete cut off, is sound and BLACK-topped, and its ancestors
   * `path` expect one more black node than it has.
   */
  ghost predicate Short(path: Path, c: Tree)
  {
    RedFree(c) && Balanced(c) && RootColor(c) == Black &&
    PathBalanced(path, BH(c) + 1) && PathRedFree(path, Black)
  }

  /** Cutting a BLACK leaf off a red-black tree starts the loop. */
  lemma ShortStart(path: Path, e: Tree)
    requires e.Node? && e.left.Nil? && e.right.Nil? && e.color == Black
    requires RedFree(Plug(path, e)) && Balanced(Plug(path, e))
    ensures Short(path, Nil)
  {
    RedFreePlug(path, e);
    BalancedPlug(path, e);
  }

  /** A RED leaf is cut off without any repair (src/rbtree.c:182). */
  lemma RedLeafCut(path: Path, e: Tree)
    requires e.Node? && e.left.Nil? && e.right.Nil? && e.color == Red
    requires RedFree(Plug(path, e)) && Balanced(Plug(path, e))
    ensures RedFree(Plug(path, Nil)) && Balanced(Plug(path, Nil))
  {
    RedFreePlug(path, e);
    BalancedPlug(path, e);
    RedFreePlug(path, Nil);
    BalancedPlug(path, Nil);
    if path != [] {
      assert PathRedFree(path, Black);
    }
  }

  /** The shortage reaches the root: nothing expects more, the tree is sound. */
  lemma ShortDone(c: Tree)
    requires Short([], c)
    ensures RedFree(Plug([], c)) && Balanced(Plug([], c))
  {
  }

  /** The sibling S of the cursor exists: it is one black node higher than the cut subtree. */
  lemma ShortSibling(path: Path, c: Tree)
    requires Short(path, c) && path != []
    ensures path[0].other.Node?
  {
  }

  /** Facts about the sibling S and its children C (on N's side) and D (away from N). */
  lemma SiblingShape(path: Path, c: Tree)
    requires Short(path, c) && path != []
    ensures var f, S := path[0], path[0].other;
      var C, D, b := Child(S, f.dir), Child(S, Opp(f.dir)), BH(c);
      S.Node? && RedFree(C) && RedFree(D) && Balanced(C) && Balanced(D) &&
      BH(C) == BH(D) && BH(S) == b + 1 &&
      BH(C) == b + (if S.color == Red then 1 else 0) &&
      (S.color == Red ==> f.color == Black && RootColor(C) == Black && RootColor(D) == Black) &&
      (f.color == Red ==> S.color == Black) &&
      PathBalanced(path[1..], b + 1 + (if f.color == Black then 1 else 0)) &&
      PathRedFree(path[1..], f.color)
  {
  }

  /** The keys one ancestor puts before and after its hole. */
  lemma OneSides(f: Frame)
    ensures Pre([f]) == (if f.dir == Right then Inorder(f.other) + [f.key] else [])
    ensures Post([f]) == (if f.dir == Left then [f.key] + Inorder(f.other) else [])
  {
    assert [f][1..] == [] && [f][0] == f;
  }

  /** Two ancestors put the keys of the farther one around those of the nearer one. */
  lemma PairSides(f1: Frame, f2: Frame)
    ensures Pre([f1, f2]) == Pre([f2]) + Pre([f1]) && Post([f1, f2]) == Post([f1]) + Post([f2])
  {
    assert [f1, f2] == [f1] + [f2];
    PreAppend([f1], [f2]);
  }

  /** Two ancestors that split the sibling `S` of `f` at its top see the same keys on either side as `f`. */
  lemma SplitSides(f: Frame, f1: Frame, f2: Frame)
    requires f.other.Node? && f1.dir == f.dir && f2.dir == f.dir && f1.key == f.key && f2.key == f.other.key
    requires Inorder(f1.other) == Inorder(Child(f.other, f.dir))
    requires Inorder(f2.other) == Inorder(Child(f.other, Opp(f.dir)))
    ensures Pre([f1, f2]) == Pre([f]) && Post([f1, f2]) == Post([f])
  {
    var S := f.other;
    PairSides(f1, f2);
    OneSides(f);
    OneSides(f1);
    OneSides(f2);
    if f.dir == Right {
      assert Inorder(S) == Inorder(f2.other) + [S.key] + Inorder(f1.other);
      Assoc(Inorder(f2.other), [S.key], Inorder(f1.other), [f.key]);
      assert Post([f1, f2]) == [] + [];
    } else {
      assert Inorder(S) == Inorder(f1.other) + [S.key] + Inorder(f2.other);
      Assoc([f.key], Inorder(f1.other), [S.key], Inorder(f2.other));
      assert Pre([f1, f2]) == [] + [];
    }
  }

  lemma Assoc(a: seq<int>, b: seq<int>, c: seq<int>, d: seq<int>)
    ensures (a + b) + (c + d) == (a + b + c) + d
    ensures a + (b + c + d) == (a + b) + (c + d)
  {
  }

  /** An ancestor replaced by one with the same direction, key and in-order keys beside. */
  lemma SameSides(f: Frame, g: Frame)
    requires f.dir == g.dir && f.key == g.key && Inorder(f.other) == Inorder(g.other)
    ensures Pre([g]) == Pre([f]) && Post([g]) == Post([f])
  {
    assert [f][1..] == [] && [g][1..] == [];
  }

  /** The measure of the fixup loop: ancestors left, one more while P is BLACK. */
  function Weight(path: Path): nat
  {
    |path| + (if path != [] && path[0].color == Black then 1 else 0)
  }

  /** The second measure: a red sibling (2) leads to a red close nephew (1) or further to a red far nephew (0). */
  function Phase(path: Path): nat
  {
    if path == [] || path[0].other.Nil? then 0
    else
      var S, d := path[0].other, path[0].dir;
      if S.color == Red then 2
      else if RootColor(Child(S, d)) == Red && RootColor(Child(S, Opp(d))) == Black then 1
      else 0
  }

  /** The ancestors after the red-sibling case (src/rbtree.c:202-206): S over P, S BLACK, P RED; C is N's new sibling. */
  function RedSiblingPath(path: Path): Path
    requires path != [] && path[0].other.Node?
  {
    var f, S := path[0], path[0].other;
    [Frame(f.dir, f.id, f.key, Red, Child(S, f.dir)), Frame(f.dir, S.id, S.key, Black, Child(S, Opp(f.dir)))] + path[1..]
  }

  /** A red sibling: after the rotation the shortage is the same, under a RED parent and a BLACK sibling. */
  lemma CaseRedSibling(path: Path, c: Tree)
    requires Short(path, c) && path != [] && path[0].other.Node? && path[0].other.color == Red
    ensures Short(RedSiblingPath(path), c)
    ensures Pre(RedSiblingPath(path)) == Pre(path) && Post(RedSiblingPath(path)) == Post(path)
    ensures Weight(RedSiblingPath(path)) == Weight(path) && Phase(RedSiblingPath(path)) < Phase(path)
  {
    RedSiblingShort(path, c);
    RedSiblingSides(path);
  }

  lemma RedSiblingShort(path: Path, c: Tree)
    requires Short(path, c) && path != [] && path[0].other.Node? && path[0].other.color == Red
    ensures Short(RedSiblingPath(path), c)
    ensures Weight(RedSiblingPath(path)) == Weight(path) && Phase(RedSiblingPath(path)) < Phase(path)
  {
    var f, S, rest := path[0], path[0].other, path[1..];
    var d := f.dir;
    SiblingShape(path, c);
    var f1, f2 := Frame(d, f.id, f.key, Red, Child(S, d)), Frame(d, S.id, S.key, Black, Child(S, Opp(d)));
    var p' := RedSiblingPath(path);
    assert p' == [f1, f2] + rest && p'[0] == f1 && p'[1..] == [f2] + rest;
    assert ([f2] + rest)[0] == f2 && ([f2] + rest)[1..] == rest;
    assert PathBalanced([f2] + rest, BH(c) + 1);
    assert PathRedFree([f2] + rest, Red);
  }

  lemma RedSiblingSides(path: Path)
    requires path != [] && path[0].other.Node?
    ensures Pre(RedSiblingPath(path)) == Pre(path) && Post(RedSiblingPath(path)) == Post(path)
  {
    var f, S, rest := path[0], path[0].other, path[1..];
    var d := f.dir;
    var f1, f2 := Frame(d, f.id, f.key, Red, Child(S, d)), Frame(d, S.id, S.key, Black, Child(S, Opp(d)));
    assert RedSiblingPath(path) == [f1, f2] + rest;
    SplitSides(f, f1, f2);
    SidesAppend([f1, f2], [f], rest);
    assert [f] + rest == path;
  }

  /** The ancestors after the far-nephew case (src/rbtree.c:209-215): S over P with P's colour, P and D BLACK. */
  function FarRedPath(path: Path): Path
    requires path != [] && path[0].other.Node? && Child(path[0].other, Opp(path[0].dir)).Node?
  {
    var f, S := path[0], path[0].other;
    [Frame(f.dir, f.id, f.key, Black, Child(S, f.dir)),
     Frame(f.dir, S.id, S.key, f.color, Child(S, Opp(f.dir)).(color := Black))] + path[1..]
  }

  /** A black sibling with a red far nephew: one rotation absorbs the shortage and the tree is sound. */
  lemma CaseFarRed(path: Path, c: Tree)
    requires Short(path, c) && path != [] && path[0].other.Node? && path[0].other.color == Black
    requires Child(path[0].other, Opp(path[0].dir)).Node? && Child(path[0].other, Opp(path[0].dir)).color == Red
    ensures RedFree(Plug(FarRedPath(path), c)) && Balanced(Plug(FarRedPath(path), c))
    ensures Pre(FarRedPath(path)) == Pre(path) && Post(FarRedPath(path)) == Post(path)
  {
    FarRedSound(path, c);
    FarRedSides(path);
  }

  lemma FarRedSound(path: Path, c: Tree)
    requires Short(path, c) && path != [] && path[0].other.Node? && path[0].other.color == Black
    requires Child(path[0].other, Opp(path[0].dir)).Node? && Child(path[0].other, Opp(path[0].dir)).color == Red
    ensures RedFree(Plug(FarRedPath(path), c)) && Balanced(Plug(FarRedPath(path), c))
  {
    var f, S, rest := path[0], path[0].other, path[1..];
    var d := f.dir;
    SiblingShape(path, c);
    var D := Child(S, Opp(d));
    var D' := D.(color := Black);
    assert RedFree(D') && Balanced(D') && BH(D') == BH(c) + 1 && RootColor(D') == Black;
    var f1, f2 := Frame(d, f.id, f.key, Black, Child(S, d)), Frame(d, S.id, S.key, f.color, D');
    var p' := FarRedPath(path);
    assert p' == [f1, f2] + rest && p'[0] == f1 && p'[1..] == [f2] + rest;
    assert ([f2] + rest)[0] == f2 && ([f2] + rest)[1..] == rest;
    assert PathBalanced(p', BH(c));
    assert PathRedFree(p', Black);
    RedFreePlug(p', c);
    BalancedPlug(p', c);
  }

  lemma FarRedSides(path: Path)
    requires path != [] && path[0].other.Node? && Child(path[0].other, Opp(path[0].dir)).Node?
    ensures Pre(FarRedPath(path)) == Pre(path) && Post(FarRedPath(path)) == Post(path)
  {
    var f, S, rest := path[0], path[0].other, path[1..];
    var d := f.dir;
    var D' := Child(S, Opp(d)).(color := Black);
    var f1, f2 := Frame(d, f.id, f.key, Black, Child(S, d)), Frame(d, S.id, S.key, f.color, D');
    assert FarRedPath(path) == [f1, f2] + rest;
    assert Inorder(D') == Inorder(Child(S, Opp(d)));
    SplitSides(f, f1, f2);
    SidesAppend([f1, f2], [f], rest);
    assert [f] + rest == path;
  }

  /** The sibling after the close-nephew case (src/rbtree.c:217-221): C over S, C BLACK, S RED. */
  function NearRedSibling(S: Tree, d: Dir): Tree
    requires S.Node? && Child(S, d).Node?
  {
    var C := Child(S, d);
    Make(Opp(d), Make(d, Child(C, Opp(d)), S.id, S.key, Red, Child(S, Opp(d))), C.id, C.key, Black, Child(C, d))
  }

  function NearRedPath(path: Path): Path
    requires path != [] && path[0].other.Node? && Child(path[0].other, path[0].dir).Node?
  {
    [path[0].(other := NearRedSibling(path[0].other, path[0].dir))] + path[1..]
  }

  /** The black node `S` keeps its black height and red-black shape when its red `d` child is rotated up. */
  lemma NearRedSound(S: Tree, d: Dir, b: nat)
    requires S.Node? && S.color == Black && RedFree(S) && Balanced(S) && BH(S) == b + 1
    requires Child(S, d).Node? && Child(S, d).color == Red && RootColor(Child(S, Opp(d))) == Black
    ensures RedFree(NearRedSibling(S, d)) && Balanced(NearRedSibling(S, d))
    ensures BH(NearRedSibling(S, d)) == b + 1 && RootColor(NearRedSibling(S, d)) == Black
  {
    var C, D := Child(S, d), Child(S, Opp(d));
    MakeFlip(d, C, S.id, S.key, Black, D);
    assert S == Make(d, C, S.id, S.key, Black, D);
    MakeFacts(d, C, S.id, S.key, Black, D);
    assert BH(C) == BH(D) == b && Balanced(C) && Balanced(D) && RedFree(C) && RedFree(D);
    var x, y := Child(C, Opp(d)), Child(C, d);
    MakeFlip(d, y, C.id, C.key, Red, x);
    assert C == Make(d, y, C.id, C.key, Red, x);
    MakeFacts(d, y, C.id, C.key, Red, x);
    assert BH(x) == BH(y) == b && RootColor(x) == Black && RootColor(y) == Black;
    var low := Make(d, x, S.id, S.key, Red, D);
    MakeFacts(d, x, S.id, S.key, Red, D);
    assert RedFree(low) && Balanced(low) && BH(low) == b && RootColor(low) == Red;
    MakeFacts(Opp(d), low, C.id, C.key, Black, y);
  }

  /** The rotation at the red close nephew keeps the sibling's in-order keys. */
  lemma NearRedKeys(S: Tree, d: Dir)
    requires S.Node? && Child(S, d).Node?
    ensures Inorder(NearRedSibling(S, d)) == Inorder(S)
  {
    var C, D := Child(S, d), Child(S, Opp(d));
    if d == Left {
      Assoc(Inorder(C.left), [C.key], Inorder(C.right), [S.key] + Inorder(D));
      assert Inorder(NearRedSibling(S, d)) == Inorder(C.left) + [C.key] + (Inorder(C.right) + [S.key] + Inorder(D));
    } else {
      assert Inorder(NearRedSibling(S, d)) == Inorder(D) + [S.key] + Inorder(C.left) + [C.key] + Inorder(C.right);
    }
  }

  /** A black sibling with only a red close nephew: after the rotation the far nephew is red. */
  lemma CaseNearRed(path: Path, c: Tree)
    requires Short(path, c) && path != [] && path[0].other.Node? && path[0].other.color == Black
    requires RootColor(Child(path[0].other, Opp(path[0].dir))) == Black
    requires Child(path[0].other, path[0].dir).Node? && Child(path[0].other, path[0].dir).color == Red
    ensures Short(NearRedPath(path), c)
    ensures Pre(NearRedPath(path)) == Pre(path) && Post(NearRedPath(path)) == Post(path)
    ensures Weight(NearRedPath(path)) == Weight(path) && Phase(NearRedPath(path)) < Phase(path)
  {
    var f, S, rest := path[0], path[0].other, path[1..];
    var d := f.dir;
    SiblingShape(path, c);
    var C, D := Child(S, d), Child(S, Opp(d));
    var S' := NearRedSibling(S, d);
    NearRedSound(S, d, BH(c));
    NearRedKeys(S, d);
    var g := f.(other := S');
    var p' := NearRedPath(path);
    assert p' == [g] + rest && p'[0] == g && p'[1..] == rest;
    SameSides(f, g);
    SidesAppend([g], [f], rest);
    assert [f] + rest == path;
  }

  /** The ancestor P after the all-black cases (src/rbtree.c:222-232): P BLACK, S RED. */
  function Relieved(f: Frame): Frame
    requires f.other.Node?
  {
    Frame(f.dir, f.id, f.key, Black, f.other.(color := Red))
  }

  /** S, C and D black, P red: swapping the colours of P and S absorbs the shortage. */
  lemma CaseRedParent(path: Path, c: Tree)
    requires Short(path, c) && path != [] && path[0].other.Node? && path[0].other.color == Black
    requires RootColor(Child(path[0].other, path[0].dir)) == Black
    requires RootColor(Child(path[0].other, Opp(path[0].dir))) == Black
    requires path[0].color == Red
    ensures RedFree(Plug([Relieved(path[0])] + path[1..], c)) && Balanced(Plug([Relieved(path[0])] + path[1..], c))
    ensures Pre([Relieved(path[0])] + path[1..]) == Pre(path) && Post([Relieved(path[0])] + path[1..]) == Post(path)
  {
    var f, S, rest := path[0], path[0].other, path[1..];
    SiblingShape(path, c);
    var g := Relieved(f);
    var p' := [g] + rest;
    assert p'[0] == g && p'[1..] == rest;
    assert RedFree(g.other) && Balanced(g.other) && BH(g.other) == BH(c);
    assert PathRedFree(rest, Black) by {
      if rest != [] {
        assert PathRedFree(rest, Red);
      }
    }
    assert PathBalanced(p', BH(c)) && PathRedFree(p', Black);
    RedFreePlug(p', c);
    BalancedPlug(p', c);
    SameSides(f, g);
    SidesAppend([g], [f], rest);
    assert [f] + rest == path;
  }

  /** S, C, D and P black: S turns RED and the shortage moves up to P. */
  lemma CaseClimb(path: Path, c: Tree)
    requires Short(path, c) && path != [] && path[0].other.Node? && path[0].other.color == Black
    requires RootColor(Child(path[0].other, path[0].dir)) == Black
    requires RootColor(Child(path[0].other, Opp(path[0].dir))) == Black
    requires path[0].color == Black
    ensures Short(path[1..], Attach(Relieved(path[0]), c))
    ensures Pre([Relieved(path[0])] + path[1..]) == Pre(path) && Post([Relieved(path[0])] + path[1..]) == Post(path)
    ensures Weight(path[1..]) < Weight(path)
  {
    var f, S, rest := path[0], path[0].other, path[1..];
    SiblingShape(path, c);
    var g := Relieved(f);
    assert RedFree(g.other) && Balanced(g.other) && BH(g.other) == BH(c);
    MakeFacts(f.dir, c, f.id, f.key, Black, g.other);
    SameSides(f, g);
    SidesAppend([g], [f], rest);
    assert [f] + rest == path;
  }

  // ---------------------------------------------------------------------
  // The colour of the root during the fixup

  /** Above a cursor, the root of the tree is the topmost ancestor. */
  lemma {:induction false} RootAbove(path: Path, x: Tree)
    requires path != []
    ensures RootColor(Plug(path, x)) == path[|path| - 1].color
    decreases |path|
  {
    MakeFacts(path[0].dir, x, path[0].id, path[0].key, path[0].color, path[0].other);
    if |path| > 1 {
      RootAbove(path[1..], Attach(path[0], x));
    }
  }

  /** The red-sibling case leaves a BLACK root BLACK: S, turned BLACK, replaces P at the top. */
  lemma RedSiblingRoot(path: Path, x: Tree)
    requires path != [] && path[0].other.Node?
    ensures RootColor(Plug(path, x)) == Black ==> RootColor(Plug(RedSiblingPath(path), x)) == Black
  {
    RootAbove(path, x);
    RootAbove(RedSiblingPath(path), x);
  }

  /** The far-nephew case leaves a BLACK root BLACK: S takes P's colour. */
  lemma FarRedRoot(path: Path, x: Tree)
    requires path != [] && path[0].other.Node? && Child(path[0].other, Opp(path[0].dir)).Node?
    ensures RootColor(Plug(path, x)) == Black ==> RootColor(Plug(FarRedPath(path), x)) == Black
  {
    RootAbove(path, x);
    RootAbove(FarRedPath(path), x);
  }

  /** The close-nephew case changes no ancestor's colour. */
  lemma NearRedRoot(path: Path, x: Tree)
    requires path != [] && path[0].other.Node? && Child(path[0].other, path[0].dir).Node?
    ensures RootColor(Plug(NearRedPath(path), x)) == RootColor(Plug(path, x))
  {
    RootAbove(path, x);
    RootAbove(NearRedPath(path), x);
  }

  /** The all-black cases leave a BLACK root BLACK: P ends BLACK. */
  lemma RelievedRoot(path: Path, x: Tree)
    requires path != [] && path[0].other.Node?
    ensures RootColor(Plug(path, x)) == Black ==> RootColor(Plug([Relieved(path[0])] + path[1..], x)) == Black
  {
    RootAbove(path, x);
    RootAbove([Relieved(path[0])] + path[1..], x);
  }

  // ---------------------------------------------------------------------
  // Shapes the writes of the fixup go through

  /** Plugging under one more ancestor. */
  lemma PlugCons(f: Frame, rest: Path, x: Tree)
    ensures Plug([f] + rest, x) == Plug(rest, Attach(f, x))
  {
    assert ([f] + rest)[0] == f && ([f] + rest)[1..] == rest;
  }

  /** Plugging under two more ancestors, the nearer first. */
  lemma PlugPair(f1: Frame, f2: Frame, rest: Path, x: Tree)
    ensures Plug([f1, f2] + rest, x) == Plug(rest, Attach(f2, Attach(f1, x)))
  {
    assert ([f1, f2] + rest)[0] == f1 && ([f1, f2] + rest)[1..] == [f2] + rest;
    PlugCons(f2, rest, Attach(f1, x));
  }

  /** The cursor and its sibling share no slot. */
  lemma CursorApart(path: Path, s: Tree)
    requires Distinct(Plug(path, s)) && s.Node? && path != []
    ensures s.id !in Ids(path[0].other) && Distinct(path[0].other)
  {
    IdsPlug(path, s);
    PathIdsFirst(path);
    assert s.id in Ids(s);
  }

  /**
   * Promoting the sibling S over P: the cursor stays P's child on the same
   * side, with S's near child C beside it, and S takes P's place with its
   * far child D beside P.
   */
  lemma SiblingUp(f: Frame, s: Tree)
    requires f.other.Node? && s.Node? && s.id !in Ids(f.other)
    ensures var S, d := f.other, f.dir;
      Attach(f, s).Node? && Child(Attach(f, s), RotDir(Attach(f, s), S.id)) == S &&
      RotDir(Attach(f, s), S.id) == Opp(d) &&
      Rot(Attach(f, s), Opp(d)) ==
        Attach(Frame(d, S.id, S.key, S.color, Child(S, Opp(d))), Attach(Frame(d, f.id, f.key, f.color, Child(S, d)), s))
  {
    assert f.other.id in Ids(f.other);
  }

  /** The near child C of the sibling S is the one a rotation at C promotes. */
  lemma NephewDir(S: Tree, d: Dir)
    requires S.Node? && Child(S, d).Node? && Distinct(S)
    ensures RotDir(S, Child(S, d).id) == d
  {
    assert Child(S, d).id in Ids(Child(S, d));
  }

  /** Ancestors with the same keys on either side stay interchangeable below more of the path. */
  lemma SidesPrepend(lp: Path, q: Path, q': Path)
    requires Pre(q) == Pre(q') && Post(q) == Post(q')
    ensures Pre(lp + q) == Pre(lp + q') && Post(lp + q) == Post(lp + q')
  {
    PreAppend(lp, q);
    PreAppend(lp, q');
  }

  /** A case that absorbed the shortage ends the fixup: the leaf's position seen from the root. */
  lemma MendEnd(lp: Path, q: Path, path: Path, e: Tree)
    requires RedFree(Plug(q, Plug(lp, Nil))) && Balanced(Plug(q, Plug(lp, Nil)))
    requires Pre(q) == Pre(path) && Post(q) == Post(path)
    ensures Plug(lp + q, e) == Plug(q, Plug(lp, e))
    ensures RedFree(Plug(lp + q, Nil)) && Balanced(Plug(lp + q, Nil))
    ensures Pre(lp + q) == Pre(lp + path) && Post(lp + q) == Post(lp + path)
  {
    SidesPrepend(lp, q, path);
    PlugAppend(lp, q, e);
    PlugAppend(lp, q, Nil);
  }

  /** The all-black case moves the cursor up to P, whose subtree now holds the leaf one level deeper. */
  lemma MendClimb(lp: Path, path: Path, e: Tree)
    requires Short(path, Plug(lp, Nil)) && path != [] && path[0].other.Node? && path[0].other.color == Black
    requires RootColor(Child(path[0].other, path[0].dir)) == Black
    requires RootColor(Child(path[0].other, Opp(path[0].dir))) == Black
    requires path[0].color == Black
    ensures var g := Relieved(path[0]);
      Short(path[1..], Plug(lp + [g], Nil)) && Weight(path[1..]) < Weight(path) &&
      Attach(g, Plug(lp, e)) == Plug(lp + [g], e) &&
      Pre(lp + [g] + path[1..]) == Pre(lp + path) && Post(lp + [g] + path[1..]) == Post(lp + path)
  {
    var g, rest, c := Relieved(path[0]), path[1..], Plug(lp, Nil);
    CaseClimb(path, c);
    SidesPrepend(lp, [g] + rest, path);
    assert lp + [g] + rest == lp + ([g] + rest);
    PlugAppend(lp, [g], e);
    PlugAppend(lp, [g], Nil);
    PlugCons(g, [], Plug(lp, e));
    PlugCons(g, [], c);
    assert [g] + [] == [g];
  }
}
