/**
 * The nodes of src/rbtree.c held in an arena: a pointer becomes a slot
 * number, NULL becomes `NIL`, and the fields of `node_t` become five
 * parallel columns indexed by slot.  `Repr` ties a `Tree` value to the
 * columns: each node of the value occupies its slot, whose key, colour,
 * child links and parent link agree with the value.
 */
module Arena {
  import opened RBTrees

  const NIL: int := -1

  /** The columns `key`, `color`, `left`, `right` and `parent` of every node_t. */
  datatype Heap = Heap(keys: seq<int>, colors: seq<Color>, lefts: seq<int>, rights: seq<int>, parents: seq<int>)

  /** All five columns have the same number of slots. */
  predicate Sized(h: Heap)
  {
    |h.colors| == |h.keys| && |h.lefts| == |h.keys| && |h.rights| == |h.keys| && |h.parents| == |h.keys|
  }

  /** Slot `x` exists in every column. */
  predicate Has(h: Heap, x: int)
  {
    0 <= x < |h.keys| && x < |h.colors| && x < |h.lefts| && x < |h.rights| && x < |h.parents|
  }

  /** Slot `x` holds key `k`, colour `c`, children `l` and `r` and parent `p`. */
  predicate At(h: Heap, x: int, k: int, c: Color, l: int, r: int, p: int)
  {
    Has(h, x) && h.keys[x] == k && h.colors[x] == c && h.lefts[x] == l && h.rights[x] == r && h.parents[x] == p
  }

  /** Slot `x` is the same in `h` and `h'`. */
  predicate Same(h: Heap, h': Heap, x: int)
  {
    Has(h, x) && Has(h', x) &&
    h'.keys[x] == h.keys[x] && h'.colors[x] == h.colors[x] &&
    h'.lefts[x] == h.lefts[x] && h'.rights[x] == h.rights[x] && h'.parents[x] == h.parents[x]
  }

  /** The link to the top of `t`. */
  function Ptr(t: Tree): int
  {
    if t.Nil? then NIL else t.id
  }

  /** The link to the nearest ancestor recorded in `path`. */
  function ParentPtr(path: Path): int
  {
    if path == [] then NIL else path[0].id
  }

  /** The slots describe `t`, whose top has parent link `parent`. */
  ghost predicate Repr(t: Tree, parent: int, h: Heap)
  {
    match t
    case Nil => true
    case Node(l, x, k, c, r) => At(h, x, k, c, Ptr(l), Ptr(r), parent) && Repr(l, x, h) && Repr(r, x, h)
  }

  /** The slots describe `t`, whatever the parent link of its top. */
  ghost predicate Rooted(t: Tree, h: Heap)
  {
    t.Nil? || (Has(h, t.id) && Repr(t, h.parents[t.id], h))
  }

  /** Slot `f.id` holds the ancestor `f`, whose `f.dir` child link is `hole`. */
  predicate FrameAt(h: Heap, f: Frame, hole: int, parent: int)
  {
    if f.dir == Left then At(h, f.id, f.key, f.color, hole, Ptr(f.other), parent)
    else At(h, f.id, f.key, f.color, Ptr(f.other), hole, parent)
  }

  /** The slots describe the ancestors `path` of a position whose top is `hole`. */
  ghost predicate ReprPath(path: Path, hole: int, h: Heap)
    decreases |path|
  {
    path == [] ||
    (FrameAt(h, path[0], hole, ParentPtr(path[1..])) &&
     Repr(path[0].other, path[0].id, h) && ReprPath(path[1..], path[0].id, h))
  }

  lemma {:induction false} ReprPlug(path: Path, s: Tree, h: Heap)
    ensures Repr(Plug(path, s), NIL, h) <==> Repr(s, ParentPtr(path), h) && ReprPath(path, Ptr(s), h)
    decreases |path|
  {
    if path != [] {
      ReprPlug(path[1..], Attach(path[0], s), h);
    }
  }

  lemma {:induction false} ReprBound(t: Tree, p: int, h: Heap)
    requires Repr(t, p, h)
    ensures forall i :: i in Ids(t) ==> Has(h, i)
  {
    if t.Node? {
      ReprBound(t.left, t.id, h);
      ReprBound(t.right, t.id, h);
    }
  }

  lemma {:induction false} ReprPathBound(path: Path, hole: int, h: Heap)
    requires ReprPath(path, hole, h)
    ensures forall i :: i in PathIds(path) ==> Has(h, i)
    decreases |path|
  {
    if path != [] {
      ReprBound(path[0].other, path[0].id, h);
      ReprPathBound(path[1..], path[0].id, h);
    }
  }

  /** Slots outside the nodes of `t` may change freely. */
  lemma {:induction false} ReprFrame(t: Tree, p: int, h: Heap, h': Heap)
    requires Repr(t, p, h)
    requires forall i :: i in Ids(t) ==> Same(h, h', i)
    ensures Repr(t, p, h')
  {
    if t.Node? {
      assert Same(h, h', t.id);
      ReprFrame(t.left, t.id, h, h');
      ReprFrame(t.right, t.id, h, h');
    }
  }

  lemma {:induction false} ReprPathFrame(path: Path, hole: int, h: Heap, h': Heap)
    requires ReprPath(path, hole, h)
    requires forall i :: i in PathIds(path) ==> Same(h, h', i)
    ensures ReprPath(path, hole, h')
    decreases |path|
  {
    if path != [] {
      assert Same(h, h', path[0].id);
      ReprFrame(path[0].other, path[0].id, h, h');
      ReprPathFrame(path[1..], path[0].id, h, h');
    }
  }

  /** Only the slot of the top of `t` changed, to the record `t'` needs under parent `p'`. */
  lemma ReprRetopSub(t: Tree, t': Tree, p: int, p': int, h: Heap, h': Heap)
    requires Repr(t, p, h) && Distinct(t) && t.Node? && t'.Node?
    requires t'.left == t.left && t'.id == t.id && t'.right == t.right
    requires At(h', t.id, t'.key, t'.color, Ptr(t.left), Ptr(t.right), p')
    requires forall i :: i in Ids(t) && i != t.id ==> Same(h, h', i)
    ensures Repr(t', p', h')
  {
    ReprFrame(t.left, t.id, h, h');
    ReprFrame(t.right, t.id, h, h');
  }

  /** Only the child link of the nearest ancestor changed, to the new top `hole'`. */
  lemma ReprPathSetHole(path: Path, hole: int, hole': int, h: Heap, h': Heap)
    requires ReprPath(path, hole, h) && PathDistinct(path) && path != []
    requires FrameAt(h', path[0], hole', ParentPtr(path[1..]))
    requires forall i :: i in PathIds(path) && i != path[0].id ==> Same(h, h', i)
    ensures ReprPath(path, hole', h')
  {
    ReprFrame(path[0].other, path[0].id, h, h');
    ReprPathFrame(path[1..], path[0].id, h, h');
  }

  /** The top of a tree rebuilt from a non-empty path is its farthest ancestor. */
  lemma {:induction false} PlugTop(path: Path, s: Tree)
    ensures path == [] ==> Plug(path, s) == s
    ensures path != [] ==> Plug(path, s).Node? && Plug(path, s).id in PathIds(path)
    ensures path != [] ==> Plug(path, s).id == path[|path| - 1].id
    decreases |path|
  {
    if path != [] {
      PlugTop(path[1..], Attach(path[0], s));
      if path[1..] != [] {
        assert PathIds(path[1..]) <= PathIds(path);
      }
    }
  }

  /** Facts about the slots around a rotation, read off `Repr`. */
  lemma RotateFacts(ctx: Path, sub: Tree, d: Dir, h: Heap)
    requires sub.Node? && Child(sub, d).Node?
    requires Repr(Plug(ctx, sub), NIL, h) && Distinct(Plug(ctx, sub))
    ensures var P, n, G := sub.id, Child(sub, d).id, ParentPtr(ctx);
      var B := Ptr(Child(Child(sub, d), Opp(d)));
      Has(h, P) && Has(h, n) && P != n && h.parents[P] == G && h.parents[n] == P &&
      (d == Right ==> h.rights[P] == n && h.lefts[P] != n && h.lefts[n] == B) &&
      (d == Left ==> h.lefts[P] == n && h.rights[P] != n && h.rights[n] == B) &&
      (B != NIL ==> Has(h, B) && B != P && B != n && B != G) &&
      (ctx == [] <==> G == NIL) &&
      (G != NIL ==>
         Has(h, G) && G != P && G != n &&
         (h.lefts[G] == P <==> ctx[0].dir == Left) && (h.rights[G] == P <==> ctx[0].dir == Right))
  {
    var P, N, G := sub.id, Child(sub, d), ParentPtr(ctx);
    ReprPlug(ctx, sub, h);
    IdsPlug(ctx, sub);
    var B := Child(N, Opp(d));
    assert Repr(N, P, h);
    assert Ids(N) <= Ids(sub);
    assert Ids(B) <= Ids(N);
    if ctx != [] {
      PathIdsFirst(ctx);
      assert Ptr(ctx[0].other) != P;
      assert G !in Ids(sub);
    }
    if B.Node? {
      assert Repr(B, N.id, h);
    }
    if d == Left { assert Ptr(sub.right) != N.id; } else { assert Ptr(sub.left) != N.id; }
  }

  /**
   * The columns after the writes of _rotate_tree promoting the `d` child
   * `n` of `P`: P takes n's inner subtree `B` as its `d` child, n takes P's
   * place under `G` (or at the root when `G` is NIL), and P becomes n's
   * child on the other side.  Keys and colours are untouched.
   */
  ghost predicate Relinked(h: Heap, h': Heap, P: int, n: int, B: int, G: int, d: Dir)
  {
    var gl := G != NIL && 0 <= G < |h.lefts| && h.lefts[G] == P;
    var gr := G != NIL && !gl;
    Has(h, P) && Has(h, n) && (B != NIL ==> Has(h, B)) && (G != NIL ==> Has(h, G)) &&
    h'.keys == h.keys && h'.colors == h.colors &&
    h'.parents == (if B != NIL then h.parents[B := P] else h.parents)[n := G][P := n] &&
    (d == Right ==>
       h'.rights == (if gr then h.rights[P := B][G := n] else h.rights[P := B]) &&
       h'.lefts == (if gl then h.lefts[G := n] else h.lefts)[n := P]) &&
    (d == Left ==>
       h'.lefts == (if gl then h.lefts[P := B][G := n] else h.lefts[P := B]) &&
       h'.rights == (if gr then h.rights[G := n] else h.rights)[n := P])
  }

  /** The writes of a rotation of the top of `sub` in the context `ctx`. */
  ghost predicate RotateStep(ctx: Path, sub: Tree, d: Dir, h: Heap, h': Heap)
    requires sub.Node? && Child(sub, d).Node?
  {
    var P, n, G := sub.id, Child(sub, d).id, ParentPtr(ctx);
    var B := Ptr(Child(Child(sub, d), Opp(d)));
    Relinked(h, h', P, n, B, G, d)
  }

  /** The slots the writes of a rotation change, field by field. */
  lemma RelinkedAt(h: Heap, h': Heap, P: int, n: int, B: int, G: int, d: Dir)
    requires Relinked(h, h', P, n, B, G, d)
    requires P != n && (B != NIL ==> B != P && B != n && B != G) && (G != NIL ==> G != P && G != n)
    ensures Has(h', P) && Has(h', n) && (B != NIL ==> Has(h', B)) && (G != NIL ==> Has(h', G))
    ensures h'.parents[P] == n && h'.parents[n] == G && (B != NIL ==> h'.parents[B] == P)
    ensures d == Right ==> h'.rights[P] == B && h'.lefts[P] == h.lefts[P] && h'.lefts[n] == P && h'.rights[n] == h.rights[n]
    ensures d == Left ==> h'.lefts[P] == B && h'.rights[P] == h.rights[P] && h'.rights[n] == P && h'.lefts[n] == h.lefts[n]
    ensures B != NIL ==> h'.lefts[B] == h.lefts[B] && h'.rights[B] == h.rights[B]
    ensures G != NIL && h.lefts[G] == P ==> h'.lefts[G] == n && h'.rights[G] == h.rights[G] && h'.parents[G] == h.parents[G]
    ensures G != NIL && h.lefts[G] != P ==> h'.rights[G] == n && h'.lefts[G] == h.lefts[G] && h'.parents[G] == h.parents[G]
    ensures forall i :: Has(h, i) && i != P && i != n && i != B && i != G ==> Same(h, h', i)
  {
  }

  /** The slots a rotation rewrote, one by one. */
  lemma RotateStepAt(ctx: Path, sub: Tree, d: Dir, h: Heap, h': Heap)
    requires sub.Node? && Child(sub, d).Node?
    requires Repr(Plug(ctx, sub), NIL, h) && Distinct(Plug(ctx, sub))
    requires RotateStep(ctx, sub, d, h, h')
    ensures var P, N, G := sub.id, Child(sub, d), ParentPtr(ctx);
      var Bt := Child(N, Opp(d));
      var B := Ptr(Bt);
      var low := Make(d, Bt, P, sub.key, sub.color, Child(sub, Opp(d)));
      var top := Rot(sub, d);
      At(h', P, sub.key, sub.color, Ptr(low.left), Ptr(low.right), N.id) &&
      At(h', N.id, N.key, N.color, Ptr(top.left), Ptr(top.right), G) &&
      (Bt.Node? ==> At(h', B, Bt.key, Bt.color, Ptr(Bt.left), Ptr(Bt.right), P)) &&
      (ctx != [] ==> FrameAt(h', ctx[0], N.id, ParentPtr(ctx[1..]))) &&
      (forall i :: Has(h, i) && i != P && i != N.id && i != B && i != G ==> Same(h, h', i))
  {
    var P, N, G := sub.id, Child(sub, d), ParentPtr(ctx);
    RotateFacts(ctx, sub, d, h);
    RelinkedAt(h, h', P, N.id, Ptr(Child(N, Opp(d))), G, d);
    ReprPlug(ctx, sub, h);
    assert Repr(N, P, h);
    if Child(N, Opp(d)).Node? {
      assert Repr(Child(N, Opp(d)), N.id, h);
    }
  }

  /** The lower node of a rotation, `sub` with the inner grandchild moved under it, is described by `h'`. */
  lemma RotateLowRepr(sub: Tree, d: Dir, G: int, h: Heap, h': Heap)
    requires sub.Node? && Child(sub, d).Node?
    requires Repr(sub, G, h) && Distinct(sub)
    requires var N := Child(sub, d);
      var Bt := Child(N, Opp(d));
      var low := Make(d, Bt, sub.id, sub.key, sub.color, Child(sub, Opp(d)));
      At(h', sub.id, sub.key, sub.color, Ptr(low.left), Ptr(low.right), N.id) &&
      (Bt.Node? ==> At(h', Bt.id, Bt.key, Bt.color, Ptr(Bt.left), Ptr(Bt.right), sub.id)) &&
      (forall i :: i in Ids(sub) && i != sub.id && i != N.id && i != Ptr(Bt) ==> Same(h, h', i))
    ensures Repr(Make(d, Child(Child(sub, d), Opp(d)), sub.id, sub.key, sub.color, Child(sub, Opp(d))), Child(sub, d).id, h')
  {
    var P, N := sub.id, Child(sub, d);
    var n := N.id;
    var A, B := Child(sub, Opp(d)), Child(N, Opp(d));
    assert Repr(N, P, h);
    assert Ids(B) <= Ids(N) && Ids(N) <= Ids(sub) && Ids(A) <= Ids(sub);
    assert Ids(A) !! Ids(N) && P !in Ids(A) && P !in Ids(N) && n !in Ids(B);
    ReprFrame(A, P, h, h');
    if B.Node? {
      assert Repr(B, n, h);
      ReprRetopSub(B, B, n, P, h, h');
    }
  }

  /** After the writes of a rotation, the slots of the rotated subtree describe `Rot(sub, d)`. */
  lemma RotateSubRepr(sub: Tree, d: Dir, G: int, h: Heap, h': Heap)
    requires sub.Node? && Child(sub, d).Node?
    requires Repr(sub, G, h) && Distinct(sub)
    requires var N := Child(sub, d);
      var Bt := Child(N, Opp(d));
      var low := Make(d, Bt, sub.id, sub.key, sub.color, Child(sub, Opp(d)));
      var top := Rot(sub, d);
      At(h', sub.id, sub.key, sub.color, Ptr(low.left), Ptr(low.right), N.id) &&
      At(h', N.id, N.key, N.color, Ptr(top.left), Ptr(top.right), G) &&
      (Bt.Node? ==> At(h', Bt.id, Bt.key, Bt.color, Ptr(Bt.left), Ptr(Bt.right), sub.id)) &&
      (forall i :: i in Ids(sub) && i != sub.id && i != N.id && i != Ptr(Bt) ==> Same(h, h', i))
    ensures Repr(Rot(sub, d), G, h')
  {
    var P, N := sub.id, Child(sub, d);
    var n := N.id;
    var B, C := Child(N, Opp(d)), Child(N, d);
    RotateLowRepr(sub, d, G, h, h');
    assert Repr(N, P, h);
    assert Ids(C) <= Ids(N) && Ids(N) <= Ids(sub);
    assert Ids(B) !! Ids(C) && n !in Ids(C) && P !in Ids(N);
    ReprFrame(C, n, h, h');
  }

  /** After the writes of a rotation, the slots describe the rotated tree. */
  lemma RotateRepr(ctx: Path, sub: Tree, d: Dir, h: Heap, h': Heap)
    requires sub.Node? && Child(sub, d).Node?
    requires Repr(Plug(ctx, sub), NIL, h) && Distinct(Plug(ctx, sub))
    requires RotateStep(ctx, sub, d, h, h')
    ensures Repr(Plug(ctx, Rot(sub, d)), NIL, h') && Distinct(Plug(ctx, Rot(sub, d)))
  {
    var P, G := sub.id, ParentPtr(ctx);
    var n := Child(sub, d).id;
    RotateFacts(ctx, sub, d, h);
    RotateStepAt(ctx, sub, d, h, h');
    ReprPlug(ctx, sub, h);
    IdsPlug(ctx, sub);
    RotInorder(sub, d);
    var r := Rot(sub, d);
    IdsPlug(ctx, r);
    if ctx != [] {
      PathIdsFirst(ctx);
    }
    ReprBound(sub, G, h);
    assert G == NIL || G !in Ids(sub);
    RotateSubRepr(sub, d, G, h, h');
    if ctx != [] {
      ReprPathBound(ctx, P, h);
      var B := Ptr(Child(Child(sub, d), Opp(d)));
      assert Child(sub, d).id in Ids(sub) && Ids(Child(Child(sub, d), Opp(d))) <= Ids(sub);
      assert forall i :: i in PathIds(ctx) ==> i != P && i != n && i != B;
      ReprPathSetHole(ctx, P, n, h, h');
    }
    ReprPlug(ctx, r, h');
  }

  /** Rewriting the key and colour of the top of `sub` only: the slots describe the rewritten tree. */
  lemma ReprRetop(ctx: Path, sub: Tree, sub': Tree, h: Heap, h': Heap)
    requires Repr(Plug(ctx, sub), NIL, h) && Distinct(Plug(ctx, sub))
    requires sub.Node? && sub'.Node? && sub' == Node(sub.left, sub.id, sub'.key, sub'.color, sub.right)
    requires At(h', sub.id, sub'.key, sub'.color, Ptr(sub.left), Ptr(sub.right), ParentPtr(ctx))
    requires forall i :: Has(h, i) && i != sub.id ==> Same(h, h', i)
    ensures Repr(Plug(ctx, sub'), NIL, h') && Distinct(Plug(ctx, sub'))
    ensures Ids(Plug(ctx, sub')) == Ids(Plug(ctx, sub))
  {
    ReprPlug(ctx, sub, h);
    IdsPlug(ctx, sub);
    IdsPlug(ctx, sub');
    ReprBound(sub, ParentPtr(ctx), h);
    ReprRetopSub(sub, sub', ParentPtr(ctx), ParentPtr(ctx), h, h');
    ReprPathBound(ctx, sub.id, h);
    ReprPathFrame(ctx, sub.id, h, h');
    ReprPlug(ctx, sub', h');
  }

  /** The slots around the cursor `s` and its nearest ancestor, read off `Repr`. */
  lemma ClimbFacts(path: Path, s: Tree, h: Heap)
    requires Repr(Plug(path, s), NIL, h) && Distinct(Plug(path, s)) && s.Node? && path != []
    ensures var f := path[0];
      Has(h, s.id) && Has(h, f.id) && h.parents[s.id] == f.id && h.colors[s.id] == s.color &&
      h.colors[f.id] == f.color && h.parents[f.id] == ParentPtr(path[1..]) &&
      (h.lefts[f.id] == s.id <==> f.dir == Left) && (h.rights[f.id] == s.id <==> f.dir == Right) &&
      (f.dir == Left ==> h.rights[f.id] == Ptr(f.other)) && (f.dir == Right ==> h.lefts[f.id] == Ptr(f.other)) &&
      (f.other.Node? ==> Has(h, f.other.id) && h.colors[f.other.id] == f.other.color)
  {
    var f := path[0];
    ReprPlug(path, s, h);
    assert Repr(s, f.id, h);
    assert FrameAt(h, f, s.id, ParentPtr(path[1..]));
    assert Repr(f.other, f.id, h);
    assert s.id !in Ids(f.other) by {
      IdsPlug(path, s);
    }
  }

  /** The grandparent of the cursor `s`, and the uncle as rbtree_insert reads it off G's links. */
  lemma UncleFacts(path: Path, s: Tree, h: Heap)
    requires Repr(Plug(path, s), NIL, h) && Distinct(Plug(path, s)) && s.Node? && |path| >= 2
    ensures var fP, fG := path[0], path[1];
      Has(h, fP.id) && Has(h, fG.id) && h.parents[fP.id] == fG.id &&
      (if fP.id == h.lefts[fG.id] then h.rights[fG.id] else h.lefts[fG.id]) == Ptr(fG.other) &&
      (fP.id == h.lefts[fG.id] <==> fG.dir == Left) && (fP.id == h.rights[fG.id] <==> fG.dir == Right) &&
      (fG.other.Node? ==> Has(h, fG.other.id) && h.colors[fG.other.id] == fG.other.color)
  {
    assert path[1..][0] == path[1];
    ClimbFacts(path[1..], Attach(path[0], s), h);
  }

  /** The nearest ancestor is the root exactly when it is the only one. */
  lemma ClimbTop(path: Path, s: Tree)
    requires Distinct(Plug(path, s)) && path != []
    ensures Ptr(Plug(path, s)) == path[0].id <==> |path| == 1
  {
    PlugTop(path, s);
    if |path| > 1 {
      var f := path[0];
      IdsPlug(path, s);
      PlugTop(path[1..], Attach(f, s));
      assert path[1..][|path[1..]| - 1] == path[|path| - 1];
    }
  }

  /**
   * The columns after a new RED leaf holding `key` is appended as slot
   * `|h.keys|` under the nearest ancestor of `path` (NULL children, parent
   * that ancestor) and linked in as its `path[0].dir` child.
   */
  ghost predicate Hung(h: Heap, h': Heap, path: Path, key: int)
  {
    var z, P := |h.keys|, ParentPtr(path);
    var ls, rs := h.lefts + [NIL], h.rights + [NIL];
    Sized(h) && (path != [] ==> 0 <= P < |h.keys|) &&
    h'.keys == h.keys + [key] && h'.colors == h.colors + [Red] && h'.parents == h.parents + [P] &&
    h'.lefts == (if path != [] && path[0].dir == Left then ls[P := z] else ls) &&
    h'.rights == (if path != [] && path[0].dir == Right then rs[P := z] else rs)
  }

  /** Hanging the leaf rewrites only the link of the nearest ancestor, which now points at it. */
  lemma HangPath(path: Path, key: int, h: Heap, h': Heap)
    requires ReprPath(path, NIL, h) && PathDistinct(path) && path != [] && Hung(h, h', path, key)
    ensures ReprPath(path, |h.keys|, h')
  {
    var P := path[0].id;
    forall i | Has(h, i) && i != P
      ensures Same(h, h', i)
    {
    }
    assert FrameAt(h', path[0], |h.keys|, ParentPtr(path[1..]));
    ReprPathBound(path, NIL, h);
    ReprPathSetHole(path, NIL, |h.keys|, h, h');
  }

  /** The hung leaf fills the hole of `path`: the columns describe the tree with the new leaf. */
  lemma HangLeaf(path: Path, key: int, h: Heap, h': Heap)
    requires Sized(h) && Repr(Plug(path, Nil), NIL, h) && Distinct(Plug(path, Nil)) && Hung(h, h', path, key)
    ensures Sized(h')
    ensures Repr(Plug(path, Node(Nil, |h.keys|, key, Red, Nil)), NIL, h')
    ensures Distinct(Plug(path, Node(Nil, |h.keys|, key, Red, Nil)))
  {
    var z := |h.keys|;
    var leaf := Node(Nil, z, key, Red, Nil);
    ReprPlug(path, Nil, h);
    IdsPlug(path, Nil);
    IdsPlug(path, leaf);
    ReprPathBound(path, NIL, h);
    if path != [] {
      HangPath(path, key, h, h');
    }
    assert Repr(leaf, ParentPtr(path), h');
    ReprPlug(path, leaf, h');
  }

  /** The slot of the cursor `s` holds its key, colour, child links and parent link. */
  lemma CursorFacts(path: Path, s: Tree, h: Heap)
    requires Repr(Plug(path, s), NIL, h) && s.Node?
    ensures At(h, s.id, s.key, s.color, Ptr(s.left), Ptr(s.right), ParentPtr(path))
  {
    ReprPlug(path, s, h);
  }

  /** The sibling S of the cursor, read off the slot of the nearest ancestor, and S's children. */
  lemma SiblingFacts(path: Path, s: Tree, h: Heap)
    requires Repr(Plug(path, s), NIL, h) && path != [] && path[0].other.Node?
    ensures var S := path[0].other;
      At(h, S.id, S.key, S.color, Ptr(S.left), Ptr(S.right), path[0].id) &&
      (S.left.Node? ==> Has(h, S.left.id) && h.colors[S.left.id] == S.left.color) &&
      (S.right.Node? ==> Has(h, S.right.id) && h.colors[S.right.id] == S.right.color)
  {
    var S := path[0].other;
    ReprPlug(path, s, h);
    assert Repr(S, path[0].id, h);
    if S.left.Node? {
      assert Repr(S.left, S.id, h);
    }
    if S.right.Node? {
      assert Repr(S.right, S.id, h);
    }
  }

  /** The cursor is the root exactly when it has no ancestors. */
  lemma RootCursor(path: Path, s: Tree)
    requires Distinct(Plug(path, s)) && s.Node?
    ensures Ptr(Plug(path, s)) == s.id <==> path == []
  {
    PlugTop(path, s);
    IdsPlug(path, s);
    assert s.id in Ids(s);
  }

  /** The leaf `e` is cut off once its parent's link to it is NIL and nothing else changed. */
  lemma Cut(path: Path, e: Tree, h: Heap, h': Heap)
    requires Repr(Plug(path, e), NIL, h) && Distinct(Plug(path, e)) && path != []
    requires e.Node? && e.left.Nil? && e.right.Nil?
    requires FrameAt(h', path[0], NIL, ParentPtr(path[1..]))
    requires forall i :: i in PathIds(path) && i != path[0].id ==> Same(h, h', i)
    ensures Repr(Plug(path, Nil), NIL, h') && Distinct(Plug(path, Nil))
    ensures Ids(Plug(path, Nil)) == Ids(Plug(path, e)) - {e.id}
  {
    ReprPlug(path, e, h);
    IdsPlug(path, e);
    IdsPlug(path, Nil);
    ReprPathSetHole(path, e.id, NIL, h, h');
    ReprPlug(path, Nil, h');
  }

  /**
   * Clearing the link of the nearest ancestor to the leaf `e`, as
   * rbtree_erase does, cuts the leaf off: the columns describe the tree
   * without it, whose nodes are the others.
   */
  lemma Unhang(path: Path, e: Tree, h: Heap, h': Heap)
    requires Repr(Plug(path, e), NIL, h) && Distinct(Plug(path, e)) && path != [] && Sized(h)
    requires e.Node? && e.left.Nil? && e.right.Nil?
    requires var q := path[0].id;
      0 <= q < |h.keys| &&
      h' == if h.lefts[q] == e.id then h.(lefts := h.lefts[q := NIL]) else h.(rights := h.rights[q := NIL])
    ensures Repr(Plug(path, Nil), NIL, h') && Distinct(Plug(path, Nil))
    ensures Ids(Plug(path, Nil)) == Ids(Plug(path, e)) - {e.id}
  {
    var f := path[0];
    assert FrameAt(h, f, e.id, ParentPtr(path[1..])) && (h.lefts[f.id] == e.id <==> f.dir == Left) &&
           (forall i :: i in PathIds(path) ==> Has(h, i)) by {
      ClimbFacts(path, e, h);
      ReprPlug(path, e, h);
      ReprPathBound(path, e.id, h);
    }
    assert FrameAt(h', f, NIL, ParentPtr(path[1..]));
    forall i | i in PathIds(path) && i != f.id
      ensures Same(h, h', i)
    {
    }
    Cut(path, e, h, h');
  }

  /** A node whose two links are NIL is a leaf of the tree it heads. */
  lemma LeafReached(h: Heap, path: Path, e: Tree)
    requires e.Node? && At(h, e.id, e.key, e.color, Ptr(e.left), Ptr(e.right), ParentPtr(path))
    requires h.lefts[e.id] == NIL && h.rights[e.id] == NIL
    ensures e.left.Nil? && e.right.Nil?
    ensures Pre(path) + Inorder(e.left) + Inorder(e.right) + Post(path) == Pre(path) + Post(path)
  {
  }
}
