/**
 * The `rbtree` handle of src/rbtree.c and its operations.
 *
 * The C nodes live in an arena of slots: slot `i`'s key, colour, left,
 * right and parent links are `keys[i]`, `colors[i]`, `lefts[i]`,
 * `rights[i]` and `parents[i]`, slot numbers stand for pointers and `NIL`
 * for NULL, and `root` is the handle's root link.  The ghost field `T` is
 * the tree those records describe (`Wf`), so that every operation can be
 * stated on the tree value while its body performs the same link and field
 * writes as the C code, in the same order.
 */
module RedBlackTree {
  import opened RBTrees
  import opened Arena
  import opened InorderWalk
  import opened Insertion
  import opened Erasure

  class RBTree {
    var root: int
    var keys: seq<int>
    var colors: seq<Color>
    var lefts: seq<int>
    var rights: seq<int>
    var parents: seq<int>
    ghost var T: Tree

    /** The node columns, slot by slot. */
    ghost function H(): Heap
      reads this
    {
      Heap(keys, colors, lefts, rights, parents)
    }

    /** The slots describe `T` and the root link points at its top. */
    ghost predicate Wf()
      reads this
    {
      Sized(H()) && Repr(T, NIL, H()) && Distinct(T) && root == Ptr(T)
    }

    /** A well-formed red-black tree: sorted, no red-red edge, equal black heights. */
    ghost predicate Valid()
      reads this
    {
      Wf() && IsRB(T)
    }

    /** new_rbtree: the handle of an empty tree. */
    constructor ()
      ensures Valid() && T == Nil && root == NIL && keys == []
    {
      root := NIL;
      keys, colors, lefts, rights, parents := [], [], [], [], [];
      T := Nil;
    }

    /**
     * _rotate_tree: node `n` is promoted over its parent, which becomes its
     * child and takes over its inner subtree; the root link follows.  Only
     * links change, so keys, colours and the in-order sequence stay as they were.
     */
    method Rotate(ghost ctx: Path, ghost sub: Tree, n: int) returns (p: int)
      requires Wf() && T == Plug(ctx, sub) && sub.Node?
      requires Child(sub, RotDir(sub, n)).Node? && Child(sub, RotDir(sub, n)).id == n
      modifies this
      ensures Wf() && T == Plug(ctx, Rot(sub, RotDir(sub, n))) && p == sub.id
      ensures Inorder(T) == old(Inorder(T)) && Ids(T) == old(Ids(T))
      ensures keys == old(keys) && colors == old(colors)
    {
      ghost var d := RotDir(sub, n);
      ghost var h := H();
      RotateFacts(ctx, sub, d, h);
      var P := parents[n];
      Relink(P, n, d);
      assert RotateStep(ctx, sub, d, h, H());
      ghost var t' := Plug(ctx, Rot(sub, d));
      assert Repr(t', NIL, H()) && Distinct(t') by {
        RotateRepr(ctx, sub, d, h, H());
      }
      assert Inorder(t') == Inorder(T) && Ids(t') == Ids(T) by {
        RotInorder(sub, d);
        InorderPlug(ctx, sub);
        InorderPlug(ctx, Rot(sub, d));
        IdsPlug(ctx, sub);
        IdsPlug(ctx, Rot(sub, d));
      }
      assert Ptr(t') == if root == P then n else root by {
        PlugTop(ctx, sub);
        PlugTop(ctx, Rot(sub, d));
        IdsPlug(ctx, sub);
      }
      T := t';
      if root == P {
        root := n;
      }
      p := P;
    }

    /**
     * The link writes of _rotate_tree, in its order: `n` is the `d` child
     * of `P`, and `n == P->right` selects the branch.
     */
    method Relink(P: int, n: int, ghost d: Dir)
      requires Sized(H()) && Has(H(), P) && Has(H(), n) && P != n && parents[n] == P
      requires d == Right ==> rights[P] == n && lefts[P] != n
      requires d == Left ==> lefts[P] == n && rights[P] != n
      requires var B := if d == Right then lefts[n] else rights[n];
        B != NIL ==> Has(H(), B) && B != P && B != n && B != parents[P]
      requires var G := parents[P];
        G != NIL ==> Has(H(), G) && G != P && G != n && (lefts[G] == P <==> rights[G] != P)
      modifies this
      ensures Relinked(old(H()), H(), P, n, old(if d == Right then lefts[n] else rights[n]), old(parents[P]), d)
      ensures Sized(H()) && root == old(root) && T == old(T)
    {
      if n == rights[P] {
        var B := lefts[n];
        rights := rights[P := B];
        if B != NIL {
          parents := parents[B := P];
        }
        var G := parents[P];
        parents := parents[n := G];
        if G != NIL {
          if lefts[G] == P {
            lefts := lefts[G := n];
          } else {
            rights := rights[G := n];
          }
        }
        parents := parents[P := n];
        lefts := lefts[n := P];
      } else {
        var B := rights[n];
        lefts := lefts[P := B];
        if B != NIL {
          parents := parents[B := P];
        }
        var G := parents[P];
        parents := parents[n := G];
        if G != NIL {
          if rights[G] == P {
            rights := rights[G := n];
          } else {
            lefts := lefts[G := n];
          }
        }
        parents := parents[P := n];
        rights := rights[n := P];
      }
    }

    /** `x->color = c` for the node `x` at the top of `sub`. */
    method SetColor(ghost ctx: Path, ghost sub: Tree, x: int, c: Color)
      requires Wf() && T == Plug(ctx, sub) && sub.Node? && sub.id == x
      modifies this
      ensures Wf() && T == Plug(ctx, sub.(color := c)) && root == old(root)
      ensures 0 <= x < |old(colors)| && colors == old(colors)[x := c]
      ensures keys == old(keys) && lefts == old(lefts) && rights == old(rights) && parents == old(parents)
      ensures Inorder(T) == old(Inorder(T)) && Ids(T) == old(Ids(T))
    {
      ReprPlug(ctx, sub, H());
      ghost var h := H();
      colors := colors[x := c];
      ReprRetop(ctx, sub, sub.(color := c), h, H());
      InorderPlug(ctx, sub);
      InorderPlug(ctx, sub.(color := c));
      PlugTop(ctx, sub);
      PlugTop(ctx, sub.(color := c));
      T := Plug(ctx, sub.(color := c));
    }

    /** `x->key = k` for the node `x` at the top of `sub`. */
    method SetKey(ghost ctx: Path, ghost sub: Tree, x: int, k: int)
      requires Wf() && T == Plug(ctx, sub) && sub.Node? && sub.id == x
      modifies this
      ensures Wf() && T == Plug(ctx, sub.(key := k)) && root == old(root)
      ensures 0 <= x < |old(keys)| && keys == old(keys)[x := k]
      ensures colors == old(colors) && lefts == old(lefts) && rights == old(rights) && parents == old(parents)
      ensures Ids(T) == old(Ids(T)) && RootColor(T) == old(RootColor(T))
    {
      ReprPlug(ctx, sub, H());
      ghost var h := H();
      keys := keys[x := k];
      ReprRetop(ctx, sub, sub.(key := k), h, H());
      PlugTop(ctx, sub);
      PlugTop(ctx, sub.(key := k));
      T := Plug(ctx, sub.(key := k));
      if ctx != [] {
        RootAbove(ctx, sub);
        RootAbove(ctx, sub.(key := k));
      }
    }

    /**
     * rbtree_insert followed by recolouring the root BLACK, which the loop
     * of rbtree_insert omits when it stops with P == NULL (first node of an
     * empty tree, or a red-uncle climb that reddened the root).  The result
     * keeps every promise of `Insert` and the root is BLACK.
     */
    method InsertBlackRoot(key: int) returns (r: int, ghost path: Path)
      requires Wf()
      modifies this
      ensures Wf() && keys == old(keys) + [key]
      ensures Inorder(T) == Inorder(InsertLeaf(old(T), key, |old(keys)|))
      ensures Ids(T) == old(Ids(T)) + {|old(keys)|}
      ensures old(IsRB(T)) ==> IsRB(T)
      ensures old(T) == Plug(path, Nil) && InsertLeaf(old(T), key, |old(keys)|) == Plug(path, Node(Nil, |old(keys)|, key, Red, Nil))
      ensures r in Ids(T) && (r == |old(keys)| <==> !CursorMoves(path))
      ensures old(T) == Nil ==> T == Node(Nil, r, key, Black, Nil)
      ensures RootColor(T) == Black && (old(Valid()) ==> Valid())
    {
      r, path := Insert(key);
      SetColor([], T, root, Black);
    }

    /**
     * rbtree_insert returning the node it created, as its callers expect,
     * rather than the cursor N at the end of the fixup loop.  Everything
     * else is as `Insert` promises; the result is the new slot, which
     * holds `key` and is part of the tree.
     */
    method InsertNewNode(key: int) returns (r: int, ghost path: Path)
      requires Wf()
      modifies this
      ensures Wf() && keys == old(keys) + [key]
      ensures Inorder(T) == Inorder(InsertLeaf(old(T), key, |old(keys)|))
      ensures Ids(T) == old(Ids(T)) + {|old(keys)|}
      ensures old(IsRB(T)) ==> IsRB(T)
      ensures old(T) == Plug(path, Nil) && InsertLeaf(old(T), key, |old(keys)|) == Plug(path, Node(Nil, |old(keys)|, key, Red, Nil))
      ensures r == |old(keys)| && r in Ids(T) && keys[r] == key
      ensures old(T) == Nil ==> T == Node(Nil, r, key, Red, Nil)
    {
      r := |keys|;
      ghost var empty := T == Nil;
      var r0;
      r0, path := Insert(key);
      assert empty ==> r0 == r;
    }

    /**
     * The state of the fixup loop of rbtree_insert: the cursor `N` tops the
     * subtree `s` at the position `path`, `P` is its parent link, and the
     * keys, the in-order sequence and the set of nodes are `K`, `I`, `D`.
     */
    ghost predicate Climb(path: Path, s: Tree, N: int, P: int, K: seq<int>, I: seq<int>, D: set<nat>)
      reads this
    {
      Wf() && T == Plug(path, s) && s.Node? && N == s.id && P == ParentPtr(path) &&
      (P != NIL ==> 0 <= P < |colors| && colors[P] == path[0].color) &&
      keys == K && Inorder(T) == I && Ids(T) == D
    }

    /**
     * rbtree_insert: place a new RED node by binary search, then repair
     * red-red edges bottom-up.  The keys gain one copy of `key` at the
     * place the descent chose (after all equal keys when sorted), the new
     * node takes slot `|old(keys)|`, and a red-black tree stays one.  The
     * result is a node of the tree: the new node unless the first round of
     * the loop climbs or makes the inner rotation (`CursorMoves` of the
     * position `path` where the new leaf was hung).  The first node of an
     * empty tree is left RED at the root.
     */
    method Insert(key: int) returns (r: int, ghost path: Path)
      requires Wf()
      modifies this
      ensures Wf() && keys == old(keys) + [key]
      ensures Inorder(T) == Inorder(InsertLeaf(old(T), key, |old(keys)|))
      ensures Ids(T) == old(Ids(T)) + {|old(keys)|}
      ensures old(IsRB(T)) ==> IsRB(T)
      ensures old(T) == Plug(path, Nil) && InsertLeaf(old(T), key, |old(keys)|) == Plug(path, Node(Nil, |old(keys)|, key, Red, Nil))
      ensures r in Ids(T) && (r == |old(keys)| <==> !CursorMoves(path))
      ensures old(T) == Nil ==> T == Node(Nil, r, key, Red, Nil)
    {
      ghost var rb := IsRB(T);
      ghost var T0 := T;
      var N;
      N, path := PlaceLeaf(key);
      ghost var s := Node(Nil, N, key, Red, Nil);
      assert Ids(T) == Ids(T0) + {N} by {
        InsertLeafIds(T0, key, N);
      }
      assert rb ==> InsInv(path, s) && Sorted(Inorder(T)) by {
        if rb {
          InsStart(path, N, key);
          InsertLeafInorder(T0, key, N);
          InsertAfterEqualSorted(Inorder(T0), key);
        }
      }
      assert T0 == Nil ==> path == [] by {
        PlugTop(path, Nil);
      }
      r := Rebalance(path, s, N, rb);
    }

    /**
     * The rebalancing loop of rbtree_insert, from the new node `s` at the
     * position `path0` with slot `N0`.  While the parent P is RED: a P at the root turns
     * BLACK; a black uncle is settled by `RotateUp`; a red uncle by
     * `RecolorUp`, which moves the cursor to the grandparent.  Only colours
     * and links change; a red-black tree comes out when `rb` says the
     * invariant held on entry.  The result is the node N at the end, which
     * is the new node exactly when the first round does not move N.
     */
    method Rebalance(ghost path0: Path, ghost s0: Tree, N0: int, ghost rb: bool) returns (r: int)
      requires Wf() && T == Plug(path0, s0) && s0.Node? && s0.id == N0
      requires rb ==> InsInv(path0, s0) && Sorted(Inorder(T))
      modifies this
      ensures Wf() && keys == old(keys) && Inorder(T) == old(Inorder(T)) && Ids(T) == old(Ids(T))
      ensures rb ==> IsRB(T)
      ensures r in Ids(T) && (r == s0.id <==> !CursorMoves(path0))
      ensures path0 == [] ==> T == s0 && r == s0.id
    {
      ghost var path, s, z, K, I, D := path0, s0, s0.id, keys, Inorder(T), Ids(T);
      var N := N0;
      assert parents[N] == ParentPtr(path) && (path != [] ==> 0 <= path[0].id < |colors| && colors[path[0].id] == path[0].color) by {
        ReprPlug(path, s, H());
        if path != [] {
          ClimbFacts(path, s, H());
        }
      }
      var P := parents[N];
      ghost var moved := false;
      ghost var stopped := false;
      while P != NIL && colors[P] == Red
        invariant !stopped && Climb(path, s, N, P, K, I, D)
        invariant z in Ids(s) && (moved <==> N != z)
        invariant !moved ==> path == path0 && s == s0
        invariant moved ==> CursorMoves(path0)
        invariant rb ==> InsInv(path, s)
        invariant path0 == [] ==> path == [] && s == s0
        decreases |path|
      {
        var N', done;
        ghost var path', s';
        N', path', s', P, done := Repair(path, s, N, P, K, I, D, rb);
        moved := moved || N' != N;
        N := N';
        if done {
          stopped := true;
          break;
        }
        path, s := path', s';
      }
      if !stopped {
        assert rb ==> RedFree(T) && Balanced(T) by {
          if rb {
            InsDone(path, s);
          }
        }
        assert N in Ids(T) by {
          IdsPlug(path, s);
        }
      }
      r := N;
    }

    /**
     * One round of the fixup loop of rbtree_insert, entered with a RED
     * parent P.  A root parent turns BLACK; a BLACK or missing uncle means
     * one or two rotations, after which the loop stops; a RED uncle means a
     * recolouring that moves the cursor two levels up to G.
     */
    method Repair(ghost path: Path, ghost s: Tree, N: int, P: int, ghost K: seq<int>, ghost I: seq<int>, ghost D: set<nat>,
                  ghost rb: bool) returns (N': int, ghost path': Path, ghost s': Tree, P': int, done: bool)
      requires Climb(path, s, N, P, K, I, D) && P != NIL && colors[P] == Red
      requires rb ==> InsInv(path, s)
      modifies this
      ensures N' == N <==> !CursorMoves(path)
      ensures done ==> (Wf() && keys == K && Inorder(T) == I && Ids(T) == D && N' in Ids(T) &&
                        (N' == N || N' !in Ids(s)) && (rb ==> RedFree(T) && Balanced(T)))
      ensures !done ==> (Climb(path', s', N', P', K, I, D) && (rb ==> InsInv(path', s')) &&
                         |path'| < |path| && Ids(s) <= Ids(s') && N' !in Ids(s))
    {
      path', s' := path, s;
      assert N in Ids(T) && (P == root <==> |path| == 1) by {
        IdsPlug(path, s);
        ClimbTop(path, s);
      }
      if P == root {
        BlackenRoot(path, s, P, rb);
        N', P', done := N, P, true;
        return;
      }
      var G, U := Kin(path, s, P);
      if U == NIL || colors[U] == Black {
        assert RootColor(path[1].other) == Black && P != N by {
          ZipDistinct(path, s);
        }
        N' := RotateUp(path, s, N, P, G, rb);
        P', done := P, true;
        return;
      }
      RecolorUp(path, s, P, U, G, K, I, D, rb);
      N' := G;
      path', s' := path[2..], RedUncleTree(path, s);
      P' := parents[N'];
      done := false;
    }

    /**
     * The reads of the fixup loop of rbtree_insert: G is the grandparent of
     * the cursor and U the uncle, G's child on the side away from P.
     */
    method Kin(ghost path: Path, ghost s: Tree, P: int) returns (G: int, U: int)
      requires Wf() && T == Plug(path, s) && s.Node? && |path| >= 2 && P == path[0].id
      ensures G == path[1].id && U == Ptr(path[1].other)
      ensures U != NIL ==> 0 <= U < |colors| && colors[U] == path[1].other.color
    {
      UncleFacts(path, s, H());
      G := parents[P];
      U := if P == lefts[G] then rights[G] else lefts[G];
    }

    /** A RED parent that is the root turns BLACK, which ends the fixup of rbtree_insert. */
    method BlackenRoot(ghost path: Path, ghost s: Tree, P: int, ghost rb: bool)
      requires Wf() && T == Plug(path, s) && s.Node? && |path| == 1 && P == path[0].id
      requires rb ==> InsInv(path, s)
      modifies this
      ensures Wf() && T == Attach(path[0].(color := Black), s)
      ensures 0 <= P < |old(colors)| && colors == old(colors)[P := Black]
      ensures keys == old(keys) && Inorder(T) == old(Inorder(T)) && Ids(T) == old(Ids(T))
      ensures rb ==> RedFree(T) && Balanced(T)
    {
      SetColor(path[1..], Attach(path[0], s), P, Black);
      MakeRecolor(path[0].dir, s, path[0].id, path[0].key, path[0].color, path[0].other, Black);
      if rb {
        InsRoot(path[0], s);
      }
    }

    /**
     * The descent of rbtree_insert: from the root, left when `key` is
     * smaller than the node's key and right otherwise, until a NULL link.
     * The C pointer `ptrCur` is the pair `P` (the owner of the link, NIL for
     * the root link) and `left` (which of P's links).  The link reached is
     * where `InsertLeaf` hangs the new leaf.
     */
    method Descend(key: int) returns (P: int, left: bool, ghost path: Path)
      requires Wf()
      ensures T == Plug(path, Nil) && P == ParentPtr(path)
      ensures path != [] ==> (left <==> path[0].dir == Left) && 0 <= P < |keys|
      ensures InsertLeaf(T, key, |keys|) == Plug(path, Node(Nil, |keys|, key, Red, Nil))
    {
      ghost var z := |keys|;
      P := NIL;
      left := false;
      var cur := root;
      ghost var sub := T;
      path := [];
      while cur != NIL
        invariant Repr(sub, P, H()) && cur == Ptr(sub) && P == ParentPtr(path)
        invariant path != [] ==> (left <==> path[0].dir == Left)
        invariant T == Plug(path, sub) && InsertLeaf(T, key, z) == Plug(path, InsertLeaf(sub, key, z))
        decreases sub
      {
        ghost var f := if key < sub.key then Frame(Left, sub.id, sub.key, sub.color, sub.right)
                       else Frame(Right, sub.id, sub.key, sub.color, sub.left);
        assert ([f] + path)[0] == f && ([f] + path)[1..] == path;
        P := cur;
        if key < keys[cur] {
          left := true;
          cur := lefts[cur];
        } else {
          left := false;
          cur := rights[cur];
        }
        path, sub := [f] + path, Child(sub, f.dir);
      }
      assert path != [] ==> 0 <= P < |keys| by {
        ReprPlug(path, Nil, H());
      }
    }

    /**
     * The placement of rbtree_insert: after the descent, a new RED leaf
     * holding `key` takes the next free slot and is hung in the NULL link
     * the descent reached.
     */
    method PlaceLeaf(key: int) returns (N: int, ghost path: Path)
      requires Wf()
      modifies this
      ensures Wf() && N == |old(keys)| && keys == old(keys) + [key]
      ensures old(T) == Plug(path, Nil) && T == Plug(path, Node(Nil, N, key, Red, Nil))
      ensures T == InsertLeaf(old(T), key, N)
    {
      var P, left;
      P, left, path := Descend(key);
      ghost var h := H();
      N := |keys|;
      keys, colors, lefts, rights, parents := keys + [key], colors + [Red], lefts + [NIL], rights + [NIL], parents + [P];
      if P == NIL {
        root := N;
      } else if left {
        lefts := lefts[P := N];
      } else {
        rights := rights[P := N];
      }
      HangLeaf(path, key, h, H());
      assert root == Ptr(Plug(path, Node(Nil, N, key, Red, Nil))) by {
        PlugTop(path, Nil);
        PlugTop(path, Node(Nil, N, key, Red, Nil));
      }
      T := Plug(path, Node(Nil, N, key, Red, Nil));
    }

    /**
     * The red-uncle case of the fixup of rbtree_insert: P and U turn BLACK
     * and G turns RED; G becomes the cursor, two levels up.
     */
    method RecolorUp(ghost path: Path, ghost s: Tree, P: int, U: int, G: int,
                     ghost K: seq<int>, ghost I: seq<int>, ghost D: set<nat>, ghost rb: bool)
      requires s.Node? && |path| >= 2 && Climb(path, s, s.id, P, K, I, D) && path[0].color == Red
      requires path[1].other.Node? && path[1].other.color == Red
      requires P == path[0].id && U == path[1].other.id && G == path[1].id
      requires rb ==> InsInv(path, s)
      modifies this
      ensures Has(H(), G) && Climb(path[2..], RedUncleTree(path, s), G, parents[G], K, I, D)
      ensures rb ==> InsInv(path[2..], RedUncleTree(path, s))
      ensures Ids(s) <= Ids(RedUncleTree(path, s)) && G !in Ids(s)
    {
      ghost var fP, fG, ctx := path[0], path[1], path[2..];
      assert path[1..][0] == fG && path[1..][1..] == ctx;
      assert G !in Ids(s) by {
        ZipDistinct(path, s);
        IdsPlug(path, s);
      }
      SetColor(path[1..], Attach(fP, s), P, Black);
      ghost var p' := Make(fP.dir, s, fP.id, fP.key, Black, fP.other);
      MakeRecolor(fP.dir, s, fP.id, fP.key, fP.color, fP.other, Black);
      ghost var fU := Frame(Opp(fG.dir), G, fG.key, fG.color, p');
      ghost var ctxU := [fU] + ctx;
      assert ctxU[0] == fU && ctxU[1..] == ctx;
      MakeFlip(fG.dir, p', G, fG.key, fG.color, fG.other);
      SetColor(ctxU, fG.other, U, Black);
      ghost var g := Make(fG.dir, p', G, fG.key, fG.color, fG.other.(color := Black));
      MakeFlip(fG.dir, p', G, fG.key, fG.color, fG.other.(color := Black));
      SetColor(ctx, g, G, Red);
      MakeRecolor(fG.dir, p', G, fG.key, fG.color, fG.other.(color := Black), Red);
      assert parents[G] == ParentPtr(ctx) && (ctx != [] ==> 0 <= ctx[0].id < |colors| && colors[ctx[0].id] == ctx[0].color) by {
        ReprPlug(ctx, RedUncleTree(path, s), H());
        if ctx != [] {
          ClimbFacts(ctx, RedUncleTree(path, s), H());
        }
      }
      assert rb ==> InsInv(ctx, RedUncleTree(path, s)) by {
        if rb {
          InsRedUncle(path, s);
        }
      }
    }

    /**
     * The black-uncle case of the fixup of rbtree_insert.  When N is an
     * inner grandchild it is first promoted over P and the names P and N
     * swap; then P is promoted over G, turns BLACK, and G turns RED.  The
     * result is the node C returns: N, or the old P after the first rotation.
     */
    method RotateUp(ghost path: Path, ghost s: Tree, N: int, P: int, G: int, ghost rb: bool) returns (r: int)
      requires Wf() && T == Plug(path, s) && s.Node? && |path| >= 2 && path[0].color == Red
      requires N == s.id && P == path[0].id && G == path[1].id
      requires rb ==> InsInv(path, s) && RootColor(path[1].other) == Black
      modifies this
      ensures Wf() && T == Plug(path[2..], RotateFixTree(path, s))
      ensures r == if path[0].dir == path[1].dir then N else P
      ensures r in Ids(T) && (r == N || r !in Ids(s))
      ensures keys == old(keys) && Inorder(T) == old(Inorder(T)) && Ids(T) == old(Ids(T))
      ensures rb ==> RedFree(T) && Balanced(T)
    {
      ghost var fP, fG, ctx := path[0], path[1], path[2..];
      ghost var e := fG.dir;
      ghost var psub := Attach(fP, s);
      assert path[1..][0] == fG && path[1..][1..] == ctx;
      assert Repr(T, NIL, H()) && Distinct(T);
      ClimbFacts(path, s, H());
      ClimbFacts(path[1..], psub, H());
      ZipDistinct(path, s);
      RotDirAttach(fP, s);
      assert N in Ids(T) && P in Ids(T) by {
        IdsPlug(path, s);
      }
      var n, p := N, P;
      if (P == lefts[G] && N == rights[P]) || (P == rights[G] && N == lefts[P]) {
        p := N;
        n := Rotate(path[1..], psub, N);
      }
      ghost var q := Lifted(path, s);
      assert T == Plug(ctx, Attach(fG, q)) && p == q.id && n == (if fP.dir == e then N else P);
      assert q.id !in Ids(fG.other) by {
        RotInorder(psub, fP.dir);
      }
      RotDirAttach(fG, q);
      var _ := Rotate(ctx, Attach(fG, q), p);
      RotateFixShape(path, s);
      ghost var low := Make(e, Child(q, Opp(e)), G, fG.key, fG.color, fG.other);
      MakeFlip(e, q, G, fG.key, fG.color, fG.other);
      SetColor(ctx, Rot(Attach(fG, q), e), p, Black);
      MakeRecolor(Opp(e), low, q.id, q.key, q.color, Child(q, e), Black);
      ghost var fQ := Frame(Opp(e), q.id, q.key, Black, Child(q, e));
      assert ([fQ] + ctx)[0] == fQ && ([fQ] + ctx)[1..] == ctx;
      SetColor([fQ] + ctx, low, G, Red);
      MakeRecolor(e, Child(q, Opp(e)), G, fG.key, fG.color, fG.other, Red);
      assert rb ==> RedFree(T) && Balanced(T) by {
        if rb {
          InsRotate(path, s);
        }
      }
      r := n;
    }

    /**
     * rbtree_find: the node the search descent stops at, or NIL.  In a
     * sorted tree it misses exactly the keys that are not stored.
     */
    method Find(key: int) returns (r: int)
      requires Wf()
      ensures r == Ptr(Search(T, key))
      ensures r != NIL ==> 0 <= r < |keys| && r in Ids(T) && keys[r] == key
      ensures Sorted(Inorder(T)) ==> (r == NIL <==> key !in Inorder(T))
    {
      var cur := root;
      ghost var sub, par := T, NIL;
      while cur != NIL && keys[cur] != key
        invariant Repr(sub, par, H()) && cur == Ptr(sub)
        invariant Ids(sub) <= Ids(T)
        invariant Search(T, key) == Search(sub, key)
        decreases sub
      {
        par := cur;
        cur := if key < keys[cur] then lefts[cur] else rights[cur];
        sub := if key < sub.key then sub.left else sub.right;
      }
      r := cur;
      SearchSpec(T, key);
    }

    /** rbtree_min: the leftmost node, which holds the first key in order (the smallest when sorted). */
    method Min() returns (r: int)
      requires Wf() && root != NIL
      ensures r == LeftmostSub(T).id && 0 <= r < |keys| && r in Ids(T)
      ensures lefts[r] == NIL && keys[r] == Inorder(T)[0]
      ensures Sorted(Inorder(T)) ==> forall k :: k in Inorder(T) ==> keys[r] <= k
    {
      var cur := root;
      ghost var sub, par := T, NIL;
      while lefts[cur] != NIL
        invariant Repr(sub, par, H()) && sub.Node? && cur == sub.id
        invariant LeftmostSub(sub) == LeftmostSub(T)
        decreases sub
      {
        par := cur;
        cur := lefts[cur];
        sub := sub.left;
      }
      r := cur;
      LeftmostFirst(T);
      if Sorted(Inorder(T)) {
        SortedEnds(Inorder(T));
      }
    }

    /** rbtree_max: the rightmost node, which holds the last key in order (the largest when sorted). */
    method Max() returns (r: int)
      requires Wf() && root != NIL
      ensures r == RightmostSub(T).id && 0 <= r < |keys| && r in Ids(T)
      ensures rights[r] == NIL && keys[r] == Inorder(T)[|Inorder(T)| - 1]
      ensures Sorted(Inorder(T)) ==> forall k :: k in Inorder(T) ==> k <= keys[r]
    {
      var cur := root;
      ghost var sub, par := T, NIL;
      while rights[cur] != NIL
        invariant Repr(sub, par, H()) && sub.Node? && cur == sub.id
        invariant RightmostSub(sub) == RightmostSub(T)
        decreases sub
      {
        par := cur;
        cur := rights[cur];
        sub := sub.right;
      }
      r := cur;
      RightmostLast(T);
      if Sorted(Inorder(T)) {
        SortedEnds(Inorder(T));
      }
    }

    /**
     * _find_successor for the node `x` at the top of `s`: the leftmost node
     * of its right subtree, which holds the key right after `x`'s in order;
     * without a right subtree, its left child (NIL for a leaf).
     */
    method FindSuccessor(ghost ctx: Path, ghost s: Tree, x: int) returns (r: int)
      requires Wf() && T == Plug(ctx, s) && s.Node? && s.id == x
      ensures s.right.Nil? ==> r == Ptr(s.left)
      ensures s.right.Node? ==> r == LeftmostSub(s.right).id && r in Ids(s.right)
      ensures s.right.Node? ==> 0 <= r < |keys| && lefts[r] == NIL && keys[r] == Inorder(s.right)[0]
      ensures s.right.Nil? && s.left.Node? ==> 0 <= r < |keys| && keys[r] == s.left.key
    {
      ReprPlug(ctx, s, H());
      if rights[x] == NIL {
        if s.left.Node? {
          assert Repr(s.left, x, H());
        }
        return lefts[x];
      }
      var cur := rights[x];
      ghost var sub, par := s.right, x;
      while lefts[cur] != NIL
        invariant Repr(sub, par, H()) && sub.Node? && cur == sub.id
        invariant LeftmostSub(sub) == LeftmostSub(s.right)
        decreases sub
      {
        par := cur;
        cur := lefts[cur];
        sub := sub.left;
      }
      r := cur;
      LeftmostFirst(s.right);
    }

    /** IS_BLACK: a NULL link counts as BLACK. */
    predicate IsBlack(x: int)
      reads this
      requires x == NIL || 0 <= x < |colors|
    {
      x == NIL || colors[x] == Black
    }

    /** IS_BLACK of the link to any subtree of the tree is that subtree's colour, a missing subtree being BLACK. */
    lemma IsBlackAt(path: Path, t: Tree)
      requires Wf() && T == Plug(path, t)
      ensures Ptr(t) == NIL || 0 <= Ptr(t) < |colors|
      ensures IsBlack(Ptr(t)) <==> RootColor(t) == Black
    {
      if t.Node? {
        CursorFacts(path, t, H());
      }
    }

    /**
     * The key shift of rbtree_erase: while N has a child, N takes the key
     * of the node `_find_successor` returns, which becomes N.  The leaf
     * `e` reached is the node to unlink; seen from it, the keys other than
     * the one erased are where they were.  Only keys change.
     */
    method ShiftDown(ghost path0: Path, ghost s0: Tree, N0: int) returns (N: int, ghost path: Path, ghost e: Tree)
      requires Wf() && T == Plug(path0, s0) && s0.Node? && s0.id == N0 && RedFree(T) && Balanced(T)
      modifies this
      ensures Wf() && T == Plug(path, e) && e.Node? && e.left.Nil? && e.right.Nil? && N == e.id
      ensures RedFree(T) && Balanced(T) && Ids(T) == old(Ids(T)) && RootColor(T) == old(RootColor(T))
      ensures Pre(path) + Post(path) == Pre(path0) + Inorder(s0.left) + Inorder(s0.right) + Post(path0)
      ensures colors == old(colors) && lefts == old(lefts) && rights == old(rights) && parents == old(parents)
    {
      ghost var G := Pre(path0) + Inorder(s0.left) + Inorder(s0.right) + Post(path0);
      N, path, e := N0, path0, s0;
      assert At(H(), N, e.key, e.color, Ptr(e.left), Ptr(e.right), ParentPtr(path)) by {
        CursorFacts(path, e, H());
      }
      while lefts[N] != NIL || rights[N] != NIL
        invariant Wf() && T == Plug(path, e) && e.Node? && N == e.id
        invariant At(H(), N, e.key, e.color, Ptr(e.left), Ptr(e.right), ParentPtr(path))
        invariant RedFree(T) && Balanced(T) && Ids(T) == old(Ids(T)) && RootColor(T) == old(RootColor(T))
        invariant Pre(path) + Inorder(e.left) + Inorder(e.right) + Post(path) == G
        invariant colors == old(colors) && lefts == old(lefts) && rights == old(rights) && parents == old(parents)
        decreases Height(e)
      {
        N, path, e := ShiftOnce(path, e, N);
      }
      LeafReached(H(), path, e);
    }

    /**
     * One round of the loop of rbtree_erase that shifts keys down: the
     * successor's key moves into node `N` and the cursor moves to the
     * successor, a node of smaller height.
     */
    method ShiftOnce(ghost path: Path, ghost e: Tree, N: int) returns (N': int, ghost path': Path, ghost e': Tree)
      requires Wf() && T == Plug(path, e) && e.Node? && N == e.id && RedFree(T) && Balanced(T)
      requires At(H(), N, e.key, e.color, Ptr(e.left), Ptr(e.right), ParentPtr(path))
      requires e.left.Node? || e.right.Node?
      modifies this
      ensures Wf() && T == Plug(path', e') && e'.Node? && N' == e'.id && Height(e') < Height(e)
      ensures e' == Heir(e) && path' == HeirPath(e, e'.key) + path
      ensures 0 <= N' < |old(keys)| && keys == old(keys)[N := old(keys)[N']]
      ensures At(H(), N', e'.key, e'.color, Ptr(e'.left), Ptr(e'.right), ParentPtr(path'))
      ensures RedFree(T) && Balanced(T) && Ids(T) == old(Ids(T)) && RootColor(T) == old(RootColor(T))
      ensures Pre(path') + Inorder(e'.left) + Inorder(e'.right) + Post(path') ==
              Pre(path) + Inorder(e.left) + Inorder(e.right) + Post(path)
      ensures colors == old(colors) && lefts == old(lefts) && rights == old(rights) && parents == old(parents)
    {
      var p := FindSuccessor(path, e, N);
      ghost var h := Heir(e);
      assert p == h.id && keys[p] == h.key by {
        if e.right.Node? {
          LeftmostFirst(e.right);
        }
      }
      assert RedFree(e) && Balanced(e) by {
        RedFreePlug(path, e);
        BalancedPlug(path, e);
      }
      SetKey(path, e, N, keys[p]);
      N' := p;
      ShiftStep(path, e);
      RekeyShape(path, e, h.key);
      path', e' := HeirPath(e, h.key) + path, h;
      assert At(H(), N', e'.key, e'.color, Ptr(e'.left), Ptr(e'.right), ParentPtr(path')) by {
        CursorFacts(path', e', H());
      }
    }

    /**
     * The red-sibling case of the fixup of rbtree_erase: S is promoted over
     * P, S turns BLACK and P RED.  N stays P's child, with C as its new sibling.
     */
    method LendRed(ghost path: Path, ghost s: Tree, P: int, S: int)
      requires Wf() && T == Plug(path, s) && s.Node? && path != [] && path[0].other.Node?
      requires P == path[0].id && S == path[0].other.id
      modifies this
      ensures Wf() && T == Plug(RedSiblingPath(path), s)
      ensures keys == old(keys) && Inorder(T) == old(Inorder(T)) && Ids(T) == old(Ids(T))
    {
      ghost var f, rest, d, St := path[0], path[1..], path[0].dir, path[0].other;
      ghost var f1 := Frame(d, P, f.key, f.color, Child(St, d));
      ghost var f2 := Frame(d, S, St.key, St.color, Child(St, Opp(d)));
      assert T == Plug(rest, Attach(f, s)) && s.id !in Ids(St) by {
        assert path == [f] + rest;
        PlugCons(f, rest, s);
        CursorApart(path, s);
      }
      SiblingUp(f, s);
      var _ := Rotate(rest, Attach(f, s), S);
      MakeRecolor(d, Attach(f1, s), S, St.key, St.color, Child(St, Opp(d)), Black);
      SetColor(rest, Attach(f2, Attach(f1, s)), S, Black);
      ghost var f2b := f2.(color := Black);
      PlugCons(f2b, rest, Attach(f1, s));
      MakeRecolor(d, s, P, f.key, f.color, Child(St, d), Red);
      SetColor([f2b] + rest, Attach(f1, s), P, Red);
      PlugCons(f2b, rest, Attach(f1.(color := Red), s));
      PlugPair(f1.(color := Red), f2b, rest, s);
      assert RedSiblingPath(path) == [f1.(color := Red), f2b] + rest;
    }

    /**
     * The far-nephew case of the fixup of rbtree_erase: S is promoted over
     * P and takes P's colour; P and D turn BLACK.
     */
    method FarRed(ghost path: Path, ghost s: Tree, P: int, S: int, D: int)
      requires Wf() && T == Plug(path, s) && s.Node? && path != [] && path[0].other.Node?
      requires Child(path[0].other, Opp(path[0].dir)).Node?
      requires P == path[0].id && S == path[0].other.id && D == Child(path[0].other, Opp(path[0].dir)).id
      modifies this
      ensures Wf() && T == Plug(FarRedPath(path), s)
      ensures keys == old(keys) && Inorder(T) == old(Inorder(T)) && Ids(T) == old(Ids(T))
    {
      ghost var f, rest, d, St := path[0], path[1..], path[0].dir, path[0].other;
      ghost var Dt := Child(St, Opp(d));
      ghost var f1 := Frame(d, P, f.key, f.color, Child(St, d));
      ghost var f2 := Frame(d, S, St.key, St.color, Dt);
      assert T == Plug(rest, Attach(f, s)) && s.id !in Ids(St) && colors[P] == f.color by {
        assert path == [f] + rest;
        PlugCons(f, rest, s);
        CursorApart(path, s);
        ClimbFacts(path, s, H());
      }
      SiblingUp(f, s);
      var _ := Rotate(rest, Attach(f, s), S);
      MakeRecolor(d, Attach(f1, s), S, St.key, St.color, Dt, f.color);
      SetColor(rest, Attach(f2, Attach(f1, s)), S, colors[P]);
      ghost var f2c := f2.(color := f.color);
      PlugCons(f2c, rest, Attach(f1, s));
      MakeRecolor(d, s, P, f.key, f.color, Child(St, d), Black);
      SetColor([f2c] + rest, Attach(f1, s), P, Black);
      ghost var f1b := f1.(color := Black);
      ghost var fD := Frame(Opp(d), S, St.key, f.color, Attach(f1b, s));
      PlugCons(f2c, rest, Attach(f1b, s));
      MakeFlip(d, Attach(f1b, s), S, St.key, f.color, Dt);
      PlugCons(fD, rest, Dt);
      SetColor([fD] + rest, Dt, D, Black);
      ghost var f2d := f2c.(other := Dt.(color := Black));
      PlugCons(fD, rest, Dt.(color := Black));
      MakeFlip(d, Attach(f1b, s), S, St.key, f.color, Dt.(color := Black));
      PlugPair(f1b, f2d, rest, s);
      assert FarRedPath(path) == [f1b, f2d] + rest;
    }

    /**
     * The close-nephew case of the fixup of rbtree_erase: C is promoted
     * over S, C turns BLACK and S RED; C is N's new sibling.
     */
    method NearRed(ghost path: Path, ghost s: Tree, S: int, C: int)
      requires Wf() && T == Plug(path, s) && s.Node? && path != [] && path[0].other.Node?
      requires Child(path[0].other, path[0].dir).Node?
      requires S == path[0].other.id && C == Child(path[0].other, path[0].dir).id
      modifies this
      ensures Wf() && T == Plug(NearRedPath(path), s)
      ensures keys == old(keys) && Inorder(T) == old(Inorder(T)) && Ids(T) == old(Ids(T))
    {
      ghost var f, rest, d, St := path[0], path[1..], path[0].dir, path[0].other;
      ghost var Ct := Child(St, d);
      ghost var fo := Frame(Opp(d), f.id, f.key, f.color, s);
      assert T == Plug([fo] + rest, St) && RotDir(St, C) == d by {
        assert path == [f] + rest;
        PlugCons(f, rest, s);
        PlugCons(fo, rest, St);
        MakeFlip(d, s, f.id, f.key, f.color, St);
        CursorApart(path, s);
        NephewDir(St, d);
      }
      var _ := Rotate([fo] + rest, St, C);
      ghost var low := Make(d, Child(Ct, Opp(d)), S, St.key, St.color, Child(St, Opp(d)));
      MakeRecolor(Opp(d), low, C, Ct.key, Ct.color, Child(Ct, d), Black);
      SetColor([fo] + rest, Rot(St, d), C, Black);
      ghost var fc := Frame(Opp(d), C, Ct.key, Black, Child(Ct, d));
      PlugCons(fc, [fo] + rest, low);
      SetColor([fc] + ([fo] + rest), low, S, Red);
      MakeRecolor(d, Child(Ct, Opp(d)), S, St.key, St.color, Child(St, Opp(d)), Red);
      PlugCons(fc, [fo] + rest, low.(color := Red));
      ghost var S' := NearRedSibling(St, d);
      PlugCons(fo, rest, S');
      MakeFlip(d, s, f.id, f.key, f.color, S');
      PlugCons(f.(other := S'), rest, s);
    }

    /** `S->color = RBTREE_RED` for the sibling S of the cursor (the all-black cases of rbtree_erase). */
    method Redden(ghost path: Path, ghost s: Tree, S: int)
      requires Wf() && T == Plug(path, s) && s.Node? && path != [] && path[0].other.Node?
      requires S == path[0].other.id
      modifies this
      ensures Wf() && T == Plug(path[1..], Attach(path[0].(other := path[0].other.(color := Red)), s))
      ensures keys == old(keys) && Inorder(T) == old(Inorder(T)) && Ids(T) == old(Ids(T))
    {
      ghost var f, rest, d, St := path[0], path[1..], path[0].dir, path[0].other;
      ghost var fo := Frame(Opp(d), f.id, f.key, f.color, s);
      assert T == Plug([fo] + rest, St) by {
        assert path == [f] + rest;
        PlugCons(f, rest, s);
        PlugCons(fo, rest, St);
        MakeFlip(d, s, f.id, f.key, f.color, St);
      }
      SetColor([fo] + rest, St, S, Red);
      PlugCons(fo, rest, St.(color := Red));
      MakeFlip(d, s, f.id, f.key, f.color, St.(color := Red));
    }

    /**
     * The reads at the top of the fixup loop of rbtree_erase: P is N's
     * parent, S the other child of P, C the child of S on N's side and D
     * the one away from it.  C and D keep their previous values when S is
     * NULL, which an ancestor path with a sibling rules out.
     */
    method Look(ghost path: Path, ghost s: Tree, N: int, C0: int, D0: int) returns (P: int, S: int, C: int, D: int)
      requires Wf() && T == Plug(path, s) && s.Node? && N == s.id && path != [] && path[0].other.Node?
      ensures var f, St := path[0], path[0].other;
        P == f.id && S == St.id && C == Ptr(Child(St, f.dir)) && D == Ptr(Child(St, Opp(f.dir)))
      ensures 0 <= P < |colors| && 0 <= S < |colors| && (C == NIL || 0 <= C < |colors|) && (D == NIL || 0 <= D < |colors|)
      ensures var f, St := path[0], path[0].other;
        (IsBlack(P) <==> f.color == Black) && (IsBlack(S) <==> St.color == Black) &&
        (IsBlack(C) <==> RootColor(Child(St, f.dir)) == Black) && (IsBlack(D) <==> RootColor(Child(St, Opp(f.dir))) == Black)
    {
      ghost var f, St := path[0], path[0].other;
      ClimbFacts(path, s, H());
      SiblingFacts(path, s, H());
      C, D := C0, D0;
      P := parents[N];
      if lefts[P] == N {
        S := rights[P];
        if S != NIL {
          C := lefts[S];
          D := rights[S];
        }
      } else {
        S := lefts[P];
        if S != NIL {
          C := rights[S];
          D := lefts[S];
        }
      }
    }

    /**
     * The state of the fixup loop of rbtree_erase: the cursor N tops `s` at
     * the position `path`, and the leaf `e` to unlink sits at the position
     * `lp` inside `s`.  Without that leaf, `s` is one black node short of
     * what its ancestors expect (`Short`); the keys before and after the
     * leaf are `A` and `B`, the keys `K` and the nodes `D`.
     */
    ghost predicate Mending(path: Path, s: Tree, lp: Path, e: Tree, N: int, K: seq<int>, D: set<nat>, A: seq<int>, B: seq<int>,
                            bk: bool)
      reads this
    {
      Wf() && T == Plug(path, s) && s == Plug(lp, e) && e.Node? && s.Node? && N == s.id &&
      keys == K && Ids(T) == D && Short(path, Plug(lp, Nil)) && Pre(lp + path) == A && Post(lp + path) == B &&
      (bk ==> RootColor(T) == Black)
    }

    /**
     * One pass of the fixup loop of rbtree_erase: the reads, then the
     * first case that applies.  `done` is the C `break`: the shortage is
     * gone and, without the leaf, the tree is a sound red-black tree.
     * Otherwise the shortage has moved on and the loop's measure is lower.
     * Throughout, the keys on either side of the leaf stay `A` and `B`.
     */
    method MendStep(ghost path: Path, ghost s: Tree, ghost lp: Path, ghost e: Tree, N: int, C0: int, D0: int,
                    ghost K: seq<int>, ghost D: set<nat>, ghost A: seq<int>, ghost B: seq<int>, ghost bk: bool)
      returns (N': int, ghost path': Path, ghost s': Tree, ghost lp': Path, C: int, Dn: int, done: bool)
      requires Mending(path, s, lp, e, N, K, D, A, B, bk) && N != root
      modifies this
      ensures done ==> (Wf() && T == Plug(lp' + path', e) && keys == K && Ids(T) == D &&
                        RedFree(Plug(lp' + path', Nil)) && Balanced(Plug(lp' + path', Nil)) &&
                        Pre(lp' + path') == A && Post(lp' + path') == B && (bk ==> RootColor(T) == Black))
      ensures !done ==> (Mending(path', s', lp', e, N', K, D, A, B, bk) &&
                         (Weight(path') < Weight(path) || (Weight(path') == Weight(path) && Phase(path') < Phase(path))))
    {
      ghost var c := Plug(lp, Nil);
      assert path != [] && path[0].other.Node? by {
        RootCursor(path, s);
        ShortSibling(path, c);
      }
      ghost var f, St, rest := path[0], path[0].other, path[1..];
      ghost var d := f.dir;
      var P, S;
      P, S, C, Dn := Look(path, s, N, C0, D0);
      N', s', lp', done := N, s, lp, false;
      if !IsBlack(S) {
        LendRed(path, s, P, S);
        path' := RedSiblingPath(path);
        assert Short(path', c) && Weight(path') == Weight(path) && Phase(path') < Phase(path) &&
               Pre(lp + path') == A && Post(lp + path') == B by {
          CaseRedSibling(path, c);
          SidesPrepend(lp, path', path);
        }
        RedSiblingRoot(path, s);
      } else if !IsBlack(Dn) {
        FarRed(path, s, P, S, Dn);
        path' := FarRedPath(path);
        assert T == Plug(lp + path', e) && RedFree(Plug(lp + path', Nil)) && Balanced(Plug(lp + path', Nil)) &&
               Pre(lp + path') == A && Post(lp + path') == B by {
          CaseFarRed(path, c);
          MendEnd(lp, path', path, e);
        }
        FarRedRoot(path, s);
        done := true;
      } else if !IsBlack(C) {
        NearRed(path, s, S, C);
        path' := NearRedPath(path);
        assert Short(path', c) && Weight(path') == Weight(path) && Phase(path') < Phase(path) &&
               Pre(lp + path') == A && Post(lp + path') == B by {
          CaseNearRed(path, c);
          SidesPrepend(lp, path', path);
        }
        NearRedRoot(path, s);
      } else if !IsBlack(P) {
        Redden(path, s, S);
        ghost var g := Relieved(f);
        SetColor(rest, Attach(f.(other := St.(color := Red)), s), P, Black);
        path' := [g] + rest;
        assert T == Plug(lp + path', e) && RedFree(Plug(lp + path', Nil)) && Balanced(Plug(lp + path', Nil)) &&
               Pre(lp + path') == A && Post(lp + path') == B && T == Plug(path', s) by {
          MakeRecolor(d, s, P, f.key, f.color, St.(color := Red), Black);
          CaseRedParent(path, c);
          PlugCons(g, rest, s);
          MendEnd(lp, path', path, e);
        }
        RelievedRoot(path, s);
        done := true;
      } else {
        Redden(path, s, S);
        N' := P;
        ghost var g := Relieved(f);
        MendClimb(lp, path, e);
        lp', s', path' := lp + [g], Attach(g, s), rest;
        RelievedRoot(path, s);
        PlugCons(g, rest, s);
      }
    }

    /**
     * The fixup loop of rbtree_erase, entered when the leaf `e` to unlink
     * is BLACK: while N is not the root, one pass of `MendStep`.  The
     * shortage left by cutting `e` off is repaired: without `e` the tree
     * is a sound red-black tree, and the keys on either side of `e` are
     * unchanged.  The result `fp` is the position of `e` at the end.
     */
    method Mend(ghost path0: Path, ghost e: Tree, N0: int) returns (ghost fp: Path)
      requires Wf() && T == Plug(path0, e) && e.Node? && N0 == e.id && Short(path0, Nil)
      modifies this
      ensures Wf() && T == Plug(fp, e) && keys == old(keys) && Ids(T) == old(Ids(T))
      ensures RedFree(Plug(fp, Nil)) && Balanced(Plug(fp, Nil))
      ensures Pre(fp) == Pre(path0) && Post(fp) == Post(path0)
      ensures old(RootColor(T)) == Black ==> RootColor(T) == Black
    {
      ghost var path, s, lp: Path := path0, e, [];
      ghost var K, D, A, B, bk := keys, Ids(T), Pre(path0), Post(path0), RootColor(T) == Black;
      assert lp + path == path;
      var N := N0;
      var C, Dn := NIL, NIL;
      ghost var stopped := false;
      while N != root
        invariant !stopped && Mending(path, s, lp, e, N, K, D, A, B, bk)
        decreases Weight(path), Phase(path)
      {
        var done;
        N, path, s, lp, C, Dn, done := MendStep(path, s, lp, e, N, C, Dn, K, D, A, B, bk);
        if done {
          fp := lp + path;
          stopped := true;
          break;
        }
      }
      if !stopped {
        assert path == [] by {
          RootCursor(path, s);
        }
        assert lp + path == lp;
        ShortDone(Plug(lp, Nil));
        fp := lp;
      }
    }

    /**
     * The unlinking at the end of rbtree_erase: the parent's link to the
     * leaf `p` is cleared, or the root link when `p` is the root.  The
     * leaf's slot stays in the columns but is no longer part of the tree.
     */
    method Unlink(ghost path: Path, ghost e: Tree, p: int)
      requires Wf() && T == Plug(path, e) && e.Node? && e.left.Nil? && e.right.Nil? && p == e.id
      modifies this
      ensures Wf() && T == Plug(path, Nil) && Ids(T) == old(Ids(T)) - {p}
      ensures keys == old(keys) && colors == old(colors) && parents == old(parents)
      ensures old(RootColor(T)) == Black ==> RootColor(T) == Black
    {
      RootCursor(path, e);
      if p != root {
        assert parents[p] == path[0].id && 0 <= path[0].id < |keys| by {
          ClimbFacts(path, e, H());
        }
        ghost var h := H();
        var q := parents[p];
        if lefts[q] == p {
          lefts := lefts[q := NIL];
        } else {
          rights := rights[q := NIL];
        }
        Unhang(path, e, h, H());
        RootAbove(path, e);
        RootAbove(path, Nil);
        assert root == Ptr(Plug(path, Nil)) by {
          PlugTop(path, e);
          PlugTop(path, Nil);
        }
      } else {
        root := NIL;
        IdsPlug(path, e);
      }
      T := Plug(path, Nil);
    }

    /**
     * The second half of rbtree_erase, from the leaf `e` the key shift
     * reached: a BLACK leaf leaves its position one black node short, which
     * `Mend` repairs; then the leaf is unlinked.  What remains is a
     * red-black tree holding the keys on either side of the leaf.
     */
    method EraseLeaf(ghost path: Path, ghost e: Tree, N: int)
      requires Wf() && T == Plug(path, e) && e.Node? && e.left.Nil? && e.right.Nil? && N == e.id
      requires RedFree(T) && Balanced(T)
      modifies this
      ensures Wf() && RedFree(T) && Balanced(T) && keys == old(keys)
      ensures Inorder(T) == Pre(path) + Post(path) && Ids(T) == old(Ids(T)) - {N}
      ensures old(RootColor(T)) == Black ==> RootColor(T) == Black
    {
      ghost var fp := path;
      assert colors[N] == e.color by {
        CursorFacts(path, e, H());
      }
      if colors[N] == Black {
        ShortStart(path, e);
        fp := Mend(path, e, N);
      } else {
        RedLeafCut(path, e);
      }
      Unlink(fp, e, N);
      CutInorder(fp);
    }

    /**
     * rbtree_erase: the key of node `p` leaves the tree.  Keys shift down
     * to a leaf, the fixup repairs a BLACK leaf's shortage, and the leaf is
     * unlinked.  The in-order keys lose exactly the entry at `p`'s rank, so
     * the multiset of keys loses one copy of `p`'s key and sortedness is
     * kept; the tree stays red-black.  `gone` is the slot unlinked.
     */
    method Erase(p: int) returns (r: int, ghost gone: nat)
      requires Wf() && RedFree(T) && Balanced(T) && p in Ids(T)
      modifies this
      ensures Wf() && RedFree(T) && Balanced(T) && r == 0
      ensures var w, i := old(Inorder(T)), old(Rank(T, p));
        0 <= p < |old(keys)| && i < |w| && w[i] == old(keys)[p] && Inorder(T) == Without(w, i)
      ensures multiset(Inorder(T)) == old(multiset(Inorder(T))) - multiset{old(keys)[p]}
      ensures old(Sorted(Inorder(T))) ==> Sorted(Inorder(T))
      ensures gone in old(Ids(T)) && Ids(T) == old(Ids(T)) - {gone}
      ensures old(RootColor(T)) == Black ==> RootColor(T) == Black
      ensures old(Valid()) ==> Valid()
    {
      ghost var w, i, path, s := Inorder(T), Rank(T, p), Locate(T, p), SubAt(T, p);
      assert i < |w| && w[i] == s.key && Without(w, i) == Pre(path) + Inorder(s.left) + Inorder(s.right) + Post(path) &&
             T == Plug(path, s) && s.Node? && s.id == p by {
        LocateSpec(T, p);
        RankKey(path, s);
      }
      assert 0 <= p < |keys| && keys[p] == s.key by {
        CursorFacts(path, s, H());
      }
      ghost var lpath, e;
      var N;
      N, lpath, e := ShiftDown(path, s, p);
      assert N in Ids(T) by {
        IdsPlug(lpath, e);
      }
      EraseLeaf(lpath, e, N);
      gone := N;
      WithoutKeys(w, i);
      r := 0;
    }

    /**
     * rbtree_to_array: an in-order walk with an explicit stack of `n` slots
     * writes the keys of the tree in order to the front of `arr`.  The stack
     * never holds more nodes than the height of the tree.
     */
    method ToArray(arr: array<int>, n: int) returns (r: int)
      requires Wf() && root != NIL
      requires |Inorder(T)| <= arr.Length && Height(T) <= n
      modifies arr
      ensures r == 0
      ensures arr[..|Inorder(T)|] == Inorder(T)
      ensures arr[|Inorder(T)|..] == old(arr[|Inorder(T)|..])
    {
      ghost var s, h, a0 := Inorder(T), H(), arr[..];
      var sbp := 0;
      var i := 0;
      var stack := new int[n];
      var cur := root;
      ghost var ct, cpar := T, NIL;
      ghost var st: seq<Tree> := [];
      WalkStart(h, T, a0, stack[..]);
      while sbp > 0 || cur != NIL
        invariant stack != arr && sbp == |st| <= n && h == H()
        invariant Walking(h, Height(T), s, a0, arr[..], stack[..], st, ct, cpar, i, cur)
        decreases |s| - i, Height(ct)
      {
        if cur != NIL {
          ghost var stk, out, st0, ct0, cpar0 := stack[..], arr[..], st, ct, cpar;
          assert Has(h, cur) && Height(ct.left) < Height(ct) && sbp < stack.Length by {
            WalkPush(h, Height(T), s, a0, out, stk, st, ct, cpar, i, cur);
          }
          stack[sbp] := cur;
          sbp := sbp + 1;
          cur := lefts[cur];
          st, cpar, ct := st + [ct], ct.id, ct.left;
          assert Walking(h, Height(T), s, a0, arr[..], stack[..], st, ct, cpar, i, cur) by {
            assert stack[..] == stk[|st0| := Ptr(ct0)] && arr[..] == out;
            WalkPush(h, Height(T), s, a0, out, stk, st0, ct0, cpar0, i, Ptr(ct0));
          }
        } else {
          ghost var stk, out, st0, cpar0, i0 := stack[..], arr[..], st, cpar, i;
          ghost var x := st[sbp - 1];
          assert i < arr.Length && stack[sbp - 1] == x.id && Has(h, x.id) by {
            WalkPop(h, Height(T), s, a0, out, stk, st, cpar, i);
          }
          sbp := sbp - 1;
          cur := stack[sbp];
          arr[i] := keys[cur];
          i := i + 1;
          cur := rights[cur];
          st, cpar, ct := st[..sbp], x.id, x.right;
          assert Walking(h, Height(T), s, a0, arr[..], stack[..], st, ct, cpar, i, cur) by {
            assert stack[..] == stk && arr[..] == out[i0 := h.keys[x.id]];
            WalkPop(h, Height(T), s, a0, out, stk, st0, cpar0, i0);
          }
        }
      }
      WalkDone(h, Height(T), s, a0, arr[..], stack[..], cpar, i);
      r := 0;
    }
  }
}
