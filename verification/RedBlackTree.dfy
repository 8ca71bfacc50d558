/** include/uv/tree.h, the operations on red-black trees. */
module RedBlackTree {
  import opened Common
  import opened RedBlackShape

  class Head {
    var root: Node?
    ghost var nodes: set<Node>
    ghost var tree: Tree

    ghost predicate Valid()
      reads this, nodes
    {
      Holds(nodes, tree) && Nodes(tree) == nodes && RedBlack(tree) && Sorted(InOrder(tree))
    }

    // The members in ascending order.
    ghost function Elements(): seq<Node>
      reads this
    {
      InOrder(tree)
    }

    // The height of the tree is at most 2 lg(n+1), and so is the number of nodes on any way down.
    lemma HeightIsBounded()
      requires Valid()
      ensures Pow2(Height(tree)) <= (|Elements()| + 1) * (|Elements()| + 1)
      ensures forall turns :: Reaches(tree, turns) ==>
        Pow2(|turns| + 1) <= (|Elements()| + 1) * (|Elements()| + 1)
    {
      HeightBound(tree);
      forall turns | Reaches(tree, turns)
        ensures Pow2(|turns| + 1) <= (|Elements()| + 1) * (|Elements()| + 1)
      {
        HeightIs(tree, turns);
        Pow2Mono(|turns| + 1, Height(tree));
      }
    }

    constructor ()
      ensures Valid() && nodes == {} && Elements() == []
    {
      root := null;
      nodes, tree := {}, Leaf;
    }

    // The nodes in s hold the tree t, whose topmost node is root.
    ghost predicate Holds(s: set<Node>, t: Tree)
      reads `root, s
    {
      At(Store(s), root, Top, t)
    }

    method RotateLeft(elm: Node) returns (tmp: Node)
      requires elm.right != null && elm.right != elm && elm.parent != elm && elm.parent != elm.right
      requires var b := elm.right.left; b != null ==> b != elm && b != elm.right && b != elm.parent
      modifies `root, elm, elm.right, elm.right.left, elm.parent
      ensures tmp == old(elm.right) && tmp.left == elm && tmp.right == old(tmp.right) && tmp.parent == old(elm.parent)
        && tmp.red == old(tmp.red)
      ensures elm.left == old(elm.left) && elm.right == old(tmp.left) && elm.parent == tmp && elm.red == old(elm.red)
      ensures var b := old(tmp.left); b != null ==>
        b.parent == elm && b.left == old(b.left) && b.right == old(b.right) && b.red == old(b.red)
      ensures var g := old(elm.parent);
              g != null ==>
                && root == old(root) && g.parent == old(g.parent) && g.red == old(g.red)
                && g.left == (if old(g.left) == elm then tmp else old(g.left))
                && g.right == (if old(g.left) == elm then old(g.right) else tmp)
      ensures tmp.parent == null ==> root == tmp
    {
      tmp := elm.right;
      elm.right := tmp.left;
      if elm.right != null {
        tmp.left.parent := elm;
      }
      tmp.parent := elm.parent;
      if tmp.parent != null {
        if elm == elm.parent.left {
          elm.parent.left := tmp;
        } else {
          elm.parent.right := tmp;
        }
      } else {
        root := tmp;
      }
      tmp.left := elm;
      elm.parent := tmp;
    }

    method RotateLeftAt(elm: Node, ghost s: set<Node>, ghost p: Path,
                        ghost a: Tree, ghost c: bool, ghost b: Tree, ghost y: Node, ghost d: bool, ghost e: Tree)
      requires Holds(s, Plug(p, Branch(a, elm, c, Branch(b, y, d, e))))
      modifies `root, s
      ensures Holds(s, Plug(p, Branch(Branch(a, elm, c, b), y, d, e)))
      ensures InOrder(Plug(p, Branch(Branch(a, elm, c, b), y, d, e)))
        == InOrder(Plug(p, Branch(a, elm, c, Branch(b, y, d, e))))
    {
      RotatedOrder(p, a, elm, c, b, y, d, e);
      hide At, Plug, InOrder;
      ghost var m, root0 := Store(s), root;
      AtFocus(m, root, p, Branch(a, elm, c, Branch(b, y, d, e)));
      RotateLeftReady(m, root, p, a, elm, c, b, y, d, e);
      var tmp := RotateLeft(elm);
      RotatedLeft(m, root0, Store(s), root, p, a, elm, c, b, y, d, e);
      AtFocus(Store(s), root, p, Branch(Branch(a, elm, c, b), y, d, e));
    }

    method RotateRight(elm: Node) returns (tmp: Node)
      requires elm.left != null && elm.left != elm && elm.parent != elm && elm.parent != elm.left
      requires var b := elm.left.right; b != null ==> b != elm && b != elm.left && b != elm.parent
      modifies `root, elm, elm.left, elm.left.right, elm.parent
      ensures tmp == old(elm.left) && tmp.right == elm && tmp.left == old(tmp.left) && tmp.parent == old(elm.parent)
        && tmp.red == old(tmp.red)
      ensures elm.right == old(elm.right) && elm.left == old(tmp.right) && elm.parent == tmp && elm.red == old(elm.red)
      ensures var b := old(tmp.right); b != null ==>
        b.parent == elm && b.right == old(b.right) && b.left == old(b.left) && b.red == old(b.red)
      ensures var g := old(elm.parent);
              g != null ==>
                && root == old(root) && g.parent == old(g.parent) && g.red == old(g.red)
                && g.left == (if old(g.left) == elm then tmp else old(g.left))
                && g.right == (if old(g.left) == elm then old(g.right) else tmp)
      ensures tmp.parent == null ==> root == tmp
    {
      tmp := elm.left;
      elm.left := tmp.right;
      if elm.left != null {
        tmp.right.parent := elm;
      }
      tmp.parent := elm.parent;
      if tmp.parent != null {
        if elm == elm.parent.left {
          elm.parent.left := tmp;
        } else {
          elm.parent.right := tmp;
        }
      } else {
        root := tmp;
      }
      tmp.right := elm;
      elm.parent := tmp;
    }

    method RotateRightAt(elm: Node, ghost s: set<Node>, ghost p: Path,
                        ghost a: Tree, ghost x: Node, ghost c: bool, ghost b: Tree, ghost d: bool, ghost e: Tree)
      requires Holds(s, Plug(p, Branch(Branch(a, x, c, b), elm, d, e)))
      modifies `root, s
      ensures Holds(s, Plug(p, Branch(a, x, c, Branch(b, elm, d, e))))
      ensures InOrder(Plug(p, Branch(a, x, c, Branch(b, elm, d, e))))
        == InOrder(Plug(p, Branch(Branch(a, x, c, b), elm, d, e)))
    {
      RotatedOrder(p, a, x, c, b, elm, d, e);
      hide At, Plug, InOrder;
      ghost var m, root0 := Store(s), root;
      AtFocus(m, root, p, Branch(Branch(a, x, c, b), elm, d, e));
      RotateRightReady(m, root, p, a, x, c, b, elm, d, e);
      var tmp := RotateRight(elm);
      RotatedRight(m, root0, Store(s), root, p, a, x, c, b, elm, d, e);
      AtFocus(Store(s), root, p, Branch(a, x, c, Branch(b, elm, d, e)));
    }

    method Paint(n: Node, red: bool, ghost s: set<Node>, ghost p: Path, ghost t: Tree)
      requires t.Branch? && t.x == n && Holds(s, Plug(p, t))
      modifies s
      ensures Holds(s, Plug(p, t.(red := red)))
      ensures InOrder(Plug(p, t.(red := red))) == InOrder(Plug(p, t))
    {
      Links(s, p, t);
      PaintedOrder(p, t, red);
      hide At, Plug, InOrder;
      AtFocus(Store(s), root, p, t);
      ghost var m := Store(s);
      n.red := red;
      Painted(m, root, Store(s), p, t, red);
      AtFocus(Store(s), root, p, t.(red := red));
    }

    // The links at the top of the subtree t and at the node above it.
    lemma Links(s: set<Node>, p: Path, t: Tree)
      requires Holds(s, Plug(p, t))
      ensures t.Branch? ==>
        t.x in s && t.x.left == Root(t.l) && t.x.right == Root(t.r) && t.x.parent == Parent(p) && t.x.red == t.red
      ensures p.LeftOf? ==>
        p.x in s && p.x.left == Root(t) && p.x.right == Root(p.r) && p.x.parent == Parent(p.up) && p.x.red == p.red
      ensures p.RightOf? ==>
        p.x in s && p.x.left == Root(p.l) && p.x.right == Root(t) && p.x.parent == Parent(p.up) && p.x.red == p.red
      ensures p.RightOf? && p.l.Branch? ==> Root(p.l) != Root(t)
      ensures p.LeftOf? && p.r.Branch? ==> Root(p.r) != Root(t)
      ensures p.Top? <==> root == Root(t)
    {
      AtFocus(Store(s), root, p, t);
      assert t.Branch? ==> t.x in Nodes(t);
      if !p.Top? {
        UppermostInPath(p, Root(t));
      }
      assert p.RightOf? && p.l.Branch? ==> p.l.x in PathNodes(p);
      assert p.LeftOf? && p.r.Branch? ==> p.r.x in PathNodes(p);
    }

    // One turn of the loop of RB_INSERT_COLOR below a parent that is a left child.
    method InsertBelowLeft(elm: Node, parent: Node, gparent: Node, ghost s: set<Node>, ghost p: Path, ghost t: Tree)
      returns (next: Node, ghost p': Path, ghost t': Tree)
      requires Holds(s, Plug(p, t)) && InsertState(p, t) && t.x == elm
      requires !p.Top? && p.x == parent && p.red && p.up.LeftOf? && p.up.x == gparent
      modifies `root, s
      ensures Holds(s, Plug(p', t')) && InsertState(p', t') && t'.x == next
      ensures InOrder(Plug(p', t')) == InOrder(Plug(p, t)) && Depth(p') < Depth(p)
    {
      hide Holds, InOrder;
      ghost var up, u := p.up.up, p.up.r;
      ghost var q := RedPair(p, t);
      InsertAbove(p, t);
      hide PathColoured, PathBalanced, Depth;
      assert Plug(p, t) == Plug(p.up, q) == Plug(up, Branch(q, gparent, false, u));
      Links(s, p.up, q);
      Links(s, RightOf(q, gparent, false, up), u);
      Links(s, p, t);
      var tmp := gparent.right;
      if tmp != null && tmp.red {
        InsertRecoloured(up, q, gparent, u);
        Paint(tmp, false, s, RightOf(q, gparent, false, up), u);
        Paint(parent, false, s, LeftOf(up, gparent, false, u.(red := false)), q);
        Paint(gparent, true, s, up, Branch(q.(red := false), gparent, false, u.(red := false)));
        return gparent, up, Branch(q.(red := false), gparent, true, u.(red := false));
      }
      var inner := parent;
      next := elm;
      if parent.right == elm {
        RotateLeftAt(parent, s, p.up, p.l, true, t.l, elm, true, t.r);
        inner, next := elm, parent;
        q := Branch(Branch(p.l, parent, true, t.l), elm, true, t.r);
      }
      Paint(inner, false, s, p.up, q);
      Paint(gparent, true, s, up, Branch(q.(red := false), gparent, false, u));
      RotateRightAt(gparent, s, up, q.l, inner, false, q.r, true, u);
      p', t' := LeftOf(up, inner, false, Branch(q.r, gparent, true, u)), q.l;
    }

    // One turn of the loop of RB_INSERT_COLOR below a parent that is a right child.
    method InsertBelowRight(elm: Node, parent: Node, gparent: Node, ghost s: set<Node>, ghost p: Path, ghost t: Tree)
      returns (next: Node, ghost p': Path, ghost t': Tree)
      requires Holds(s, Plug(p, t)) && InsertState(p, t) && t.x == elm
      requires !p.Top? && p.x == parent && p.red && p.up.RightOf? && p.up.x == gparent
      modifies `root, s
      ensures Holds(s, Plug(p', t')) && InsertState(p', t') && t'.x == next
      ensures InOrder(Plug(p', t')) == InOrder(Plug(p, t)) && Depth(p') < Depth(p)
    {
      hide Holds, InOrder;
      ghost var up, u := p.up.up, p.up.l;
      ghost var q := RedPair(p, t);
      InsertAbove(p, t);
      hide PathColoured, PathBalanced, Depth;
      assert Plug(p, t) == Plug(p.up, q) == Plug(up, Branch(u, gparent, false, q));
      Links(s, p.up, q);
      Links(s, LeftOf(up, gparent, false, q), u);
      Links(s, p, t);
      var tmp := gparent.left;
      if tmp != null && tmp.red {
        InsertRecoloured(up, q, gparent, u);
        Paint(tmp, false, s, LeftOf(up, gparent, false, q), u);
        Paint(parent, false, s, RightOf(u.(red := false), gparent, false, up), q);
        Paint(gparent, true, s, up, Branch(u.(red := false), gparent, false, q.(red := false)));
        return gparent, up, Branch(u.(red := false), gparent, true, q.(red := false));
      }
      var inner := parent;
      next := elm;
      if parent.left == elm {
        RotateRightAt(parent, s, p.up, t.l, elm, true, t.r, true, p.r);
        inner, next := elm, parent;
        q := Branch(t.l, elm, true, Branch(t.r, parent, true, p.r));
      }
      Paint(inner, false, s, p.up, q);
      Paint(gparent, true, s, up, Branch(u, gparent, false, q.(red := false)));
      RotateLeftAt(gparent, s, up, u, true, q.l, inner, false, q.r);
      p', t' := RightOf(Branch(u, gparent, true, q.l), inner, false, up), q.r;
    }

    method InsertColor(elm: Node, ghost s: set<Node>, ghost p: Path, ghost t: Tree) returns (ghost t': Tree)
      requires Holds(s, Plug(p, t)) && InsertState(p, t) && t.x == elm
      modifies `root, s
      ensures Holds(s, t') && RedBlack(t') && InOrder(t') == InOrder(Plug(p, t))
    {
      hide Holds, InOrder;
      ghost var q, u := p, t;
      var e := elm;
      Links(s, q, u);
      var parent := e.parent;
      while parent != null && parent.red
        invariant Holds(s, Plug(q, u)) && InsertState(q, u) && u.x == e && parent == Parent(q)
        invariant InOrder(Plug(q, u)) == InOrder(Plug(p, t))
        decreases Depth(q)
      {
        Links(s, q, u);
        InsertAbove(q, u);
        Links(s, q.up, RedPair(q, u));
        var gparent := parent.parent;
        if parent == gparent.left {
          e, q, u := InsertBelowLeft(e, parent, gparent, s, q, u);
        } else {
          e, q, u := InsertBelowRight(e, parent, gparent, s, q, u);
        }
        Links(s, q, u);
        parent := e.parent;
      }
      Links(s, q, u);
      PlugBranch(q, u);
      t' := Plug(q, u);
      if !q.Top? {
        PlugRedBlack(q, u);
      }
      Links(s, Top, t');
      Paint(root, false, s, Top, t');
      t' := t'.(red := false);
    }

    // RB_REMOVE_COLOR, a red sibling on the right: rotate it above the parent.
    method RemoveRotateLeft(parent: Node, tmp: Node, ghost s: set<Node>, ghost p: Path, ghost t: Tree)
      returns (ghost p': Path)
      requires Holds(s, Plug(p, t)) && RemoveState(p, t) && !IsRed(t)
      requires p.LeftOf? && p.x == parent && IsRed(p.r) && p.r.x == tmp
      modifies `root, s
      ensures Holds(s, Plug(p', t)) && RemoveState(p', t)
      ensures p'.LeftOf? && p'.x == parent && p'.red && !IsRed(p'.r)
      ensures InOrder(Plug(p', t)) == InOrder(Plug(p, t))
    {
      hide Holds, InOrder;
      RemoveSibling(p, t);
      hide PathColoured, PathBalanced, NoRedRed, Balanced, BlackHeight;
      ghost var w, up := p.r, p.up;
      Paint(tmp, false, s, RightOf(t, parent, false, up), w);
      Paint(parent, true, s, up, Branch(t, parent, false, w.(red := false)));
      RotateLeftAt(parent, s, up, t, true, w.l, tmp, false, w.r);
      p' := LeftOf(LeftOf(up, tmp, false, w.r), parent, true, w.l);
      RemoveRotated(up, parent, w, t);
    }

    // RB_REMOVE_COLOR, a black sibling on the right with a red child.
    method RemoveRepairLeft(parent: Node, sibling: Node, ghost s: set<Node>, ghost p: Path, ghost t: Tree)
      returns (ghost t': Tree)
      requires Holds(s, Plug(p, t)) && RemoveState(p, t) && !IsRed(t)
      requires p.LeftOf? && p.x == parent && p.r.Branch? && p.r.x == sibling && !p.r.red
        && (IsRed(p.r.l) || IsRed(p.r.r))
      modifies `root, s
      ensures Holds(s, t') && RedBlack(t')
      ensures InOrder(t') == InOrder(Plug(p, t))
    {
      hide Holds, InOrder;
      RemoveSibling(p, t);
      hide PathColoured, PathBalanced;
      ghost var up, c, w := p.up, p.red, p.r;
      var tmp := sibling;
      Links(s, RightOf(t, parent, c, up), w);
      Links(s, RightOf(w.l, tmp, false, RightOf(t, parent, c, up)), w.r);
      if tmp.right == null || !tmp.right.red {
        ghost var o := w.l;
        var oleft := tmp.left;
        if oleft != null {
          Paint(oleft, false, s, LeftOf(RightOf(t, parent, c, up), tmp, false, w.r), o);
        }
        Paint(tmp, true, s, RightOf(t, parent, c, up), Branch(o.(red := false), tmp, false, w.r));
        RotateRightAt(tmp, s, RightOf(t, parent, c, up), o.l, oleft, false, o.r, true, w.r);
        w := Branch(o.l, oleft, false, Branch(o.r, tmp, true, w.r));
        Links(s, LeftOf(up, parent, c, w), t);
        tmp := parent.right;
      }
      Paint(tmp, parent.red, s, RightOf(t, parent, c, up), w);
      Paint(parent, false, s, up, Branch(t, parent, c, w.(red := c)));
      Links(s, RightOf(w.l, tmp, c, RightOf(t, parent, false, up)), w.r);
      if tmp.right != null {
        Paint(tmp.right, false, s, RightOf(w.l, tmp, c, RightOf(t, parent, false, up)), w.r);
      }
      RotateLeftAt(parent, s, up, t, false, w.l, tmp, c, w.r.(red := false));
      t' := Plug(up, Branch(Branch(t, parent, false, w.l), tmp, c, w.r.(red := false)));
      RemoveRepaired(up, parent, c, t, w.l, tmp, w.r);
    }

    // One turn of the loop of RB_REMOVE_COLOR below a left link.
    method RemoveBelowLeft(parent: Node, ghost s: set<Node>, ghost p: Path, ghost t: Tree)
      returns (elm: Node?, next: Node?, ghost p': Path, ghost t': Tree)
      requires Holds(s, Plug(p, t)) && RemoveState(p, t) && !IsRed(t) && p.LeftOf? && p.x == parent
      modifies `root, s
      ensures Holds(s, Plug(p', t')) && RemoveState(p', t') && elm == Root(t') && (p'.Top? || next == p'.x)
      ensures InOrder(Plug(p', t')) == InOrder(Plug(p, t)) && Shortage(p', t') < Shortage(p, t)
    {
      hide Holds, InOrder;
      p', t' := p, t;
      RemoveSibling(p', t');
      Links(s, p', t');
      Links(s, RightOf(t', parent, p'.red, p'.up), p'.r);
      var tmp := parent.right;
      if tmp.red {
        p' := RemoveRotateLeft(parent, tmp, s, p', t');
        RemoveSibling(p', t');
        Links(s, p', t');
        Links(s, RightOf(t', parent, p'.red, p'.up), p'.r);
        tmp := parent.right;
      }
      hide PathColoured, PathBalanced, NoRedRed, Balanced, BlackHeight;
      ghost var w := p'.r;
      Links(s, LeftOf(RightOf(t', parent, p'.red, p'.up), tmp, false, w.r), w.l);
      Links(s, RightOf(w.l, tmp, false, RightOf(t', parent, p'.red, p'.up)), w.r);
      if (tmp.left == null || !tmp.left.red) && (tmp.right == null || !tmp.right.red) {
        Paint(tmp, true, s, RightOf(t', parent, p'.red, p'.up), w);
        RemoveLifted(p'.up, parent, p'.red, w, t');
        p', t' := p'.up, Branch(t', parent, p'.red, w.(red := true));
        Links(s, p', t');
        elm, next := parent, parent.parent;
      } else {
        t' := RemoveRepairLeft(parent, tmp, s, p', t');
        p' := Top;
        Links(s, Top, t');
        elm, next := root, parent;
      }
    }

    // RB_REMOVE_COLOR, a red sibling on the left: rotate it above the parent.
    method RemoveRotateRight(parent: Node, tmp: Node, ghost s: set<Node>, ghost p: Path, ghost t: Tree)
      returns (ghost p': Path)
      requires Holds(s, Plug(p, t)) && RemoveState(p, t) && !IsRed(t)
      requires p.RightOf? && p.x == parent && IsRed(p.l) && p.l.x == tmp
      modifies `root, s
      ensures Holds(s, Plug(p', t)) && RemoveState(p', t)
      ensures p'.RightOf? && p'.x == parent && p'.red && !IsRed(p'.l)
      ensures InOrder(Plug(p', t)) == InOrder(Plug(p, t))
    {
      hide Holds, InOrder;
      RemoveSibling(p, t);
      hide PathColoured, PathBalanced, NoRedRed, Balanced, BlackHeight;
      ghost var w, up := p.l, p.up;
      Paint(tmp, false, s, LeftOf(up, parent, false, t), w);
      Paint(parent, true, s, up, Branch(w.(red := false), parent, false, t));
      RotateRightAt(parent, s, up, w.l, tmp, false, w.r, true, t);
      p' := RightOf(w.r, parent, true, RightOf(w.l, tmp, false, up));
      RemoveRotated(up, parent, w, t);
    }

    // RB_REMOVE_COLOR, a black sibling on the left with a red child.
    method RemoveRepairRight(parent: Node, sibling: Node, ghost s: set<Node>, ghost p: Path, ghost t: Tree)
      returns (ghost t': Tree)
      requires Holds(s, Plug(p, t)) && RemoveState(p, t) && !IsRed(t)
      requires p.RightOf? && p.x == parent && p.l.Branch? && p.l.x == sibling && !p.l.red
        && (IsRed(p.l.l) || IsRed(p.l.r))
      modifies `root, s
      ensures Holds(s, t') && RedBlack(t')
      ensures InOrder(t') == InOrder(Plug(p, t))
    {
      hide Holds, InOrder;
      RemoveSibling(p, t);
      hide PathColoured, PathBalanced;
      ghost var up, c, w := p.up, p.red, p.l;
      var tmp := sibling;
      Links(s, LeftOf(up, parent, c, t), w);
      Links(s, LeftOf(LeftOf(up, parent, c, t), tmp, false, w.r), w.l);
      if tmp.left == null || !tmp.left.red {
        ghost var o := w.r;
        var oright := tmp.right;
        if oright != null {
          Paint(oright, false, s, RightOf(w.l, tmp, false, LeftOf(up, parent, c, t)), o);
        }
        Paint(tmp, true, s, LeftOf(up, parent, c, t), Branch(w.l, tmp, false, o.(red := false)));
        RotateLeftAt(tmp, s, LeftOf(up, parent, c, t), w.l, true, o.l, oright, false, o.r);
        w := Branch(Branch(w.l, tmp, true, o.l), oright, false, o.r);
        Links(s, RightOf(w, parent, c, up), t);
        tmp := parent.left;
      }
      Paint(tmp, parent.red, s, LeftOf(up, parent, c, t), w);
      Paint(parent, false, s, up, Branch(w.(red := c), parent, c, t));
      Links(s, LeftOf(LeftOf(up, parent, false, t), tmp, c, w.r), w.l);
      if tmp.left != null {
        Paint(tmp.left, false, s, LeftOf(LeftOf(up, parent, false, t), tmp, c, w.r), w.l);
      }
      RotateRightAt(parent, s, up, w.l.(red := false), tmp, c, w.r, false, t);
      t' := Plug(up, Branch(w.l.(red := false), tmp, c, Branch(w.r, parent, false, t)));
      RemoveRepaired(up, parent, c, t, w.r, tmp, w.l);
    }

    // One turn of the loop of RB_REMOVE_COLOR below a right link.
    method RemoveBelowRight(parent: Node, ghost s: set<Node>, ghost p: Path, ghost t: Tree)
      returns (elm: Node?, next: Node?, ghost p': Path, ghost t': Tree)
      requires Holds(s, Plug(p, t)) && RemoveState(p, t) && !IsRed(t) && p.RightOf? && p.x == parent
      modifies `root, s
      ensures Holds(s, Plug(p', t')) && RemoveState(p', t') && elm == Root(t') && (p'.Top? || next == p'.x)
      ensures InOrder(Plug(p', t')) == InOrder(Plug(p, t)) && Shortage(p', t') < Shortage(p, t)
    {
      hide Holds, InOrder;
      p', t' := p, t;
      RemoveSibling(p', t');
      Links(s, p', t');
      Links(s, LeftOf(p'.up, parent, p'.red, t'), p'.l);
      var tmp := parent.left;
      if tmp.red {
        p' := RemoveRotateRight(parent, tmp, s, p', t');
        RemoveSibling(p', t');
        Links(s, p', t');
        Links(s, LeftOf(p'.up, parent, p'.red, t'), p'.l);
        tmp := parent.left;
      }
      hide PathColoured, PathBalanced, NoRedRed, Balanced, BlackHeight;
      ghost var w := p'.l;
      Links(s, RightOf(w.l, tmp, false, LeftOf(p'.up, parent, p'.red, t')), w.r);
      Links(s, LeftOf(LeftOf(p'.up, parent, p'.red, t'), tmp, false, w.r), w.l);
      if (tmp.left == null || !tmp.left.red) && (tmp.right == null || !tmp.right.red) {
        Paint(tmp, true, s, LeftOf(p'.up, parent, p'.red, t'), w);
        RemoveLifted(p'.up, parent, p'.red, w, t');
        p', t' := p'.up, Branch(w.(red := true), parent, p'.red, t');
        Links(s, p', t');
        elm, next := parent, parent.parent;
      } else {
        t' := RemoveRepairRight(parent, tmp, s, p', t');
        p' := Top;
        Links(s, Top, t');
        elm, next := root, parent;
      }
    }

    method RemoveColor(parent: Node?, elm: Node?, ghost s: set<Node>, ghost p: Path, ghost t: Tree)
      returns (ghost t': Tree)
      requires Holds(s, Plug(p, t)) && RemoveState(p, t) && elm == Root(t) && parent == Parent(p)
      modifies `root, s
      ensures Holds(s, t') && RedBlack(t') && InOrder(t') == InOrder(Plug(p, t))
    {
      hide Holds, InOrder;
      ghost var q, u := p, t;
      var e, above := elm, parent;
      Links(s, q, u);
      while (e == null || !e.red) && e != root
        invariant Holds(s, Plug(q, u)) && RemoveState(q, u) && e == Root(u) && (q.Top? || above == q.x)
        invariant InOrder(Plug(q, u)) == InOrder(Plug(p, t))
        decreases Shortage(q, u)
      {
        Links(s, q, u);
        RemoveSibling(q, u);
        if above.left == e {
          e, above, q, u := RemoveBelowLeft(above, s, q, u);
        } else {
          e, above, q, u := RemoveBelowRight(above, s, q, u);
        }
      }
      Links(s, q, u);
      assert IsRed(u) || q.Top?;
      if e != null {
        Paint(e, false, s, q, u);
      }
      RemoveFinished(q, u);
      t' := Plug(q, Blackened(u));
    }

    // RB_SET and the linking of a new red leaf.
    method Attach(elm: Node, parent: Node?, comp: int, ghost s: set<Node>, ghost p: Path)
      requires Holds(s, Plug(p, Leaf)) && elm !in s && parent == Parent(p)
      requires (p.LeftOf? ==> comp < 0) && (p.RightOf? ==> comp >= 0)
      modifies `root, s, elm
      ensures Holds(s + {elm}, Plug(p, Branch(Leaf, elm, true, Leaf)))
    {
      Links(s, p, Leaf);
      hide At, Plug;
      AtFocus(Store(s), root, p, Leaf);
      ghost var m, root0 := Store(s), root;
      elm.parent := parent;
      elm.left, elm.right := null, null;
      elm.red := true;
      if parent != null {
        if comp < 0 {
          parent.left := elm;
        } else {
          parent.right := elm;
        }
      } else {
        root := elm;
      }
      Attached(m, root0, Store(s + {elm}), root, p, elm);
      AtFocus(Store(s + {elm}), root, p, Branch(Leaf, elm, true, Leaf));
    }

    method Insert(elm: Node) returns (r: Node?)
      requires Valid()
      modifies this, nodes, elm
      ensures Valid()
      ensures r == null <==> forall n :: n in old(nodes) ==> n.key != elm.key
      ensures r == null ==> nodes == old(nodes) + {elm}
      ensures r != null ==> r in nodes && r.key == elm.key && unchanged(this) && unchanged(nodes) && unchanged(elm)
    {
      hide Holds, InOrder, Nodes, RedBlack, Sorted, Order, Between;
      var parent: Node?, comp := null, 0;
      var tmp := root;
      ghost var p, t := Top, tree;
      Links(nodes, p, t);
      SearchStart(tree, elm.key);
      while tmp != null
        modifies {}
        invariant Plug(p, t) == tree && tmp == Root(t) && parent == Parent(p)
        invariant Between(p, elm.key) && Sorted(Order(p, t))
        invariant (p.LeftOf? ==> comp < 0) && (p.RightOf? ==> comp >= 0)
        decreases t
      {
        Links(nodes, p, t);
        parent := tmp;
        comp := elm.key - parent.key;
        Descend(p, t, elm.key);
        if comp < 0 {
          tmp := tmp.left;
          p, t := LeftOf(p, t.x, t.red, t.r), t.l;
        } else if comp > 0 {
          tmp := tmp.right;
          p, t := RightOf(t.l, t.x, t.red, p), t.r;
        } else {
          return tmp;
        }
      }
      InsertEnd(p, elm);
      UnplugRedBlack(p, Leaf);
      Attach(elm, parent, comp, nodes, p);
      nodes := nodes + {elm};
      tree := InsertColor(elm, nodes, p, Branch(Leaf, elm, true, Leaf));
      NodesInOrder(tree);
      NodesInOrder(Plug(p, Branch(Leaf, elm, true, Leaf)));
      return null;
    }

    // Lines shared by both ways of removal: the only child takes the place of elm.
    method Unlink(elm: Node, child: Node?, parent: Node?, ghost s: set<Node>, ghost p: Path, ghost t: Tree,
      ghost u: Tree)
      requires Holds(s, Plug(p, t)) && t.Branch? && t.x == elm && child == Root(u) && parent == Parent(p)
      requires (t.l == Leaf && t.r == u) || (t.l == u && t.r == Leaf)
      modifies `root, s
      ensures Holds(s, Plug(p, u))
      ensures elm.parent == parent
    {
      hide At, Nodes, PathNodes;
      Links(s, p, t);
      Links(s, if t.l == Leaf then RightOf(t.l, elm, t.red, p) else LeftOf(p, elm, t.red, t.r), u);
      UnlinkReady(Store(s), root, p, t, u);
      AtFocus(Store(s), root, p, t);
      ghost var m, root0 := Store(s), root;
      if child != null {
        child.parent := parent;
      }
      if parent != null {
        if parent.left == elm {
          parent.left := child;
        } else {
          parent.right := child;
        }
      } else {
        root := child;
      }
      Unlinked(m, root0, Store(s), root, p, t, u);
      AtFocus(Store(s), root, p, u);
    }

    lemma InTree(s: set<Node>, p: Path, l: Tree, x: Node, c: bool, r: Tree)
      requires Holds(s, Plug(p, Branch(l, x, c, r)))
      ensures (l.Branch? ==> l.x in s) && (r.Branch? ==> r.x in s)
    {
      Links(s, LeftOf(p, x, c, r), l);
      Links(s, RightOf(l, x, c, p), r);
    }

    // The node elm, which is in no tree, takes the place of victim.
    method Replace(victim: Node, elm: Node, ghost s: set<Node>, ghost p: Path, ghost l: Tree, ghost c: bool,
      ghost r: Tree)
      requires Holds(s, Plug(p, Branch(l, victim, c, r))) && l.Branch?
      requires elm in s && elm !in Nodes(Plug(p, Branch(l, victim, c, r)))
      modifies `root, s
      ensures Holds(s, Plug(p, Branch(l, elm, c, r)))
    {
      hide At, Nodes, PathNodes, Plug;
      Links(s, p, Branch(l, victim, c, r));
      InTree(s, p, l, victim, c, r);
      ReplaceReady(Store(s), root, p, l, victim, c, r, elm);
      LeftChildApart(Store(s), root, p, l, victim, c, r, elm);
      RightChildApart(Store(s), root, p, l, victim, c, r, elm);
      AtFocus(Store(s), root, p, Branch(l, victim, c, r));
      ghost var m, root0 := Store(s), root;
      elm.left, elm.right, elm.parent, elm.red := victim.left, victim.right, victim.parent, victim.red;
      if victim.parent != null {
        if victim.parent.left == victim {
          victim.parent.left := elm;
        } else {
          victim.parent.right := elm;
        }
      } else {
        root := elm;
      }
      victim.left.parent := elm;
      if victim.right != null {
        victim.right.parent := elm;
      }
      Replaced(m, root0, Store(s), root, p, l, victim, c, r, elm);
      AtFocus(Store(s), root, p, Branch(l, elm, c, r));
    }

    // RB_REMOVE of a node with at most one child.
    method RemoveOuter(elm: Node, child: Node?, ghost s: set<Node>, ghost p: Path, ghost t: Tree, ghost u: Tree)
      returns (ghost t': Tree)
      requires Holds(s, Plug(p, t)) && RedBlack(Plug(p, t)) && Sorted(InOrder(Plug(p, t)))
      requires t.Branch? && t.x == elm && child == Root(u) && ((t.l == Leaf && t.r == u) || (t.l == u && t.r == Leaf))
      modifies `root, s
      ensures Holds(s, t') && RedBlack(t') && Sorted(InOrder(t')) && Nodes(t') == Nodes(Plug(p, t)) - {elm}
      ensures InOrder(t') == Without(InOrder(Plug(p, t)), elm)
    {
      hide Holds, InOrder, Nodes, RedBlack, Sorted, Without, RemoveState, Plug;
      Links(s, p, t);
      OuterColours(p, t, u);
      OuterOrder(p, t, u);
      var parent := elm.parent;
      var color := elm.red;
      Unlink(elm, child, parent, s, p, t, u);
      t' := Plug(p, u);
      if !color {
        t' := RemoveColor(parent, child, s, p, u);
        NodesInOrder(t');
        NodesInOrder(Plug(p, u));
      }
    }

    lemma Detached(s: set<Node>, p: Path, l: Tree, x: Node, c: bool, q: Path, y: Node, d: bool, u: Tree)
      requires Holds(s, Plug(Join(q, RightOf(l, x, c, p)), Branch(Leaf, y, d, u)))
      ensures y in s && y !in Nodes(Plug(Join(q, RightOf(l, x, c, p)), u))
      ensures !q.Top? ==> q.x != x
    {
      hide At, Plug, Nodes, Join;
      Successor(Store(s), root, p, l, x, c, q, y, d, u);
    }

    // RB_REMOVE of a node with two children.
    method RemoveInner(victim: Node, ghost s: set<Node>, ghost p: Path, ghost l: Tree, ghost c: bool, ghost r: Tree)
      returns (ghost t': Tree)
      requires var t := Plug(p, Branch(l, victim, c, r)); Holds(s, t) && RedBlack(t) && Sorted(InOrder(t))
      requires l.Branch? && r.Branch?
      modifies `root, s
      ensures var t := Plug(p, Branch(l, victim, c, r));
              Holds(s, t') && RedBlack(t') && Sorted(InOrder(t')) && Nodes(t') == Nodes(t) - {victim}
              && InOrder(t') == Without(InOrder(t), victim)
    {
      hide Holds, InOrder, Nodes, RedBlack, Sorted, Without, RemoveState, Plug, Join, Leftmost;
      ghost var t, base := Plug(p, Branch(l, victim, c, r)), RightOf(l, victim, c, p);
      ghost var q, v := Top, r;
      StartRight(p, l, victim, c, r);
      Links(s, p, Branch(l, victim, c, r));
      Links(s, Join(q, base), v);
      var elm := victim.right;
      while elm.left != null
        modifies {}
        invariant v.Branch? && v.x == elm && Plug(Join(q, base), v) == t && Leftmost(q)
        invariant elm.left == Root(v.l)
        decreases v
      {
        StepLeft(q, base, v);
        elm := elm.left;
        q, v := LeftOf(q, v.x, v.red, v.r), v.l;
        Links(s, Join(q, base), v);
      }
      ghost var u, d := v.r, v.red;
      Links(s, Join(q, base), v);
      Detached(s, p, l, victim, c, q, elm, d, u);
      InnerColours(p, l, victim, c, q, elm, d, u);
      InnerOrder(p, l, victim, c, q, elm, d, u);
      var child, parent, color := elm.right, elm.parent, elm.red;
      Unlink(elm, child, parent, s, Join(q, base), v, u);
      JoinParent(q, l, victim, elm, c, p);
      if elm.parent == victim {
        parent := elm;
      }
      JoinInner(q, l, victim, c, p, u);
      Replace(victim, elm, s, p, l, c, Plug(q, u));
      JoinInner(q, l, elm, c, p, u);
      t' := Plug(Join(q, RightOf(l, elm, c, p)), u);
      if !color {
        ghost var t1 := t';
        t' := RemoveColor(parent, child, s, Join(q, RightOf(l, elm, c, p)), u);
        NodesInOrder(t');
        NodesInOrder(t1);
      }
    }

    lemma Restrict(s: set<Node>, s': set<Node>, t: Tree)
      requires Holds(s, t) && Nodes(t) <= s' <= s
      ensures Holds(s', t)
    {
      hide At, Nodes;
      Restricted(Store(s), Store(s'), root, t);
    }

    method Remove(elm: Node) returns (r: Node)
      requires Valid() && elm in nodes
      modifies this, nodes
      ensures Valid() && r == elm && nodes == old(nodes) - {elm}
      ensures Elements() == Without(old(Elements()), elm)
    {
      hide InOrder, Nodes, RedBlack, Sorted, Without, Holds;
      ghost var p, t := Locate(Top, tree, elm);
      ghost var t';
      Links(nodes, p, t);
      if elm.left == null {
        t' := RemoveOuter(elm, elm.right, nodes, p, t, t.r);
      } else if elm.right == null {
        t' := RemoveOuter(elm, elm.left, nodes, p, t, t.l);
      } else {
        t' := RemoveInner(elm, nodes, p, t.l, t.red, t.r);
      }
      Restrict(nodes, nodes - {elm}, t');
      nodes, tree := nodes - {elm}, t';
      r := elm;
    }

    method Find(key: int) returns (r: Node?)
      requires Valid()
      ensures r != null ==> r in nodes && r.key == key
      ensures r == null ==> forall n :: n in nodes ==> n.key != key
    {
      hide Holds, InOrder, Nodes, RedBlack, Sorted, Order, Between;
      var tmp := root;
      ghost var p, t := Top, tree;
      Links(nodes, p, t);
      SearchStart(tree, key);
      while tmp != null
        invariant Plug(p, t) == tree && tmp == Root(t)
        invariant Between(p, key) && Sorted(Order(p, t))
        decreases t
      {
        Links(nodes, p, t);
        Descend(p, t, key);
        var comp := key - tmp.key;
        if comp < 0 {
          tmp := tmp.left;
          p, t := LeftOf(p, t.x, t.red, t.r), t.l;
        } else if comp > 0 {
          tmp := tmp.right;
          p, t := RightOf(t.l, t.x, t.red, p), t.r;
        } else {
          return tmp;
        }
      }
      FindEnd(p, key);
      return null;
    }

    method NFind(key: int) returns (r: Node?)
      requires Valid()
      ensures Ceiling(nodes, key, r)
    {
      hide Holds, InOrder, Nodes, RedBlack, Sorted, Order, Between;
      var tmp := root;
      var res: Node? := null;
      ghost var p, t := Top, tree;
      Links(nodes, p, t);
      SearchStart(tree, key);
      while tmp != null
        invariant Plug(p, t) == tree && tmp == Root(t)
        invariant Between(p, key) && Sorted(Order(p, t)) && res == First(After(p))
        decreases t
      {
        Links(nodes, p, t);
        Descend(p, t, key);
        var comp := key - tmp.key;
        if comp < 0 {
          res := tmp;
          tmp := tmp.left;
          p, t := LeftOf(p, t.x, t.red, t.r), t.l;
        } else if comp > 0 {
          tmp := tmp.right;
          p, t := RightOf(t.l, t.x, t.red, p), t.r;
        } else {
          return tmp;
        }
      }
      NFindEnd(p, key);
      return res;
    }

    // The first element for a negative val, else the last one.
    method MinMax(val: int) returns (r: Node?)
      requires Valid()
      ensures r == if val < 0 then First(Elements()) else Last(Elements())
    {
      hide Holds, Nodes, RedBlack, Sorted, InOrder, Order;
      var tmp := root;
      r := null;
      ghost var p, t := Top, tree;
      Links(nodes, p, t);
      InOrderPlug(p, t);
      while tmp != null
        invariant Plug(p, t) == tree && tmp == Root(t) && r == Parent(p)
        invariant val < 0 ==> Before(p) == [] && !p.RightOf? && r == First(After(p))
        invariant val >= 0 ==> After(p) == [] && !p.LeftOf? && r == Last(Before(p))
        decreases t
      {
        Links(nodes, p, t);
        r := tmp;
        if val < 0 {
          tmp := tmp.left;
          p, t := LeftOf(p, t.x, t.red, t.r), t.l;
        } else {
          tmp := tmp.right;
          p, t := RightOf(t.l, t.x, t.red, p), t.r;
        }
      }
      InOrderPlug(p, Leaf);
      LeafOrder(p);
    }

    method Next(elm: Node) returns (r: Node?)
      requires Valid() && elm in nodes
      ensures IsNext(Elements(), elm, r)
    {
      hide Holds, Nodes, RedBlack, Sorted, InOrder, Before, IsNext;
      ghost var p, t := Locate(Top, tree, elm);
      Links(nodes, p, t);
      NeighboursAt(tree, p, t);
      r := elm;
      if r.right != null {
        r := r.right;
        ghost var q, u := RightOf(t.l, t.x, t.red, p), t.r;
        Links(nodes, q, u);
        while r.left != null
          invariant Plug(q, u) == tree && u.Branch? && r == u.x && r.left == Root(u.l)
          invariant First(InOrder(u) + After(q)) == First(InOrder(t.r) + After(p))
          decreases u
        {
          r := r.left;
          NextDown(q, u);
          q, u := LeftOf(q, u.x, u.red, u.r), u.l;
          Links(nodes, q, u);
        }
        NextBottom(q, u);
      } else {
        if r.parent != null && r == r.parent.left {
          r := r.parent;
        } else {
          ghost var q, u := p, t;
          while r.parent != null && r == r.parent.right
            invariant Plug(q, u) == tree && u.Branch? && r == u.x && r.parent == Parent(q) && After(q) == After(p)
            decreases q
          {
            Links(nodes, q, u);
            r := r.parent;
            q, u := q.up, Branch(q.l, q.x, q.red, u);
            Links(nodes, q, u);
          }
          Links(nodes, q, u);
          r := r.parent;
        }
      }
    }

    method Prev(elm: Node) returns (r: Node?)
      requires Valid() && elm in nodes
      ensures IsPrev(Elements(), elm, r)
    {
      hide Holds, Nodes, RedBlack, Sorted, InOrder, After, IsPrev;
      ghost var p, t := Locate(Top, tree, elm);
      Links(nodes, p, t);
      NeighboursAt(tree, p, t);
      r := elm;
      if r.left != null {
        r := r.left;
        ghost var q, u := LeftOf(p, t.x, t.red, t.r), t.l;
        Links(nodes, q, u);
        while r.right != null
          invariant Plug(q, u) == tree && u.Branch? && r == u.x && r.right == Root(u.r)
          invariant Last(Before(q) + InOrder(u)) == Last(Before(p) + InOrder(t.l))
          decreases u
        {
          r := r.right;
          NextDown(q, u);
          q, u := RightOf(u.l, u.x, u.red, q), u.r;
          Links(nodes, q, u);
        }
        NextBottom(q, u);
      } else {
        if r.parent != null && r == r.parent.right {
          r := r.parent;
        } else {
          ghost var q, u := p, t;
          while r.parent != null && r == r.parent.left
            invariant Plug(q, u) == tree && u.Branch? && r == u.x && r.parent == Parent(q) && Before(q) == Before(p)
            decreases q
          {
            Links(nodes, q, u);
            r := r.parent;
            q, u := q.up, Branch(u, q.x, q.red, q.r);
            Links(nodes, q, u);
          }
          Links(nodes, q, u);
          r := r.parent;
        }
      }
    }

    // RB_FOREACH: the elements that the loop visits.
    method ForEach() returns (visited: seq<Node>)
      requires Valid()
      ensures visited == Elements()
    {
      hide Holds, InOrder, Nodes, RedBlack, Sorted;
      NodesInOrder(tree);
      ghost var e := Elements();
      visited := [];
      var x := MinMax(-1);
      while x != null
        invariant |visited| <= |e| && visited == e[..|visited|]
        invariant x == if |visited| < |e| then e[|visited|] else null
        decreases |e| - |visited|
      {
        visited := visited + [x];
        var y := Next(x);
        NextAt(e, |visited| - 1, y);
        x := y;
      }
    }

    // RB_FOREACH_REVERSE: the elements that the loop visits.
    method ForEachReverse() returns (visited: seq<Node>)
      requires Valid()
      ensures |visited| == |Elements()|
      ensures forall i :: 0 <= i < |visited| ==> visited[i] == Elements()[|visited| - 1 - i]
    {
      hide Holds, InOrder, Nodes, RedBlack, Sorted;
      NodesInOrder(tree);
      ghost var e := Elements();
      visited := [];
      var x := MinMax(1);
      while x != null
        invariant |visited| <= |e|
        invariant forall i :: 0 <= i < |visited| ==> visited[i] == e[|e| - 1 - i]
        invariant x == if |visited| < |e| then e[|e| - 1 - |visited|] else null
        decreases |e| - |visited|
      {
        visited := visited + [x];
        var y := Prev(x);
        PrevAt(e, |e| - |visited|, y);
        x := y;
      }
    }
  }
}
