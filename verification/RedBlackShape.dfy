/** The red-black tree of include/uv/tree.h: parent-linked nodes whose links and
    colours are rewritten in place. */
module RedBlackShape {
  import opened Common

  class Node {
    const key: int
    var left: Node?
    var right: Node?
    var parent: Node?
    var red: bool

    constructor (key: int)
      ensures this.key == key
    {
      this.key := key;
      left, right, parent, red := null, null, null, false;
    }
  }

  datatype Entry = Entry(left: Node?, right: Node?, parent: Node?, red: bool)

  // The links of the nodes in s.
  ghost function Store(s: set<Node>): (m: map<Node, Entry>)
    reads s
    ensures m.Keys == s
  {
    map n | n in s :: Entry(n.left, n.right, n.parent, n.red)
  }

  datatype Tree = Leaf | Branch(l: Tree, x: Node, red: bool, r: Tree)

  // LeftOf(up, x, red, r) is the position of x's left child, RightOf that of its right child.
  datatype Path =
    | Top
    | LeftOf(up: Path, x: Node, red: bool, r: Tree)
    | RightOf(l: Tree, x: Node, red: bool, up: Path)

  ghost function Plug(p: Path, t: Tree): Tree {
    match p
    case Top => t
    case LeftOf(up, x, red, r) => Plug(up, Branch(t, x, red, r))
    case RightOf(l, x, red, up) => Plug(up, Branch(l, x, red, t))
  }

  lemma {:induction false} PlugBranch(p: Path, t: Tree)
    requires t.Branch? || !p.Top?
    ensures Plug(p, t).Branch?
  {
    match p
    case Top =>
    case LeftOf(up, x, red, r) => PlugBranch(up, Branch(t, x, red, r));
    case RightOf(l, x, red, up) => PlugBranch(up, Branch(l, x, red, t));
  }

  ghost function Root(t: Tree): Node? {
    if t.Leaf? then null else t.x
  }

  ghost function Parent(p: Path): Node? {
    if p.Top? then null else p.x
  }

  // The root of the whole tree when h is the root of the subtree at p.
  ghost function Uppermost(p: Path, h: Node?): Node? {
    if p.Top? then h else Uppermost(p.up, p.x)
  }

  lemma {:induction false} UppermostInPath(p: Path, h: Node?)
    requires !p.Top?
    ensures Uppermost(p, h) in PathNodes(p)
  {
    if !p.up.Top? {
      UppermostInPath(p.up, p.x);
    }
  }

  ghost function Nodes(t: Tree): set<Node> {
    if t.Leaf? then {} else Nodes(t.l) + {t.x} + Nodes(t.r)
  }

  ghost function PathNodes(p: Path): set<Node> {
    match p
    case Top => {}
    case LeftOf(up, x, _, r) => PathNodes(up) + {x} + Nodes(r)
    case RightOf(l, x, _, up) => Nodes(l) + {x} + PathNodes(up)
  }

  // No node occurs twice.
  ghost predicate Apart(t: Tree) {
    t.Branch? ==>
      && t.x !in Nodes(t.l) && t.x !in Nodes(t.r) && Nodes(t.l) !! Nodes(t.r)
      && Apart(t.l) && Apart(t.r)
  }

  ghost predicate PathApart(p: Path) {
    match p
    case Top => true
    case LeftOf(up, x, _, r) =>
      x !in PathNodes(up) && x !in Nodes(r) && Nodes(r) !! PathNodes(up) && Apart(r) && PathApart(up)
    case RightOf(l, x, _, up) =>
      x !in PathNodes(up) && x !in Nodes(l) && Nodes(l) !! PathNodes(up) && Apart(l) && PathApart(up)
  }

  // The store holds the tree t below the node p.
  ghost predicate Rep(m: map<Node, Entry>, t: Tree, p: Node?) {
    t.Branch? ==>
      && t.x in m && m[t.x] == Entry(Root(t.l), Root(t.r), p, t.red)
      && Rep(m, t.l, t.x) && Rep(m, t.r, t.x)
  }

  // The store holds the ancestors and their other children; the hole holds h.
  ghost predicate PathRep(m: map<Node, Entry>, p: Path, h: Node?) {
    match p
    case Top => true
    case LeftOf(up, x, red, r) =>
      x in m && m[x] == Entry(h, Root(r), Parent(up), red) && Rep(m, r, x) && PathRep(m, up, x)
    case RightOf(l, x, red, up) =>
      x in m && m[x] == Entry(Root(l), h, Parent(up), red) && Rep(m, l, x) && PathRep(m, up, x)
  }

  ghost predicate At(m: map<Node, Entry>, root: Node?, p: Path, t: Tree) {
    && Apart(t) && PathApart(p) && Nodes(t) !! PathNodes(p)
    && Rep(m, t, Parent(p)) && PathRep(m, p, Root(t))
    && root == Uppermost(p, Root(t))
  }

  ghost predicate Same(m: map<Node, Entry>, m': map<Node, Entry>, s: set<Node>) {
    forall n :: n in s && n in m ==> n in m' && m'[n] == m[n]
  }

  // The topmost node of t gets another parent.
  ghost predicate NewParent(m: map<Node, Entry>, m': map<Node, Entry>, t: Tree, h: Node?) {
    t.Branch? ==> t.x in m && t.x in m' && m'[t.x] == m[t.x].(parent := h)
  }

  // The node at the end of p gets another child in the hole.
  ghost predicate NewChild(m: map<Node, Entry>, m': map<Node, Entry>, p: Path, h: Node?) {
    && (p.LeftOf? ==> p.x in m && p.x in m' && m'[p.x] == m[p.x].(left := h))
    && (p.RightOf? ==> p.x in m && p.x in m' && m'[p.x] == m[p.x].(right := h))
  }

  lemma {:induction false} Frame(m: map<Node, Entry>, m': map<Node, Entry>, t: Tree, p: Node?)
    requires Rep(m, t, p) && Same(m, m', Nodes(t))
    ensures Rep(m', t, p)
  {
    if t.Branch? {
      Frame(m, m', t.l, t.x);
      Frame(m, m', t.r, t.x);
    }
  }

  lemma {:induction false} PathFrame(m: map<Node, Entry>, m': map<Node, Entry>, p: Path, h: Node?)
    requires PathRep(m, p, h) && Same(m, m', PathNodes(p))
    ensures PathRep(m', p, h)
  {
    match p
    case Top =>
    case LeftOf(up, x, _, r) =>
      Frame(m, m', r, x);
      PathFrame(m, m', up, x);
    case RightOf(l, x, _, up) =>
      Frame(m, m', l, x);
      PathFrame(m, m', up, x);
  }

  lemma Rehang(m: map<Node, Entry>, m': map<Node, Entry>, p: Path, h: Node?, h': Node?)
    requires PathApart(p) && PathRep(m, p, h)
    requires Same(m, m', PathNodes(p) - {Parent(p)})
    requires p.LeftOf? ==> p.x in m' && m'[p.x] == m[p.x].(left := h')
    requires p.RightOf? ==> p.x in m' && m'[p.x] == m[p.x].(right := h')
    ensures PathRep(m', p, h')
  {
    match p
    case Top =>
    case LeftOf(up, x, _, r) =>
      Frame(m, m', r, x);
      PathFrame(m, m', up, x);
    case RightOf(l, x, _, up) =>
      Frame(m, m', l, x);
      PathFrame(m, m', up, x);
  }

  lemma Reparent(m: map<Node, Entry>, m': map<Node, Entry>, t: Tree, p: Node?, p': Node?)
    requires Apart(t) && Rep(m, t, p)
    requires Same(m, m', Nodes(t) - {Root(t)})
    requires t.Branch? ==> t.x in m' && m'[t.x] == m[t.x].(parent := p')
    ensures Rep(m', t, p')
  {
    if t.Branch? {
      Frame(m, m', t.l, t.x);
      Frame(m, m', t.r, t.x);
    }
  }

  lemma {:induction false} RepKeys(m: map<Node, Entry>, t: Tree, p: Node?)
    requires Rep(m, t, p)
    ensures Nodes(t) <= m.Keys
  {
    if t.Branch? {
      RepKeys(m, t.l, t.x);
      RepKeys(m, t.r, t.x);
    }
  }

  lemma RotatedApart(a: Tree, x: Node, c: bool, b: Tree, y: Node, d: bool, e: Tree)
    requires Apart(Branch(a, x, c, Branch(b, y, d, e)))
    ensures Apart(Branch(Branch(a, x, c, b), y, d, e)) && Apart(b)
    ensures Nodes(Branch(a, x, c, Branch(b, y, d, e))) == Nodes(a) + {x} + Nodes(b) + {y} + Nodes(e)
    ensures Nodes(Branch(Branch(a, x, c, b), y, d, e)) == Nodes(a) + {x} + Nodes(b) + {y} + Nodes(e)
    ensures x != y && {x, y} !! Nodes(a) && {x, y} !! Nodes(b) && {x, y} !! Nodes(e) && Nodes(a) !! Nodes(b)
      && Nodes(b) !! Nodes(e) && Nodes(a) !! Nodes(e)
  {
    var t := Branch(b, y, d, e);
    assert Apart(t) && Nodes(t) == Nodes(b) + {y} + Nodes(e);
    var u := Branch(a, x, c, b);
    assert Nodes(u) == Nodes(a) + {x} + Nodes(b);
  }

  lemma RotatedApartBack(a: Tree, x: Node, c: bool, b: Tree, y: Node, d: bool, e: Tree)
    requires Apart(Branch(Branch(a, x, c, b), y, d, e))
    ensures Apart(Branch(a, x, c, Branch(b, y, d, e))) && Apart(b)
    ensures Nodes(Branch(a, x, c, Branch(b, y, d, e))) == Nodes(a) + {x} + Nodes(b) + {y} + Nodes(e)
    ensures Nodes(Branch(Branch(a, x, c, b), y, d, e)) == Nodes(a) + {x} + Nodes(b) + {y} + Nodes(e)
    ensures x != y && {x, y} !! Nodes(a) && {x, y} !! Nodes(b) && {x, y} !! Nodes(e) && Nodes(a) !! Nodes(b)
      && Nodes(b) !! Nodes(e) && Nodes(a) !! Nodes(e)
  {
    var t := Branch(b, y, d, e);
    assert Nodes(t) == Nodes(b) + {y} + Nodes(e);
    var u := Branch(a, x, c, b);
    assert Apart(u) && Nodes(u) == Nodes(a) + {x} + Nodes(b);
  }

  lemma RotatedLeft(m: map<Node, Entry>, root: Node?, m': map<Node, Entry>, root': Node?, p: Path,
                    a: Tree, x: Node, c: bool, b: Tree, y: Node, d: bool, e: Tree)
    requires At(m, root, p, Branch(a, x, c, Branch(b, y, d, e)))
    requires Same(m, m', m.Keys - {x, y, Root(b), Parent(p)})
    requires x in m' && m'[x] == Entry(Root(a), Root(b), y, c)
    requires y in m' && m'[y] == Entry(x, Root(e), Parent(p), d)
    requires NewParent(m, m', b, x)
    requires NewChild(m, m', p, y)
    requires root' == if p.Top? then y else root
    ensures At(m', root', p, Branch(Branch(a, x, c, b), y, d, e))
  {
    var t := Branch(b, y, d, e);
    RotatedApart(a, x, c, b, y, d, e);
    assert Rep(m, t, x);
    RepKeys(m, a, x);
    RepKeys(m, b, y);
    RepKeys(m, e, y);
    Reparent(m, m', b, y, x);
    Frame(m, m', a, x);
    Frame(m, m', e, y);
    Rehang(m, m', p, x, y);
  }

  // What RotateLeft demands of the links around x.
  lemma RotateLeftReady(m: map<Node, Entry>, root: Node?, p: Path,
                    a: Tree, x: Node, c: bool, b: Tree, y: Node, d: bool, e: Tree)
    requires At(m, root, p, Branch(a, x, c, Branch(b, y, d, e)))
    ensures x in m && m[x] == Entry(Root(a), y, Parent(p), c)
    ensures y in m && m[y] == Entry(Root(b), Root(e), x, d)
    ensures x != y && Parent(p) != x && Parent(p) != y
    ensures b.Branch? ==> b.x in m && b.x != x && b.x != y && b.x != Parent(p)
    ensures p.Top? ==> root == x
    ensures p.LeftOf? ==> p.x in m && m[p.x].left == x
    ensures p.RightOf? ==> p.x in m && m[p.x].right == x && m[p.x].left != x
  {
    RotatedApart(a, x, c, b, y, d, e);
    assert Rep(m, Branch(b, y, d, e), x);
    assert b.Branch? ==> b.x in Nodes(b) && Rep(m, b, y);
    assert p.LeftOf? ==> p.x in PathNodes(p);
    assert p.RightOf? ==> p.x in PathNodes(p) && (p.l.Branch? ==> p.l.x in Nodes(p.l));
  }

  lemma RotatedRight(m: map<Node, Entry>, root: Node?, m': map<Node, Entry>, root': Node?, p: Path,
                     a: Tree, x: Node, c: bool, b: Tree, y: Node, d: bool, e: Tree)
    requires At(m, root, p, Branch(Branch(a, x, c, b), y, d, e))
    requires Same(m, m', m.Keys - {x, y, Root(b), Parent(p)})
    requires x in m' && m'[x] == Entry(Root(a), y, Parent(p), c)
    requires y in m' && m'[y] == Entry(Root(b), Root(e), x, d)
    requires NewParent(m, m', b, y)
    requires NewChild(m, m', p, x)
    requires root' == if p.Top? then x else root
    ensures At(m', root', p, Branch(a, x, c, Branch(b, y, d, e)))
  {
    var t := Branch(a, x, c, b);
    RotatedApartBack(a, x, c, b, y, d, e);
    assert Rep(m, t, y);
    RepKeys(m, a, x);
    RepKeys(m, b, x);
    RepKeys(m, e, y);
    Reparent(m, m', b, x, y);
    Frame(m, m', a, x);
    Frame(m, m', e, y);
    Rehang(m, m', p, y, x);
  }

  // What RotateRight demands of the links around y.
  lemma RotateRightReady(m: map<Node, Entry>, root: Node?, p: Path,
                         a: Tree, x: Node, c: bool, b: Tree, y: Node, d: bool, e: Tree)
    requires At(m, root, p, Branch(Branch(a, x, c, b), y, d, e))
    ensures y in m && m[y] == Entry(x, Root(e), Parent(p), d)
    ensures x in m && m[x] == Entry(Root(a), Root(b), y, c)
    ensures x != y && Parent(p) != x && Parent(p) != y
    ensures b.Branch? ==> b.x in m && b.x != x && b.x != y && b.x != Parent(p)
    ensures p.Top? ==> root == y
    ensures p.LeftOf? ==> p.x in m && m[p.x].left == y
    ensures p.RightOf? ==> p.x in m && m[p.x].right == y && m[p.x].left != y
  {
    RotatedApartBack(a, x, c, b, y, d, e);
    assert Rep(m, Branch(a, x, c, b), y);
    assert b.Branch? ==> b.x in Nodes(b) && Rep(m, b, x);
    assert p.LeftOf? ==> p.x in PathNodes(p);
    assert p.RightOf? ==> p.x in PathNodes(p) && (p.l.Branch? ==> p.l.x in Nodes(p.l));
  }

  // ---------- single changes ----------

  lemma Painted(m: map<Node, Entry>, root: Node?, m': map<Node, Entry>, p: Path, t: Tree, red: bool)
    requires t.Branch? && At(m, root, p, t)
    requires t.x in m && t.x in m' && m'[t.x] == m[t.x].(red := red) && Same(m, m', m.Keys - {t.x})
    ensures At(m', root, p, t.(red := red))
  {
    assert t.x in Nodes(t);
    Frame(m, m', t.l, t.x);
    Frame(m, m', t.r, t.x);
    PathFrame(m, m', p, t.x);
  }

  lemma {:induction false} AtFocus(m: map<Node, Entry>, root: Node?, p: Path, t: Tree)
    ensures At(m, root, p, t) <==> At(m, root, Top, Plug(p, t))
  {
    match p
    case Top =>
    case LeftOf(up, x, red, r) =>
      AtFocus(m, root, up, Branch(t, x, red, r));
    case RightOf(l, x, red, up) =>
      AtFocus(m, root, up, Branch(l, x, red, t));
  }

  // ---------- order ----------

  ghost function InOrder(t: Tree): seq<Node> {
    if t.Leaf? then [] else InOrder(t.l) + [t.x] + InOrder(t.r)
  }

  // The nodes that precede and follow the position p in the order of the tree.
  ghost function Before(p: Path): seq<Node> {
    match p
    case Top => []
    case LeftOf(up, _, _, _) => Before(up)
    case RightOf(l, x, _, up) => Before(up) + InOrder(l) + [x]
  }

  ghost function After(p: Path): seq<Node> {
    match p
    case Top => []
    case LeftOf(up, x, _, r) => [x] + InOrder(r) + After(up)
    case RightOf(_, _, _, up) => After(up)
  }

  ghost function Order(p: Path, t: Tree): seq<Node> {
    Before(p) + InOrder(t) + After(p)
  }

  lemma Assoc(a: seq<Node>, b: seq<Node>, x: Node, c: seq<Node>, d: seq<Node>)
    ensures a + (b + [x] + c) + d == a + b + ([x] + c + d) == (a + b + [x]) + c + d
    ensures a + (b + [x] + c) + d == (a + b) + [x] + (c + d)
  {
  }

  // The order does not depend on where the tree is split.
  lemma SplitOrder(p: Path, l: Tree, x: Node, red: bool, r: Tree)
    ensures Order(LeftOf(p, x, red, r), l) == Order(p, Branch(l, x, red, r)) == Order(RightOf(l, x, red, p), r)
    ensures Order(p, Branch(l, x, red, r)) == (Before(p) + InOrder(l)) + [x] + (InOrder(r) + After(p))
  {
    Assoc(Before(p), InOrder(l), x, InOrder(r), After(p));
  }

  lemma {:induction false} InOrderPlug(p: Path, t: Tree)
    ensures InOrder(Plug(p, t)) == Order(p, t)
  {
    hide InOrder, Order;
    match p
    case Top =>
      TopOrder(t);
    case LeftOf(up, x, red, r) =>
      InOrderPlug(up, Branch(t, x, red, r));
      SplitOrder(up, t, x, red, r);
    case RightOf(l, x, red, up) =>
      InOrderPlug(up, Branch(l, x, red, t));
      SplitOrder(up, l, x, red, t);
  }

  lemma TopOrder(t: Tree)
    ensures Order(Top, t) == InOrder(t)
  {
  }

  lemma {:induction false} NodesInOrder(t: Tree)
    ensures Nodes(t) == Members(InOrder(t))
  {
    if t.Branch? {
      NodesInOrder(t.l);
      NodesInOrder(t.r);
      assert Members(InOrder(t)) == Members(InOrder(t.l)) + {t.x} + Members(InOrder(t.r));
    }
  }

  lemma {:induction false} NodesPlug(p: Path, t: Tree)
    ensures Nodes(Plug(p, t)) == PathNodes(p) + Nodes(t)
  {
    match p
    case Top =>
    case LeftOf(up, x, red, r) =>
      NodesPlug(up, Branch(t, x, red, r));
    case RightOf(l, x, red, up) =>
      NodesPlug(up, Branch(l, x, red, t));
  }

  ghost predicate Sorted(s: seq<Node>) {
    forall i, j :: 0 <= i < j < |s| ==> s[i].key < s[j].key
  }

  // ---------- colours ----------

  ghost predicate IsRed(t: Tree) {
    t.Branch? && t.red
  }

  ghost predicate NoRedRed(t: Tree) {
    t.Branch? ==>
      && (t.red ==> !IsRed(t.l) && !IsRed(t.r))
      && NoRedRed(t.l) && NoRedRed(t.r)
  }

  // Black nodes on the leftmost search path; on every search path when Balanced.
  ghost function BlackHeight(t: Tree): nat {
    if t.Leaf? then 0 else BlackHeight(t.l) + if t.red then 0 else 1
  }

  ghost predicate Balanced(t: Tree) {
    t.Branch? ==> BlackHeight(t.l) == BlackHeight(t.r) && Balanced(t.l) && Balanced(t.r)
  }

  // The conditions stated at the head of the file, with a black root.
  ghost predicate RedBlack(t: Tree) {
    !IsRed(t) && NoRedRed(t) && Balanced(t)
  }

  ghost predicate PathColoured(p: Path) {
    match p
    case Top => true
    case LeftOf(up, _, red, r) =>
      NoRedRed(r) && (red ==> !IsRed(r) && !up.Top? && !up.red) && PathColoured(up)
    case RightOf(l, _, red, up) =>
      NoRedRed(l) && (red ==> !IsRed(l) && !up.Top? && !up.red) && PathColoured(up)
  }

  // A subtree of black height h fits at p.
  ghost predicate PathBalanced(p: Path, h: nat) {
    match p
    case Top => true
    case LeftOf(up, _, red, r) =>
      Balanced(r) && BlackHeight(r) == h && PathBalanced(up, h + if red then 0 else 1)
    case RightOf(l, _, red, up) =>
      Balanced(l) && BlackHeight(l) == h && PathBalanced(up, h + if red then 0 else 1)
  }

  lemma {:induction false} PlugRedBlack(p: Path, t: Tree)
    requires PathColoured(p) && PathBalanced(p, BlackHeight(t)) && NoRedRed(t) && Balanced(t)
    requires IsRed(t) ==> !p.Top? && !p.red
    ensures RedBlack(Plug(p, t))
  {
    match p
    case Top =>
    case LeftOf(up, x, red, r) =>
      PlugRedBlack(up, Branch(t, x, red, r));
    case RightOf(l, x, red, up) =>
      PlugRedBlack(up, Branch(l, x, red, t));
  }

  lemma {:induction false} UnplugRedBlack(p: Path, t: Tree)
    requires RedBlack(Plug(p, t))
    ensures PathColoured(p) && PathBalanced(p, BlackHeight(t)) && NoRedRed(t) && Balanced(t)
    ensures IsRed(t) ==> !p.Top? && !p.red
  {
    match p
    case Top =>
    case LeftOf(up, x, red, r) =>
      UnplugRedBlack(up, Branch(t, x, red, r));
    case RightOf(l, x, red, up) =>
      UnplugRedBlack(up, Branch(l, x, red, t));
  }

  lemma RotatedOrder(p: Path, a: Tree, x: Node, c: bool, b: Tree, y: Node, d: bool, e: Tree)
    ensures InOrder(Plug(p, Branch(a, x, c, Branch(b, y, d, e))))
      == InOrder(Plug(p, Branch(Branch(a, x, c, b), y, d, e)))
  {
    hide InOrder, Order, Plug;
    var q := LeftOf(p, y, d, e);
    var t, u := Branch(a, x, c, Branch(b, y, d, e)), Branch(Branch(a, x, c, b), y, d, e);
    InOrderPlug(p, t);
    InOrderPlug(p, u);
    SpineOrder(t);
    SpineOrder(u);
    SpineOrder(t.r);
    SpineOrder(u.l);
    Assoc(InOrder(a) + [x], InOrder(b), y, InOrder(e), []);
    SameOrder(p, t, u);
  }

  lemma SameOrder(p: Path, t: Tree, u: Tree)
    requires InOrder(t) == InOrder(u)
    ensures Order(p, t) == Order(p, u)
  {
  }

  lemma SpineOrder(t: Tree)
    requires t.Branch?
    ensures InOrder(t) == InOrder(t.l) + [t.x] + InOrder(t.r)
    ensures t.l == Leaf ==> InOrder(t) == [t.x] + InOrder(t.r)
    ensures t.r == Leaf ==> InOrder(t) == InOrder(t.l) + [t.x]
  {
  }

  lemma PaintedOrder(p: Path, t: Tree, red: bool)
    requires t.Branch?
    ensures InOrder(Plug(p, t.(red := red))) == InOrder(Plug(p, t))
  {
    InOrderPlug(p, t);
    InOrderPlug(p, t.(red := red));
  }

  // ---------- the loop invariants of insertion and removal ----------

  ghost function Depth(p: Path): nat {
    if p.Top? then 0 else 1 + Depth(p.up)
  }

  // A red node sits at p; only its parent may be red as well.
  ghost predicate InsertState(p: Path, t: Tree) {
    IsRed(t) && NoRedRed(t) && Balanced(t) && PathColoured(p) && PathBalanced(p, BlackHeight(t))
  }

  ghost function Blackened(t: Tree): Tree {
    if t.Leaf? then t else t.(red := false)
  }

  // The subtree at p is one black node short; its own root may be red below a red parent.
  ghost predicate RemoveState(p: Path, t: Tree) {
    NoRedRed(Blackened(t)) && Balanced(t) && PathColoured(p) && PathBalanced(p, BlackHeight(t) + 1)
  }

  // The red subtree formed at the parent of p by a red parent and the red node below it.
  ghost function RedPair(p: Path, t: Tree): Tree
    requires !p.Top?
  {
    if p.LeftOf? then Branch(t, p.x, p.red, p.r) else Branch(p.l, p.x, p.red, t)
  }

  // A red parent has a black parent of its own; so the loops may look at the grandparent.
  lemma InsertAbove(p: Path, t: Tree)
    requires InsertState(p, t) && !p.Top? && p.red
    ensures !p.up.Top? && !p.up.red
    ensures var u := if p.up.LeftOf? then p.up.r else p.up.l;
            NoRedRed(u) && Balanced(u) && BlackHeight(u) == BlackHeight(t)
    ensures PathColoured(p.up.up) && PathBalanced(p.up.up, BlackHeight(t) + 1)
    ensures p.LeftOf? ==> NoRedRed(p.r) && !IsRed(p.r) && Balanced(p.r) && BlackHeight(p.r) == BlackHeight(t)
    ensures p.RightOf? ==> NoRedRed(p.l) && !IsRed(p.l) && Balanced(p.l) && BlackHeight(p.l) == BlackHeight(t)
    ensures Depth(p) == 2 + Depth(p.up.up)
  {
    assert PathColoured(p.up) && PathBalanced(p.up, BlackHeight(t));
  }

  lemma InsertRecoloured(up: Path, q: Tree, g: Node, u: Tree)
    requires IsRed(q) && NoRedRed(q.(red := false)) && Balanced(q) && IsRed(u) && NoRedRed(u) && Balanced(u)
      && BlackHeight(u) == BlackHeight(q)
    requires PathColoured(up) && PathBalanced(up, BlackHeight(q) + 1)
    ensures InsertState(up, Branch(q.(red := false), g, true, u.(red := false)))
    ensures InsertState(up, Branch(u.(red := false), g, true, q.(red := false)))
  {
  }

  ghost function Sibling(p: Path): Tree
    requires !p.Top?
  {
    if p.LeftOf? then p.r else p.l
  }

  // The sibling of a subtree that is one black node short is a real node, and a red one has two black children.
  lemma RemoveSibling(p: Path, t: Tree)
    requires RemoveState(p, t) && !IsRed(t) && !p.Top?
    ensures var w := Sibling(p);
            && w.Branch? && NoRedRed(w) && Balanced(w) && BlackHeight(w) == BlackHeight(t) + 1
            && (w.red ==> !p.red && w.l.Branch? && !w.l.red && w.r.Branch? && !w.r.red)
    ensures NoRedRed(t) && Balanced(t)
    ensures PathColoured(p.up) && PathBalanced(p.up, BlackHeight(t) + if p.red then 1 else 2)
    ensures p.red ==> !p.up.Top? && !p.up.red
    ensures Depth(p) == 1 + Depth(p.up)
  {
    var w := Sibling(p);
    assert BlackHeight(w) == BlackHeight(t) + 1;
  }

  ghost function Shortage(p: Path, t: Tree): nat {
    if IsRed(t) then 0 else 1 + Depth(p)
  }

  // Rotating a red sibling above the parent leaves the shortage below a red parent with a black sibling.
  lemma RemoveRotated(up: Path, x: Node, w: Tree, t: Tree)
    requires IsRed(w) && NoRedRed(w) && Balanced(w) && BlackHeight(w) == BlackHeight(t) + 1
    requires !IsRed(t) && NoRedRed(t) && Balanced(t) && PathColoured(up) && PathBalanced(up, BlackHeight(t) + 2)
    ensures RemoveState(LeftOf(LeftOf(up, w.x, false, w.r), x, true, w.l), t)
    ensures RemoveState(RightOf(w.r, x, true, RightOf(w.l, w.x, false, up)), t)
  {
    assert PathColoured(LeftOf(up, w.x, false, w.r)) && PathColoured(RightOf(w.l, w.x, false, up));
    assert PathBalanced(LeftOf(up, w.x, false, w.r), BlackHeight(t) + 1);
    assert PathBalanced(RightOf(w.l, w.x, false, up), BlackHeight(t) + 1);
  }

  // Colouring a black sibling red moves the shortage up.
  lemma RemoveLifted(up: Path, x: Node, c: bool, w: Tree, t: Tree)
    requires w.Branch? && !w.red && NoRedRed(w) && Balanced(w) && BlackHeight(w) == BlackHeight(t) + 1
    requires !IsRed(w.l) && !IsRed(w.r)
    requires !IsRed(t) && NoRedRed(t) && Balanced(t) && PathColoured(up)
      && PathBalanced(up, BlackHeight(t) + if c then 1 else 2)
    ensures RemoveState(up, Branch(t, x, c, w.(red := true)))
    ensures RemoveState(up, Branch(w.(red := true), x, c, t))
  {
  }

  // The last rotation repairs the shortage for good: b is the inner and e the outer nephew.
  lemma RemoveRepaired(up: Path, x: Node, c: bool, t: Tree, b: Tree, y: Node, e: Tree)
    requires PathColoured(up) && PathBalanced(up, BlackHeight(t) + if c then 1 else 2)
    requires c ==> !up.Top? && !up.red
    requires !IsRed(t) && NoRedRed(t) && Balanced(t) && NoRedRed(b) && Balanced(b) && BlackHeight(b) == BlackHeight(t)
    requires IsRed(e) && NoRedRed(e) && Balanced(e) && BlackHeight(e) == BlackHeight(t)
    ensures RedBlack(Plug(up, Branch(Branch(t, x, false, b), y, c, e.(red := false))))
    ensures RedBlack(Plug(up, Branch(e.(red := false), y, c, Branch(b, x, false, t))))
  {
    PlugRedBlack(up, Branch(Branch(t, x, false, b), y, c, e.(red := false)));
    PlugRedBlack(up, Branch(e.(red := false), y, c, Branch(b, x, false, t)));
  }

  lemma RemoveFinished(p: Path, t: Tree)
    requires RemoveState(p, t) && (IsRed(t) || p.Top?)
    ensures RedBlack(Plug(p, Blackened(t)))
  {
    assert IsRed(t) ==> BlackHeight(Blackened(t)) == BlackHeight(t) + 1;
    assert Balanced(Blackened(t));
    PlugRedBlack(p, Blackened(t));
  }

  // ---------- attaching, unlinking and replacing a node ----------

  lemma Attached(m: map<Node, Entry>, root: Node?, m': map<Node, Entry>, root': Node?, p: Path, x: Node)
    requires At(m, root, p, Leaf) && x !in m
    requires Same(m, m', m.Keys - {Parent(p)})
    requires x in m' && m'[x] == Entry(null, null, Parent(p), true)
    requires NewChild(m, m', p, x)
    requires root' == if p.Top? then x else root
    ensures At(m', root', p, Branch(Leaf, x, true, Leaf))
  {
    PathKeys(m, p, null);
    Rehang(m, m', p, null, x);
  }

  lemma {:induction false} PathKeys(m: map<Node, Entry>, p: Path, h: Node?)
    requires PathRep(m, p, h)
    ensures PathNodes(p) <= m.Keys
  {
    match p
    case Top =>
    case LeftOf(up, x, _, r) =>
      RepKeys(m, r, x);
      PathKeys(m, up, x);
    case RightOf(l, x, _, up) =>
      RepKeys(m, l, x);
      PathKeys(m, up, x);
  }

  // The node x had no child but the root of u, which takes its place.
  lemma Unlinked(m: map<Node, Entry>, root: Node?, m': map<Node, Entry>, root': Node?, p: Path, t: Tree, u: Tree)
    requires t.Branch? && At(m, root, p, t) && ((t.l == Leaf && t.r == u) || (t.l == u && t.r == Leaf))
    requires Same(m, m', m.Keys - {Parent(p), Root(u)})
    requires NewParent(m, m', u, Parent(p))
    requires NewChild(m, m', p, Root(u))
    requires root' == if p.Top? then Root(u) else root
    ensures At(m', root', p, u)
  {
    assert Nodes(u) <= Nodes(t);
    assert u.Branch? ==> u.x in Nodes(u);
    assert !p.Top? ==> p.x in PathNodes(p);
    RepKeys(m, u, t.x);
    PathKeys(m, p, t.x);
    Reparent(m, m', u, t.x, Parent(p));
    Rehang(m, m', p, t.x, Root(u));
  }

  // The node y takes the place of x.
  lemma Replaced(m: map<Node, Entry>, root: Node?, m': map<Node, Entry>, root': Node?, p: Path,
                 l: Tree, x: Node, c: bool, r: Tree, y: Node)
    requires At(m, root, p, Branch(l, x, c, r))
    requires y !in Nodes(Branch(l, x, c, r)) && y !in PathNodes(p)
    requires Same(m, m', m.Keys - {y, Root(l), Root(r), Parent(p)})
    requires y in m' && m'[y] == Entry(Root(l), Root(r), Parent(p), c)
    requires NewParent(m, m', l, y)
    requires NewParent(m, m', r, y)
    requires NewChild(m, m', p, y)
    requires root' == if p.Top? then y else root
    ensures At(m', root', p, Branch(l, y, c, r))
  {
    var t := Branch(l, x, c, r);
    assert Nodes(t) == Nodes(l) + {x} + Nodes(r);
    assert (l.Branch? ==> l.x in Nodes(l)) && (r.Branch? ==> r.x in Nodes(r));
    assert !p.Top? ==> p.x in PathNodes(p);
    RepKeys(m, l, x);
    RepKeys(m, r, x);
    PathKeys(m, p, x);
    Reparent(m, m', l, x, y);
    Reparent(m, m', r, x, y);
    Rehang(m, m', p, x, y);
  }

  // The position q below the position p.
  ghost function Join(q: Path, p: Path): Path {
    match q
    case Top => p
    case LeftOf(up, x, red, r) => LeftOf(Join(up, p), x, red, r)
    case RightOf(l, x, red, up) => RightOf(l, x, red, Join(up, p))
  }

  lemma {:induction false} PlugJoin(q: Path, p: Path, t: Tree)
    ensures Plug(Join(q, p), t) == Plug(p, Plug(q, t))
  {
    match q
    case Top =>
    case LeftOf(up, x, red, r) => PlugJoin(up, p, Branch(t, x, red, r));
    case RightOf(l, x, red, up) => PlugJoin(up, p, Branch(l, x, red, t));
  }

  lemma StartRight(p: Path, l: Tree, x: Node, c: bool, r: Tree)
    ensures Join(Top, RightOf(l, x, c, p)) == RightOf(l, x, c, p) && Leftmost(Top)
    ensures Plug(RightOf(l, x, c, p), r) == Plug(p, Branch(l, x, c, r))
  {
  }

  lemma StepLeft(q: Path, base: Path, v: Tree)
    requires v.Branch? && Leftmost(q)
    ensures Join(LeftOf(q, v.x, v.red, v.r), base) == LeftOf(Join(q, base), v.x, v.red, v.r)
    ensures Plug(LeftOf(Join(q, base), v.x, v.red, v.r), v.l) == Plug(Join(q, base), v)
    ensures Leftmost(LeftOf(q, v.x, v.red, v.r))
  {
  }

  lemma JoinParent(q: Path, l: Tree, x: Node, y: Node, c: bool, p: Path)
    ensures Parent(Join(q, RightOf(l, x, c, p))) == if q.Top? then x else q.x
    ensures Parent(Join(q, RightOf(l, y, c, p))) == if q.Top? then y else q.x
  {
  }

  lemma JoinInner(q: Path, l: Tree, x: Node, c: bool, p: Path, u: Tree)
    ensures Plug(Join(q, RightOf(l, x, c, p)), u) == Plug(p, Branch(l, x, c, Plug(q, u)))
  {
    PlugJoin(q, RightOf(l, x, c, p), u);
  }

  lemma {:induction false} JoinColoured(q: Path, l: Tree, x: Node, y: Node, c: bool, p: Path, h: nat)
    requires PathColoured(Join(q, RightOf(l, x, c, p))) && PathBalanced(Join(q, RightOf(l, x, c, p)), h)
    ensures PathColoured(Join(q, RightOf(l, y, c, p))) && PathBalanced(Join(q, RightOf(l, y, c, p)), h)
  {
    match q
    case Top =>
    case LeftOf(up, _, red, _) => JoinColoured(up, l, x, y, c, p, h + if red then 0 else 1);
    case RightOf(_, _, red, up) => JoinColoured(up, l, x, y, c, p, h + if red then 0 else 1);
  }

  // q leads to the leftmost position.
  ghost predicate Leftmost(q: Path) {
    match q
    case Top => true
    case LeftOf(up, _, _, _) => Leftmost(up)
    case RightOf(_, _, _, _) => false
  }

  lemma {:induction false} LeftmostBefore(q: Path)
    requires Leftmost(q)
    ensures Before(q) == []
  {
    if q.LeftOf? {
      LeftmostBefore(q.up);
    }
  }

  // ---------- searching ----------

  ghost predicate Between(p: Path, k: int) {
    (forall n :: n in Before(p) ==> n.key < k) && (forall n :: n in After(p) ==> k < n.key)
  }

  lemma SearchStart(t: Tree, k: int)
    requires Sorted(InOrder(t))
    ensures Between(Top, k) && Sorted(Order(Top, t))
  {
    TopOrder(t);
  }

  lemma SortedAround(b: seq<Node>, x: Node, a: seq<Node>)
    requires Sorted(b + [x] + a)
    ensures forall n :: n in b ==> n.key < x.key
    ensures forall n :: n in a ==> x.key < n.key
  {
    var s := b + [x] + a;
    assert s[|b|] == x;
    forall n | n in b ensures n.key < x.key {
      var j :| 0 <= j < |b| && b[j] == n;
      assert s[j] == n;
    }
    forall n | n in a ensures x.key < n.key {
      var j :| 0 <= j < |a| && a[j] == n;
      assert s[|b| + 1 + j] == n;
    }
  }

  lemma Descend(p: Path, t: Tree, k: int)
    requires t.Branch? && Sorted(Order(p, t)) && Between(p, k)
    ensures Order(LeftOf(p, t.x, t.red, t.r), t.l) == Order(p, t) == Order(RightOf(t.l, t.x, t.red, p), t.r)
    ensures k < t.x.key ==> Between(LeftOf(p, t.x, t.red, t.r), k)
    ensures k > t.x.key ==> Between(RightOf(t.l, t.x, t.red, p), k)
  {
    hide InOrder, Order, Sorted;
    SplitOrder(p, t.l, t.x, t.red, t.r);
    SortedAround(Before(p) + InOrder(t.l), t.x, InOrder(t.r) + After(p));
  }

  lemma {:induction false} Locate(p: Path, t: Tree, x: Node) returns (q: Path, u: Tree)
    requires x in Nodes(t)
    ensures Plug(q, u) == Plug(p, t) && u.Branch? && u.x == x
    decreases t
  {
    if x == t.x {
      q, u := p, t;
    } else if x in Nodes(t.l) {
      q, u := Locate(LeftOf(p, t.x, t.red, t.r), t.l, x);
    } else {
      q, u := Locate(RightOf(t.l, t.x, t.red, p), t.r, x);
    }
  }

  // ---------- height ----------

  ghost function Height(t: Tree): nat {
    if t.Leaf? then 0 else 1 + if Height(t.l) > Height(t.r) then Height(t.l) else Height(t.r)
  }

  ghost function Pow2(n: nat): nat {
    if n == 0 then 1 else 2 * Pow2(n - 1)
  }

  lemma {:induction false} Pow2Add(a: nat, b: nat)
    ensures Pow2(a + b) == Pow2(a) * Pow2(b)
  {
    if a > 0 {
      Pow2Add(a - 1, b);
    }
  }

  lemma {:induction false} Pow2Mono(a: nat, b: nat)
    requires a <= b
    ensures 1 <= Pow2(a) <= Pow2(b)
  {
    if b > a {
      Pow2Mono(a, b - 1);
    } else if a > 0 {
      Pow2Mono(a - 1, a - 1);
    }
  }

  lemma {:induction false} HeightOfBlackHeight(t: Tree)
    requires NoRedRed(t) && Balanced(t)
    ensures Height(t) <= 2 * BlackHeight(t) + if IsRed(t) then 1 else 0
    ensures Pow2(BlackHeight(t)) <= |InOrder(t)| + 1
  {
    if t.Branch? {
      HeightOfBlackHeight(t.l);
      HeightOfBlackHeight(t.r);
    }
  }

  lemma SquareMono(a: nat, b: nat)
    requires a <= b
    ensures a * a <= b * b
  {
    assert a * a <= a * b <= b * b;
  }

  // There is a node where these turns lead from the top, true being to the left.
  ghost predicate Reaches(t: Tree, turns: seq<bool>) {
    t.Branch? && (turns == [] || Reaches(if turns[0] then t.l else t.r, turns[1..]))
  }

  // The height is the number of nodes on the longest way down.
  lemma {:induction false} HeightIs(t: Tree, turns: seq<bool>)
    ensures Reaches(t, turns) ==> |turns| < Height(t)
    decreases t
  {
    if t.Branch? && turns != [] {
      HeightIs(if turns[0] then t.l else t.r, turns[1..]);
    }
  }

  lemma {:induction false} HeightReached(t: Tree) returns (turns: seq<bool>)
    requires t.Branch?
    ensures Reaches(t, turns) && |turns| + 1 == Height(t)
    decreases t
  {
    turns := [];
    var left := Height(t.l) > Height(t.r);
    if Height(t) > 1 {
      var more := HeightReached(if left then t.l else t.r);
      turns := [left] + more;
      assert turns[1..] == more;
    }
  }

  // The height of a red-black tree with n nodes is at most 2 lg(n+1).
  lemma HeightBound(t: Tree)
    requires RedBlack(t)
    ensures Pow2(Height(t)) <= (|InOrder(t)| + 1) * (|InOrder(t)| + 1)
  {
    HeightOfBlackHeight(t);
    var b, n := BlackHeight(t), |InOrder(t)| + 1;
    Pow2Mono(Height(t), b + b);
    Pow2Add(b, b);
    SquareMono(Pow2(b), n);
  }

  lemma SortedInsert(b: seq<Node>, x: Node, a: seq<Node>)
    requires Sorted(b + a)
    requires (forall n :: n in b ==> n.key < x.key) && (forall n :: n in a ==> x.key < n.key)
    ensures Sorted(b + [x] + a)
  {
    var s, u := b + a, b + [x] + a;
    forall i, j | 0 <= i < j < |u| ensures u[i].key < u[j].key {
      if j < |b| {
        assert s[i].key < s[j].key;
      } else if i > |b| {
        assert s[i - 1].key < s[j - 1].key;
      } else {
        assert i < |b| ==> b[i] in b;
        assert j > |b| ==> a[j - |b| - 1] in a;
      }
    }
  }

  // Where a search for an absent key ends, the key can be added in order.
  lemma InsertEnd(p: Path, x: Node)
    requires Between(p, x.key) && Sorted(InOrder(Plug(p, Leaf)))
    ensures forall n :: n in Nodes(Plug(p, Leaf)) ==> n.key != x.key
    ensures Sorted(InOrder(Plug(p, Branch(Leaf, x, true, Leaf))))
    ensures Nodes(Plug(p, Branch(Leaf, x, true, Leaf))) == Nodes(Plug(p, Leaf)) + {x}
  {
    hide Plug, InOrder, Nodes, PathNodes, Before, After, Order, Sorted;
    var b, a := Before(p), After(p);
    NodesInOrder(Plug(p, Leaf));
    NodesPlug(p, Leaf);
    NodesPlug(p, Branch(Leaf, x, true, Leaf));
    InOrderPlug(p, Leaf);
    InOrderPlug(p, Branch(Leaf, x, true, Leaf));
    LeafOrder(p);
    NewOrder(p, x);
    SortedInsert(b, x, a);
    forall n | n in Nodes(Plug(p, Leaf)) ensures n.key != x.key {
      assert n in b + a;
    }
  }

  lemma LeafOrder(p: Path)
    ensures Order(p, Leaf) == Before(p) + After(p) && Nodes(Leaf) == {}
  {
  }

  lemma NewOrder(p: Path, x: Node)
    ensures Order(p, Branch(Leaf, x, true, Leaf)) == Before(p) + [x] + After(p)
    ensures Nodes(Branch(Leaf, x, true, Leaf)) == {x}
  {
    assert InOrder(Branch(Leaf, x, true, Leaf)) == [x];
  }

  // ---------- removal ----------

  lemma SortedWithout(b: seq<Node>, x: Node, a: seq<Node>)
    requires Sorted(b + [x] + a)
    ensures Sorted(b + a) && Without(b + [x] + a, x) == b + a
    ensures Members(b + a) == Members(b + [x] + a) - {x}
  {
    hide Without;
    SortedAround(b, x, a);
    assert x !in a && x !in b;
    WithoutMiddle(b, x, a);
    StillSorted(b, x, a);
  }

  lemma StillSorted(b: seq<Node>, x: Node, a: seq<Node>)
    requires Sorted(b + [x] + a)
    ensures Sorted(b + a)
  {
    var s, u := b + [x] + a, b + a;
    forall i, j | 0 <= i < j < |u| ensures u[i].key < u[j].key {
      assert u[i] == s[if i < |b| then i else i + 1];
      assert u[j] == s[if j < |b| then j else j + 1];
    }
  }

  lemma NodesWithout(t: Tree, t': Tree, b: seq<Node>, x: Node, a: seq<Node>)
    requires Sorted(InOrder(t)) && InOrder(t) == b + [x] + a && InOrder(t') == b + a
    ensures InOrder(t') == Without(InOrder(t), x) && Sorted(InOrder(t')) && Nodes(t') == Nodes(t) - {x}
  {
    hide InOrder, Nodes, Sorted, Members, Without;
    NodesInOrder(t);
    NodesInOrder(t');
    SortedWithout(b, x, a);
  }

  // A node with at most one child gives way to that child.
  lemma OuterColours(p: Path, t: Tree, u: Tree)
    requires t.Branch? && ((t.l == Leaf && t.r == u) || (t.l == u && t.r == Leaf))
    requires RedBlack(Plug(p, t))
    ensures t.red ==> RedBlack(Plug(p, u))
    ensures !t.red ==> RemoveState(p, u)
  {
    UnplugRedBlack(p, t);
    if t.red {
      PlugRedBlack(p, u);
    }
  }

  lemma OuterOrder(p: Path, t: Tree, u: Tree)
    requires t.Branch? && ((t.l == Leaf && t.r == u) || (t.l == u && t.r == Leaf))
    requires Sorted(InOrder(Plug(p, t)))
    ensures InOrder(Plug(p, u)) == Without(InOrder(Plug(p, t)), t.x)
    ensures Sorted(InOrder(Plug(p, u))) && Nodes(Plug(p, u)) == Nodes(Plug(p, t)) - {t.x}
  {
    hide Plug, InOrder, Before, After, Sorted, Nodes, Without, Order;
    InOrderPlug(p, t);
    InOrderPlug(p, u);
    SplitOrder(p, t.l, t.x, t.red, t.r);
    LeafAround(p, u);
    if t.l == Leaf {
      NodesWithout(Plug(p, t), Plug(p, u), Before(p), t.x, InOrder(u) + After(p));
    } else {
      NodesWithout(Plug(p, t), Plug(p, u), Before(p) + InOrder(u), t.x, After(p));
    }
  }

  lemma LeafAround(p: Path, u: Tree)
    ensures Before(p) + InOrder(Leaf) == Before(p) && InOrder(Leaf) + After(p) == After(p)
    ensures Order(p, u) == Before(p) + (InOrder(u) + After(p)) == (Before(p) + InOrder(u)) + After(p)
  {
    hide Before, After;
    assert InOrder(Leaf) == [];
    var b, i, a := Before(p), InOrder(u), After(p);
    assert b + i + a == b + (i + a);
  }

  // A node x with two children gives way to its successor y, whose place goes to y's right child.
  lemma InnerColours(p: Path, l: Tree, x: Node, c: bool, q: Path, y: Node, d: bool, u: Tree)
    requires RedBlack(Plug(Join(q, RightOf(l, x, c, p)), Branch(Leaf, y, d, u)))
    ensures d ==> RedBlack(Plug(Join(q, RightOf(l, y, c, p)), u))
    ensures !d ==> RemoveState(Join(q, RightOf(l, y, c, p)), u)
  {
    var f, g, v := Join(q, RightOf(l, x, c, p)), Join(q, RightOf(l, y, c, p)), Branch(Leaf, y, d, u);
    UnplugRedBlack(f, v);
    JoinColoured(q, l, x, y, c, p, BlackHeight(v));
    assert BlackHeight(v) == BlackHeight(u) + if d then 0 else 1;
    assert NoRedRed(u) && Balanced(u) && (d ==> !IsRed(u));
    hide Join;
    if d {
      PlugRedBlack(g, u);
    }
  }

  lemma InnerOrder(p: Path, l: Tree, x: Node, c: bool, q: Path, y: Node, d: bool, u: Tree)
    requires Leftmost(q)
    requires Sorted(InOrder(Plug(Join(q, RightOf(l, x, c, p)), Branch(Leaf, y, d, u))))
    ensures
      var whole := Plug(Join(q, RightOf(l, x, c, p)), Branch(Leaf, y, d, u));
      var rest := Plug(Join(q, RightOf(l, y, c, p)), u);
      && InOrder(rest) == Without(InOrder(whole), x)
      && Sorted(InOrder(rest)) && Nodes(rest) == Nodes(whole) - {x}
  {
    hide Join, InOrder, Before, After, Sorted, Nodes, Without, Leftmost;
    var v := Branch(Leaf, y, d, u);
    var w, w' := Plug(q, v), Plug(q, u);
    LeftmostOrder(q, y, d, u);
    PlugJoin(q, RightOf(l, x, c, p), v);
    PlugJoin(q, RightOf(l, y, c, p), u);
    var t, t' := Branch(l, x, c, w), Branch(l, y, c, w');
    InOrderPlug(p, t);
    InOrderPlug(p, t');
    SpineOrder(t);
    SpineOrder(t');
    var b, i, j, a := Before(p), InOrder(l), InOrder(w'), After(p);
    Regroup(b, i, x, y, j, a);
    NodesWithout(Plug(p, t), Plug(p, t'), b + i, x, [y] + j + a);
  }

  lemma Regroup(b: seq<Node>, i: seq<Node>, x: Node, y: Node, j: seq<Node>, a: seq<Node>)
    ensures b + (i + [x] + ([y] + j)) + a == (b + i) + [x] + ([y] + j + a)
    ensures b + (i + [y] + j) + a == (b + i) + ([y] + j + a)
  {
  }

  lemma LeftmostOrder(q: Path, y: Node, d: bool, u: Tree)
    requires Leftmost(q)
    ensures InOrder(Plug(q, Branch(Leaf, y, d, u))) == [y] + InOrder(Plug(q, u))
  {
    LeftmostBefore(q);
    InOrderPlug(q, Branch(Leaf, y, d, u));
    InOrderPlug(q, u);
    assert InOrder(Branch(Leaf, y, d, u)) == [y] + InOrder(u);
  }

  // What At says of the sets of nodes.
  lemma AtApart(m: map<Node, Entry>, root: Node?, p: Path, t: Tree)
    requires At(m, root, Top, Plug(p, t))
    ensures Apart(t) && Nodes(t) !! PathNodes(p)
    ensures t.Branch? ==>
      t.x in m && t.x in Nodes(t) && t.x !in Nodes(t.l) && t.x !in Nodes(t.r) && Nodes(t.l) !! Nodes(t.r)
    ensures t.Branch? ==> (t.l.Branch? ==> t.l.x in Nodes(t.l)) && (t.r.Branch? ==> t.r.x in Nodes(t.r))
    ensures t.Branch? ==> Nodes(t) == Nodes(t.l) + {t.x} + Nodes(t.r)
    ensures !p.Top? ==> p.x in PathNodes(p)
    ensures Nodes(Plug(p, t)) == PathNodes(p) + Nodes(t)
  {
    AtFocus(m, root, p, t);
    NodesPlug(p, t);
  }

  // The successor, once unlinked, is no longer in the tree; nor is x among its ancestors below x.
  lemma Successor(m: map<Node, Entry>, root: Node?, p: Path, l: Tree, x: Node, c: bool, q: Path, y: Node, d: bool,
    u: Tree)
    requires At(m, root, Top, Plug(Join(q, RightOf(l, x, c, p)), Branch(Leaf, y, d, u)))
    ensures y in m && y !in Nodes(Plug(Join(q, RightOf(l, x, c, p)), u))
    ensures !q.Top? ==> q.x != x
  {
    hide At, Join, PathNodes, Nodes, Apart;
    var f, v := Join(q, RightOf(l, x, c, p)), Branch(Leaf, y, d, u);
    var w := Plug(q, v);
    AtApart(m, root, f, v);
    NodesPlug(f, u);
    PlugJoin(q, RightOf(l, x, c, p), v);
    assert Plug(f, v) == Plug(p, Branch(l, x, c, w));
    AtApart(m, root, p, Branch(l, x, c, w));
    NodesPlug(q, v);
    ParentInPath(q);
  }

  lemma ParentInPath(p: Path)
    ensures !p.Top? ==> p.x in PathNodes(p)
  {
  }

  lemma Restricted(m: map<Node, Entry>, m': map<Node, Entry>, root: Node?, t: Tree)
    requires At(m, root, Top, t) && Same(m, m', Nodes(t))
    ensures At(m', root, Top, t)
  {
    Frame(m, m', t, null);
  }

  lemma UnlinkReady(m: map<Node, Entry>, root: Node?, p: Path, t: Tree, u: Tree)
    requires t.Branch? && At(m, root, Top, Plug(p, t)) && ((t.l == Leaf && t.r == u) || (t.l == u && t.r == Leaf))
    ensures t.x != Root(u) && t.x != Parent(p) && (u.Branch? ==> Root(u) != Parent(p))
  {
    AtApart(m, root, p, t);
  }

  lemma ReplaceReady(m: map<Node, Entry>, root: Node?, p: Path, l: Tree, x: Node, c: bool, r: Tree, y: Node)
    requires At(m, root, Top, Plug(p, Branch(l, x, c, r))) && y !in Nodes(Plug(p, Branch(l, x, c, r)))
    ensures y !in Nodes(Branch(l, x, c, r)) && y !in PathNodes(p)
    ensures x != y && x != Parent(p) && y != Parent(p)
  {
    hide At, Plug, Nodes, PathNodes, Apart;
    AtApart(m, root, p, Branch(l, x, c, r));
  }

  lemma LeftChildApart(m: map<Node, Entry>, root: Node?, p: Path, l: Tree, x: Node, c: bool, r: Tree, y: Node)
    requires At(m, root, Top, Plug(p, Branch(l, x, c, r))) && y !in Nodes(Branch(l, x, c, r))
    ensures l.Branch? ==> l.x != x && l.x != y && l.x != Parent(p) && l.x != Root(r)
  {
    hide At, Plug;
    AtApart(m, root, p, Branch(l, x, c, r));
    assert l.Branch? ==> l.x in Nodes(l);
    assert r.Branch? ==> r.x in Nodes(r);
    ParentInPath(p);
  }

  lemma RightChildApart(m: map<Node, Entry>, root: Node?, p: Path, l: Tree, x: Node, c: bool, r: Tree, y: Node)
    requires At(m, root, Top, Plug(p, Branch(l, x, c, r))) && y !in Nodes(Branch(l, x, c, r))
    ensures r.Branch? ==> r.x != x && r.x != y && r.x != Parent(p)
  {
    hide At, Plug;
    AtApart(m, root, p, Branch(l, x, c, r));
    assert r.Branch? ==> r.x in Nodes(r);
    ParentInPath(p);
  }

  // ---------- lookups ----------

  lemma FindEnd(p: Path, k: int)
    requires Between(p, k)
    ensures forall n :: n in Nodes(Plug(p, Leaf)) ==> n.key != k
  {
    NodesInOrder(Plug(p, Leaf));
    InOrderPlug(p, Leaf);
  }

  // r is the least member of s whose key is at least k, or null when there is none.
  ghost predicate Ceiling(s: set<Node>, k: int, r: Node?) {
    if r == null
    then forall n :: n in s ==> n.key < k
    else r in s && r.key >= k && forall n :: n in s && n.key >= k ==> r.key <= n.key
  }

  ghost function First(s: seq<Node>): Node? {
    if s == [] then null else s[0]
  }

  ghost function Last(s: seq<Node>): Node? {
    if s == [] then null else s[|s| - 1]
  }

  lemma NFindEnd(p: Path, k: int)
    requires Between(p, k) && Sorted(InOrder(Plug(p, Leaf)))
    ensures Ceiling(Nodes(Plug(p, Leaf)), k, First(After(p)))
  {
    hide Plug, Nodes, Before, After;
    NodesInOrder(Plug(p, Leaf));
    InOrderPlug(p, Leaf);
    assert Order(p, Leaf) == Before(p) + After(p);
    var b, a := Before(p), After(p);
    forall n | n in a ensures a[0].key <= n.key {
      var i :| 0 <= i < |a| && a[i] == n;
      assert (b + a)[|b|] == a[0] && (b + a)[|b| + i] == n;
    }
  }

  // r is the element that follows x in s, or null when x is the last one.
  ghost predicate IsNext(s: seq<Node>, x: Node, r: Node?) {
    forall i :: 0 <= i < |s| && s[i] == x ==> r == if i + 1 < |s| then s[i + 1] else null
  }

  ghost predicate IsPrev(s: seq<Node>, x: Node, r: Node?) {
    forall i :: 0 <= i < |s| && s[i] == x ==> r == if i > 0 then s[i - 1] else null
  }

  lemma NextAt(s: seq<Node>, i: nat, r: Node?)
    requires i < |s| && IsNext(s, s[i], r)
    ensures r == if i + 1 < |s| then s[i + 1] else null
  {
  }

  lemma PrevAt(s: seq<Node>, i: nat, r: Node?)
    requires i < |s| && IsPrev(s, s[i], r)
    ensures r == if i > 0 then s[i - 1] else null
  {
  }

  lemma Neighbours(b: seq<Node>, x: Node, a: seq<Node>)
    requires Sorted(b + [x] + a)
    ensures IsNext(b + [x] + a, x, First(a)) && IsPrev(b + [x] + a, x, Last(b))
  {
    var s := b + [x] + a;
    assert s[|b|] == x;
    forall i | 0 <= i < |s| && i != |b| ensures s[i] != x {
      assert if i < |b| then s[i].key < s[|b|].key else s[|b|].key < s[i].key;
    }
  }

  lemma NeighboursAt(whole: Tree, p: Path, t: Tree)
    requires t.Branch? && Plug(p, t) == whole && Sorted(InOrder(whole))
    ensures IsNext(InOrder(whole), t.x, First(InOrder(t.r) + After(p)))
    ensures IsPrev(InOrder(whole), t.x, Last(Before(p) + InOrder(t.l)))
    ensures t.r == Leaf ==> InOrder(t.r) + After(p) == After(p)
    ensures t.l == Leaf ==> Before(p) + InOrder(t.l) == Before(p)
  {
    hide Plug, Before, After, Sorted, IsNext, IsPrev, Order;
    InOrderPlug(p, t);
    SplitOrder(p, t.l, t.x, t.red, t.r);
    Neighbours(Before(p) + InOrder(t.l), t.x, InOrder(t.r) + After(p));
  }

  lemma NextDown(q: Path, u: Tree)
    requires u.Branch?
    ensures InOrder(u) + After(q) == InOrder(u.l) + After(LeftOf(q, u.x, u.red, u.r))
    ensures Before(q) + InOrder(u) == Before(RightOf(u.l, u.x, u.red, q)) + InOrder(u.r)
  {
  }

  lemma NextBottom(q: Path, u: Tree)
    requires u.Branch?
    ensures u.l == Leaf ==> First(InOrder(u) + After(q)) == u.x
    ensures u.r == Leaf ==> Last(Before(q) + InOrder(u)) == u.x
  {
    SpineOrder(u);
  }
}
