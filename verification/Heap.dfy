/** src/heap-inl.h, the operations on the pointer-linked binary heap. */
module HeapInl {
  import opened HeapShape
  import opened Common

  class Heap {
    var min: Node?
    var nelts: nat
    ghost var nodes: set<Node>
    ghost var slots: seq<Node>

    // The links of the nodes spell out s.
    ghost predicate Holds(s: seq<Node>)
      reads `min, `nodes, nodes`left, nodes`right, nodes`parent
    {
      Members(s) == nodes && Rep(Store(nodes), s) && min == Slot(s, 1)
    }

    ghost predicate Valid()
      reads this, nodes`left, nodes`right, nodes`parent, nodes`key
    {
      Holds(slots) && nelts == |slots| && Ordered(slots)
    }

    constructor ()
      ensures Valid() && nodes == {}
    {
      min, nelts := null, 0;
      nodes, slots := {}, [];
      new;
      assert Members(slots) == {};
    }

    method Min() returns (r: Node?)
      requires Valid()
      ensures r == null <==> nodes == {}
      ensures r != null ==> r in nodes && forall n :: n in nodes ==> !Less(n, r)
    {
      r := min;
      if slots == [] {
        assert Members(slots) == {};
      } else {
        assert slots[0] in slots;
        assert slots[0] in Members(slots);
        forall n | n in nodes ensures !Less(n, slots[0]) {
          var j :| 0 <= j < |slots| && slots[j] == n;
          RootLeast(slots, j + 1);
        }
      }
    }

    method HalfSwap(parent: Node, child: Node) returns (sibling: Node?)
      requires parent in nodes && child in nodes && parent != child && child.parent == parent
      requires parent.left == child || parent.right == child
      requires var o := if parent.left == child then parent.right else parent.left;
               o == null || (o in nodes && o != parent && o != child)
      requires child.left != child && child.right != child
      modifies nodes`left, nodes`right, nodes`parent
      ensures HalfSwapped(old(Store(nodes)), Store(nodes), parent, child)
    {
      var tleft, tright, tparent := parent.left, parent.right, parent.parent;
      parent.left, parent.right, parent.parent := child.left, child.right, child.parent;
      child.left, child.right, child.parent := tleft, tright, tparent;

      parent.parent := child;
      if child.left == child {
        child.left := parent;
        sibling := child.right;
      } else {
        child.right := parent;
        sibling := child.left;
      }
      if sibling != null {
        sibling.parent := child;
      }
    }

    method Rehang(parent: Node, child: Node)
      requires parent in nodes && child in nodes && parent != child
      requires forall n :: n in {parent.left, parent.right, child.parent} && n != null ==>
        n in nodes && n != parent && n != child
      requires child.parent == null || (child.parent != parent.left && child.parent != parent.right)
      modifies `min, nodes`left, nodes`right, nodes`parent
      ensures Rehung(old(Store(nodes)), Store(nodes), parent, child)
      ensures min == if child.parent == null then child else old(min)
    {
      if parent.left != null {
        parent.left.parent := parent;
      }
      if parent.right != null {
        parent.right.parent := parent;
      }
      if child.parent == null {
        min := child;
      } else if child.parent.left == parent {
        child.parent.left := child;
      } else {
        child.parent.right := child;
      }
    }

    // The nodes in slots p and c change places, with every link from and to them.
    method NodeSwap(parent: Node, child: Node, ghost s: seq<Node>, ghost p: int, ghost c: int)
      requires Holds(s) && 1 <= p < c <= |s| && c / 2 == p && parent == s[p - 1] && child == s[c - 1]
      modifies `min, nodes`left, nodes`right, nodes`parent
      ensures Holds(Swap(s, p, c))
    {
      hide Rep, Linked;
      ghost var m := Store(nodes);
      SwapReady(m, s, p, c);
      var sibling := HalfSwap(parent, child);
      ghost var m1 := Store(nodes);
      Rehang(parent, child);
      SwapHalves(m, m1, Store(nodes), s, p, c);
      Swapped(m, Store(nodes), s, p, c);
      SameMembers(s, p, c);
    }

    lemma Look(s: seq<Node>, i: int)
      requires Holds(s) && 1 <= i <= |s|
      ensures s[i - 1] in nodes && s[i - 1].left == Slot(s, 2 * i) && s[i - 1].right == Slot(s, 2 * i + 1)
        && s[i - 1].parent == Slot(s, i / 2)
    {
      Children(Store(nodes), s, i);
    }

    lemma Empty()
      requires Holds([])
      ensures nodes == {}
    {
      assert Members<Node>([]) == {};
    }

    lemma IndexOf(s: seq<Node>, n: Node) returns (i: int)
      requires Holds(s) && n in nodes
      ensures 1 <= i <= |s| && s[i - 1] == n && NoDup(s)
    {
      assert n in Members(s);
      var k :| 0 <= k < |s| && s[k] == n;
      i := k + 1;
    }

    // The way up of heap_insert and heap_remove, from slot i.
    method WalkUp(node: Node, ghost s: seq<Node>, ghost i: int) returns (ghost s': seq<Node>)
      requires Holds(s) && 1 <= i <= |s| && node == s[i - 1] && UpState(s, i)
      modifies `min, nodes`left, nodes`right, nodes`parent
      ensures Holds(s') && |s'| == |s| && Ordered(s')
    {
      hide Holds, UpState;
      s' := s;
      ghost var j := i;
      Look(s', j);
      while node.parent != null && Less(node, node.parent)
        invariant Holds(s') && |s'| == |s| && 1 <= j <= |s'| && node == s'[j - 1] && UpState(s', j)
        invariant node.parent == Slot(s', j / 2)
        decreases j
      {
        UpSwap(s', j);
        NodeSwap(node.parent, node, s', j / 2, j);
        s', j := Swap(s', j / 2, j), j / 2;
        Look(s', j);
      }
      UpEnd(s', j);
    }

    // The way down of heap_remove, from slot i.
    method WalkDown(child: Node, ghost s: seq<Node>, ghost i: int) returns (ghost s': seq<Node>, ghost j: int)
      requires Holds(s) && 1 <= i <= |s| && child == s[i - 1] && DownState(s, i)
      modifies `min, nodes`left, nodes`right, nodes`parent
      ensures Holds(s') && |s'| == |s| && 1 <= j <= |s'| && child == s'[j - 1] && UpState(s', j)
    {
      hide Holds, DownState, UpState;
      s', j := s, i;
      while true
        invariant Holds(s') && |s'| == |s| && 1 <= j <= |s'| && child == s'[j - 1] && DownState(s', j)
        decreases |s'| - j
      {
        Look(s', j);
        var smallest := child;
        if child.left != null && Less(child.left, smallest) {
          smallest := child.left;
        }
        if child.right != null && Less(child.right, smallest) {
          smallest := child.right;
        }
        if smallest == child {
          break;
        }
        ghost var c := if smallest == child.left then 2 * j else 2 * j + 1;
        DownSwap(s', j, c);
        NodeSwap(child, smallest, s', j, c);
        s', j := Swap(s', j, c), c;
      }
      DownEnd(s', j);
    }

    // The link to the slot reached by a path from the root, held by owner, or by the heap when owner is null.
    method Walk(path0: nat, k0: nat, ghost n: nat) returns (owner: Node?, right: bool)
      requires Valid() && Follow(1, path0, k0) == n && (n <= nelts || n / 2 <= nelts) && n >= 1
      ensures owner == Slot(slots, n / 2) && (owner != null ==> right == (n % 2 == 1))
    {
      hide Rep;
      var path, k := path0, k0;
      owner, right := null, false;
      var at: Node? := min;
      ghost var j := 1;
      while k > 0
        invariant j >= 1 && Follow(j, path, k) == n && at == Slot(slots, j)
        invariant owner == Slot(slots, j / 2) && (owner != null ==> right == (j % 2 == 1))
        decreases k
      {
        FollowBound(j, path, k);
        Children(Store(nodes), slots, j);
        owner := at;
        right := path % 2 == 1;
        at := if right then at.right else at.left;
        j := 2 * j + path % 2;
        path, k := path / 2, k - 1;
      }
    }

    // The bits of n below its highest one, first bit of the way down first.
    // The path is less than n, so it fits wherever n does.
    static method Path(n0: nat) returns (path: nat, k: nat)
      requires n0 >= 1
      ensures Follow(1, path, k) == n0 && path < n0
    {
      path, k := 0, 0;
      var n := n0;
      ghost var power := 1;
      while n >= 2
        invariant n >= 1 && Follow(n, path, k) == n0
        invariant path < power && n * power <= n0
        decreases n
      {
        FollowMore(n, path, k);
        HalfTwice(n, power);
        path, k, n, power := 2 * path + n % 2, k + 1, n / 2, 2 * power;
      }
    }

    // Linking the new node in at the left-most free place of the bottom row.
    method Link(newnode: Node, owner: Node?, right: bool)
      requires Holds(slots) && newnode !in nodes && owner == Slot(slots, (|slots| + 1) / 2)
      requires owner != null ==> right == ((|slots| + 1) % 2 == 1)
      modifies `min, `nodes, nodes`left, nodes`right, newnode`left, newnode`right, newnode`parent
      ensures nodes == old(nodes) + {newnode} && Holds(slots + [newnode])
    {
      ghost var m := Store(nodes);
      newnode.left, newnode.right := null, null;
      newnode.parent := owner;
      if owner == null {
        min := newnode;
      } else if right {
        owner.right := newnode;
      } else {
        owner.left := newnode;
      }
      nodes := nodes + {newnode};
      AppendedMembers(slots, newnode);
      Appended(m, Store(nodes), slots, newnode);
    }

    method Insert(newnode: Node)
      requires Valid() && newnode !in nodes
      modifies this, nodes`left, nodes`right, nodes`parent, newnode`left, newnode`right, newnode`parent
      ensures Valid() && nodes == old(nodes) + {newnode} && nelts == old(nelts) + 1
    {
      hide Holds, Ordered, UpState;
      var path, k := Path(1 + nelts);
      var owner, right := Walk(path, k, 1 + nelts);
      Link(newnode, owner, right);
      AppendedState(slots, newnode);
      slots := slots + [newnode];
      nelts := nelts + 1;
      slots := WalkUp(newnode, slots, |slots|);
    }

    // Cutting the last node, the max node of the source, off its parent.
    method Cut(owner: Node?, right: bool) returns (child: Node)
      requires Holds(slots) && slots != [] && owner == Slot(slots, |slots| / 2)
      requires owner != null ==> right == (|slots| % 2 == 1)
      modifies `min, `nodes, nodes`left, nodes`right
      ensures child == slots[|slots| - 1] && child in old(nodes) && nodes == old(nodes) - {child}
        && Holds(slots[..|slots| - 1])
    {
      hide Rep, Members;
      ghost var m := Store(nodes);
      CutReady(m, slots);
      child := if owner == null then min else if right then owner.right else owner.left;
      if owner == null {
        min := null;
      } else if right {
        owner.right := null;
      } else {
        owner.left := null;
      }
      nodes := nodes - {child};
      InSlots(slots);
      Dropped(m, Store(nodes), slots);
    }

    lemma InSlots(s: seq<Node>)
      ensures forall n :: n in s <==> n in Members(s)
    {
    }

    // child, cut off before, takes the place of the node in slot k of s.
    method Substitute(node: Node, child: Node, ghost s: seq<Node>, ghost k: int)
      requires Holds(s) && 1 <= k <= |s| && node == s[k - 1] && child !in nodes
      modifies `min, `nodes, nodes`left, nodes`right, nodes`parent, child`left, child`right, child`parent
      ensures nodes == old(nodes) - {node} + {child} && Holds(s[k - 1 := child])
    {
      hide Rep;
      ghost var m := Store(nodes);
      Look(s, k);
      Children(m, s, k);
      Parents(m, s, k);
      child.left := node.left;
      child.right := node.right;
      child.parent := node.parent;
      if child.left != null {
        child.left.parent := child;
      }
      if child.right != null {
        child.right.parent := child;
      }
      if node.parent == null {
        min := child;
      } else if node.parent.left == node {
        node.parent.left := child;
      } else {
        node.parent.right := child;
      }
      nodes := nodes - {node} + {child};
      RepDistinct(m, s);
      ReplacedMembers(s, k, child);
      Replaced(m, Store(nodes), s, k, child);
    }

    method Remove(node: Node)
      requires Valid() && (nelts != 0 ==> node in nodes)
      modifies this, nodes`left, nodes`right, nodes`parent
      ensures Valid() && nodes == old(nodes) - {node}
      ensures nelts == if old(nelts) == 0 then 0 else old(nelts) - 1
    {
      hide Holds, Ordered, UpState, DownState, NoDup;
      if nelts == 0 {
        Empty();
        return;
      }
      var path, k := Path(nelts);
      var owner, right := Walk(path, k, nelts);
      nelts := nelts - 1;
      ghost var s := slots;
      ghost var at := IndexOf(s, node);
      LastOnce(s, at);
      var child := Cut(owner, right);
      if child == node {
        slots := s[..|s| - 1];
        OrderedPrefix(s);
      } else {
        slots := Fill(node, child, s, at);
      }
    }

    // The node cut off takes the place of the removed one and moves to where it belongs.
    method Fill(node: Node, child: Node, ghost s: seq<Node>, ghost k: int) returns (ghost s': seq<Node>)
      requires 1 <= k < |s| && node == s[k - 1] && child == s[|s| - 1] && Ordered(s)
      requires Holds(s[..|s| - 1]) && child !in nodes
      modifies `min, `nodes, nodes`left, nodes`right, nodes`parent, child`left, child`right, child`parent
      ensures nodes == old(nodes) - {node} + {child} && Holds(s') && Ordered(s') && |s'| == |s| - 1
    {
      hide Holds, Ordered, UpState, DownState;
      Substitute(node, child, s[..|s| - 1], k);
      MovedLast(s, k);
      ghost var j;
      s', j := WalkDown(child, s[..|s| - 1][k - 1 := child], k);
      s' := WalkUp(child, s', j);
    }

    method Dequeue()
      requires Valid()
      modifies this, nodes`left, nodes`right, nodes`parent
      ensures Valid()
      ensures old(nodes) == {} ==> nodes == {}
      ensures old(nodes) != {} ==>
        exists r :: r in old(nodes) && nodes == old(nodes) - {r} && forall n :: n in old(nodes) ==> !Less(n, r)
    {
      var r := Min();
      if r != null {
        Remove(r);
      }
    }
  }
}
