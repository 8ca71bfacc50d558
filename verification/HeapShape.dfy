/** The pointer-linked binary heap of src/heap-inl.h, seen as the array heap that
    its nodes spell out: the node in slot 1 is the root and the node in slot i has
    its children in slots 2i and 2i+1. */
module HeapShape {
  import opened Common

  datatype Key = Key(timeout: nat, startId: nat)

  // timer_less_than, the order in which the loop's timers are kept.
  predicate LessThan(a: Key, b: Key) {
    if a.timeout < b.timeout then true
    else if b.timeout < a.timeout then false
    else a.startId < b.startId
  }

  // A timer handle together with the heap node embedded in it.  Its timeout and
  // start_id are the key; the heap operations change nothing but the three links.
  class Node {
    var left: Node?
    var right: Node?
    var parent: Node?

    var key: Key
    var hasCb: bool
    var repeat: nat
    var active: bool
    var closing: bool

    constructor ()
      ensures !active && !closing && !hasCb && repeat == 0 && key == Key(0, 0)
    {
      left, right, parent := null, null, null;
      key, hasCb, repeat, active, closing := Key(0, 0), false, 0, false, false;
    }
  }

  datatype Entry = Entry(left: Node?, right: Node?, parent: Node?)

  ghost function Store(s: set<Node>): (m: map<Node, Entry>)
    reads s`left, s`right, s`parent
    ensures m.Keys == s
  {
    map n | n in s :: Entry(n.left, n.right, n.parent)
  }

  // The node in slot i, counted from 1.
  ghost function Slot(s: seq<Node>, i: int): Node? {
    if 1 <= i <= |s| then s[i - 1] else null
  }

  ghost predicate Linked(m: map<Node, Entry>, s: seq<Node>, i: int)
    requires 1 <= i <= |s|
  {
    s[i - 1] in m && m[s[i - 1]] == Entry(Slot(s, 2 * i), Slot(s, 2 * i + 1), Slot(s, i / 2))
  }

  // The links in the store spell out the slots.
  ghost predicate Rep(m: map<Node, Entry>, s: seq<Node>) {
    NoDup(s) && forall i :: 1 <= i <= |s| ==> Linked(m, s, i)
  }

  // ---------- exchanging a node with one of its children ----------

  ghost function Swap(s: seq<Node>, i: int, j: int): (r: seq<Node>)
    requires 1 <= i <= |s| && 1 <= j <= |s|
    ensures |r| == |s|
  {
    s[i - 1 := s[j - 1]][j - 1 := s[i - 1]]
  }

  lemma SameMembers(s: seq<Node>, i: int, j: int)
    requires 1 <= i <= |s| && 1 <= j <= |s|
    ensures Members(Swap(s, i, j)) == Members(s)
    ensures forall k :: 1 <= k <= |s| ==>
      Slot(Swap(s, i, j), k) == if k == i then s[j - 1] else if k == j then s[i - 1] else s[k - 1]
  {
    var r := Swap(s, i, j);
    forall n ensures n in s <==> n in r {
      if n in s {
        var k :| 0 <= k < |s| && s[k] == n;
        assert r[if k == i - 1 then j - 1 else if k == j - 1 then i - 1 else k] == n;
      }
      if n in r {
        var k :| 0 <= k < |s| && r[k] == n;
        assert s[if k == i - 1 then j - 1 else if k == j - 1 then i - 1 else k] == n;
      }
    }
  }

  // Which links heap_node_swap leaves behind, for the parent in slot p and the child in slot c.
  ghost predicate SwapLinks(m: map<Node, Entry>, m': map<Node, Entry>, s: seq<Node>, p: int, c: int)
    requires 1 <= p < c <= |s| && c / 2 == p
  {
    var r := Swap(s, p, c);
    && m'.Keys == m.Keys
    && Linked(m', r, p) && Linked(m', r, c)
    && forall n :: n in m && n != s[p - 1] && n != s[c - 1] ==>
         m'[n] == Entry(if n == Slot(s, p / 2) && m[n].left == s[p - 1] then s[c - 1] else m[n].left,
                        if n == Slot(s, p / 2) && m[n].left != s[p - 1] then s[c - 1] else m[n].right,
                        if m[n].parent == s[p - 1] then s[c - 1]
                        else if m[n].parent == s[c - 1] then s[p - 1] else m[n].parent)
  }

  lemma Swapped(m: map<Node, Entry>, m': map<Node, Entry>, s: seq<Node>, p: int, c: int)
    requires Rep(m, s) && 1 <= p < c <= |s| && c / 2 == p && SwapLinks(m, m', s, p, c)
    ensures Rep(m', Swap(s, p, c))
  {
    var r := Swap(s, p, c);
    forall i | 1 <= i <= |r| ensures Linked(m', r, i) {
      if i != p && i != c {
        assert Linked(m, s, i);
        assert r[i - 1] == s[i - 1];
      }
    }
  }

  // What the nodes around a parent in slot p and its child in slot c are to each other.
  lemma SwapReady(m: map<Node, Entry>, s: seq<Node>, p: int, c: int)
    requires Rep(m, s) && 1 <= p < c <= |s| && c / 2 == p
    ensures var parent, child := s[p - 1], s[c - 1];
            && parent in m && child in m && parent != child && m[child].parent == parent
            && (m[parent].left == child || (m[parent].right == child && m[parent].left != child))
            && (var o := if m[parent].left == child then m[parent].right else m[parent].left;
                o == null || (o in m && o != parent && o != child))
            && (var g := m[parent].parent;
                && g == Slot(s, p / 2) && (g == null <==> p == 1)
                && (g == null || (g in m && g != parent && g != child && g != m[child].left && g != m[child].right)))
            && (var a := m[child].left; a == null || (a in m && a != parent && a != child))
            && (var b := m[child].right; b == null || (b in m && b != parent && b != child))
  {
    assert Linked(m, s, p) && Linked(m, s, c);
    assert 2 * c <= |s| ==> Linked(m, s, 2 * c);
    assert 2 * c + 1 <= |s| ==> Linked(m, s, 2 * c + 1);
    assert p >= 2 ==> Linked(m, s, p / 2);
    var o := if c == 2 * p then 2 * p + 1 else 2 * p;
    assert o <= |s| ==> Linked(m, s, o);
  }

  // Whose parent link names the node in slot i.
  lemma Children(m: map<Node, Entry>, s: seq<Node>, i: int)
    requires Rep(m, s) && 1 <= i <= |s|
    ensures s[i - 1] in m && m[s[i - 1]] == Entry(Slot(s, 2 * i), Slot(s, 2 * i + 1), Slot(s, i / 2))
    ensures forall n :: n in m && n in s && m[n].parent == s[i - 1] ==> n == Slot(s, 2 * i) || n == Slot(s, 2 * i + 1)
  {
    assert Linked(m, s, i);
    forall n | n in m && n in s && m[n].parent == s[i - 1]
      ensures n == Slot(s, 2 * i) || n == Slot(s, 2 * i + 1)
    {
      var k :| 0 <= k < |s| && s[k] == n;
      assert Linked(m, s, k + 1);
    }
  }

  // Whose child links name the node in slot i.
  lemma Parents(m: map<Node, Entry>, s: seq<Node>, i: int)
    requires Rep(m, s) && 1 <= i <= |s|
    ensures 2 * i <= |s| ==> s[2 * i - 1] in m && m[s[2 * i - 1]].parent == s[i - 1]
    ensures 2 * i + 1 <= |s| ==> s[2 * i] in m && m[s[2 * i]].parent == s[i - 1]
  {
    assert 2 * i <= |s| ==> Linked(m, s, 2 * i);
    assert 2 * i + 1 <= |s| ==> Linked(m, s, 2 * i + 1);
  }

  // heap_node_swap up to the links between parent, child and the other child of parent.
  ghost predicate HalfSwapped(m: map<Node, Entry>, m': map<Node, Entry>, parent: Node, child: Node)
    requires parent in m && child in m
  {
    var sibling := if m[parent].left == child then m[parent].right else m[parent].left;
    && m'.Keys == m.Keys
    && m'[parent] == Entry(m[child].left, m[child].right, child)
    && m'[child] == Entry(if m[parent].left == child then parent else m[parent].left,
                          if m[parent].left == child then m[parent].right else parent, m[parent].parent)
    && forall n :: n in m && n != parent && n != child ==>
         m'[n] == if n == sibling then m[n].(parent := child) else m[n]
  }

  // The rest of heap_node_swap: the children of the old child and the node above.
  ghost predicate Rehung(m: map<Node, Entry>, m': map<Node, Entry>, parent: Node, child: Node)
    requires parent in m && child in m
  {
    var g, a, b := m[child].parent, m[parent].left, m[parent].right;
    && m'.Keys == m.Keys
    && forall n :: n in m ==>
         m'[n] == Entry(if n == g && m[n].left == parent then child else m[n].left,
                        if n == g && m[n].left != parent then child else m[n].right,
                        if n == a || n == b then parent else m[n].parent)
  }

  lemma SwapHalves(m: map<Node, Entry>, m1: map<Node, Entry>, m': map<Node, Entry>, s: seq<Node>, p: int, c: int)
    requires Rep(m, s) && 1 <= p < c <= |s| && c / 2 == p && Members(s) == m.Keys
    requires HalfSwapped(m, m1, s[p - 1], s[c - 1]) && Rehung(m1, m', s[p - 1], s[c - 1])
    ensures SwapLinks(m, m', s, p, c)
  {
    hide Rep;
    SwapReady(m, s, p, c);
    Children(m, s, p);
    Children(m, s, c);
    Parents(m, s, p);
    Parents(m, s, c);
    SameMembers(s, p, c);
  }

  // ---------- adding, dropping and replacing a slot ----------

  lemma Appended(m: map<Node, Entry>, m': map<Node, Entry>, s: seq<Node>, x: Node)
    requires Rep(m, s) && x !in s
    requires x in m' && m'[x] == Entry(null, null, Slot(s, (|s| + 1) / 2))
    requires forall n :: n in s ==>
               && n in m && n in m'
               && m'[n] == (if n != Slot(s, (|s| + 1) / 2) then m[n]
                            else if (|s| + 1) % 2 == 1 then m[n].(right := x) else m[n].(left := x))
    ensures Rep(m', s + [x])
  {
    var r := s + [x];
    forall i | 1 <= i <= |r| ensures Linked(m', r, i) {
      if i <= |s| {
        assert Linked(m, s, i) && s[i - 1] in s;
      }
    }
  }

  lemma Dropped(m: map<Node, Entry>, m': map<Node, Entry>, s: seq<Node>)
    requires Rep(m, s) && s != []
    requires forall n :: n in s && n != s[|s| - 1] ==>
               && n in m && n in m'
               && m'[n] == (if n != Slot(s, |s| / 2) then m[n]
                            else if |s| % 2 == 1 then m[n].(right := null) else m[n].(left := null))
    ensures Rep(m', s[..|s| - 1])
  {
    var r := s[..|s| - 1];
    forall i | 1 <= i <= |r| ensures Linked(m', r, i) {
      assert Linked(m, s, i) && s[i - 1] in s;
    }
  }

  // x takes the place of the node in slot k.
  lemma Replaced(m: map<Node, Entry>, m': map<Node, Entry>, s: seq<Node>, k: int, x: Node)
    requires Rep(m, s) && 1 <= k <= |s| && x !in s
    requires s[k - 1] in m && x in m' && m'[x] == m[s[k - 1]]
    requires forall n :: n in s && n != s[k - 1] ==>
               && n in m && n in m'
               && m'[n] == Entry(if n == Slot(s, k / 2) && m[n].left == s[k - 1] then x else m[n].left,
                              if n == Slot(s, k / 2) && m[n].left != s[k - 1] then x else m[n].right,
                              if m[n].parent == s[k - 1] then x else m[n].parent)
    ensures Rep(m', s[k - 1 := x])
  {
    var r := s[k - 1 := x];
    forall i | 1 <= i <= |r| ensures Linked(m', r, i) {
      assert Linked(m, s, i) && s[i - 1] in s;
    }
  }

  // ---------- the path to a slot ----------

  // The slot reached from slot j by the k lowest bits of path, lowest first: 1 leads right, 0 left.
  function Follow(j: nat, path: nat, k: nat): nat
    decreases k
  {
    if k == 0 then j else Follow(2 * j + path % 2, path / 2, k - 1)
  }

  lemma {:induction false} FollowBound(j: nat, path: nat, k: nat)
    requires j >= 1 && k >= 1
    ensures Follow(j, path, k) / 2 >= j
    decreases k
  {
    if k > 1 {
      FollowBound(2 * j + path % 2, path / 2, k - 1);
    }
  }

  // One more bit in front: the parent of slot n leads to n.
  lemma FollowMore(n: nat, path: nat, k: nat)
    ensures Follow(n / 2, 2 * path + n % 2, k + 1) == Follow(n, path, k)
  {
    assert (2 * path + n % 2) % 2 == n % 2 && (2 * path + n % 2) / 2 == path && 2 * (n / 2) + n % 2 == n;
  }

  lemma HalfTwice(n: nat, power: nat)
    ensures n / 2 * (2 * power) <= n * power
  {
    var h := n / 2;
    assert h * (2 * power) == (2 * h) * power;
    assert (n - 2 * h) * power >= 0;
  }

  // ---------- the order ----------

  predicate Less(a: Node, b: Node)
    reads a`key, b`key
  {
    LessThan(a.key, b.key)
  }

  ghost predicate Ordered(s: seq<Node>)
    reads (set n | n in s)`key
  {
    forall j :: 2 <= j <= |s| ==> !Less(s[j - 1], s[j / 2 - 1])
  }

  // In order but for slot i, which may be smaller than its parent.
  ghost predicate UpState(s: seq<Node>, i: int)
    requires 1 <= i <= |s|
    reads (set n | n in s)`key
  {
    && (forall j :: 2 <= j <= |s| && j != i ==> !Less(s[j - 1], s[j / 2 - 1]))
    && (i >= 2 ==> forall j :: 2 <= j <= |s| && j / 2 == i ==> !Less(s[j - 1], s[i / 2 - 1]))
  }

  // In order but for slot i, which may be smaller than its parent or larger than its children.
  ghost predicate DownState(s: seq<Node>, i: int)
    requires 1 <= i <= |s|
    reads (set n | n in s)`key
  {
    && (forall j :: 2 <= j <= |s| && j != i && j / 2 != i ==> !Less(s[j - 1], s[j / 2 - 1]))
    && (i >= 2 ==> forall j :: 2 <= j <= |s| && j / 2 == i ==> !Less(s[j - 1], s[i / 2 - 1]))
  }

  lemma UpSwap(s: seq<Node>, i: int)
    requires 2 <= i <= |s| && UpState(s, i) && Less(s[i - 1], s[i / 2 - 1])
    ensures UpState(Swap(s, i / 2, i), i / 2)
  {
    var p, r := i / 2, Swap(s, i / 2, i);
    forall j | 2 <= j <= |r| && j != p ensures !Less(r[j - 1], r[j / 2 - 1]) {
      if j != i && j / 2 == p {
        assert !Less(s[j - 1], s[p - 1]);
      }
    }
    if p >= 2 {
      assert !Less(s[p - 1], s[p / 2 - 1]);
      forall j | 2 <= j <= |r| && j / 2 == p ensures !Less(r[j - 1], r[p / 2 - 1]) {
        assert j != i ==> !Less(s[j - 1], s[p - 1]);
      }
    }
  }

  lemma DownSwap(s: seq<Node>, i: int, c: int)
    requires 1 <= i < c <= |s| && c / 2 == i && DownState(s, i) && Less(s[c - 1], s[i - 1])
    requires 2 * i <= |s| ==> !Less(s[2 * i - 1], s[c - 1])
    requires 2 * i + 1 <= |s| ==> !Less(s[2 * i], s[c - 1])
    ensures DownState(Swap(s, i, c), c)
  {
    var r := Swap(s, i, c);
    forall j | 2 <= j <= |r| && j / 2 == c ensures !Less(r[j - 1], r[c / 2 - 1]) {
      assert !Less(s[j - 1], s[j / 2 - 1]);
    }
  }

  lemma DownEnd(s: seq<Node>, i: int)
    requires 1 <= i <= |s| && DownState(s, i)
    requires 2 * i <= |s| ==> !Less(s[2 * i - 1], s[i - 1])
    requires 2 * i + 1 <= |s| ==> !Less(s[2 * i], s[i - 1])
    ensures UpState(s, i)
  {
  }

  lemma UpEnd(s: seq<Node>, i: int)
    requires 1 <= i <= |s| && UpState(s, i)
    requires i >= 2 ==> !Less(s[i - 1], s[i / 2 - 1])
    ensures Ordered(s)
  {
  }

  // The root of the heap is a least element.
  lemma {:induction false} RootLeast(s: seq<Node>, j: int)
    requires Ordered(s) && 1 <= j <= |s|
    ensures !Less(s[j - 1], s[0])
    decreases j
  {
    if j >= 2 {
      RootLeast(s, j / 2);
    }
  }

  // The last node moved to slot k of the remaining ones can only be out of order with its neighbours.
  lemma MovedLast(s: seq<Node>, k: int)
    requires Ordered(s) && 1 <= k < |s|
    ensures DownState(s[..|s| - 1][k - 1 := s[|s| - 1]], k)
  {
    var r := s[..|s| - 1][k - 1 := s[|s| - 1]];
    forall j | 2 <= j <= |r| && j / 2 == k && k >= 2 ensures !Less(r[j - 1], r[k / 2 - 1]) {
      assert !Less(s[j - 1], s[j / 2 - 1]) && !Less(s[k - 1], s[k / 2 - 1]);
    }
    forall j | 2 <= j <= |r| && j != k && j / 2 != k ensures !Less(r[j - 1], r[j / 2 - 1]) {
      assert !Less(s[j - 1], s[j / 2 - 1]);
    }
  }

  lemma AppendedState(s: seq<Node>, x: Node)
    requires Ordered(s)
    ensures UpState(s + [x], |s| + 1)
  {
    var r := s + [x];
    forall j | 2 <= j <= |r| && j != |s| + 1 ensures !Less(r[j - 1], r[j / 2 - 1]) {
      assert !Less(s[j - 1], s[j / 2 - 1]);
    }
  }

  lemma AppendedMembers(s: seq<Node>, x: Node)
    ensures Members(s + [x]) == Members(s) + {x}
    ensures Slot(s + [x], 1) == if s == [] then x else s[0]
  {
  }

  lemma DroppedMembers(s: seq<Node>)
    requires s != [] && NoDup(s)
    ensures s[|s| - 1] !in s[..|s| - 1]
    ensures Members(s[..|s| - 1]) == Members(s) - {s[|s| - 1]}
  {
  }

  lemma ReplacedMembers(s: seq<Node>, k: int, x: Node)
    requires 1 <= k <= |s| && NoDup(s) && x !in s
    ensures Members(s[k - 1 := x]) == Members(s) - {s[k - 1]} + {x}
  {
    var r := s[k - 1 := x];
    forall n ensures n in r <==> n == x || (n in s && n != s[k - 1]) {
      if n in s && n != s[k - 1] {
        var i :| 0 <= i < |s| && s[i] == n;
        assert r[i] == n;
      }
      assert r[k - 1] == x;
    }
  }

  lemma OrderedPrefix(s: seq<Node>)
    requires Ordered(s) && s != []
    ensures Ordered(s[..|s| - 1])
  {
    var r := s[..|s| - 1];
    forall j | 2 <= j <= |r| ensures !Less(r[j - 1], r[j / 2 - 1]) {
      assert !Less(s[j - 1], s[j / 2 - 1]);
    }
  }

  lemma LastOnce(s: seq<Node>, k: int)
    requires NoDup(s) && 1 <= k <= |s|
    ensures k < |s| <==> s[k - 1] != s[|s| - 1]
    ensures k < |s| ==> s[..|s| - 1][k - 1] == s[k - 1]
  {
  }

  lemma RepDistinct(m: map<Node, Entry>, s: seq<Node>)
    requires Rep(m, s)
    ensures NoDup(s)
  {
  }

  // The last node and the one it hangs from.
  lemma CutReady(m: map<Node, Entry>, s: seq<Node>)
    requires Rep(m, s) && s != []
    ensures var last := s[|s| - 1];
            && last in m && Members(s[..|s| - 1]) == Members(s) - {last}
            && Slot(s[..|s| - 1], 1) == (if |s| == 1 then null else s[0])
            && (Slot(s, |s| / 2) == null <==> |s| == 1)
    ensures |s| >= 2 ==> var b := Slot(s, |s| / 2);
              b in m && b != s[|s| - 1] && (if |s| % 2 == 1 then m[b].right else m[b].left) == s[|s| - 1]
  {
    RepDistinct(m, s);
    DroppedMembers(s);
    Children(m, s, |s|);
    if |s| >= 2 {
      Children(m, s, |s| / 2);
    }
  }
}
