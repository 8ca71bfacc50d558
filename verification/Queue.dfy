/** The intrusive circular list of src/queue.h on its pointers.  A queue with head h and elements s
    is a ring of the links [h] + s. */
module Queue {
  import opened Common

  class Link {
    var next: Link
    var prev: Link

    constructor ()
      ensures Ring([this])
    {
      next := this;
      prev := this;
    }
  }

  function After(s: seq<Link>, i: nat): Link
    requires i < |s|
  {
    if i + 1 == |s| then s[0] else s[i + 1]
  }

  // The links of s are distinct and each is linked both ways with the one after it, the last with the first.
  ghost predicate Ring(s: seq<Link>)
    reads set l | l in s
  {
    && s != [] && NoDup(s)
    && (forall i :: 0 <= i < |s| ==> s[i].next == After(s, i) && After(s, i).prev == s[i])
  }

  method Init(q: Link)
    modifies q
    ensures Ring([q])
  {
    q.next := q;
    q.prev := q;
  }

  method Empty(h: Link, ghost s: seq<Link>) returns (b: bool)
    requires Ring([h] + s)
    ensures b <==> s == []
  {
    b := h == h.next;
    assert After([h] + s, 0) == if s == [] then h else s[0];
    assert s != [] ==> ([h] + s)[1] != ([h] + s)[0];
  }

  method Head(h: Link, ghost s: seq<Link>) returns (q: Link)
    requires Ring([h] + s) && s != []
    ensures q == s[0]
  {
    q := h.next;
    assert After([h] + s, 0) == s[0];
  }

  method InsertTail(h: Link, q: Link, ghost s: seq<Link>)
    requires Ring([h] + s) && q !in [h] + s
    modifies q, h, ([h] + s)[|s|]
    ensures Ring([h] + (s + [q]))
  {
    ghost var r, u := [h] + s, [h] + (s + [q]);
    assert After(r, |s|) == h;
    assert forall i :: 0 <= i < |r| ==> u[i] == r[i];
    q.next := h;
    q.prev := h.prev;
    q.prev.next := q;
    h.prev := q;
    assert forall i :: 0 <= i < |u| ==> After(u, i) == if i < |s| then After(r, i) else if i == |s| then q else h;
  }

  lemma WithoutOne(h: Link, a: seq<Link>, q: Link, b: seq<Link>, i: nat)
    requires i <= |a| + |b|
    ensures
      var r, u := [h] + (a + [q] + b), [h] + (a + b);
      var j := if i <= |a| then i else i + 1;
      u[i] == r[j] && After(u, i) == After(r, if i < |a| then i else i + 1)
  {
  }

  lemma WithoutDistinct(h: Link, a: seq<Link>, q: Link, b: seq<Link>)
    requires NoDup([h] + (a + [q] + b))
    ensures NoDup([h] + (a + b))
  {
    var r, u := [h] + (a + [q] + b), [h] + (a + b);
    forall i, j | 0 <= i < j < |u| ensures u[i] != u[j] {
      WithoutOne(h, a, q, b, i);
      WithoutOne(h, a, q, b, j);
    }
  }

  lemma RingAt(s: seq<Link>, i: nat)
    requires Ring(s) && i < |s|
    ensures s[i].next == After(s, i) && After(s, i).prev == s[i] && NoDup(s)
  {
  }

  lemma AfterAt(s: seq<Link>, i: nat, j: nat)
    requires NoDup(s) && i < |s| && j < |s|
    ensures After(s, i) == s[if i + 1 == |s| then 0 else i + 1] && After(s, i) in s
    ensures i != j ==> s[i] != s[j] && After(s, i) != After(s, j)
  {
  }

  lemma RingFrom(s: seq<Link>)
    requires s != [] && NoDup(s) && forall i :: 0 <= i < |s| ==> s[i].next == After(s, i) && After(s, i).prev == s[i]
    ensures Ring(s)
  {
  }

  // The link leaves the queue it is in, wherever that is; its own pointers stay.  A link that is in
  // no queue (here q == h) is alone in its ring and stays so.
  method Remove(q: Link, ghost h: Link, ghost a: seq<Link>, ghost b: seq<Link>)
    requires Ring(if q == h then [q] else [h] + (a + [q] + b))
    modifies if q == h then {q} else set l | l in [h] + (a + [q] + b)
    ensures Ring(if q == h then [q] else [h] + (a + b))
    ensures q.next == old(q.next) && q.prev == old(q.prev)
  {
    hide NoDup, After, Ring;
    ghost var r, u := if q == h then [q] else [h] + (a + [q] + b), if q == h then [q] else [h] + (a + b);
    ghost var k := if q == h then 0 else |a| + 1;
    assert r[k] == q;
    forall j | 0 <= j < |r| ensures r[j].next == After(r, j) && After(r, j).prev == r[j] {
      RingAt(r, j);
    }
    RingAt(r, k);
    AfterAt(r, k, k);
    if q != h {
      AfterAt(r, k - 1, k);
      AfterAt(r, k, k - 1);
    }
    q.prev.next := q.next;
    q.next.prev := q.prev;
    if q != h {
      forall i | 0 <= i < |u| ensures u[i].next == After(u, i) && After(u, i).prev == u[i] {
        var j := if i <= |a| then i else i + 1;
        WithoutOne(h, a, q, b, i);
        AfterAt(r, j, k - 1);
        AfterAt(r, j, k);
      }
      WithoutDistinct(h, a, q, b);
    }
    RingFrom(u);
  }

  // Links of the two rings in terms of the one they come from.
  lemma FirstPart(h: Link, a: seq<Link>, b: seq<Link>, i: nat)
    requires i <= |a|
    ensures
      var r, x := [h] + (a + b), [h] + a;
      x[i] == r[i] && After(x, i) == if i < |a| then After(r, i) else h
  {
  }

  lemma SecondPart(h: Link, n: Link, a: seq<Link>, b: seq<Link>, i: nat)
    requires i <= |b| && b != []
    ensures
      var r, y := [h] + (a + b), [n] + b;
      && y[i] == (if i == 0 then n else r[|a| + i])
      && After(y, i) == if i == 0 then b[0] else if i == |b| then n else After(r, |a| + i)
  {
  }

  lemma PartsDistinct(h: Link, n: Link, a: seq<Link>, b: seq<Link>)
    requires NoDup([h] + (a + b)) && n !in [h] + (a + b)
    ensures NoDup([h] + a) && NoDup([n] + b)
  {
    var r, x, y := [h] + (a + b), [h] + a, [n] + b;
    assert forall i :: 0 <= i < |x| ==> x[i] == r[i];
    assert forall i :: 0 < i < |y| ==> y[i] == r[|a| + i];
  }

  // The queue of h is split before q: the elements from q on go to the queue of n.
  method Split(h: Link, q: Link, n: Link, ghost a: seq<Link>, ghost b: seq<Link>)
    requires b != [] && q == b[0] && Ring([h] + (a + b)) && n !in [h] + (a + b)
    modifies n, set l | l in [h] + (a + b)
    ensures Ring([h] + a) && Ring([n] + b)
  {
    hide NoDup, After, Ring;
    ghost var r := [h] + (a + b);
    ghost var end := |r| - 1;
    assert r[|a| + 1] == q && r[0] == h;
    forall j | 0 <= j < |r| ensures r[j].next == After(r, j) && After(r, j).prev == r[j] {
      RingAt(r, j);
    }
    RingAt(r, 0);
    AfterAt(r, |a|, end);
    AfterAt(r, end, 0);
    n.prev := h.prev;
    n.prev.next := n;
    n.next := q;
    h.prev := q.prev;
    h.prev.next := h;
    q.prev := n;
    PartsDistinct(h, n, a, b);
    forall i | 0 <= i <= |a| ensures ([h] + a)[i].next == After([h] + a, i) && After([h] + a, i).prev == ([h] + a)[i] {
      FirstPart(h, a, b, i);
      AfterAt(r, i, |a|);
      AfterAt(r, i, end);
    }
    RingFrom([h] + a);
    forall i | 0 <= i <= |b| ensures ([n] + b)[i].next == After([n] + b, i) && After([n] + b, i).prev == ([n] + b)[i] {
      SecondPart(h, n, a, b, i);
      if i > 0 {
        AfterAt(r, |a| + i, |a|);
        AfterAt(r, |a| + i, end);
      }
    }
    RingFrom([n] + b);
  }

  // The elements of h go to n.
  method Move(h: Link, n: Link, ghost s: seq<Link>)
    requires Ring([h] + s) && n !in [h] + s
    modifies n, h, set l | l in s
    ensures Ring([h]) && Ring([n] + s)
  {
    var empty := Empty(h, s);
    if empty {
      Init(n);
      assert [n] + s == [n] && [h] + s == [h];
    } else {
      assert [h] + [] == [h] && [] + s == s;
      var first := Head(h, s);
      Split(h, first, n, [], s);
    }
  }
}
