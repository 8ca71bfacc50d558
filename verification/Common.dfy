/** What several modules share: optional values, bytes, an error code, and sequences without
    repetitions with the removal of an element. */
module Common {
  datatype Option<T> = None | Some(value: T)

  type byte = x: int | 0 <= x < 0x100

  const UV_EINVAL: int := -22

  ghost function Members<T>(s: seq<T>): set<T> {
    set x | x in s
  }

  function Without<T(==)>(s: seq<T>, x: T): (r: seq<T>)
    ensures |r| <= |s|
  {
    if s == [] then [] else if s[0] == x then Without(s[1..], x) else [s[0]] + Without(s[1..], x)
  }

  ghost predicate NoDup<T>(s: seq<T>) {
    forall i, j :: 0 <= i < j < |s| ==> s[i] != s[j]
  }

  lemma NoDupPush<T>(s: seq<T>, x: T)
    requires NoDup(s) && x !in s
    ensures NoDup(s + [x])
  {
  }

  lemma NoDupPop<T>(s: seq<T>)
    requires NoDup(s) && s != []
    ensures NoDup(s[1..]) && s[0] !in s[1..]
    ensures forall x :: x in s <==> x == s[0] || x in s[1..]
  {
  }

  lemma {:induction false} WithoutIs<T>(s: seq<T>, x: T)
    requires NoDup(s)
    ensures NoDup(Without(s, x)) && forall y :: y in Without(s, x) <==> y in s && y != x
  {
    if s != [] {
      NoDupPop(s);
      WithoutIs(s[1..], x);
      var r := Without(s[1..], x);
      assert s[0] != x ==> NoDup([s[0]] + r);
    }
  }

  lemma {:induction false} WithoutConcat<T>(s: seq<T>, u: seq<T>, x: T)
    ensures Without(s, x) + Without(u, x) == Without(s + u, x)
  {
    if s == [] {
      assert s + u == u;
    } else {
      var rest := s[1..] + u;
      WithoutConcat(s[1..], u, x);
      assert s + u == [s[0]] + rest && (s + u)[1..] == rest;
      assert Without(s + u, x) == if s[0] == x then Without(rest, x) else [s[0]] + Without(rest, x);
    }
  }

  lemma {:induction false} WithoutAbsent<T>(s: seq<T>, x: T)
    requires x !in s
    ensures Without(s, x) == s
  {
    if s != [] {
      WithoutAbsent(s[1..], x);
    }
  }

  lemma {:induction false} WithoutMiddle<T>(a: seq<T>, x: T, b: seq<T>)
    requires x !in a && x !in b
    ensures Without(a + [x] + b, x) == a + b
  {
    if a == [] {
      assert a + [x] + b == [x] + b && ([x] + b)[1..] == b;
      WithoutAbsent(b, x);
    } else {
      WithoutMiddle(a[1..], x, b);
      assert (a + [x] + b)[1..] == a[1..] + [x] + b;
    }
  }

  lemma NoDupMiddle<T>(a: seq<T>, x: T, b: seq<T>)
    requires NoDup(a + b) && x !in a + b
    ensures NoDup((a + [x]) + b)
  {
    var s, u := a + b, (a + [x]) + b;
    forall i, j | 0 <= i < j < |u| ensures u[i] != u[j] {
      assert i != |a| ==> u[i] == s[if i < |a| then i else i - 1];
      assert j != |a| ==> u[j] == s[if j < |a| then j else j - 1];
    }
  }

  lemma NoDupDrop<T>(a: seq<T>, b: seq<T>)
    requires NoDup(a + b) && b != []
    ensures NoDup(a + b[1..]) && b[0] !in a && b[0] !in b[1..]
    ensures forall x :: x in b <==> x == b[0] || x in b[1..]
  {
    var s, u := a + b, a + b[1..];
    assert s[|a|] == b[0];
    forall i, j | 0 <= i < j < |u| ensures u[i] != u[j] {
      assert u[i] == s[if i < |a| then i else i + 1];
      assert u[j] == s[if j < |a| then j else j + 1];
    }
    forall i | 0 <= i < |a| ensures a[i] != b[0] {
      assert s[i] == a[i];
    }
    forall i | 0 <= i < |b[1..]| ensures b[1..][i] != b[0] {
      assert s[|a| + 1 + i] == b[1..][i];
    }
  }

  lemma NoDupParts<T>(a: seq<T>, b: seq<T>)
    requires NoDup(a + b)
    ensures NoDup(a) && NoDup(b)
    ensures forall x :: x in a ==> x !in b
  {
    var s := a + b;
    assert forall i :: 0 <= i < |a| ==> s[i] == a[i];
    assert forall i :: 0 <= i < |b| ==> s[|a| + i] == b[i];
  }

  lemma NoDupRotate<T>(a: seq<T>, b: seq<T>)
    requires NoDup(a + b) && a != []
    ensures NoDup(a[1..] + (b + [a[0]])) && a[0] !in a[1..]
    ensures forall x :: x in a <==> x == a[0] || x in a[1..]
  {
    var s, u := a + b, a[1..] + (b + [a[0]]);
    assert s == [a[0]] + (a[1..] + b);
    forall i, j | 0 <= i < j < |u| ensures u[i] != u[j] {
      assert u[i] == s[i + 1];
      assert u[j] == s[if j == |u| - 1 then 0 else j + 1];
    }
    forall i | 0 <= i < |a[1..]| ensures a[1..][i] != a[0] {
      assert s[i + 1] == a[1..][i] && s[0] == a[0];
    }
  }

  lemma {:induction false} WithoutSame<T>(s: seq<T>, x: T)
    ensures |Without(s, x)| == |s| ==> Without(s, x) == s
  {
    if s != [] {
      WithoutSame(s[1..], x);
    }
  }
}
