/** Division by a page size or another positive number that need not be a constant. */
module Arith {
  lemma MulSign(k: nat, e: int)
    requires k > 0
    ensures e >= 1 ==> k * e >= k
    ensures e <= -1 ==> k * e <= 0 - k
  {
    if e >= 1 { assert k * e == k + k * (e - 1); }
    if e <= -1 { assert k * e == k * (e + 1) - k; }
  }

  lemma DivUnique(a: nat, k: nat, q: nat, d: nat)
    requires k > 0 && a == k * q + d && d < k
    ensures a / k == q && a % k == d
  {
    var e := q - a / k;
    assert k * e == a % k - d;
    MulSign(k, e);
  }

  lemma DivMono(a: nat, b: nat, k: nat)
    requires k > 0 && a <= b
    ensures a / k <= b / k
  {
    var e := a / k - b / k;
    assert k * e == (a - a % k) - (b - b % k);
    MulSign(k, e);
  }

  lemma ModShift(d: nat, k: nat, n: nat)
    requires k > 0
    ensures (d + k * n) % k == d % k
  {
    assert d + k * n == k * (d / k + n) + d % k;
    DivUnique(d + k * n, k, d / k + n, d % k);
  }

  // ---- finite sets of integers in order ----

  lemma HasElement<T(!new)>(s: set<T>)
    requires s != {}
    ensures exists x :: x in s
  {
  }

  ghost function Pick<T(!new)>(s: set<T>): (x: T)
    requires s != {}
    ensures x in s
  {
    HasElement(s);
    var x :| x in s;
    x
  }

  lemma {:induction false} LeastExists(s: set<int>)
    requires s != {}
    ensures exists k :: k in s && forall j :: j in s ==> k <= j
  {
    var k := Pick(s);
    var rest := s - {k};
    if rest == {} {
      assert s == {k};
    } else {
      LeastExists(rest);
      var l :| l in rest && forall j :: j in rest ==> l <= j;
      var m := if k < l then k else l;
      forall j | j in s
        ensures m <= j
      {
        assert j == k || j in rest;
      }
      assert m in s;
    }
  }

  function Least(s: set<int>): (k: int)
    requires s != {}
    ensures k in s && forall j :: j in s ==> k <= j
  {
    LeastExists(s);
    var k :| k in s && forall j :: j in s ==> k <= j;
    k
  }

  /** The elements of a set in ascending order. */
  function InOrder(s: set<int>): (keys: seq<int>)
    ensures |keys| == |s|
    ensures forall k :: k in keys <==> k in s
    ensures forall i, j :: 0 <= i < j < |keys| ==> keys[i] < keys[j]
  {
    if s == {} then []
    else
      var k := Least(s);
      var rest := InOrder(s - {k});
      InOrderCons(s, k, rest);
      [k] + rest
  }

  lemma InOrderCons(s: set<int>, k: int, rest: seq<int>)
    requires k in s && (forall j :: j in s ==> k <= j)
    requires |rest| == |s| - 1 && forall j :: j in rest <==> j in s && j != k
    requires forall i, j :: 0 <= i < j < |rest| ==> rest[i] < rest[j]
    ensures forall j :: j in [k] + rest <==> j in s
    ensures forall i, j :: 0 <= i < j < |[k] + rest| ==> ([k] + rest)[i] < ([k] + rest)[j]
  {
    forall j | 0 <= j < |rest|
      ensures k < rest[j]
    {
      assert rest[j] in rest;
    }
  }

  /** An ascending list is settled by its elements. */
  lemma {:induction false} InOrderUnique(a: seq<int>, b: seq<int>)
    requires forall i, j :: 0 <= i < j < |a| ==> a[i] < a[j]
    requires forall i, j :: 0 <= i < j < |b| ==> b[i] < b[j]
    requires forall k :: k in a <==> k in b
    ensures a == b
  {
    assert (|a| > 0 ==> a[0] in a) && (|b| > 0 ==> b[0] in b);
    if a != [] && b != [] {
      assert a[0] in b && b[0] in a;
      var a', b' := a[1..], b[1..];
      assert a == [a[0]] + a' && b == [b[0]] + b';
      assert a[0] !in a' && b[0] !in b';
      forall k
        ensures k in a' <==> k in b'
      {
        assert k in a <==> k == a[0] || k in a';
        assert k in b <==> k == b[0] || k in b';
      }
      InOrderUnique(a', b');
    }
  }
}
