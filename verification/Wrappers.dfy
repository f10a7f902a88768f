/** Small shared datatypes and facts about ranges, sums and removal from a list. */
module Wrappers {

  datatype Option<+T> = None | Some(value: T)

  /** The pages (or indices) a, a+1, ..., a+n-1. */
  function Range(a: nat, n: nat): (r: set<nat>)
    ensures forall p :: p in r <==> a <= p < a + n
  {
    if n == 0 then {} else Range(a, n - 1) + {a + n - 1}
  }

  lemma {:induction false} RangeSize(a: nat, n: nat)
    ensures |Range(a, n)| == n
  {
    if n > 0 { RangeSize(a, n - 1); }
  }

  lemma UnionSize<T>(x: set<T>, y: set<T>, z: set<T>)
    requires forall p :: p in x <==> p in y || p in z
    requires forall p :: p in y ==> p !in z
    ensures |x| == |y| + |z|
  {
    assert x == y + z;
  }

  ghost predicate NoDup<T>(s: seq<T>) {
    forall i, j :: 0 <= i < j < |s| ==> s[i] != s[j]
  }

  /** Removal of the first occurrence, as unlinking one node from a singly linked list does. */
  function Without<T(==)>(s: seq<T>, x: T): (r: seq<T>)
    ensures x !in s ==> r == s
    ensures x in s ==> |r| == |s| - 1
    ensures forall y :: y in r ==> y in s
    ensures forall y :: y in s && y != x ==> y in r
  {
    if s == [] then []
    else if s[0] == x then
      assert s == [s[0]] + s[1..];
      s[1..]
    else
      assert s == [s[0]] + s[1..];
      [s[0]] + Without(s[1..], x)
  }

  lemma {:induction false} WithoutAt<T>(s: seq<T>, i: nat)
    requires NoDup(s) && i < |s|
    ensures Without(s, s[i]) == s[..i] + s[i + 1..]
    ensures NoDup(Without(s, s[i]))
    ensures s[i] !in Without(s, s[i])
  {
    if i > 0 {
      TailNoDup(s, i);
      WithoutAt(s[1..], i - 1);
      Rejoin(s, i);
      assert Without(s, s[i]) == [s[0]] + Without(s[1..], s[i]);
    }
    SpliceNoDup(s, i);
  }

  lemma TailNoDup<T>(s: seq<T>, i: nat)
    requires NoDup(s) && 0 < i < |s|
    ensures NoDup(s[1..]) && s[1..][i - 1] == s[i] && s[0] != s[i]
  {
  }

  lemma Rejoin<T>(s: seq<T>, i: nat)
    requires 0 < i < |s|
    ensures [s[0]] + (s[1..][..i - 1] + s[1..][i - 1 + 1..]) == s[..i] + s[i + 1..]
  {
    assert s == [s[0]] + s[1..];
    assert s[..i] == [s[0]] + s[1..][..i - 1];
    assert s[i + 1..] == s[1..][i..];
  }

  lemma SpliceNoDup<T>(s: seq<T>, i: nat)
    requires NoDup(s) && i < |s|
    ensures NoDup(s[..i] + s[i + 1..]) && s[i] !in s[..i] + s[i + 1..]
  {
  }

  lemma WithoutNoDup<T>(s: seq<T>, x: T)
    requires NoDup(s)
    ensures NoDup(Without(s, x)) && x !in Without(s, x)
  {
    if x in s {
      var i :| 0 <= i < |s| && s[i] == x;
      WithoutAt(s, i);
    }
  }

  lemma Assoc<T>(x: seq<T>, y: seq<T>, z: seq<T>)
    ensures x + y + z == x + (y + z)
  {
  }

  lemma TailOf<T>(x: seq<T>, y: seq<T>)
    requires x != []
    ensures (x + y)[1..] == x[1..] + y && (x + y)[0] == x[0]
  {
  }

  /** The least key that is at least n, as std::map::lower_bound finds it. */
  ghost predicate IsLowerBound(keys: set<nat>, n: nat, k: nat) {
    k in keys && n <= k && forall j :: j in keys && n <= j ==> k <= j
  }

  lemma Distribute(a: nat, k: nat, l: nat)
    ensures a * (k + l) == a * k + a * l
  {
  }

  lemma AtLeastOnce(a: nat, k: nat)
    requires k >= 1
    ensures a * k >= a
  {
    Distribute(a, 1, k - 1);
  }

  lemma NoRemainder(a: nat, k: nat)
    requires a > 0
    ensures a * k % a == 0
  {
    var q, r := a * k / a, a * k % a;
    assert a * q + r == a * k;
    if q < k {
      Distribute(a, q, k - q);
      AtLeastOnce(a, k - q);
    } else {
      Distribute(a, k, q - k);
    }
  }

  lemma {:induction false} LowerBoundExists(keys: set<nat>, n: nat)
    requires exists k :: k in keys && n <= k
    ensures exists k :: IsLowerBound(keys, n, k)
    decreases keys
  {
    var k :| k in keys && n <= k;
    if exists j :: j in keys - {k} && n <= j {
      LowerBoundExists(keys - {k}, n);
      var m :| IsLowerBound(keys - {k}, n, m);
      assert forall j :: j in keys && n <= j ==> j == k || j in keys - {k};
      assert IsLowerBound(keys, n, if m <= k then m else k);
    } else {
      assert forall j :: j in keys && n <= j ==> j == k || j in keys - {k};
      assert IsLowerBound(keys, n, k);
    }
  }

  ghost function LowerBound(keys: set<nat>, n: nat): (r: Option<nat>)
    ensures r.None? <==> forall k :: k in keys ==> k < n
    ensures r.Some? ==> IsLowerBound(keys, n, r.value)
  {
    if exists k :: k in keys && n <= k then
      LowerBoundExists(keys, n);
      var k :| IsLowerBound(keys, n, k);
      Some(k)
    else None
  }
}
