/**
 * Result sets of queries. A SELECT returns each matching row once; with ORDER BY the rows
 * come sorted by the key, rows with equal keys in no particular order. Sums over such a
 * result do not depend on that order.
 */
module Listing {

  ghost predicate Distinct<T>(r: seq<T>) {
    forall i, j :: 0 <= i < j < |r| ==> r[i] != r[j]
  }

  /** `r` lists every element of `s` exactly once. */
  ghost predicate Enumerates<T(!new)>(s: set<T>, r: seq<T>) {
    Distinct(r) && forall x :: x in r <==> x in s
  }

  ghost predicate SortedBy<T>(r: seq<T>, key: T -> int) {
    forall i, j :: 0 <= i < j < |r| ==> key(r[i]) <= key(r[j])
  }

  /** `r` is a possible answer of `SELECT ... ORDER BY key` over the rows `s`. */
  ghost predicate IsListing<T(!new)>(s: set<T>, key: T -> int, r: seq<T>) {
    Enumerates(s, r) && SortedBy(r, key)
  }

  lemma {:induction false} MinimumExists<T>(s: set<T>, key: T -> int) returns (m: T)
    requires s != {}
    ensures m in s && forall x :: x in s ==> key(m) <= key(x)
  {
    var x :| x in s;
    if s == {x} {
      m := x;
    } else {
      var rest := MinimumExists(s - {x}, key);
      m := if key(x) <= key(rest) then x else rest;
    }
  }

  /** The rows `s` in ascending order of `key`, each once: repeatedly take a row of least key. */
  method SortedListing<T(==,!new)>(s: set<T>, key: T -> int) returns (r: seq<T>)
    ensures IsListing(s, key, r)
  {
    var remaining := s;
    r := [];
    while remaining != {}
      invariant remaining <= s
      invariant forall x :: x in r <==> x in s && x !in remaining
      invariant Distinct(r) && SortedBy(r, key)
      invariant forall i, y :: 0 <= i < |r| && y in remaining ==> key(r[i]) <= key(y)
      decreases remaining
    {
      ghost var m := MinimumExists(remaining, key);
      var x :| x in remaining && forall y :: y in remaining ==> key(x) <= key(y);
      r := r + [x];
      remaining := remaining - {x};
    }
  }

  lemma {:induction false} EnumerationExists<T(!new)>(s: set<T>) returns (r: seq<T>)
    ensures Enumerates(s, r)
    decreases s
  {
    if s == {} {
      r := [];
    } else {
      var x :| x in s;
      var rest := EnumerationExists(s - {x});
      r := rest + [x];
    }
  }

  /** A listing without repetitions has as many entries as the set it lists: a COUNT(*) over
      the same rows. */
  lemma {:induction false} EnumerationLength<T(!new)>(s: set<T>, r: seq<T>)
    requires Enumerates(s, r)
    ensures |r| == |s|
    decreases |r|
  {
    if r != [] {
      var last := r[|r| - 1];
      var init := r[..|r| - 1];
      assert Enumerates(s - {last}, init) by {
        forall x ensures x in init <==> x in s - {last} {
          if x in init {
            var k :| 0 <= k < |init| && init[k] == x;
            assert r[k] == x && k < |r| - 1;
          }
        }
      }
      EnumerationLength(s - {last}, init);
    }
  }

  /** The sum of `f` over a sequence. */
  function Sum<T>(r: seq<T>, f: T -> real): real {
    if r == [] then 0.0 else Sum(r[..|r| - 1], f) + f(r[|r| - 1])
  }

  /** Taking one entry out of a sequence takes its term out of the sum. */
  lemma {:induction false} SumRemove<T>(r: seq<T>, k: nat, f: T -> real)
    requires k < |r|
    ensures Sum(r, f) == Sum(r[..k] + r[k + 1..], f) + f(r[k])
    decreases |r|
  {
    var n := |r| - 1;
    if k < n {
      var init := r[..n];
      SumRemove(init, k, f);
      assert (r[..k] + r[k + 1..])[..n - 1] == init[..k] + init[k + 1..];
      assert (r[..k] + r[k + 1..])[n - 1] == r[n];
    } else {
      assert r[..k] + r[k + 1..] == r[..n];
    }
  }

  /** Removing one entry of a sequence without repetitions removes exactly that element. */
  lemma RemoveAt<T(!new)>(b: seq<T>, k: nat)
    requires Distinct(b) && k < |b|
    ensures Distinct(b[..k] + b[k + 1..])
    ensures forall y :: y in b[..k] + b[k + 1..] <==> y in b && y != b[k]
  {
    var b' := b[..k] + b[k + 1..];
    forall i, j | 0 <= i < j < |b'| ensures b'[i] != b'[j] {
      var i' := if i < k then i else i + 1;
      var j' := if j < k then j else j + 1;
      assert b'[i] == b[i'] && b'[j] == b[j'] && i' < j';
    }
    forall y ensures y in b' <==> y in b && y != b[k] {
      if y in b' {
        var j :| 0 <= j < |b'| && b'[j] == y;
        if j < k { assert b[j] == y; } else { assert b[j + 1] == y; }
      }
      if y in b && y != b[k] {
        var j :| 0 <= j < |b| && b[j] == y;
        if j < k { assert b'[j] == y; } else { assert b'[j - 1] == y; }
      }
    }
  }

  /** Two listings of the same rows have the same sum, whatever their order. */
  lemma {:induction false} SumPermutation<T(!new)>(a: seq<T>, b: seq<T>, f: T -> real)
    requires Distinct(a) && Distinct(b)
    requires forall x :: x in a <==> x in b
    ensures Sum(a, f) == Sum(b, f)
    decreases |a|
  {
    var s := set x | x in a;
    EnumerationLength(s, a);
    EnumerationLength(s, b);
    if a != [] {
      var n := |a| - 1;
      var x := a[n];
      assert x in b;
      var k :| 0 <= k < |b| && b[k] == x;
      RemoveAt(a, n);
      assert a[..n] + a[n + 1..] == a[..n];
      RemoveAt(b, k);
      var b' := b[..k] + b[k + 1..];
      forall y ensures y in a[..n] <==> y in b' {
        assert y in a[..n] + a[n + 1..] <==> y in a && y != a[n];
        assert y in b' <==> y in b && y != b[k];
      }
      SumPermutation(a[..n], b', f);
      SumRemove(b, k, f);
    }
  }
}
