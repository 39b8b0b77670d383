/** Facts about sequences, finite sets and remainders that several components need. */
module Basics {

  lemma Associative<X>(a: seq<X>, b: seq<X>, c: seq<X>)
    ensures a + b + c == a + (b + c)
  {
  }

  lemma Unit<X>(s: seq<X>)
    ensures s + [] == s && [] + s == s
  {
  }

  lemma {:induction false} SubsetSize<X>(a: set<X>, b: set<X>)
    requires a <= b
    ensures |a| <= |b|
  {
    if a != {} {
      var x :| x in a;
      SubsetSize(a - {x}, b - {x});
    }
  }

  lemma StrictSubsetSize<X>(a: set<X>, b: set<X>)
    requires a <= b && a != b
    ensures |a| < |b|
  {
    var x :| x in b && x !in a;
    SubsetSize(a, b - {x});
  }

  /** More entries than values: some value occurs twice. */
  lemma {:induction false} Pigeonhole<X>(w: seq<X>, s: set<X>) returns (i: nat, j: nat)
    requires |w| > |s| && forall k | 0 <= k < |w| :: w[k] in s
    ensures i < j < |w| && w[i] == w[j]
  {
    var x, rest := w[0], w[1..];
    if x in rest {
      var k :| 0 <= k < |rest| && rest[k] == x;
      i, j := 0, k + 1;
    } else {
      i, j := Pigeonhole(rest, s - {x});
      i, j := i + 1, j + 1;
    }
  }

  /** Quotient and remainder are unique. */
  lemma UniqueRemainder(x: int, n: int, q: int, r: int)
    requires n >= 1 && 0 <= r < n && x == q * n + r
    ensures x % n == r
  {
    var d := q - x / n;
    assert d * n == x % n - r;
    Multiple(d, n);
  }

  lemma Multiple(d: int, n: int)
    requires n >= 1
    ensures d >= 1 ==> d * n >= n
    ensures d <= -1 ==> d * n <= -n
  {
  }

  ghost predicate NoRepeats<X>(s: seq<X>) {
    forall i, j | 0 <= i < j < |s| :: s[i] != s[j]
  }

  ghost predicate Increasing(s: seq<int>) {
    forall i, j | 0 <= i < j < |s| :: s[i] < s[j]
  }

  lemma IncreasingCons(p: nat, ps: seq<nat>)
    requires Increasing(ps) && forall k | 0 <= k < |ps| :: p < ps[k]
    ensures Increasing([p] + ps)
  {
    var all := [p] + ps;
    forall k, l | 0 <= k < l < |all| ensures all[k] < all[l] {
      assert all[l] == ps[l - 1] && (k > 0 ==> all[k] == ps[k - 1]);
    }
  }
}
