/** Drawing numbers from a wrapping counter until one is free. */
module Probing {

  /** The `j`-th number drawn from a counter that stands at `n` and wraps at `m`. */
  function Probe(n: nat, m: nat, j: nat): (x: nat)
    requires n < m && j <= m
    ensures x < m
  {
    if n + j < m then n + j else n + j - m
  }

  /** The first `k` numbers are all taken. */
  ghost predicate AllTaken(n: nat, m: nat, taken: set<int>, k: nat)
    requires n < m && k <= m
  {
    forall j | 0 <= j < k :: Probe(n, m, j) in taken
  }

  /** Drawing `k <= m` taken numbers means at least `k` are taken: they are all different. */
  lemma {:induction false} TakenBound(n: nat, m: nat, taken: set<int>, k: nat)
    requires n < m && k <= m && AllTaken(n, m, taken, k)
    ensures k <= |taken|
  {
    if k > 0 {
      var x := Probe(n, m, k - 1);
      forall j | 0 <= j < k - 1 ensures Probe(n, m, j) in taken - {x} {
        assert Probe(n, m, j) != x;
      }
      TakenBound(n, m, taken - {x}, k - 1);
    }
  }

  lemma DrawFirst(n: nat, m: nat, taken: set<int>)
    requires n < m
    ensures AllTaken(n, m, taken, 0) && Probe(n, m, 0) == n
  {
  }

  /** Drawing a taken number leads on to the next one, and there are never more than are taken. */
  lemma DrawNext(n: nat, m: nat, taken: set<int>, k: nat)
    requires n < m && k < m && AllTaken(n, m, taken, k) && Probe(n, m, k) in taken
    ensures k + 1 <= |taken| && AllTaken(n, m, taken, k + 1)
    ensures Probe(n, m, k + 1) == (Probe(n, m, k) + 1) % m
  {
    TakenBound(n, m, taken, k + 1);
  }

  /** Every number from the counter up to the one drawn, round the wrap-around, is taken. */
  lemma DrawnInOrder(n: nat, m: nat, taken: set<int>, k: nat)
    requires n < m && k < m && AllTaken(n, m, taken, k)
    ensures var x := Probe(n, m, k);
            forall y | 0 <= y < m && (if n <= x then n <= y < x else y >= n || y < x) :: y in taken
  {
    var x := Probe(n, m, k);
    forall y | 0 <= y < m && (if n <= x then n <= y < x else y >= n || y < x) ensures y in taken {
      assert Probe(n, m, if y >= n then y - n else y + m - n) == y;
    }
  }

  /** How many taken numbers are drawn before the first free one: at most as many as are taken. */
  ghost function Skipped(n: nat, m: nat, taken: set<int>): (k: nat)
    requires n < m && |taken| < m
    ensures k <= |taken| && AllTaken(n, m, taken, k) && Probe(n, m, k) !in taken
  {
    SkippedFrom(n, m, taken, 0)
  }

  ghost function SkippedFrom(n: nat, m: nat, taken: set<int>, k: nat): (r: nat)
    requires n < m && |taken| < m && k <= m && AllTaken(n, m, taken, k)
    ensures k <= r <= |taken| && AllTaken(n, m, taken, r) && Probe(n, m, r) !in taken
    decreases m - k
  {
    TakenBound(n, m, taken, k);
    if Probe(n, m, k) in taken then SkippedFrom(n, m, taken, k + 1) else k
  }

  /** Nothing free is passed over, so the count is the only one of its kind. */
  lemma SkippedUnique(n: nat, m: nat, taken: set<int>, k: nat)
    requires n < m && |taken| < m && k <= m && AllTaken(n, m, taken, k) && Probe(n, m, k) !in taken
    ensures k == Skipped(n, m, taken)
  {
  }

  lemma {:induction false} SubsetSize<T>(a: set<T>, b: set<T>)
    requires a <= b
    ensures |a| <= |b|
  {
    if a != {} {
      var x :| x in a;
      SubsetSize(a - {x}, b - {x});
    }
  }
}
