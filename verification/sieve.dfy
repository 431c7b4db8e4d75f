/**
 The prime sieve of primez/primez.py and the exact count of primes computed from it.
 */
module PrimeSieve {

  predicate Divides(d: nat, k: nat)
    requires d > 0
  {
    k % d == 0
  }

  /** k has a proper divisor from 2 up to but not including `limit`. */
  ghost predicate HasDivisorBelow(k: nat, limit: nat)
  {
    exists d: nat :: 2 <= d < limit && d < k && Divides(d, k)
  }

  ghost predicate IsPrime(k: nat)
  {
    k >= 2 && forall d: nat :: 2 <= d < k ==> !Divides(d, k)
  }

  // ---- Divisibility ----

  lemma MulAtLeast(x: int, d: nat)
    requires x >= 1
    ensures x * d >= d
  {
  }

  lemma MulMonotone(a: nat, b: nat, c: nat, d: nat)
    requires a <= c && b <= d
    ensures a * b <= c * d
  {
    assert a * b <= a * d;
    assert a * d <= c * d;
  }

  lemma SameQuotient(a: int, b: int, q: int, r: int, d: nat)
    requires 0 <= b < d && 0 <= r < d && a * d + b == q * d + r
    ensures a == q && b == r
  {
    assert (a - q) * d == a * d - q * d && (q - a) * d == q * d - a * d;
    if a > q {
      MulAtLeast(a - q, d);
    } else if a < q {
      MulAtLeast(q - a, d);
    }
  }

  lemma QuotientIsUnique(k: nat, d: nat, q: nat, r: nat)
    requires d > 0 && r < d && k == q * d + r
    ensures k / d == q && k % d == r
  {
    SameQuotient(k / d, k % d, q, r, d);
  }

  lemma MultipleDivides(d: nat, q: nat)
    requires d > 0
    ensures Divides(d, d * q)
  {
    QuotientIsUnique(d * q, d, q, 0);
  }

  lemma DividesTransitive(d: nat, i: nat, k: nat)
    requires d > 0 && i > 0 && Divides(d, i) && Divides(i, k)
    ensures Divides(d, k)
  {
    var a, b := i / d, k / i;
    assert i == d * a && k == i * b;
    assert k == d * (a * b);
    MultipleDivides(d, a * b);
  }

  /** The other factor of a proper divisor is a proper divisor, too. */
  lemma Cofactor(d: nat, k: nat) returns (e: nat)
    requires 2 <= d < k && Divides(d, k)
    ensures d * e == k && 2 <= e < k && Divides(e, k)
  {
    e := k / d;
    assert k == d * e;
    if e <= 1 {
      MulMonotone(d, e, d, 1);
    }
    MulMonotone(2, e, d, e);
    MultipleDivides(e, d);
  }

  /** Between two consecutive multiples there is no other. */
  lemma NextMultiple(i: nat, j: nat, k: nat)
    requires i > 0 && Divides(i, j) && j < k < j + i
    ensures !Divides(i, k)
  {
    QuotientIsUnique(k, i, j / i, k - j);
  }

  lemma MultipleStep(i: nat, j: nat)
    requires i > 0 && Divides(i, j)
    ensures Divides(i, j + i)
  {
    assert j + i == i * (j / i + 1);
    MultipleDivides(i, j / i + 1);
  }

  /** A composite number up to n has a proper divisor up to the square root of n. */
  lemma SmallDivisor(k: nat, n: nat, m: nat, limit: nat)
    requires k <= n < (m + 1) * (m + 1) && m < limit
    ensures IsPrime(k) <==> k >= 2 && !HasDivisorBelow(k, limit)
  {
    if k >= 2 && !IsPrime(k) {
      var d: nat :| 2 <= d < k && Divides(d, k);
      var e := Cofactor(d, k);
      if d > m && e > m {
        MulMonotone(m + 1, m + 1, d, e);
      }
    }
  }

  // ---- The sieve ----

  /** The table after all divisors below `limit` have been used. */
  ghost predicate Sifted(s: seq<bool>, limit: nat)
  {
    forall k :: 0 <= k < |s| ==> (s[k] <==> k >= 2 && !HasDivisorBelow(k, limit))
  }

  /** An even divisor adds nothing to the divisor 2. */
  lemma EvenDivisor(k: nat, i: nat)
    requires i >= 3 && Divides(2, i)
    ensures HasDivisorBelow(k, i + 1) <==> HasDivisorBelow(k, i)
  {
    if i < k && Divides(i, k) {
      DividesTransitive(2, i, k);
    }
  }

  /** A divisor that is not prime adds nothing to its own divisors. */
  lemma CompositeDivisor(k: nat, i: nat)
    requires HasDivisorBelow(i, i)
    ensures HasDivisorBelow(k, i + 1) <==> HasDivisorBelow(k, i)
  {
    if i < k && Divides(i, k) {
      var d: nat :| 2 <= d < i && Divides(d, i);
      DividesTransitive(d, i, k);
    }
  }

  lemma OneMoreDivisor(k: nat, i: nat)
    requires i >= 2
    ensures HasDivisorBelow(k, i + 1) <==> HasDivisorBelow(k, i) || (i < k && Divides(i, k))
  {
  }

  /** Clearing `s` into `t` at the proper multiples of i. */
  ghost predicate Cleared(s: seq<bool>, t: seq<bool>, i: nat)
    requires i >= 2
  {
    |t| == |s| && forall k :: 0 <= k < |s| ==> (t[k] <==> s[k] && !(i < k && Divides(i, k)))
  }

  /** All but 0 and 1, the even numbers cleared. */
  lemma SiftEven(s: seq<bool>, t: seq<bool>)
    requires Cleared(s, t, 2) && forall k :: 0 <= k < |s| ==> (s[k] <==> k >= 2)
    ensures Sifted(t, 3)
  {
    forall k: nat | k < |t|
      ensures t[k] <==> k >= 2 && !HasDivisorBelow(k, 3)
    {
      OneMoreDivisor(k, 2);
    }
  }

  /** One round: the multiples of an odd number are cleared if it is still marked. */
  lemma SiftOdd(s: seq<bool>, t: seq<bool>, i: nat)
    requires 3 <= i < |s| && i % 2 == 1 && Sifted(s, i) && if s[i] then Cleared(s, t, i) else t == s
    ensures Sifted(t, i + 2)
  {
    forall k: nat | k < |t|
      ensures t[k] <==> k >= 2 && !HasDivisorBelow(k, i + 2)
    {
      EvenDivisor(k, i + 1);
      OneMoreDivisor(k, i);
      if !s[i] {
        CompositeDivisor(k, i);
      }
    }
  }

  /** The inner loops: clear i + i, i + i + i and so on. */
  method ClearMultiples(s: array<bool>, i: nat)
    requires i >= 2
    modifies s
    ensures Cleared(old(s[..]), s[..], i)
  {
    var j := i + i;
    MultipleDivides(i, 2);
    assert forall k: nat :: i < k < j ==> !Divides(i, k) by {
      MultipleDivides(i, 1);
      forall k: nat | i < k < j
        ensures !Divides(i, k)
      {
        NextMultiple(i, i, k);
      }
    }
    while j < s.Length
      invariant Divides(i, j) && j > i
      invariant forall k :: 0 <= k < s.Length ==> (s[k] <==> old(s[k]) && !(i < k < j && Divides(i, k)))
    {
      s[j] := false;
      MultipleStep(i, j);
      forall k: nat | j < k < j + i
        ensures !Divides(i, k)
      {
        NextMultiple(i, j, k);
      }
      j := j + i;
    }
  }

  datatype Result = Table(marks: array<bool>) | IndexError

  /** sieve, with m the truncated square root of n: the table marks exactly the primes. */
  method Sieve(n: int, m: nat) returns (r: Result)
    requires n >= 1 ==> m * m <= n < (m + 1) * (m + 1)
    ensures r.IndexError? <==> n < 1
    ensures r.Table? ==> fresh(r.marks) && r.marks.Length == n + 1
    ensures r.Table? ==> forall k: nat :: k <= n ==> (r.marks[k] <==> IsPrime(k))
  {
    if n < 1 {
      return IndexError;
    }
    var s := new bool[n + 1](_ => true);
    s[0], s[1] := false, false;
    ghost var before := s[..];
    ClearMultiples(s, 2);
    SiftEven(before, s[..]);
    MulMonotone(m, if m == 0 then 0 else 1, m, m);
    var i := 3;
    while i < m + 1
      invariant i >= 3 && i % 2 == 1 && Sifted(s[..], i)
    {
      before := s[..];
      if s[i] {
        ClearMultiples(s, i);
      }
      SiftOdd(before, s[..], i);
      i := i + 2;
    }
    forall k: nat | k <= n
      ensures s[k] <==> IsPrime(k)
    {
      assert s[..][k] == s[k];
      SmallDivisor(k, n, m, i);
    }
    r := Table(s);
  }

  // ---- Counting ----

  ghost function PrimesUpTo(n: nat): set<nat>
  {
    set p: nat | p <= n && IsPrime(p)
  }

  function Ones(s: seq<bool>): nat
  {
    if s == [] then 0 else Ones(s[..|s| - 1]) + if s[|s| - 1] then 1 else 0
  }

  /** Slicing stops at the end of the table. */
  function ExactPi(n: nat, s: seq<bool>): nat
  {
    Ones(if n + 1 <= |s| then s[..n + 1] else s)
  }

  /** exact_pi on any table that marks the primes up to n or further counts the primes up to n. */
  lemma {:induction false} ExactPiCounts(n: nat, s: seq<bool>)
    requires n < |s| && forall k: nat :: k < |s| ==> (s[k] <==> IsPrime(k))
    ensures ExactPi(n, s) == |PrimesUpTo(n)|
  {
    assert s[..n + 1][..n] == s[..n];
    if n == 0 {
      assert PrimesUpTo(0) == {};
      assert Ones(s[..0]) == 0;
    } else {
      ExactPiCounts(n - 1, s);
      if s[n] {
        assert PrimesUpTo(n) == PrimesUpTo(n - 1) + {n};
      } else {
        assert PrimesUpTo(n) == PrimesUpTo(n - 1);
      }
    }
  }

  /** exact_pi without a table. */
  method CountPrimes(n: int, m: nat) returns (count: nat, ok: bool)
    requires n >= 1 ==> m * m <= n < (m + 1) * (m + 1)
    ensures ok <==> n >= 1
    ensures ok ==> count == |PrimesUpTo(n)|
  {
    var r := Sieve(n, m);
    if r.IndexError? {
      return 0, false;
    }
    count, ok := ExactPi(n, r.marks[..]), true;
    ExactPiCounts(n, r.marks[..]);
  }
}
