/**
 Facts about finite sets and their sizes that several proofs share.
 */
module Sets {

  ghost function Below(s: set<nat>, k: int): set<nat>
  {
    set z | z in s && z < k
  }

  lemma BelowNext(s: set<nat>, k: nat)
    ensures |Below(s, k + 1)| == |Below(s, k)| + (if k in s then 1 else 0)
  {
    if k in s {
      assert Below(s, k + 1) == Below(s, k) + {k};
    } else {
      assert Below(s, k + 1) == Below(s, k);
    }
  }

  lemma BelowAll(s: set<nat>, k: nat)
    requires forall z :: z in s ==> z < k
    ensures Below(s, k) == s && |Below(s, k)| == |s|
  {
    assert Below(s, k) == s;
  }

  lemma SubsetSize<T>(a: set<T>, b: set<T>)
    requires a <= b
    ensures |a| <= |b|
  {
    assert b == a + (b - a);
  }

  lemma ProperSubsetSize<T>(a: set<T>, b: set<T>, z: T)
    requires a <= b && z in b && z !in a
    ensures |a| < |b|
  {
    assert b == a + (b - a);
    assert z in b - a;
  }

  lemma {:induction false} BoundedSet(s: set<nat>, n: nat)
    requires forall z :: z in s ==> z < n
    ensures |s| <= n
  {
    if n > 0 {
      BoundedSet(s - {n - 1}, n - 1);
    }
  }

  lemma {:induction false} AllBelow(s: set<nat>, n: nat)
    requires forall z: nat :: z in s <==> z < n
    ensures |s| == n
  {
    if n == 0 {
      assert s == {};
    } else {
      AllBelow(s - {n - 1}, n - 1);
    }
  }

  ghost function Elements(s: seq<nat>): set<nat>
  {
    set k | 0 <= k < |s| :: s[k]
  }

  lemma {:induction false} DistinctSize(s: seq<nat>)
    requires forall i, j :: 0 <= i < j < |s| ==> s[i] != s[j]
    ensures |Elements(s)| == |s|
  {
    if s != [] {
      var n := |s| - 1;
      DistinctSize(s[..n]);
      assert Elements(s) == Elements(s[..n]) + {s[n]};
    }
  }
}
