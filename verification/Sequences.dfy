/** Sequences without repetitions and sequences in another order. */
module Sequences {
  predicate Distinct<T(==)>(s: seq<T>) { forall i, j :: 0 <= i < j < |s| ==> s[i] != s[j] }

  lemma TwiceCounts<T(!new)>(s: seq<T>, i: nat, j: nat)
    requires i < j < |s| && s[i] == s[j]
    ensures multiset(s)[s[i]] >= 2
  {
    assert s == s[..i] + ([s[i]] + (s[i + 1..j] + ([s[j]] + s[j + 1..])));
  }

  lemma {:induction false} CountDistinct<T(!new)>(s: seq<T>)
    requires Distinct(s)
    ensures forall x :: multiset(s)[x] <= 1
  {
    if s != [] {
      CountDistinct(s[1..]);
      assert s == [s[0]] + s[1..];
      assert s[0] !in s[1..];
    }
  }

  lemma {:induction false} DistinctByCount<T(!new)>(s: seq<T>)
    ensures Distinct(s) <==> forall x :: multiset(s)[x] <= 1
  {
    if Distinct(s) {
      CountDistinct(s);
    } else {
      var i, j :| 0 <= i < j < |s| && s[i] == s[j];
      TwiceCounts(s, i, j);
    }
  }

  // ---------------------------------------------------------------------------
  // Other orders

  ghost predicate Permuted<T(!new)>(a: seq<T>, b: seq<T>) { multiset(a) == multiset(b) }

  function Without<T>(s: seq<T>, i: nat): seq<T>
    requires i < |s|
  {
    s[..i] + s[i + 1..]
  }

  lemma WithoutOne<T(!new)>(s: seq<T>, i: nat)
    requires i < |s|
    ensures multiset(Without(s, i)) == multiset(s) - multiset{s[i]}
  {
    assert s == s[..i] + ([s[i]] + s[i + 1..]);
  }

  lemma PermutedMembers<T(!new)>(a: seq<T>, b: seq<T>)
    requires Permuted(a, b)
    ensures |a| == |b| && forall x :: x in a <==> x in b
  {
    assert |multiset(a)| == |multiset(b)|;
    forall x ensures x in a <==> x in b {
      assert x in multiset(a) <==> x in multiset(b);
    }
  }

  /** Where the last element of one order stands in the other. */
  lemma FindLast<T(!new)>(a: seq<T>, b: seq<T>) returns (i: nat)
    requires Permuted(a, b) && a != []
    ensures i < |b| && b[i] == a[|a| - 1] && Permuted(a[..|a| - 1], Without(b, i))
  {
    PermutedMembers(a, b);
    var n := |a| - 1;
    assert a[n] in b;
    i :| 0 <= i < |b| && b[i] == a[n];
    WithoutOne(a, n);
    WithoutOne(b, i);
    assert Without(a, n) == a[..n];
  }
}
