/** The byte order of C strings and the sorted permutation of a list of strings. */
module Ordering {
  import opened Sequences

  /** Lexicographic order on characters: the order of strcmp on UTF-8 text. */
  predicate Leq(a: string, b: string) {
    a == "" || (b != "" && (a[0] < b[0] || (a[0] == b[0] && Leq(a[1..], b[1..]))))
  }

  lemma {:induction false} LeqTotal(a: string, b: string)
    ensures Leq(a, b) || Leq(b, a)
  {
    if a != "" && b != "" && a[0] == b[0] {
      LeqTotal(a[1..], b[1..]);
    }
  }

  lemma {:induction false} LeqAntisymmetric(a: string, b: string)
    requires Leq(a, b) && Leq(b, a)
    ensures a == b
  {
    if a != "" && b != "" {
      LeqAntisymmetric(a[1..], b[1..]);
      assert a == [a[0]] + a[1..] && b == [b[0]] + b[1..];
    }
  }

  lemma {:induction false} LeqTransitive(a: string, b: string, c: string)
    requires Leq(a, b) && Leq(b, c)
    ensures Leq(a, c)
  {
    if a != "" && a[0] == b[0] == c[0] {
      LeqTransitive(a[1..], b[1..], c[1..]);
    }
  }

  /** The first string is a beginning of the second, or smaller at the first difference. */
  ghost predicate Precedes(a: string, b: string) {
    || (|a| <= |b| && a == b[..|a|])
    || exists k :: DifferAt(a, b, k) && a[k] < b[k]
  }

  predicate DifferAt(a: string, b: string, k: int) {
    0 <= k < |a| && k < |b| && a[k] != b[k] && a[..k] == b[..k]
  }

  lemma {:induction false} OrderByFirstDifference(a: string, b: string)
    ensures Leq(a, b) <==> Precedes(a, b)
  {
    if a != "" && b != "" {
      if a[0] == b[0] {
        OrderByFirstDifference(a[1..], b[1..]);
        DifferLater(a, b);
        if |a| <= |b| {
          var front := b[1..][..|a| - 1];
          assert b[..|a|] == [b[0]] + front && a == [a[0]] + a[1..];
          assert b[..|a|][1..] == front;
        }
      } else {
        assert DifferAt(a, b, 0);
        FirstDiffers(a, b);
      }
    }
  }

  lemma FirstDiffers(a: string, b: string)
    requires a != "" && b != "" && a[0] != b[0]
    ensures !(|a| <= |b| && a == b[..|a|]) && forall k :: DifferAt(a, b, k) ==> k == 0
  {
    if |a| <= |b| {
      assert b[..|a|][0] == b[0];
    }
    forall k | 0 < k < |a| && k < |b| ensures a[..k] != b[..k] {
      assert a[..k][0] == a[0] && b[..k][0] == b[0];
    }
  }

  lemma DifferLater(a: string, b: string)
    requires a != "" && b != "" && a[0] == b[0]
    ensures forall k :: DifferAt(a[1..], b[1..], k) ==>
              DifferAt(a, b, k + 1) && a[k + 1] == a[1..][k] && b[k + 1] == b[1..][k]
    ensures forall k :: DifferAt(a, b, k) ==> k > 0 && DifferAt(a[1..], b[1..], k - 1)
  {
    forall k | DifferAt(a[1..], b[1..], k) ensures DifferAt(a, b, k + 1) {
      assert a[..k + 1] == [a[0]] + a[1..][..k] && b[..k + 1] == [b[0]] + b[1..][..k];
    }
    forall k | DifferAt(a, b, k) ensures k > 0 && DifferAt(a[1..], b[1..], k - 1) {
      assert a[1..][..k - 1] == a[..k][1..] && b[1..][..k - 1] == b[..k][1..];
    }
  }

  predicate Sorted(s: seq<string>) {
    forall i, j :: 0 <= i < j < |s| ==> Leq(s[i], s[j])
  }

  function Insert(x: string, s: seq<string>): seq<string> {
    if s == [] || Leq(x, s[0]) then [x] + s else [s[0]] + Insert(x, s[1..])
  }

  /** The sorted permutation, as a function. */
  function Sort(s: seq<string>): seq<string> {
    if s == [] then [] else Insert(s[0], Sort(s[1..]))
  }

  lemma {:induction false} InsertKeepsOrder(x: string, s: seq<string>)
    requires Sorted(s)
    ensures Sorted(Insert(x, s)) && multiset(Insert(x, s)) == multiset{x} + multiset(s)
  {
    if s == [] {
    } else if Leq(x, s[0]) {
      forall j | 0 < j < |s| ensures Leq(x, s[j]) {
        LeqTransitive(x, s[0], s[j]);
      }
    } else {
      LeqTotal(x, s[0]);
      InsertKeepsOrder(x, s[1..]);
      var r := Insert(x, s[1..]);
      assert s == [s[0]] + s[1..];
      forall j | 0 <= j < |r| ensures Leq(s[0], r[j]) {
        assert r[j] in multiset(r);
        if r[j] != x {
          assert r[j] in s[1..];
        }
      }
    }
  }

  lemma {:induction false} SortSorts(s: seq<string>)
    ensures Sorted(Sort(s)) && multiset(Sort(s)) == multiset(s)
  {
    if s != [] {
      SortSorts(s[1..]);
      InsertKeepsOrder(s[0], Sort(s[1..]));
      assert s == [s[0]] + s[1..];
    }
  }

  /** There is only one sorted permutation. */
  lemma {:induction false} SortedIsUnique(a: seq<string>, b: seq<string>)
    requires Sorted(a) && Sorted(b) && multiset(a) == multiset(b)
    ensures a == b
  {
    hide Leq;
    assert |a| == |multiset(a)| == |multiset(b)| == |b|;
    if a != [] {
      assert a[0] in multiset(b) && b[0] in multiset(a);
      HeadIsLeast(a, b[0]);
      HeadIsLeast(b, a[0]);
      LeqAntisymmetric(a[0], b[0]);
      TailMultiset(a);
      TailMultiset(b);
      SortedIsUnique(a[1..], b[1..]);
      assert a == [a[0]] + a[1..] && b == [b[0]] + b[1..];
    }
  }

  lemma TailMultiset(a: seq<string>)
    requires a != []
    ensures multiset(a[1..]) == multiset(a) - multiset{a[0]}
  {
    assert a == [a[0]] + a[1..];
  }

  lemma HeadIsLeast(a: seq<string>, x: string)
    requires Sorted(a) && x in a
    ensures Leq(a[0], x)
  {
    var k :| 0 <= k < |a| && a[k] == x;
    if k == 0 {
      LeqTotal(x, x);
    }
  }

  lemma {:induction false} SortIsCanonical(a: seq<string>, b: seq<string>)
    ensures Sort(a) == Sort(b) <==> multiset(a) == multiset(b)
  {
    SortSorts(a);
    SortSorts(b);
    if multiset(a) == multiset(b) {
      SortedIsUnique(Sort(a), Sort(b));
    }
  }

  method Swap(a: array<string>, i: nat, j: nat)
    requires i < j < a.Length
    modifies a
    ensures a[..] == old(a[..])[i := old(a[j])][j := old(a[i])]
    ensures multiset(a[..]) == multiset(old(a[..]))
  {
    var temporary := a[i];
    a[i] := a[j];
    a[j] := temporary;
  }

  /** Everything before `i` is in its final place. */
  predicate SettledBelow(s: seq<string>, i: nat)
    requires i <= |s|
  {
    forall p, q :: 0 <= p < i && p < q < |s| ==> Leq(s[p], s[q])
  }

  predicate LeastUpTo(s: seq<string>, i: nat, j: nat)
    requires i < |s| && j <= |s|
  {
    forall k :: i < k < j ==> Leq(s[i], s[k])
  }

  lemma SwapKeepsSettled(s: seq<string>, i: nat, j: nat)
    requires i < j < |s| && SettledBelow(s, i) && LeastUpTo(s, i, j) && !Leq(s[i], s[j])
    ensures var t := s[i := s[j]][j := s[i]]; SettledBelow(t, i) && LeastUpTo(t, i, j + 1)
  {
    var t := s[i := s[j]][j := s[i]];
    LeqTotal(s[i], s[j]);
    forall k | i < k < j + 1 ensures Leq(t[i], t[k]) {
      if k < j {
        LeqTransitive(s[j], s[i], s[k]);
      }
    }
  }

  /** The exchange sort of the attribute strings, in place. */
  method ExchangeSort(a: array<string>)
    modifies a
    ensures a[..] == Sort(old(a[..]))
  {
    hide Leq, Sort;
    ghost var before := a[..];
    var i := 0;
    while i < a.Length
      invariant 0 <= i <= a.Length
      invariant SettledBelow(a[..], i) && multiset(a[..]) == multiset(before)
    {
      var j := i + 1;
      while j < a.Length
        invariant i < j <= a.Length
        invariant SettledBelow(a[..], i) && LeastUpTo(a[..], i, j) && multiset(a[..]) == multiset(before)
      {
        if !Leq(a[i], a[j]) {
          SwapKeepsSettled(a[..], i, j);
          Swap(a, i, j);
        }
        j := j + 1;
      }
      i := i + 1;
    }
    SortSorts(before);
    SortedIsUnique(a[..], Sort(before));
  }

  // ---------------------------------------------------------------------------
  // Sorted listings of sets

  predicate StrictlySorted(s: seq<string>) {
    Sorted(s) && forall i, j :: 0 <= i < j < |s| ==> s[i] != s[j]
  }

  /** The sorted listing of the distinct strings of `s`. */
  function SortedSet(s: seq<string>): seq<string> {
    if s == [] then []
    else
      var rest := SortedSet(s[1..]);
      if s[0] in rest then rest else Insert(s[0], rest)
  }

  lemma InsertNew(x: string, s: seq<string>)
    requires StrictlySorted(s) && x !in s
    ensures StrictlySorted(Insert(x, s)) && forall y :: y in Insert(x, s) <==> y == x || y in s
  {
    hide Leq, Insert, Sorted;
    var r := Insert(x, s);
    InsertKeepsOrder(x, s);
    DistinctByCount(s);
    assert multiset(s)[x] == 0;
    forall y ensures y in r <==> y == x || y in s {
      assert y in r <==> y in multiset(r);
    }
    forall y ensures multiset(r)[y] <= 1 {
    }
    DistinctByCount(r);
  }

  lemma {:induction false} SortedSetLists(s: seq<string>)
    ensures StrictlySorted(SortedSet(s)) && forall x :: x in SortedSet(s) <==> x in s
  {
    hide Leq, Insert, Sorted;
    if s == [] {
      NothingIsSorted();
    } else {
      var rest := SortedSet(s[1..]);
      SortedSetLists(s[1..]);
      assert forall x :: x in s <==> x == s[0] || x in s[1..];
      if s[0] !in rest {
        InsertNew(s[0], rest);
      }
    }
  }

  lemma NothingIsSorted()
    ensures Sorted([])
  {
  }

  /** A set has only one sorted listing. */
  lemma StrictListingIsUnique(a: seq<string>, b: seq<string>)
    requires StrictlySorted(a) && StrictlySorted(b) && forall x :: x in a <==> x in b
    ensures a == b
  {
    hide Leq;
    DistinctByCount(a);
    DistinctByCount(b);
    forall x ensures multiset(a)[x] == multiset(b)[x] {
      assert x in a <==> x in multiset(a);
      assert x in b <==> x in multiset(b);
    }
    SortedIsUnique(a, b);
  }
}
