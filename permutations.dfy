/** `Graph.GetPermutations` (Graph.cs): the recursive, LINQ-built list of arrangements of a
    list, and the proof that for a list without repeats it yields every ordering exactly once. */
module Permutations {
  import opened Seqs

  /** `t` followed by each element of `list`, in list order, that `t` does not contain:
      the `SelectMany(t => list.Where(o => !t.Contains(o)), ...)` step for one `t`. */
  function Extend<T(==)>(t: seq<T>, list: seq<T>): seq<seq<T>> {
    if |list| == 0 then []
    else (if list[0] !in t then [t + [list[0]]] else []) + Extend(t, list[1..])
  }

  /** The `SelectMany` over every shorter arrangement, in order. */
  function ExtendAll<T(==)>(ts: seq<seq<T>>, list: seq<T>): seq<seq<T>> {
    if |ts| == 0 then [] else Extend(ts[0], list) + ExtendAll(ts[1..], list)
  }

  /** `GetPermutations(list, length)`. The source has no case for `length == 0` (it recurses
      without end), hence the precondition. */
  function GetPermutations<T(==)>(list: seq<T>, length: nat): seq<seq<T>>
    requires length >= 1
  {
    if length == 1 then seq(|list|, i requires 0 <= i < |list| => [list[i]])
    else ExtendAll(GetPermutations(list, length - 1), list)
  }

  /** `s` lists `k` distinct elements of `list`. */
  predicate Arrangement<T(==)>(s: seq<T>, list: seq<T>, k: nat) {
    |s| == k && NoDup(s) && forall i :: 0 <= i < |s| ==> s[i] in list
  }

  predicate Uniform<T>(ts: seq<seq<T>>, k: nat) {
    forall i :: 0 <= i < |ts| ==> |ts[i]| == k
  }

  function Fact(n: nat): nat {
    if n == 0 then 1 else n * Fact(n - 1)
  }

  /** n (n-1) ... (n-k+1): the number of arrangements of k out of n distinct elements. */
  function Falling(n: nat, k: nat): nat
    requires k <= n
  {
    if k == 0 then 1 else Falling(n, k - 1) * (n - k + 1)
  }

  lemma {:induction false} FallingFact(n: nat, k: nat)
    requires k <= n
    ensures Falling(n, k) * Fact(n - k) == Fact(n)
  {
    if k > 0 {
      FallingFact(n, k - 1);
      var a, b, m := Falling(n, k - 1), n - k + 1, Fact(n - k);
      assert Falling(n, k) == a * b;
      assert Fact(n - (k - 1)) == b * m;
      MulAssoc(a, b, m);
    }
  }

  lemma MulAssoc(a: int, b: int, c: int)
    ensures (a * b) * c == a * (b * c)
  {
  }

  lemma {:induction false} ExtendMember<T>(t: seq<T>, list: seq<T>, x: seq<T>)
    ensures x in Extend(t, list) <==>
      |x| == |t| + 1 && x[..|t|] == t && x[|t|] in list && x[|t|] !in t
  {
    if |list| > 0 {
      ExtendMember(t, list[1..], x);
      assert list == [list[0]] + list[1..];
      if |x| == |t| + 1 && x[..|t|] == t {
        assert x == t + [x[|t|]];
      }
    }
  }

  lemma {:induction false} ExtendNoDup<T>(t: seq<T>, list: seq<T>)
    requires NoDup(list)
    ensures NoDup(Extend(t, list))
  {
    if |list| > 0 {
      ExtendNoDup(t, list[1..]);
      var head := if list[0] !in t then [t + [list[0]]] else [];
      forall i | 0 <= i < |head| ensures head[i] !in Extend(t, list[1..]) {
        ExtendMember(t, list[1..], head[i]);
        assert list[0] !in list[1..];
        assert (t + [list[0]])[|t|] == list[0];
      }
      NoDupConcat(head, Extend(t, list[1..]));
    }
  }

  /** One extension step adds one entry per element of `list` that `t` lacks. */
  lemma {:induction false} ExtendLength<T>(t: seq<T>, list: seq<T>)
    requires NoDup(list)
    ensures |Extend(t, list)| == |list| - |Elems(list) * Elems(t)|
  {
    if |list| > 0 {
      var r := list[1..];
      ExtendLength(t, r);
      assert list[0] !in r;
      assert Elems(list) == {list[0]} + Elems(r);
      if list[0] in t {
        assert Elems(list) * Elems(t) == (Elems(r) * Elems(t)) + {list[0]};
      } else {
        assert Elems(list) * Elems(t) == Elems(r) * Elems(t);
      }
    }
  }

  lemma ExtendCount<T>(t: seq<T>, list: seq<T>)
    requires NoDup(list) && NoDup(t)
    requires forall i :: 0 <= i < |t| ==> t[i] in list
    ensures |Extend(t, list)| == |list| - |t|
  {
    ExtendLength(t, list);
    assert Elems(list) * Elems(t) == Elems(t);
    NoDupCard(t);
  }

  lemma {:induction false} ExtendAllMember<T>(ts: seq<seq<T>>, list: seq<T>, k: nat, x: seq<T>)
    requires Uniform(ts, k)
    ensures x in ExtendAll(ts, list) <==>
      |x| == k + 1 && x[..k] in ts && x[k] in list && x[k] !in x[..k]
  {
    if |ts| > 0 {
      ExtendAllMember(ts[1..], list, k, x);
      ExtendMember(ts[0], list, x);
      assert ts == [ts[0]] + ts[1..];
    }
  }

  lemma {:induction false} ExtendAllNoDup<T>(ts: seq<seq<T>>, list: seq<T>, k: nat)
    requires Uniform(ts, k) && NoDup(ts) && NoDup(list)
    ensures NoDup(ExtendAll(ts, list))
  {
    if |ts| > 0 {
      var a, b := Extend(ts[0], list), ExtendAll(ts[1..], list);
      ExtendNoDup(ts[0], list);
      ExtendAllNoDup(ts[1..], list, k);
      forall i | 0 <= i < |a| ensures a[i] !in b {
        ExtendMember(ts[0], list, a[i]);
        ExtendAllMember(ts[1..], list, k, a[i]);
        assert ts[0] !in ts[1..];
      }
      NoDupConcat(a, b);
    }
  }

  lemma {:induction false} ExtendAllCount<T>(ts: seq<seq<T>>, list: seq<T>, k: nat)
    requires NoDup(list)
    requires forall i :: 0 <= i < |ts| ==> Arrangement(ts[i], list, k)
    ensures |ExtendAll(ts, list)| == |ts| * (|list| - k)
  {
    if |ts| > 0 {
      var n, c := |ts| - 1, |list| - k;
      ExtendAllCount(ts[1..], list, k);
      assert Arrangement(ts[0], list, k);
      ExtendCount(ts[0], list);
      assert |ExtendAll(ts, list)| == |Extend(ts[0], list)| + |ExtendAll(ts[1..], list)|;
      MulSucc(n, c);
    }
  }

  lemma MulSucc(n: int, c: int)
    ensures (n + 1) * c == c + n * c
  {
  }

  /** The arrangements of length `k` are exactly the `k`-element arrangements of `list`. */
  lemma {:induction false} PermutationsMember<T>(list: seq<T>, k: nat, x: seq<T>)
    requires k >= 1
    ensures x in GetPermutations(list, k) <==> Arrangement(x, list, k)
    decreases k, 0
  {
    if k == 1 {
      SingletonsMember(list, x);
    } else {
      var Q := GetPermutations(list, k - 1);
      PermutationsAll(list, k - 1);
      ExtendAllMember(Q, list, k - 1, x);
      if |x| == k {
        PermutationsMember(list, k - 1, x[..k - 1]);
        ArrangementSnoc(x, list, k);
      }
    }
  }

  lemma SingletonsMember<T>(list: seq<T>, x: seq<T>)
    ensures x in GetPermutations(list, 1) <==> Arrangement(x, list, 1)
  {
    var P := GetPermutations(list, 1);
    if Arrangement(x, list, 1) {
      var i :| 0 <= i < |list| && list[i] == x[0];
      assert P[i] == x;
    }
  }

  /** An arrangement is a shorter one followed by an element of `list` not yet in it. */
  lemma ArrangementSnoc<T>(x: seq<T>, list: seq<T>, k: nat)
    requires |x| == k >= 1
    ensures Arrangement(x, list, k) <==>
      Arrangement(x[..k - 1], list, k - 1) && x[k - 1] in list && x[k - 1] !in x[..k - 1]
  {
    var p := x[..k - 1];
    assert x == p + [x[k - 1]];
    assert NoDup(x) <==> NoDup(p) && x[k - 1] !in p;
    assert (forall i :: 0 <= i < |x| ==> x[i] in list) <==>
           (forall i :: 0 <= i < |p| ==> p[i] in list) && x[k - 1] in list;
  }

  /** Every entry of `GetPermutations(list, k)` is a `k`-element arrangement of `list`. */
  lemma {:induction false} PermutationsAll<T>(list: seq<T>, k: nat)
    requires k >= 1
    ensures Uniform(GetPermutations(list, k), k)
    ensures forall i :: 0 <= i < |GetPermutations(list, k)| ==> Arrangement(GetPermutations(list, k)[i], list, k)
    decreases k, 1
  {
    var P := GetPermutations(list, k);
    forall i | 0 <= i < |P| ensures Arrangement(P[i], list, k) {
      PermutationsMember(list, k, P[i]);
    }
  }

  lemma {:induction false} PermutationsNoDup<T>(list: seq<T>, k: nat)
    requires k >= 1 && NoDup(list)
    ensures NoDup(GetPermutations(list, k))
  {
    if k > 1 {
      var Q := GetPermutations(list, k - 1);
      PermutationsNoDup(list, k - 1);
      PermutationsAll(list, k - 1);
      ExtendAllNoDup(Q, list, k - 1);
    }
  }

  lemma {:induction false} PermutationsCount<T>(list: seq<T>, k: nat)
    requires 1 <= k <= |list| && NoDup(list)
    ensures |GetPermutations(list, k)| == Falling(|list|, k)
  {
    if k > 1 {
      var Q := GetPermutations(list, k - 1);
      PermutationsCount(list, k - 1);
      PermutationsAll(list, k - 1);
      ExtendAllCount(Q, list, k - 1);
      assert |GetPermutations(list, k)| == |Q| * (|list| - (k - 1));
    }
  }

  /** An ordering is a rearrangement: same elements, same multiplicities. */
  lemma ArrangementIsPermutation<T>(x: seq<T>, list: seq<T>)
    requires NoDup(list) && Arrangement(x, list, |list|)
    ensures multiset(x) == multiset(list)
  {
    assert Elems(x) <= Elems(list);
    NoDupCard(x);
    NoDupCard(list);
    SubsetCard(Elems(x), Elems(list));
    forall y ensures multiset(x)[y] == multiset(list)[y] {
      NoDupMultiset(x, y);
      NoDupMultiset(list, y);
      assert y in x <==> y in Elems(x);
    }
  }

  /** For a list of n >= 1 distinct elements, `GetPermutations(list, n)` holds every ordering of
      the list exactly once, n! of them. */
  lemma GetPermutationsSpec<T>(list: seq<T>)
    requires |list| >= 1 && NoDup(list)
    ensures NoDup(GetPermutations(list, |list|))
    ensures |GetPermutations(list, |list|)| == Fact(|list|)
    ensures forall x :: x in GetPermutations(list, |list|) <==> Arrangement(x, list, |list|)
    ensures forall x :: x in GetPermutations(list, |list|) ==> multiset(x) == multiset(list)
  {
    var n := |list|;
    PermutationsNoDup(list, n);
    PermutationsCount(list, n);
    FallingFact(n, n);
    forall x ensures x in GetPermutations(list, n) <==> Arrangement(x, list, n) {
      PermutationsMember(list, n, x);
    }
    forall x | x in GetPermutations(list, n) ensures multiset(x) == multiset(list) {
      PermutationsMember(list, n, x);
      ArrangementIsPermutation(x, list);
    }
  }
}
