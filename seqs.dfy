/** The list operations of the .NET collections the graph code relies on:
    `List.IndexOf`, `List.Remove`, `Enumerable.Distinct`, and facts about lists without repeats. */
module Seqs {

  /** No element occurs twice. */
  predicate NoDup<T(==)>(s: seq<T>) {
    forall i, j :: 0 <= i < j < |s| ==> s[i] != s[j]
  }

  function Elems<T>(s: seq<T>): set<T> {
    set x | x in s
  }

  /** `List.IndexOf`: the first position of `x`, or -1. */
  function IndexOf<T(==)>(s: seq<T>, x: T): (r: int)
    ensures -1 <= r < |s|
    ensures r == -1 <==> x !in s
    ensures 0 <= r ==> s[r] == x && x !in s[..r]
  {
    if |s| == 0 then -1
    else if s[0] == x then 0
    else
      var k := IndexOf(s[1..], x);
      assert k >= 0 ==> s[..k + 1] == [s[0]] + s[1..][..k];
      if k == -1 then -1 else k + 1
  }

  lemma {:induction false} IndexOfNoDup<T>(s: seq<T>, i: int)
    requires NoDup(s) && 0 <= i < |s|
    ensures IndexOf(s, s[i]) == i
  {
    var k := IndexOf(s, s[i]);
    assert k <= i;
  }

  /** `Enumerable.Distinct`: the first occurrence of every element, in order. */
  function Dedup<T(==)>(s: seq<T>): (d: seq<T>)
    ensures NoDup(d)
    ensures Elems(d) == Elems(s)
    ensures |d| <= |s|
    decreases |s|
  {
    if |s| == 0 then []
    else
      var p := Dedup(s[..|s| - 1]);
      assert Elems(s) == Elems(s[..|s| - 1]) + {s[|s| - 1]} by {
        assert s == s[..|s| - 1] + [s[|s| - 1]];
      }
      if s[|s| - 1] in p then p else p + [s[|s| - 1]]
  }

  /** Distinct keeps first occurrences in the order in which they first occur. */
  lemma {:induction false} DedupOrder<T>(s: seq<T>)
    ensures forall i, j :: 0 <= i < j < |Dedup(s)| ==> IndexOf(s, Dedup(s)[i]) < IndexOf(s, Dedup(s)[j])
    decreases |s|
  {
    if |s| > 0 {
      var n := |s| - 1;
      var q := s[..n];
      var p, d := Dedup(q), Dedup(s);
      DedupOrder(q);
      assert s == q + [s[n]];
      forall i | 0 <= i < |p| ensures IndexOf(s, p[i]) == IndexOf(q, p[i]) < n {
        assert p[i] in Elems(q);
        IndexOfPrefix(q, s[n], p[i]);
      }
      if s[n] !in p {
        assert s[n] !in Elems(q);
        IndexOfLast(q, s[n]);
        assert d == p + [s[n]];
        forall i, j | 0 <= i < j < |d| ensures IndexOf(s, d[i]) < IndexOf(s, d[j]) {
          if j < |p| {
            assert d[i] == p[i] && d[j] == p[j];
          } else {
            assert d[i] == p[i] && d[j] == s[n];
          }
        }
      }
    }
  }

  lemma {:induction false} IndexOfPrefix<T>(q: seq<T>, y: T, x: T)
    requires x in q
    ensures IndexOf(q + [y], x) == IndexOf(q, x)
  {
    if q[0] != x {
      assert (q + [y])[1..] == q[1..] + [y];
      IndexOfPrefix(q[1..], y, x);
    }
  }

  lemma {:induction false} IndexOfLast<T>(q: seq<T>, y: T)
    requires y !in q
    ensures IndexOf(q + [y], y) == |q|
  {
    if |q| > 0 {
      assert (q + [y])[1..] == q[1..] + [y];
      IndexOfLast(q[1..], y);
    }
  }

  /** Distinct leaves a list without repeats as it is. */
  lemma {:induction false} DedupOfNoDup<T>(s: seq<T>)
    requires NoDup(s)
    ensures Dedup(s) == s
    decreases |s|
  {
    if |s| > 0 {
      var n := |s| - 1;
      DedupOfNoDup(s[..n]);
      assert s[n] !in s[..n];
      assert s == s[..n] + [s[n]];
    }
  }

  /** `List.Remove`: drops the first occurrence of `x`, if there is one. */
  function RemoveFirst<T(==)>(s: seq<T>, x: T): (r: seq<T>)
    ensures x !in s ==> r == s
    ensures x in s ==> r == s[..IndexOf(s, x)] + s[IndexOf(s, x) + 1..]
  {
    if |s| == 0 then []
    else if s[0] == x then s[1..]
    else
      var r := [s[0]] + RemoveFirst(s[1..], x);
      assert x in s ==> r == s[..IndexOf(s, x)] + s[IndexOf(s, x) + 1..] by {
        if x in s {
          var k := IndexOf(s[1..], x);
          assert s[..k + 1] == [s[0]] + s[1..][..k];
          assert s[k + 2..] == s[1..][k + 1..];
        }
      }
      r
  }

  /** On a list without repeats, removal deletes exactly `x` and keeps the list free of repeats. */
  lemma {:induction false} RemoveFirstNoDup<T>(s: seq<T>, x: T)
    requires NoDup(s)
    ensures NoDup(RemoveFirst(s, x))
    ensures Elems(RemoveFirst(s, x)) == Elems(s) - {x}
  {
    if |s| > 0 {
      var t := s[1..];
      NoDupTail(s);
      assert Elems(s) == {s[0]} + Elems(t) by {
        assert s == [s[0]] + t;
      }
      if s[0] != x {
        RemoveFirstNoDup(t, x);
        var r := RemoveFirst(t, x);
        assert RemoveFirst(s, x) == [s[0]] + r;
        assert Elems([s[0]] + r) == {s[0]} + Elems(r);
        assert s[0] !in Elems(r);
        NoDupConcat([s[0]], r);
      }
    }
  }

  lemma NoDupTail<T>(s: seq<T>)
    requires NoDup(s) && |s| > 0
    ensures NoDup(s[1..]) && s[0] !in s[1..]
  {
    var t := s[1..];
    forall i, j | 0 <= i < j < |t| ensures t[i] != t[j] {
      assert t[i] == s[i + 1] && t[j] == s[j + 1];
    }
  }

  /** A list without repeats has as many distinct elements as entries. */
  lemma {:induction false} NoDupCard<T>(s: seq<T>)
    requires NoDup(s)
    ensures |Elems(s)| == |s|
  {
    if |s| > 0 {
      NoDupCard(s[1..]);
      assert s[0] !in s[1..];
      assert Elems(s) == {s[0]} + Elems(s[1..]);
    }
  }

  lemma {:induction false} SubsetCard<T>(a: set<T>, b: set<T>)
    requires a <= b
    ensures |a| <= |b|
    ensures |a| == |b| ==> a == b
    decreases |b|
  {
    if b != {} {
      var y :| y in b;
      SubsetCard(a - {y}, b - {y});
      if y in a {
        assert a == (a - {y}) + {y};
      } else {
        assert a == a - {y};
      }
    }
  }

  /** Two lists without repeats and with no common element concatenate to one without repeats. */
  lemma NoDupConcat<T>(a: seq<T>, b: seq<T>)
    requires NoDup(a) && NoDup(b)
    requires forall i :: 0 <= i < |a| ==> a[i] !in b
    ensures NoDup(a + b)
  {
    var c := a + b;
    forall i, j | 0 <= i < j < |c| ensures c[i] != c[j] {
      if i < |a| && j >= |a| {
        assert c[j] == b[j - |a|];
      }
    }
  }

  /** In a list without repeats every element occurs exactly once. */
  lemma {:induction false} NoDupMultiset<T>(s: seq<T>, y: T)
    requires NoDup(s)
    ensures multiset(s)[y] == if y in s then 1 else 0
  {
    if |s| > 0 {
      NoDupMultiset(s[1..], y);
      assert s == [s[0]] + s[1..];
      assert s[0] !in s[1..];
    }
  }

  /** Distinct over `a + b` starts with `a` itself when `a` has no repeats. */
  lemma {:induction false} DedupPrefix<T>(a: seq<T>, b: seq<T>)
    requires NoDup(a)
    ensures |Dedup(a + b)| >= |a| && Dedup(a + b)[..|a|] == a
    decreases |b|
  {
    if |b| == 0 {
      assert a + b == a;
      DedupOfNoDup(a);
    } else {
      var b' := b[..|b| - 1];
      DedupPrefix(a, b');
      assert (a + b)[..|a + b| - 1] == a + b';
    }
  }

  /** A repeat-free sequence that holds `x` and nothing else has length one. */
  lemma OnlyElement<T>(s: seq<T>, x: T)
    requires NoDup(s) && x in s && forall y :: y in s ==> y == x
    ensures |s| == 1
  {
    NoDupCard(s);
    assert Elems(s) == {x};
  }
}
