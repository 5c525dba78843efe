/**
 * `sorted(list(ids))` on a set of strings: Python orders strings
 * lexicographically by code point, a proper prefix coming first.
 */
module StringOrder {

  /** `a < b` on Python strings, comparing from index `i` on (the two agree before `i`). */
  predicate BelowFrom(a: string, b: string, i: nat)
    requires i <= |a| && i <= |b|
    decreases |a| - i
  {
    if i == |a| then i < |b|
    else if i == |b| then false
    else if a[i] != b[i] then a[i] < b[i]
    else BelowFrom(a, b, i + 1)
  }

  /** `a < b` on Python strings. */
  predicate Below(a: string, b: string)
  {
    BelowFrom(a, b, 0)
  }

  lemma {:induction false} BelowFromIrreflexive(a: string, i: nat)
    requires i <= |a|
    decreases |a| - i
    ensures !BelowFrom(a, a, i)
  {
    if i < |a| {
      BelowFromIrreflexive(a, i + 1);
    }
  }

  lemma {:induction false} BelowFromTransitive(a: string, b: string, c: string, i: nat)
    requires i <= |a| && i <= |b| && i <= |c|
    requires BelowFrom(a, b, i) && BelowFrom(b, c, i)
    decreases |a| - i
    ensures BelowFrom(a, c, i)
  {
    if i < |a| && i < |b| && i < |c| && a[i] == b[i] && b[i] == c[i] {
      BelowFromTransitive(a, b, c, i + 1);
    }
  }

  lemma {:induction false} BelowFromTotal(a: string, b: string, i: nat)
    requires i <= |a| && i <= |b| && a[i..] != b[i..]
    decreases |a| - i
    ensures BelowFrom(a, b, i) || BelowFrom(b, a, i)
  {
    if i < |a| && i < |b| && a[i] == b[i] {
      assert a[i..] == [a[i]] + a[i + 1..] && b[i..] == [b[i]] + b[i + 1..];
      BelowFromTotal(a, b, i + 1);
    }
  }

  lemma {:induction false} BelowFromAsymmetric(a: string, b: string, i: nat)
    requires i <= |a| && i <= |b| && BelowFrom(a, b, i)
    decreases |a| - i
    ensures !BelowFrom(b, a, i)
  {
    if i < |a| && i < |b| && a[i] == b[i] {
      BelowFromAsymmetric(a, b, i + 1);
    }
  }

  /** Python's string order is a strict total order. */
  lemma StrictTotalOrder(a: string, b: string, c: string)
    ensures !Below(a, a)
    ensures Below(a, b) ==> !Below(b, a)
    ensures Below(a, b) && Below(b, c) ==> Below(a, c)
    ensures a != b ==> Below(a, b) || Below(b, a)
  {
    BelowFromIrreflexive(a, 0);
    if Below(a, b) {
      BelowFromAsymmetric(a, b, 0);
      if Below(b, c) {
        BelowFromTransitive(a, b, c, 0);
      }
    }
    if a != b {
      assert a[0..] == a && b[0..] == b;
      BelowFromTotal(a, b, 0);
    }
  }

  /** Every element of `s` other than `m` is above `m`. */
  predicate IsLeast(m: string, s: set<string>)
  {
    m in s && forall y :: y in s && y != m ==> Below(m, y)
  }

  /** The smallest element of a non-empty set. */
  method Least(s: set<string>) returns (m: string)
    requires s != {}
    ensures IsLeast(m, s)
  {
    m :| m in s;
    var rest := s - {m};
    while rest != {}
      invariant rest <= s && m in s && m !in rest
      invariant forall y :: y in s && y !in rest && y != m ==> Below(m, y)
      decreases |rest|
    {
      var y :| y in rest;
      StrictTotalOrder(m, y, m);
      if Below(y, m) {
        forall z | z in s && z !in rest && z != y
          ensures Below(y, z)
        {
          if z != m {
            StrictTotalOrder(y, m, z);
          }
        }
        m := y;
      }
      rest := rest - {y};
    }
  }

  /** Strictly increasing under Python's string order. */
  predicate StrictlySorted(xs: seq<string>)
  {
    forall i, j :: 0 <= i < j < |xs| ==> Below(xs[i], xs[j])
  }

  /** `sorted(list(ids))`: the members of `ids`, each once, in increasing order. */
  method SortIds(ids: set<string>) returns (sorted: seq<string>)
    ensures StrictlySorted(sorted)
    ensures forall x :: x in sorted <==> x in ids
    ensures |sorted| == |ids|
  {
    sorted := [];
    var rest := ids;
    while rest != {}
      invariant rest <= ids
      invariant forall x :: x in sorted <==> x in ids && x !in rest
      invariant StrictlySorted(sorted)
      invariant forall i, y :: 0 <= i < |sorted| && y in rest ==> Below(sorted[i], y)
      invariant |sorted| + |rest| == |ids|
      decreases |rest|
    {
      var m := Least(rest);
      sorted := sorted + [m];
      rest := rest - {m};
    }
  }

  /** Two strictly sorted lists with the same members are the same list: the sorted order is unique. */
  lemma {:induction false} SortedUnique(xs: seq<string>, ys: seq<string>)
    requires StrictlySorted(xs) && StrictlySorted(ys)
    requires forall x :: x in xs <==> x in ys
    decreases |xs|
    ensures xs == ys
  {
    assert |xs| > 0 ==> xs[0] in ys;
    assert |ys| > 0 ==> ys[0] in xs;
    if |xs| > 0 && |ys| > 0 {
      var a, b := xs[0], ys[0];
      assert a in ys && b in xs;
      var j :| 0 <= j < |ys| && ys[j] == a;
      var i :| 0 <= i < |xs| && xs[i] == b;
      assert (j == 0 || Below(b, a)) && (i == 0 || Below(a, b));
      StrictTotalOrder(a, b, a);
      assert a == b;
      forall x ensures x in xs[1..] <==> x in ys[1..] {
        if x in xs[1..] {
          var i :| 1 <= i < |xs| && xs[i] == x;
          StrictTotalOrder(a, x, a);
          assert x != a && x in ys;
        }
        if x in ys[1..] {
          var j :| 1 <= j < |ys| && ys[j] == x;
          StrictTotalOrder(b, x, b);
          assert x != b && x in xs;
        }
      }
      SortedUnique(xs[1..], ys[1..]);
      assert xs == [a] + xs[1..] && ys == [b] + ys[1..];
    }
  }
}
