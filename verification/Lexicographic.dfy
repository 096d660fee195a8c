/** Python's order on strings, and `sorted` for lists of strings. */
module Lexicographic {

  predicate Leq(a: string, b: string) {
    if a == "" then true
    else if b == "" then false
    else if a[0] == b[0] then Leq(a[1..], b[1..])
    else a[0] < b[0]
  }

  /** The first difference decides, and a prefix comes first. */
  lemma {:induction false} LeqExactly(a: string, b: string)
    ensures Leq(a, b) <==> a <= b || exists k :: 0 <= k < |a| && k < |b| && a[..k] == b[..k] && a[k] < b[k]
  {
    if a != "" && b != "" {
      if a[0] == b[0] {
        LeqExactly(a[1..], b[1..]);
        assert a <= b <==> a[1..] <= b[1..];
        if k :| 0 <= k < |a| && k < |b| && a[..k] == b[..k] && a[k] < b[k] {
          assert a[1..][..k - 1] == a[..k][1..] && b[1..][..k - 1] == b[..k][1..];
        }
        if k :| 0 <= k < |a| - 1 && k < |b| - 1 && a[1..][..k] == b[1..][..k] && a[1..][k] < b[1..][k] {
          assert a[..k + 1] == [a[0]] + a[1..][..k] && b[..k + 1] == [b[0]] + b[1..][..k];
        }
      } else if a[0] < b[0] {
        assert a[..0] == b[..0];
      } else {
        forall k | 0 < k < |a| && k < |b|
          ensures a[..k] != b[..k]
        {
          assert a[..k][0] == a[0] && b[..k][0] == b[0];
        }
      }
    }
  }

  lemma Reflexive(a: string)
    ensures Leq(a, a)
  {
  }

  lemma {:induction false} Antisymmetric(a: string, b: string)
    requires Leq(a, b) && Leq(b, a)
    ensures a == b
  {
    if a != "" && b != "" {
      Antisymmetric(a[1..], b[1..]);
      assert a == [a[0]] + a[1..] && b == [b[0]] + b[1..];
    }
  }

  lemma {:induction false} Transitive(a: string, b: string, c: string)
    requires Leq(a, b) && Leq(b, c)
    ensures Leq(a, c)
  {
    if a != "" && a[0] == b[0] && b[0] == c[0] {
      Transitive(a[1..], b[1..], c[1..]);
    }
  }

  lemma {:induction false} Total(a: string, b: string)
    ensures Leq(a, b) || Leq(b, a)
  {
    if a != "" && b != "" && a[0] == b[0] {
      Total(a[1..], b[1..]);
    }
  }

  ghost predicate Distinct<T>(xs: seq<T>) {
    forall i, j | 0 <= i < j < |xs| :: xs[i] != xs[j]
  }

  ghost predicate Ascending(xs: seq<string>) {
    forall i, j | 0 <= i < j < |xs| :: Leq(xs[i], xs[j])
  }

  method Insert(x: string, xs: seq<string>) returns (r: seq<string>)
    requires Ascending(xs) && Distinct(xs) && x !in xs
    ensures Ascending(r) && Distinct(r) && forall y :: y in r <==> y == x || y in xs
  {
    hide Leq;
    var i := 0;
    while i < |xs| && Leq(xs[i], x)
      invariant 0 <= i <= |xs|
      invariant forall k | 0 <= k < i :: Leq(xs[k], x)
    {
      i := i + 1;
    }
    forall k | i <= k < |xs|
      ensures Leq(x, xs[k])
    {
      Total(x, xs[i]);
      if i < k {
        Transitive(x, xs[i], xs[k]);
      }
    }
    r := xs[..i] + [x] + xs[i..];
    assert xs == xs[..i] + xs[i..];
  }

  /** `sorted(xs)` for the keys of a dictionary. */
  method Sorted(xs: seq<string>) returns (r: seq<string>)
    requires Distinct(xs)
    ensures Ascending(r) && Distinct(r) && forall y :: y in r <==> y in xs
  {
    r := [];
    for i := 0 to |xs|
      invariant Ascending(r) && Distinct(r) && forall y :: y in r <==> y in xs[..i]
    {
      r := Insert(xs[i], r);
      assert xs[..i + 1] == xs[..i] + [xs[i]];
    }
    assert xs[..|xs|] == xs;
  }
}
