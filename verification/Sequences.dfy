/** Stock datatypes and the few sequence functions several components share. */
module Sequences {

  datatype Option<+T> = None | Some(value: T)

  /** The elements of s that satisfy f, in order. */
  function Filter<T(!new)>(s: seq<T>, f: T -> bool): (r: seq<T>)
    ensures |r| <= |s|
  {
    if s == [] then [] else (if f(s[0]) then [s[0]] else []) + Filter(s[1..], f)
  }

  lemma {:induction false} FilterMembers<T(!new)>(s: seq<T>, f: T -> bool)
    ensures forall x :: x in Filter(s, f) <==> x in s && f(x)
  {
    if s != [] {
      FilterMembers(s[1..], f);
    }
  }

  lemma {:induction false} FilterAgree<T(!new)>(s: seq<T>, f: T -> bool, g: T -> bool)
    requires forall x | x in s :: f(x) == g(x)
    ensures Filter(s, f) == Filter(s, g)
  {
    if s != [] {
      FilterAgree(s[1..], f, g);
    }
  }

  lemma {:induction false} FilterFilter<T(!new)>(s: seq<T>, f: T -> bool, g: T -> bool)
    ensures Filter(Filter(s, f), g) == Filter(s, x => f(x) && g(x))
  {
    if s != [] {
      FilterFilter(s[1..], f, g);
      var rest := Filter(s[1..], f);
      if f(s[0]) {
        assert ([s[0]] + rest)[1..] == rest;
      } else {
        assert Filter(s, f) == rest;
      }
    }
  }

  /** Filtering twice is filtering once by any h that agrees with the conjunction. */
  lemma FilterCompose<T(!new)>(s: seq<T>, f: T -> bool, g: T -> bool, h: T -> bool)
    requires forall x | x in s :: h(x) == (f(x) && g(x))
    ensures Filter(Filter(s, f), g) == Filter(s, h)
  {
    FilterFilter(s, f, g);
    FilterAgree(s, x => f(x) && g(x), h);
  }

  lemma {:induction false} FilterAll<T(!new)>(s: seq<T>, f: T -> bool)
    requires forall x | x in s :: f(x)
    ensures Filter(s, f) == s
  {
    if s != [] {
      FilterAll(s[1..], f);
    }
  }

  lemma {:induction false} FilterNone<T(!new)>(s: seq<T>, f: T -> bool)
    requires forall x | x in s :: !f(x)
    ensures Filter(s, f) == []
  {
    if s != [] {
      FilterNone(s[1..], f);
    }
  }

  lemma {:induction false} FilterConcat<T(!new)>(a: seq<T>, b: seq<T>, f: T -> bool)
    ensures Filter(a + b, f) == Filter(a, f) + Filter(b, f)
  {
    if a == [] {
      assert a + b == b;
    } else {
      var first := if f(a[0]) then [a[0]] else [];
      assert (a + b)[1..] == a[1..] + b;
      calc {
        Filter(a + b, f);
        first + Filter(a[1..] + b, f);
        { FilterConcat(a[1..], b, f); }
        first + (Filter(a[1..], f) + Filter(b, f));
        (first + Filter(a[1..], f)) + Filter(b, f);
        Filter(a, f) + Filter(b, f);
      }
    }
  }

  /** If what a filter keeps is a prefix, it keeps nothing of the rest. */
  lemma {:induction false} FilterKeepsPrefix<T(!new)>(s: seq<T>, f: T -> bool, k: nat)
    requires k <= |s| && Filter(s, f) == s[..k]
    ensures forall x :: x in s[k..] ==> !f(x)
  {
    FilterMembers(s, f);
    if k > 0 {
      assert s[0] in Filter(s, f);
      assert Filter(s, f)[1..] == Filter(s[1..], f);
      assert s[..k][1..] == s[1..][..k - 1];
      FilterKeepsPrefix(s[1..], f, k - 1);
      assert s[1..][k - 1..] == s[k..];
    }
  }

  /** A filter that drops something is strictly shorter. */
  lemma {:induction false} FilterDrops<T(!new)>(s: seq<T>, f: T -> bool, k: nat)
    requires k < |s| && !f(s[k])
    ensures |Filter(s, f)| < |s|
  {
    if k > 0 {
      FilterDrops(s[1..], f, k - 1);
    }
  }
}
