/** Code point order on strings and the stable sort by key that Python's sorted() performs. */
module KeySort {

  /** Python's < on str: the first differing code point decides, a proper prefix comes first. */
  predicate Less(a: string, b: string) {
    b != [] && (a == [] || a[0] < b[0] || (a[0] == b[0] && Less(a[1..], b[1..])))
  }

  lemma {:induction false} LessIsTotal(a: string, b: string)
    ensures Less(a, b) || a == b || Less(b, a)
    ensures !(Less(a, b) && Less(b, a))
    ensures !Less(a, a)
  {
    if a != [] {
      LessIsTotal(a[1..], a[1..]);
      if b != [] && a[0] == b[0] {
        LessIsTotal(a[1..], b[1..]);
        assert a == [a[0]] + a[1..] && b == [b[0]] + b[1..];
      }
    }
  }

  lemma {:induction false} LessIsTransitive(a: string, b: string, c: string)
    requires Less(a, b) && Less(b, c)
    ensures Less(a, c)
  {
    if a != [] && a[0] == b[0] == c[0] {
      LessIsTransitive(a[1..], b[1..], c[1..]);
    }
  }

  function Insert<T>(x: T, xs: seq<T>, key: T -> string): (r: seq<T>)
    ensures multiset(r) == multiset{x} + multiset(xs)
    ensures |r| == |xs| + 1
  {
    if xs == [] || !Less(key(xs[0]), key(x)) then [x] + xs
    else
      assert xs == [xs[0]] + xs[1..];
      [xs[0]] + Insert(x, xs[1..], key)
  }

  function Sort<T>(xs: seq<T>, key: T -> string): (r: seq<T>)
    ensures multiset(r) == multiset(xs)
    ensures |r| == |xs|
  {
    if xs == [] then []
    else
      assert xs == [xs[0]] + xs[1..];
      Insert(xs[0], Sort(xs[1..], key), key)
  }

  ghost predicate Ordered<T>(xs: seq<T>, key: T -> string) {
    forall i, j :: 0 <= i < j < |xs| ==> !Less(key(xs[j]), key(xs[i]))
  }

  ghost predicate StrictlyOrdered<T>(xs: seq<T>, key: T -> string) {
    forall i, j :: 0 <= i < j < |xs| ==> Less(key(xs[i]), key(xs[j]))
  }

  ghost predicate DistinctKeys<T>(xs: seq<T>, key: T -> string) {
    forall i, j :: 0 <= i < j < |xs| ==> key(xs[i]) != key(xs[j])
  }

  lemma {:induction false} InsertOrders<T>(x: T, xs: seq<T>, key: T -> string)
    requires Ordered(xs, key)
    ensures Ordered(Insert(x, xs, key), key)
  {
    if xs != [] {
      if Less(key(xs[0]), key(x)) {
        InsertOrders(x, xs[1..], key);
        var tail := Insert(x, xs[1..], key);
        forall j | 0 <= j < |tail| ensures !Less(key(tail[j]), key(xs[0])) {
          assert tail[j] in multiset(tail);
          LessIsTotal(key(xs[0]), key(x));
          if tail[j] in xs[1..] {
            var k :| 0 <= k < |xs[1..]| && xs[1..][k] == tail[j];
            assert xs[k + 1] == tail[j];
          }
        }
      } else {
        forall j | 0 <= j < |xs| ensures !Less(key(xs[j]), key(x)) {
          if Less(key(xs[j]), key(x)) && j > 0 {
            LessIsTotal(key(xs[0]), key(xs[j]));
            if key(xs[0]) != key(xs[j]) {
              LessIsTransitive(key(xs[0]), key(xs[j]), key(x));
            }
          }
        }
      }
    }
  }

  lemma {:induction false} SortOrders<T>(xs: seq<T>, key: T -> string)
    ensures Ordered(Sort(xs, key), key)
  {
    if xs != [] {
      SortOrders(xs[1..], key);
      InsertOrders(xs[0], Sort(xs[1..], key), key);
    }
  }

  /** The sort leaves an ordered sequence alone. */
  lemma {:induction false} SortKeepsOrdered<T>(xs: seq<T>, key: T -> string)
    requires Ordered(xs, key)
    ensures Sort(xs, key) == xs
  {
    if xs != [] {
      SortKeepsOrdered(xs[1..], key);
      assert xs == [xs[0]] + xs[1..];
    }
  }

  lemma SortMembers<T>(xs: seq<T>, key: T -> string, x: T)
    ensures x in Sort(xs, key) <==> x in xs
  {
    assert x in multiset(Sort(xs, key)) <==> x in multiset(xs);
  }

  lemma SameCountOfKey<T>(xs: seq<T>, i: int, j: int)
    requires 0 <= i < j < |xs| && xs[i] == xs[j]
    ensures multiset(xs)[xs[i]] >= 2
  {
    assert xs == xs[..j] + xs[j..];
    assert multiset(xs) == multiset(xs[..j]) + multiset(xs[j..]);
    assert xs[..j][i] in multiset(xs[..j]) && xs[j..][0] in multiset(xs[j..]);
  }

  lemma CountedTwice<T>(xs: seq<T>, x: T)
    requires multiset(xs)[x] >= 2
    ensures exists i, j :: 0 <= i < j < |xs| && xs[i] == xs[j] == x
  {
    var i :| 0 <= i < |xs| && xs[i] == x;
    var a, b := xs[..i], xs[i + 1..];
    assert xs == a + [x] + b;
    assert multiset(xs) == multiset(a) + multiset{x} + multiset(b);
    if x in multiset(a) {
      var k :| 0 <= k < |a| && a[k] == x;
      assert xs[k] == xs[i] == x;
    } else {
      assert x in b;
      var k :| 0 <= k < |b| && b[k] == x;
      assert xs[i] == xs[i + 1 + k] == x;
    }
  }

  lemma SortDistinct<T>(xs: seq<T>, key: T -> string)
    requires DistinctKeys(xs, key)
    ensures StrictlyOrdered(Sort(xs, key), key)
  {
    var r := Sort(xs, key);
    SortOrders(xs, key);
    forall i, j | 0 <= i < j < |r| ensures Less(key(r[i]), key(r[j])) {
      LessIsTotal(key(r[i]), key(r[j]));
      SortMembers(xs, key, r[i]);
      SortMembers(xs, key, r[j]);
      var a :| 0 <= a < |xs| && xs[a] == r[i];
      var b :| 0 <= b < |xs| && xs[b] == r[j];
      if a == b {
        SameCountOfKey(r, i, j);
        CountedTwice(xs, r[i]);
      }
    }
  }

  /** A strictly ordered sequence is determined by its elements. */
  lemma {:induction false} OrderedByElements<T(!new)>(xs: seq<T>, ys: seq<T>, key: T -> string)
    requires StrictlyOrdered(xs, key) && StrictlyOrdered(ys, key)
    requires forall x :: x in xs <==> x in ys
    ensures xs == ys
  {
    assert xs != [] ==> xs[0] in ys;
    assert ys != [] ==> ys[0] in xs;
    if xs != [] {
      var i :| 0 <= i < |ys| && ys[i] == xs[0];
      var j :| 0 <= j < |xs| && xs[j] == ys[0];
      LessIsTotal(key(xs[0]), key(ys[0]));
      assert xs[0] == ys[0];
      forall x ensures x in xs[1..] <==> x in ys[1..] {
        LessIsTotal(key(x), key(x));
        assert x in xs[1..] ==> x in xs && x != xs[0];
        assert x in ys[1..] ==> x in ys && x != ys[0];
      }
      OrderedByElements(xs[1..], ys[1..], key);
      assert xs == [xs[0]] + xs[1..];
      assert ys == [ys[0]] + ys[1..];
    }
  }
}
