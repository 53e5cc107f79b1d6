/** Sorting by a string key, in Go's order of strings, and why the result is canonical when keys are distinct. */
module Sorting {

  /** Lexicographic order. */
  predicate Less(a: string, b: string) {
    if b == "" then false
    else if a == "" then true
    else if a[0] != b[0] then a[0] < b[0]
    else Less(a[1..], b[1..])
  }

  /** A text comes before another if it is a proper beginning of it, or has the smaller character where they first differ. */
  ghost predicate Before(a: string, b: string, n: int) {
    && 0 <= n <= |a| && n < |b| && (forall i :: 0 <= i < n ==> a[i] == b[i])
    && (n == |a| || a[n] < b[n])
  }

  lemma {:induction false} LessExactly(a: string, b: string)
    ensures Less(a, b) <==> exists n :: Before(a, b, n)
  {
    if b != "" && a != "" && a[0] == b[0] {
      var x, y := a[1..], b[1..];
      LessExactly(x, y);
      if Less(a, b) {
        var n :| Before(x, y, n);
        assert forall i :: 0 < i < n + 1 ==> a[i] == x[i - 1] && b[i] == y[i - 1];
        assert Before(a, b, n + 1);
      }
      if n :| Before(a, b, n) {
        assert forall i :: 0 <= i < n - 1 ==> x[i] == a[i + 1] && y[i] == b[i + 1];
        assert Before(x, y, n - 1);
      }
    } else if Less(a, b) {
      assert Before(a, b, 0);
    }
  }

  lemma {:induction false} LessTransitive(a: string, b: string, c: string)
    requires Less(a, b) && Less(b, c)
    ensures Less(a, c)
  {
    if a != "" && a[0] == b[0] == c[0] {
      LessTransitive(a[1..], b[1..], c[1..]);
    }
  }

  lemma {:induction false} LessTotal(a: string, b: string)
    ensures Less(a, b) || Less(b, a) || a == b
    ensures !(Less(a, b) && Less(b, a)) && (a == b ==> !Less(a, b))
  {
    if a != "" && b != "" && a[0] == b[0] {
      LessTotal(a[1..], b[1..]);
      assert a == [a[0]] + a[1..] && b == [b[0]] + b[1..];
    }
  }

  /** The order a sort establishes; equal keys may come in any order. */
  ghost predicate SortedBy<T>(key: T -> string, xs: seq<T>) {
    forall i, j :: 0 <= i < j < |xs| ==> !Less(key(xs[j]), key(xs[i]))
  }

  ghost predicate StrictBy<T>(key: T -> string, xs: seq<T>) {
    forall i, j :: 0 <= i < j < |xs| ==> Less(key(xs[i]), key(xs[j]))
  }

  ghost predicate DistinctBy<T>(key: T -> string, xs: seq<T>) {
    forall i, j :: 0 <= i < j < |xs| ==> key(xs[i]) != key(xs[j])
  }

  lemma DistinctSortedIsStrict<T>(key: T -> string, xs: seq<T>)
    requires SortedBy(key, xs) && DistinctBy(key, xs)
    ensures StrictBy(key, xs)
  {
    forall i, j | 0 <= i < j < |xs| ensures Less(key(xs[i]), key(xs[j])) {
      LessTotal(key(xs[i]), key(xs[j]));
    }
  }

  ghost predicate SameElements<T(!new)>(xs: seq<T>, ys: seq<T>) {
    forall x :: x in xs <==> x in ys
  }

  lemma HeadUnique<T(!new)>(key: T -> string, xs: seq<T>, ys: seq<T>)
    requires StrictBy(key, xs) && StrictBy(key, ys) && SameElements(xs, ys) && xs != []
    ensures ys != [] && xs[0] == ys[0]
  {
    assert xs[0] in ys;
    var j :| 0 <= j < |ys| && ys[j] == xs[0];
    assert ys[0] in xs;
    var i :| 0 <= i < |xs| && xs[i] == ys[0];
    LessTotal(key(xs[0]), key(ys[0]));
  }

  /** Two strictly sorted sequences with the same elements are equal. */
  lemma {:induction false} StrictUnique<T(!new)>(key: T -> string, xs: seq<T>, ys: seq<T>)
    requires StrictBy(key, xs) && StrictBy(key, ys) && SameElements(xs, ys)
    ensures xs == ys
  {
    if xs == [] {
      if ys != [] {
        HeadUnique(key, ys, xs);
      }
    } else {
      HeadUnique(key, xs, ys);
      TailsAgree(key, xs, ys);
      StrictUnique(key, xs[1..], ys[1..]);
      assert xs == [xs[0]] + xs[1..] && ys == [ys[0]] + ys[1..];
    }
  }

  lemma TailsAgree<T(!new)>(key: T -> string, xs: seq<T>, ys: seq<T>)
    requires StrictBy(key, xs) && StrictBy(key, ys) && SameElements(xs, ys)
    requires xs != [] && ys != [] && xs[0] == ys[0]
    ensures SameElements(xs[1..], ys[1..])
  {
    forall x ensures x in xs[1..] <==> x in ys[1..] {
      LessTotal(key(xs[0]), key(xs[0]));
      assert x in xs <==> x == xs[0] || x in xs[1..];
      assert x in ys <==> x == ys[0] || x in ys[1..];
      assert x in xs[1..] ==> x != xs[0];
      assert x in ys[1..] ==> x != ys[0];
    }
  }

  // --- a sort ---

  function Insert<T>(key: T -> string, x: T, xs: seq<T>): (r: seq<T>)
    ensures multiset(r) == multiset(xs) + multiset{x}
  {
    if xs == [] || !Less(key(xs[0]), key(x)) then [x] + xs
    else
      assert xs == [xs[0]] + xs[1..];
      [xs[0]] + Insert(key, x, xs[1..])
  }

  function SortBy<T>(key: T -> string, xs: seq<T>): (r: seq<T>)
    ensures multiset(r) == multiset(xs)
  {
    if xs == [] then []
    else
      assert xs == [xs[0]] + xs[1..];
      Insert(key, xs[0], SortBy(key, xs[1..]))
  }

  lemma {:induction false} InsertSorted<T>(key: T -> string, x: T, xs: seq<T>)
    requires SortedBy(key, xs)
    ensures SortedBy(key, Insert(key, x, xs))
  {
    var r := Insert(key, x, xs);
    if xs == [] {
    } else if !Less(key(xs[0]), key(x)) {
      forall i, j | 0 <= i < j < |r| ensures !Less(key(r[j]), key(r[i])) {
        if i == 0 {
          if Less(key(xs[j - 1]), key(x)) {
            LessTotal(key(xs[0]), key(xs[j - 1]));
            LessTotal(key(xs[0]), key(x));
            if Less(key(xs[0]), key(xs[j - 1])) {
              LessTransitive(key(xs[0]), key(xs[j - 1]), key(x));
            }
          }
        }
      }
    } else {
      InsertSorted(key, x, xs[1..]);
      var tail := Insert(key, x, xs[1..]);
      forall j | 0 <= j < |tail| ensures !Less(key(tail[j]), key(xs[0])) {
        assert tail[j] in multiset(tail);
        if tail[j] == x {
          LessTotal(key(xs[0]), key(x));
        } else {
          assert tail[j] in xs[1..];
        }
      }
    }
  }

  lemma {:induction false} SortBySorted<T>(key: T -> string, xs: seq<T>)
    ensures SortedBy(key, SortBy(key, xs))
  {
    if xs != [] {
      SortBySorted(key, xs[1..]);
      InsertSorted(key, xs[0], SortBy(key, xs[1..]));
    }
  }

  // --- permutations of lists with distinct keys ---

  lemma SameMultisetSameElements<T(!new)>(xs: seq<T>, ys: seq<T>)
    requires multiset(xs) == multiset(ys)
    ensures SameElements(xs, ys)
  {
    forall x ensures x in xs <==> x in ys {
      assert x in xs <==> x in multiset(xs);
      assert x in ys <==> x in multiset(ys);
    }
  }

  lemma OccursTwice<T>(ys: seq<T>, i: int, j: int)
    requires 0 <= i < j < |ys| && ys[i] == ys[j]
    ensures multiset(ys)[ys[i]] >= 2
  {
    assert ys == ys[..j] + ys[j..];
    assert ys[i] in ys[..j] && ys[j] in ys[j..] by {
      assert ys[..j][i] == ys[i] && ys[j..][0] == ys[j];
    }
  }

  lemma {:induction false} FindTwo<T>(xs: seq<T>, x: T) returns (a: int, b: int)
    requires multiset(xs)[x] >= 2
    ensures 0 <= a < b < |xs| && xs[a] == x && xs[b] == x
  {
    assert xs == [xs[0]] + xs[1..];
    if xs[0] == x {
      assert x in multiset(xs[1..]);
      var k :| 0 <= k < |xs[1..]| && xs[1..][k] == x;
      a, b := 0, k + 1;
    } else {
      a, b := FindTwo(xs[1..], x);
      a, b := a + 1, b + 1;
    }
  }

  lemma DistinctPermutes<T(!new)>(key: T -> string, xs: seq<T>, ys: seq<T>)
    requires multiset(xs) == multiset(ys) && DistinctBy(key, xs)
    ensures DistinctBy(key, ys)
  {
    SameMultisetSameElements(xs, ys);
    forall i, j | 0 <= i < j < |ys| ensures key(ys[i]) != key(ys[j]) {
      if ys[i] == ys[j] {
        OccursTwice(ys, i, j);
        var a, b := FindTwo(xs, ys[i]);
      } else {
        assert ys[i] in ys && ys[j] in ys;
        var a :| 0 <= a < |xs| && xs[a] == ys[i];
        var b :| 0 <= b < |xs| && xs[b] == ys[j];
      }
    }
  }

  /** Every sort of every permutation of a list with distinct keys gives the same list. */
  lemma SortCanonical<T(!new)>(key: T -> string, xs: seq<T>, ys: seq<T>)
    requires multiset(xs) == multiset(ys) && DistinctBy(key, xs)
    requires SortedBy(key, ys)
    ensures ys == SortBy(key, xs)
  {
    var zs := SortBy(key, xs);
    SortBySorted(key, xs);
    DistinctPermutes(key, xs, ys);
    DistinctPermutes(key, xs, zs);
    DistinctSortedIsStrict(key, ys);
    DistinctSortedIsStrict(key, zs);
    SameMultisetSameElements(ys, zs);
    StrictUnique(key, ys, zs);
  }
}
