/** Python's `sorted(xs, key=key, reverse=True)` for keys that are tuples of
    strings: a stable sort, largest key first. */
module PySorted {
  import opened PyStr

  /** Keys never increase along `xs`. */
  predicate SortedDesc<T>(xs: seq<T>, key: T -> seq<string>)
  {
    forall i, j :: 0 <= i < j < |xs| ==> !TupleLess(key(xs[i]), key(xs[j]))
  }

  /** The elements of `xs` whose key is `k`, in their order in `xs`. */
  function WithKey<T>(xs: seq<T>, key: T -> seq<string>, k: seq<string>): seq<T>
  {
    if xs == [] then []
    else (if key(xs[0]) == k then [xs[0]] else []) + WithKey(xs[1..], key, k)
  }

  /** A stable descending sort of `xs`: a permutation, keys non-increasing,
      and the elements of each key in their input order. */
  ghost predicate IsStableSortDesc<T>(r: seq<T>, xs: seq<T>, key: T -> seq<string>)
  {
    && SortedDesc(r, key)
    && forall k :: WithKey(r, key, k) == WithKey(xs, key, k)
  }

  /** "Not smaller than" on keys is transitive. */
  lemma NotLessTransitive(a: seq<string>, b: seq<string>, c: seq<string>)
    requires !TupleLess(a, b) && !TupleLess(b, c)
    ensures !TupleLess(a, c)
  {
    if TupleLess(a, c) {
      if a != b { TupleLessTotal(a, b); }
      if b != c { TupleLessTotal(b, c); }
      if a != b && b != c { TupleLessTransitive(c, b, a); }
      TupleLessTransitive(a, c, a);
      TupleLessIrreflexive(a);
    }
  }

  lemma {:induction false} WithKeyAppend<T>(a: seq<T>, b: seq<T>, key: T -> seq<string>, k: seq<string>)
    ensures WithKey(a + b, key, k) == WithKey(a, key, k) + WithKey(b, key, k)
    decreases |a|
  {
    if a == [] {
      assert a + b == b;
    } else {
      var h := if key(a[0]) == k then [a[0]] else [];
      assert (a + b)[0] == a[0];
      assert (a + b)[1..] == a[1..] + b;
      WithKeyAppend(a[1..], b, key, k);
      calc {
        WithKey(a + b, key, k);
        h + WithKey(a[1..] + b, key, k);
        h + (WithKey(a[1..], key, k) + WithKey(b, key, k));
        (h + WithKey(a[1..], key, k)) + WithKey(b, key, k);
        WithKey(a, key, k) + WithKey(b, key, k);
      }
    }
  }

  lemma {:induction false} WithKeyMember<T>(xs: seq<T>, key: T -> seq<string>, k: seq<string>, x: T)
    requires x in WithKey(xs, key, k)
    ensures x in xs && key(x) == k
    decreases |xs|
  {
    if xs != [] && !(key(xs[0]) == k && x == xs[0]) {
      WithKeyMember(xs[1..], key, k, x);
    }
  }

  /** Puts `x` in front of the first element of `xs` whose key is not larger
      than its own, so ahead of the elements with an equal key. */
  function Insert<T>(x: T, xs: seq<T>, key: T -> seq<string>): (r: seq<T>)
    ensures multiset(r) == multiset(xs) + multiset{x}
    ensures SortedDesc(xs, key) ==> SortedDesc(r, key)
    ensures forall k :: WithKey(r, key, k) == WithKey([x] + xs, key, k)
  {
    if xs == [] then [x]
    else if TupleLess(key(x), key(xs[0])) then
      var t := Insert(x, xs[1..], key);
      InsertBehind(x, xs, t, key);
      [xs[0]] + t
    else
      InsertFrontSorted(x, xs, key);
      [x] + xs
  }

  /** Insert when `x` goes behind `xs[0]`: the three properties of the
      result follow from those of the recursive insertion `t`. */
  lemma InsertBehind<T>(x: T, xs: seq<T>, t: seq<T>, key: T -> seq<string>)
    requires xs != [] && TupleLess(key(x), key(xs[0]))
    requires multiset(t) == multiset(xs[1..]) + multiset{x}
    requires SortedDesc(xs[1..], key) ==> SortedDesc(t, key)
    requires forall k :: WithKey(t, key, k) == WithKey([x] + xs[1..], key, k)
    ensures multiset([xs[0]] + t) == multiset(xs) + multiset{x}
    ensures SortedDesc(xs, key) ==> SortedDesc([xs[0]] + t, key)
    ensures forall k :: WithKey([xs[0]] + t, key, k) == WithKey([x] + xs, key, k)
  {
    InsertBehindCount(x, xs, t);
    InsertBehindSorted(x, xs, t, key);
    InsertBehindKeys(x, xs, t, key);
  }

  /** The permutation step of Insert when `x` goes behind `xs[0]`. */
  lemma InsertBehindCount<T>(x: T, xs: seq<T>, t: seq<T>)
    requires xs != []
    requires multiset(t) == multiset(xs[1..]) + multiset{x}
    ensures multiset([xs[0]] + t) == multiset(xs) + multiset{x}
  {
    assert xs == [xs[0]] + xs[1..];
  }

  /** The sortedness step of Insert when `x` goes behind `xs[0]`. */
  lemma InsertBehindSorted<T>(x: T, xs: seq<T>, t: seq<T>, key: T -> seq<string>)
    requires xs != [] && TupleLess(key(x), key(xs[0]))
    requires multiset(t) == multiset(xs[1..]) + multiset{x}
    requires SortedDesc(xs[1..], key) ==> SortedDesc(t, key)
    ensures SortedDesc(xs, key) ==> SortedDesc([xs[0]] + t, key)
  {
    if SortedDesc(xs, key) {
      var r := [xs[0]] + t;
      forall i, j | 0 <= i < j < |r|
        ensures !TupleLess(key(r[i]), key(r[j]))
      {
        if i == 0 {
          var y := t[j - 1];
          assert y in multiset(t);
          if y == x {
            if TupleLess(key(xs[0]), key(x)) {
              TupleLessTransitive(key(x), key(xs[0]), key(x));
              TupleLessIrreflexive(key(x));
            }
          } else {
            assert y in multiset(xs[1..]);
            var m :| 0 <= m < |xs[1..]| && xs[1..][m] == y;
            assert xs[m + 1] == y;
          }
        }
      }
    }
  }

  /** The stability step of Insert when `x` goes behind `xs[0]`: the two
      have different keys, so they may swap. */
  lemma InsertBehindKeys<T>(x: T, xs: seq<T>, t: seq<T>, key: T -> seq<string>)
    requires xs != [] && TupleLess(key(x), key(xs[0]))
    requires forall k :: WithKey(t, key, k) == WithKey([x] + xs[1..], key, k)
    ensures forall k :: WithKey([xs[0]] + t, key, k) == WithKey([x] + xs, key, k)
  {
    forall k ensures WithKey([xs[0]] + t, key, k) == WithKey([x] + xs, key, k) {
      InsertBehindKey(x, xs, t, key, k);
    }
  }

  /** InsertBehindKeys for the elements of one key. */
  lemma InsertBehindKey<T>(x: T, xs: seq<T>, t: seq<T>, key: T -> seq<string>, k: seq<string>)
    requires xs != [] && key(x) != key(xs[0])
    requires WithKey(t, key, k) == WithKey([x] + xs[1..], key, k)
    ensures WithKey([xs[0]] + t, key, k) == WithKey([x] + xs, key, k)
  {
    assert ([xs[0]] + t)[1..] == t;
    assert ([x] + xs)[1..] == xs;
    assert ([x] + xs[1..])[1..] == xs[1..];
  }

  /** The sortedness step of Insert when `x` goes in front of `xs`. */
  lemma InsertFrontSorted<T>(x: T, xs: seq<T>, key: T -> seq<string>)
    requires xs != [] && !TupleLess(key(x), key(xs[0]))
    ensures SortedDesc(xs, key) ==> SortedDesc([x] + xs, key)
  {
    if SortedDesc(xs, key) {
      var r := [x] + xs;
      forall i, j | 0 <= i < j < |r|
        ensures !TupleLess(key(r[i]), key(r[j]))
      {
        if i == 0 && j > 1 {
          NotLessTransitive(key(x), key(xs[0]), key(xs[j - 1]));
        }
      }
    }
  }

  /** Putting the same element in front of two sequences with the same
      elements per key keeps them so. */
  lemma SameKeysAfterHead<T>(x: T, a: seq<T>, b: seq<T>, key: T -> seq<string>)
    requires forall k :: WithKey(a, key, k) == WithKey(b, key, k)
    ensures forall k :: WithKey([x] + a, key, k) == WithKey([x] + b, key, k)
  {
    forall k ensures WithKey([x] + a, key, k) == WithKey([x] + b, key, k) {
      WithKeyAppend([x], a, key, k);
      WithKeyAppend([x], b, key, k);
    }
  }

  /** `sorted(xs, key=key, reverse=True)`. */
  function SortDesc<T>(xs: seq<T>, key: T -> seq<string>): (r: seq<T>)
    ensures multiset(r) == multiset(xs)
    ensures SortedDesc(r, key)
    ensures forall k :: WithKey(r, key, k) == WithKey(xs, key, k)
    decreases |xs|
  {
    if xs == [] then []
    else
      var tail := SortDesc(xs[1..], key);
      assert xs == [xs[0]] + xs[1..];
      SameKeysAfterHead(xs[0], tail, xs[1..], key);
      Insert(xs[0], tail, key)
  }

  /** A sorted `xs` holds no element with a key above that of its first one. */
  lemma MaxKeyFirst<T>(xs: seq<T>, key: T -> seq<string>, x: T, k: seq<string>)
    requires xs != [] && SortedDesc(xs, key)
    requires key(x) == k && TupleLess(key(xs[0]), k)
    ensures x !in WithKey(xs, key, k)
  {
    if x in WithKey(xs, key, k) {
      WithKeyMember(xs, key, k, x);
    }
  }

  /** Two sequences sorted by descending key that hold the same elements of
      each key in the same order are equal. */
  lemma {:induction false} SortedWithSameKeysEqual<T>(a: seq<T>, b: seq<T>, key: T -> seq<string>)
    requires SortedDesc(a, key) && SortedDesc(b, key)
    requires forall k :: WithKey(a, key, k) == WithKey(b, key, k)
    ensures a == b
    decreases |a|
  {
    if a == [] {
      if b != [] {
        WithKeyHead(b, key);
        assert false;
      }
    } else if b == [] {
      WithKeyHead(a, key);
      assert false;
    } else {
      var ka, kb := key(a[0]), key(b[0]);
      WithKeyHead(a, key);
      WithKeyHead(b, key);
      if ka != kb {
        TupleLessTotal(ka, kb);
        if TupleLess(kb, ka) {
          MaxKeyFirst(b, key, a[0], ka);
        } else {
          MaxKeyFirst(a, key, b[0], kb);
        }
        assert false;
      }
      assert WithKey(a, key, ka) == WithKey(b, key, ka);
      assert a[0] == WithKey(a, key, ka)[0] == WithKey(b, key, ka)[0] == b[0];
      forall k ensures WithKey(a[1..], key, k) == WithKey(b[1..], key, k) {
        var h := if key(a[0]) == k then [a[0]] else [];
        assert WithKey(a, key, k) == h + WithKey(a[1..], key, k);
        assert WithKey(b, key, k) == h + WithKey(b[1..], key, k);
        assert WithKey(a[1..], key, k) == WithKey(a, key, k)[|h|..];
        assert WithKey(b[1..], key, k) == WithKey(b, key, k)[|h|..];
      }
      SortedWithSameKeysEqual(a[1..], b[1..], key);
      assert a == [a[0]] + a[1..] && b == [b[0]] + b[1..];
    }
  }

  /** The first element heads the elements with its own key. */
  lemma WithKeyHead<T>(xs: seq<T>, key: T -> seq<string>)
    requires xs != []
    ensures WithKey(xs, key, key(xs[0])) == [xs[0]] + WithKey(xs[1..], key, key(xs[0]))
  {
  }

  /** SortDesc is THE stable descending sort: any sequence that is one is
      equal to it. */
  lemma StableSortDescIsUnique<T>(xs: seq<T>, r: seq<T>, key: T -> seq<string>)
    requires IsStableSortDesc(r, xs, key)
    ensures r == SortDesc(xs, key)
  {
    SortedWithSameKeysEqual(r, SortDesc(xs, key), key);
  }

  /** Of two elements of the sorted output, the one with the larger key
      comes first. */
  lemma LargerKeyFirst<T>(xs: seq<T>, key: T -> seq<string>, i: nat, j: nat)
    requires i < |SortDesc(xs, key)| && j < |SortDesc(xs, key)|
    requires TupleLess(key(SortDesc(xs, key)[j]), key(SortDesc(xs, key)[i]))
    ensures i < j
  {
  }
}
