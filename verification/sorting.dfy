/** Python's stable sort (`sorted(xs, key=k)` and `xs.sort(key=k)`), modelled as a
    stable insertion sort on the keys of `Keys`. A stable sort is determined by its
    three properties, proved below: the result is a permutation of the input
    (the ensures of SortBy), it is ordered by key (SortSorted), and elements with
    equal keys keep their input order (SortStable). A descending sort
    (`reverse=True`, which Python also keeps stable) is the ascending sort on the
    negated integer key. */
module Sorting {
  import opened Keys

  /** Puts x in front of the first element whose key is not smaller than x's. */
  function Insert<T>(x: T, ys: seq<T>, key: T -> Key): (r: seq<T>)
    ensures multiset(r) == multiset(ys) + multiset{x}
    ensures |r| == |ys| + 1
  {
    if ys == [] || KeyLe(key(x), key(ys[0])) then [x] + ys
    else
      assert ys == [ys[0]] + ys[1..];
      [ys[0]] + Insert(x, ys[1..], key)
  }

  function SortBy<T>(xs: seq<T>, key: T -> Key): (r: seq<T>)
    ensures multiset(r) == multiset(xs)
    ensures |r| == |xs|
  {
    if xs == [] then []
    else
      assert xs == [xs[0]] + xs[1..];
      Insert(xs[0], SortBy(xs[1..], key), key)
  }

  ghost predicate SortedBy<T>(xs: seq<T>, key: T -> Key)
  {
    forall i, j :: 0 <= i < j < |xs| ==> KeyLe(key(xs[i]), key(xs[j]))
  }

  lemma SortedPrefix<T>(xs: seq<T>, key: T -> Key, m: nat)
    requires SortedBy(xs, key) && m <= |xs|
    ensures SortedBy(xs[..m], key)
  {
    forall i, j | 0 <= i < j < m ensures KeyLe(key(xs[..m][i]), key(xs[..m][j])) {
      assert xs[..m][i] == xs[i] && xs[..m][j] == xs[j];
    }
  }

  /** An element no smaller than every element of an ordered sequence can be
      appended to it. */
  lemma SortedSnoc<T>(xs: seq<T>, x: T, key: T -> Key)
    requires SortedBy(xs, key)
    requires forall i :: 0 <= i < |xs| ==> KeyLe(key(xs[i]), key(x))
    ensures SortedBy(xs + [x], key)
  {
    var r := xs + [x];
    forall i, j | 0 <= i < j < |r| ensures KeyLe(key(r[i]), key(r[j])) {
      assert r[i] == xs[i];
      if j < |xs| {
        assert r[j] == xs[j];
      }
    }
  }

  /** The elements of xs whose key is k, in their order in xs. */
  function WithKey<T>(xs: seq<T>, key: T -> Key, k: Key): seq<T>
  {
    if xs == [] then []
    else (if key(xs[0]) == k then [xs[0]] else []) + WithKey(xs[1..], key, k)
  }

  lemma {:induction false} InsertSorted<T>(x: T, ys: seq<T>, key: T -> Key)
    requires SortedBy(ys, key)
    ensures SortedBy(Insert(x, ys, key), key)
  {
    if ys == [] {
    } else if KeyLe(key(x), key(ys[0])) {
      forall i | 0 <= i < |ys| ensures KeyLe(key(x), key(ys[i])) {
        if i > 0 {
          KeyLeTransitive(key(x), key(ys[0]), key(ys[i]));
        }
      }
      SortedCons(x, ys, key);
    } else {
      KeyLeTotal(key(x), key(ys[0]));
      SortedTail(ys, key);
      InsertSorted(x, ys[1..], key);
      var t := Insert(x, ys[1..], key);
      forall i | 0 <= i < |t| ensures KeyLe(key(ys[0]), key(t[i])) {
        var z := t[i];
        assert z in multiset(t);
        if z != x {
          assert z in ys[1..];
          var m :| 0 <= m < |ys[1..]| && ys[1..][m] == z;
          assert ys[m + 1] == z;
        }
      }
      SortedCons(ys[0], t, key);
    }
  }

  lemma SortedTail<T>(xs: seq<T>, key: T -> Key)
    requires SortedBy(xs, key) && xs != []
    ensures SortedBy(xs[1..], key)
  {
    forall i, j | 0 <= i < j < |xs| - 1 ensures KeyLe(key(xs[1..][i]), key(xs[1..][j])) {
      assert xs[1..][i] == xs[i + 1] && xs[1..][j] == xs[j + 1];
    }
  }

  /** An element no larger than every element of an ordered sequence can be
      put in front of it. */
  lemma SortedCons<T>(x: T, xs: seq<T>, key: T -> Key)
    requires SortedBy(xs, key)
    requires forall i :: 0 <= i < |xs| ==> KeyLe(key(x), key(xs[i]))
    ensures SortedBy([x] + xs, key)
  {
    var r := [x] + xs;
    forall i, j | 0 <= i < j < |r| ensures KeyLe(key(r[i]), key(r[j])) {
      assert r[j] == xs[j - 1];
      if i > 0 {
        assert r[i] == xs[i - 1];
      }
    }
  }

  /** Python's sort returns its input in non-decreasing key order. */
  lemma {:induction false} SortSorted<T>(xs: seq<T>, key: T -> Key)
    ensures SortedBy(SortBy(xs, key), key)
  {
    if xs != [] {
      SortSorted(xs[1..], key);
      InsertSorted(xs[0], SortBy(xs[1..], key), key);
    }
  }

  lemma {:induction false} WithKeyAppend<T>(a: seq<T>, b: seq<T>, key: T -> Key, k: Key)
    ensures WithKey(a + b, key, k) == WithKey(a, key, k) + WithKey(b, key, k)
  {
    if a == [] {
      assert a + b == b;
    } else {
      var c := a + b;
      var x := if key(a[0]) == k then [a[0]] else [];
      assert c[0] == a[0] && c[1..] == a[1..] + b;
      WithKeyAppend(a[1..], b, key, k);
      assert WithKey(c, key, k) == x + (WithKey(a[1..], key, k) + WithKey(b, key, k));
      assert WithKey(a, key, k) == x + WithKey(a[1..], key, k);
    }
  }

  lemma {:induction false} InsertWithKey<T>(x: T, ys: seq<T>, key: T -> Key, k: Key)
    requires SortedBy(ys, key)
    ensures WithKey(Insert(x, ys, key), key, k) == WithKey([x] + ys, key, k)
  {
    if ys != [] && !KeyLe(key(x), key(ys[0])) {
      KeyLeTotal(key(x), key(ys[0]));
      InsertWithKey(x, ys[1..], key, k);
      var t := Insert(x, ys[1..], key);
      WithKeyAppend([ys[0]], t, key, k);
      WithKeyAppend([x], ys[1..], key, k);
      WithKeyAppend([ys[0]], ys[1..], key, k);
      WithKeyAppend([x], ys, key, k);
      assert [ys[0]] + ys[1..] == ys;
      assert ([x] + ys[1..])[1..] == ys[1..];
    }
  }

  /** Stability: sorting keeps the relative order of elements with equal keys. */
  lemma {:induction false} SortStable<T>(xs: seq<T>, key: T -> Key, k: Key)
    ensures WithKey(SortBy(xs, key), key, k) == WithKey(xs, key, k)
  {
    if xs != [] {
      SortStable(xs[1..], key, k);
      SortSorted(xs[1..], key);
      InsertWithKey(xs[0], SortBy(xs[1..], key), key, k);
    }
  }

  /** When the input is already ordered by a second key, the stable sort by the
      first key leaves equal first keys ordered by the second key. */
  lemma {:induction false} SortTieBreak<T>(xs: seq<T>, key: T -> Key, key2: T -> Key)
    requires SortedBy(xs, key2)
    ensures forall i, j :: 0 <= i < j < |SortBy(xs, key)| ==>
              var r := SortBy(xs, key);
              KeyLt(key(r[i]), key(r[j])) || (key(r[i]) == key(r[j]) && KeyLe(key2(r[i]), key2(r[j])))
  {
    if xs != [] {
      var ys := SortBy(xs[1..], key);
      assert SortedBy(xs[1..], key2) by {
        forall i, j | 0 <= i < j < |xs[1..]| ensures KeyLe(key2(xs[1..][i]), key2(xs[1..][j])) {
          assert xs[1..][i] == xs[i + 1] && xs[1..][j] == xs[j + 1];
        }
      }
      SortTieBreak(xs[1..], key, key2);
      SortSorted(xs[1..], key);
      forall y | y in ys ensures KeyLe(key2(xs[0]), key2(y)) {
        assert y in multiset(ys);
        assert y in xs[1..];
      }
      InsertTieBreak(xs[0], ys, key, key2);
    }
  }

  lemma {:induction false} InsertTieBreak<T>(x: T, ys: seq<T>, key: T -> Key, key2: T -> Key)
    requires SortedBy(ys, key)
    requires forall i, j :: 0 <= i < j < |ys| ==>
               KeyLt(key(ys[i]), key(ys[j])) || (key(ys[i]) == key(ys[j]) && KeyLe(key2(ys[i]), key2(ys[j])))
    requires forall y :: y in ys ==> KeyLe(key2(x), key2(y))
    ensures forall i, j :: 0 <= i < j < |Insert(x, ys, key)| ==>
              var r := Insert(x, ys, key);
              KeyLt(key(r[i]), key(r[j])) || (key(r[i]) == key(r[j]) && KeyLe(key2(r[i]), key2(r[j])))
  {
    if ys == [] {
    } else if KeyLe(key(x), key(ys[0])) {
      var r := [x] + ys;
      forall i, j | 0 <= i < j < |r|
        ensures KeyLt(key(r[i]), key(r[j])) || (key(r[i]) == key(r[j]) && KeyLe(key2(r[i]), key2(r[j])))
      {
        if i == 0 {
          assert r[j] == ys[j - 1] && r[j] in ys;
          KeyLeTransitive(key(x), key(ys[0]), key(ys[j - 1]));
        }
      }
    } else {
      KeyLeTotal(key(x), key(ys[0]));
      var t := Insert(x, ys[1..], key);
      InsertTieBreak(x, ys[1..], key, key2);
      InsertSorted(x, ys[1..], key);
      var r := [ys[0]] + t;
      forall i, j | 0 <= i < j < |r|
        ensures KeyLt(key(r[i]), key(r[j])) || (key(r[i]) == key(r[j]) && KeyLe(key2(r[i]), key2(r[j])))
      {
        if i == 0 {
          var z := r[j];
          assert z == t[j - 1] && z in t;
          assert z in multiset(t);
          if z == x {
          } else {
            assert z in ys[1..];
            var m :| 0 <= m < |ys[1..]| && ys[1..][m] == z;
            assert ys[m + 1] == z;
          }
        } else {
          assert r[i] == t[i - 1] && r[j] == t[j - 1];
        }
      }
    }
  }

  ghost predicate Distinct<T>(xs: seq<T>)
  {
    forall i, j :: 0 <= i < j < |xs| ==> xs[i] != xs[j]
  }

  lemma InsertDistinctElems<T>(x: T, ys: seq<T>, key: T -> Key)
    requires Distinct(ys) && x !in ys
    ensures Distinct(Insert(x, ys, key))
  {
    if ys != [] && !KeyLe(key(x), key(ys[0])) {
      InsertDistinctElems(x, ys[1..], key);
      var t := Insert(x, ys[1..], key);
      forall z | z in t ensures z != ys[0] {
        assert z in multiset(t);
        if z != x {
          assert z in ys[1..];
        }
      }
      var r := [ys[0]] + t;
      forall i, j | 0 <= i < j < |r| ensures r[i] != r[j] {
        if i == 0 {
          assert r[j] == t[j - 1] && r[j] in t;
        } else {
          assert r[i] == t[i - 1] && r[j] == t[j - 1];
        }
      }
    }
  }

  /** Sorting a sequence without repetitions yields one without repetitions. */
  lemma {:induction false} SortDistinctElems<T>(xs: seq<T>, key: T -> Key)
    requires Distinct(xs)
    ensures Distinct(SortBy(xs, key))
  {
    if xs != [] {
      assert Distinct(xs[1..]) by {
        forall i, j | 0 <= i < j < |xs[1..]| ensures xs[1..][i] != xs[1..][j] {
          assert xs[1..][i] == xs[i + 1] && xs[1..][j] == xs[j + 1];
        }
      }
      SortDistinctElems(xs[1..], key);
      var ys := SortBy(xs[1..], key);
      forall z | z in ys ensures z != xs[0] {
        assert z in multiset(ys);
        var m :| 0 <= m < |xs[1..]| && xs[1..][m] == z;
        assert xs[m + 1] == z;
      }
      InsertDistinctElems(xs[0], ys, key);
    }
  }
}
