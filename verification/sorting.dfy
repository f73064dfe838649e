/** `Array.prototype.sort` with a numeric comparator `(a, b) => key(a) - key(b)`.
    ECMAScript 2019 and later require this sort to be stable, so its result is fixed:
    ascending by key, and elements with equal keys keep their input order. The model is a
    stable insertion sort; `SortedUnique` shows any sort with those two properties agrees. */
module Sorting {
  import opened Seqs

  ghost predicate SortedBy<T>(s: seq<T>, key: T -> int) {
    forall i, j :: 0 <= i < j < |s| ==> key(s[i]) <= key(s[j])
  }

  /** The elements of `s` whose key is `k`, in their order in `s`. */
  function WithKey<T>(s: seq<T>, key: T -> int, k: int): seq<T>
  {
    Filter(s, x => key(x) == k)
  }

  /** Places `x` after every element whose key is at most `key(x)`. */
  function InsertBy<T>(t: seq<T>, x: T, key: T -> int): (r: seq<T>)
    requires SortedBy(t, key)
    ensures |r| == |t| + 1
    ensures multiset(r) == multiset(t) + multiset{x}
    ensures forall i :: 0 <= i < |r| ==> r[i] == x || r[i] in t
    ensures SortedBy(r, key)
  {
    if |t| == 0 then [x]
    else
      var last := t[|t| - 1];
      if key(last) <= key(x) then
        AppendAbove(t, x, key);
        t + [x]
      else
        var t' := t[..|t| - 1];
        assert t == t' + [last];
        SortedPrefix(t', last, key);
        var r' := InsertBy(t', x, key);
        AppendBelow(t', last, x, key, r');
        r' + [last]
  }

  lemma SortedPrefix<T>(t': seq<T>, last: T, key: T -> int)
    requires SortedBy(t' + [last], key)
    ensures SortedBy(t', key)
  {
    assert forall i :: 0 <= i < |t'| ==> t'[i] == (t' + [last])[i];
  }

  /** `x` goes last when no key exceeds its own. */
  lemma AppendAbove<T>(t: seq<T>, x: T, key: T -> int)
    requires SortedBy(t, key)
    requires |t| > 0 && key(t[|t| - 1]) <= key(x)
    ensures multiset(t + [x]) == multiset(t) + multiset{x}
    ensures forall i :: 0 <= i < |t| + 1 ==> (t + [x])[i] == x || (t + [x])[i] in t
    ensures SortedBy(t + [x], key)
  {
    var r := t + [x];
    forall i, j | 0 <= i < j < |r| ensures key(r[i]) <= key(r[j]) {
      if j == |t| && i < |t| - 1 {
        assert key(t[i]) <= key(t[|t| - 1]);
      }
    }
  }

  /** The last element of `t` stays last when its key exceeds that of `x`. */
  lemma AppendBelow<T>(t': seq<T>, last: T, x: T, key: T -> int, r': seq<T>)
    requires SortedBy(t' + [last], key)
    requires key(x) < key(last)
    requires |r'| == |t'| + 1
    requires multiset(r') == multiset(t') + multiset{x}
    requires forall i :: 0 <= i < |r'| ==> r'[i] == x || r'[i] in t'
    requires SortedBy(r', key)
    ensures multiset(r' + [last]) == multiset(t' + [last]) + multiset{x}
    ensures forall i :: 0 <= i < |r'| + 1 ==> (r' + [last])[i] == x || (r' + [last])[i] in t' + [last]
    ensures SortedBy(r' + [last], key)
  {
    var t := t' + [last];
    forall i | 0 <= i < |r'| ensures key(r'[i]) <= key(last) {
      if r'[i] != x {
        var j :| 0 <= j < |t'| && t'[j] == r'[i];
        assert t[j] == t'[j] && t[|t'|] == last;
      }
    }
    var r := r' + [last];
    forall i, j | 0 <= i < j < |r| ensures key(r[i]) <= key(r[j]) {
      if j == |r'| {
        assert r[i] == r'[i];
      }
    }
  }

  function SortBy<T>(s: seq<T>, key: T -> int): (r: seq<T>)
    ensures |r| == |s|
    ensures multiset(r) == multiset(s)
    ensures SortedBy(r, key)
  {
    if |s| == 0 then []
    else
      var s' := s[..|s| - 1];
      assert s == s' + [s[|s| - 1]];
      InsertBy(SortBy(s', key), s[|s| - 1], key)
  }

  lemma WithKeySnoc<T>(s: seq<T>, x: T, key: T -> int, k: int)
    ensures WithKey(s + [x], key, k) == WithKey(s, key, k) + (if key(x) == k then [x] else [])
  {
    assert (s + [x])[..|s|] == s;
  }

  lemma {:induction false} InsertByStable<T>(t: seq<T>, x: T, key: T -> int, k: int)
    requires SortedBy(t, key)
    ensures WithKey(InsertBy(t, x, key), key, k) == WithKey(t, key, k) + (if key(x) == k then [x] else [])
    decreases |t|
  {
    if |t| == 0 {
      assert InsertBy(t, x, key) == [] + [x];
      WithKeySnoc([], x, key, k);
    } else {
      var last := t[|t| - 1];
      var t' := t[..|t| - 1];
      assert t == t' + [last];
      if key(last) <= key(x) {
        assert InsertBy(t, x, key) == t + [x];
        WithKeySnoc(t, x, key, k);
      } else {
        InsertByStable(t', x, key, k);
        InsertBelowUnfold(t', last, x, key);
        WithKeySnoc(InsertBy(t', x, key), last, key, k);
        WithKeySnoc(t', last, key, k);
        SwapTails(WithKey(t', key, k), x, last, key, k);
      }
    }
  }

  lemma InsertBelowUnfold<T>(t': seq<T>, last: T, x: T, key: T -> int)
    requires SortedBy(t' + [last], key)
    requires key(x) < key(last)
    ensures SortedBy(t', key)
    ensures InsertBy(t' + [last], x, key) == InsertBy(t', x, key) + [last]
  {
    assert (t' + [last])[..|t'|] == t';
  }

  /** Two elements with different keys cannot both be kept by `WithKey(·, key, k)`. */
  lemma SwapTails<T>(w: seq<T>, x: T, y: T, key: T -> int, k: int)
    requires key(x) != key(y)
    ensures w + (if key(x) == k then [x] else []) + (if key(y) == k then [y] else [])
      == w + (if key(y) == k then [y] else []) + (if key(x) == k then [x] else [])
  {
  }

  /** Stability: for every key, the elements carrying it come out in their input order. */
  lemma {:induction false} SortByStable<T>(s: seq<T>, key: T -> int, k: int)
    ensures WithKey(SortBy(s, key), key, k) == WithKey(s, key, k)
  {
    if |s| > 0 {
      var s' := s[..|s| - 1];
      var x := s[|s| - 1];
      assert s == s' + [x];
      SortByStable(s', key, k);
      InsertByStable(SortBy(s', key), x, key, k);
      WithKeySnoc(s', x, key, k);
    }
  }

  ghost predicate DistinctBy<T, U>(s: seq<T>, f: T -> U) {
    forall i, j :: 0 <= i < j < |s| ==> f(s[i]) != f(s[j])
  }

  lemma {:induction false} InsertByDistinct<T, U>(t: seq<T>, x: T, key: T -> int, f: T -> U)
    requires SortedBy(t, key)
    requires DistinctBy(t, f)
    requires forall i :: 0 <= i < |t| ==> f(t[i]) != f(x)
    ensures DistinctBy(InsertBy(t, x, key), f)
    decreases |t|
  {
    if |t| > 0 {
      var last := t[|t| - 1];
      var t' := t[..|t| - 1];
      assert t == t' + [last];
      if key(last) <= key(x) {
        assert InsertBy(t, x, key) == t + [x];
        DistinctSnoc(t, x, f);
      } else {
        DistinctPrefix(t', last, x, f);
        InsertBelowUnfold(t', last, x, key);
        InsertByDistinct(t', x, key, f);
        var r' := InsertBy(t', x, key);
        LastStaysNew(t', last, x, r', f);
        DistinctSnoc(r', last, f);
      }
    }
  }

  lemma DistinctPrefix<T, U>(t': seq<T>, last: T, x: T, f: T -> U)
    requires DistinctBy(t' + [last], f)
    requires forall i :: 0 <= i < |t'| + 1 ==> f((t' + [last])[i]) != f(x)
    ensures DistinctBy(t', f)
    ensures forall i :: 0 <= i < |t'| ==> f(t'[i]) != f(x)
    ensures forall i :: 0 <= i < |t'| ==> f(t'[i]) != f(last)
    ensures f(last) != f(x)
  {
    var t := t' + [last];
    assert forall i :: 0 <= i < |t'| ==> t'[i] == t[i];
    assert t[|t'|] == last;
  }

  /** A rearrangement of `t'` plus `x` still avoids the measure of `last`. */
  lemma LastStaysNew<T, U>(t': seq<T>, last: T, x: T, r': seq<T>, f: T -> U)
    requires forall i :: 0 <= i < |t'| ==> f(t'[i]) != f(last)
    requires f(last) != f(x)
    requires forall i :: 0 <= i < |r'| ==> r'[i] == x || r'[i] in t'
    ensures forall i :: 0 <= i < |r'| ==> f(r'[i]) != f(last)
  {
    forall i | 0 <= i < |r'| ensures f(r'[i]) != f(last) {
      if r'[i] != x {
        var j :| 0 <= j < |t'| && t'[j] == r'[i];
      }
    }
  }

  /** Appending an element whose measure is new keeps the measures distinct. */
  lemma DistinctSnoc<T, U>(s: seq<T>, x: T, f: T -> U)
    requires DistinctBy(s, f)
    requires forall i :: 0 <= i < |s| ==> f(s[i]) != f(x)
    ensures DistinctBy(s + [x], f)
  {
    var r := s + [x];
    forall i, j | 0 <= i < j < |r| ensures f(r[i]) != f(r[j]) {
      assert r[i] == s[i];
    }
  }

  /** Sorting neither merges nor duplicates: distinct measures stay distinct. */
  lemma {:induction false} SortByDistinct<T, U>(s: seq<T>, key: T -> int, f: T -> U)
    requires DistinctBy(s, f)
    ensures DistinctBy(SortBy(s, key), f)
  {
    if |s| > 0 {
      var s' := s[..|s| - 1];
      var x := s[|s| - 1];
      assert s == s' + [x];
      SortByDistinct(s', key, f);
      var r' := SortBy(s', key);
      forall i | 0 <= i < |r'| ensures f(r'[i]) != f(x) {
        assert r'[i] in multiset(s');
        var j :| 0 <= j < |s'| && s'[j] == r'[i];
        assert s[j] == s'[j];
      }
      InsertByDistinct(r', x, key, f);
    }
  }

  lemma {:induction false} InsertBySum<T>(t: seq<T>, x: T, key: T -> int, f: T -> int)
    requires SortedBy(t, key)
    ensures SumBy(InsertBy(t, x, key), f) == SumBy(t, f) + f(x)
    decreases |t|
  {
    if |t| == 0 {
      assert InsertBy(t, x, key) == [x];
      assert [x][..0] == [];
    } else {
      var last := t[|t| - 1];
      var t' := t[..|t| - 1];
      assert t == t' + [last];
      if key(last) <= key(x) {
        SumByAppend(t, [x], f);
        assert [x][..0] == [];
      } else {
        InsertBySum(t', x, key, f);
        var r' := InsertBy(t', x, key);
        assert (r' + [last])[..|r'|] == r';
      }
    }
  }

  /** Sorting keeps every sum over the elements. */
  lemma {:induction false} SortBySum<T>(s: seq<T>, key: T -> int, f: T -> int)
    ensures SumBy(SortBy(s, key), f) == SumBy(s, f)
  {
    if |s| > 0 {
      var s' := s[..|s| - 1];
      var x := s[|s| - 1];
      assert s == s' + [x];
      SortBySum(s', key, f);
      InsertBySum(SortBy(s', key), x, key, f);
    }
  }

  lemma WithKeyHasElement<T>(s: seq<T>, key: T -> int, i: nat)
    requires i < |s|
    ensures |WithKey(s, key, key(s[i]))| > 0
  {
    if i < |s| - 1 {
      WithKeyHasElement(s[..|s| - 1], key, i);
    }
  }

  lemma WithKeyMember<T>(s: seq<T>, key: T -> int, k: int, y: T)
    requires y in WithKey(s, key, k)
    ensures y in s && key(y) == k
  {
    if |s| > 0 {
      var s' := s[..|s| - 1];
      if y in WithKey(s', key, k) {
        WithKeyMember(s', key, k, y);
      }
    }
  }

  /** `a` and `b` hold the same elements of every key, in the same order. */
  ghost predicate SameKeyOrder<T>(a: seq<T>, b: seq<T>, key: T -> int) {
    forall k :: WithKey(a, key, k) == WithKey(b, key, k)
  }

  lemma NonEmptyAgree<T>(a: seq<T>, b: seq<T>, key: T -> int)
    requires |b| > 0
    requires SameKeyOrder(a, b, key)
    ensures |a| > 0
  {
    WithKeyHasElement(b, key, 0);
    var k0 := key(b[0]);
    assert WithKey(a, key, k0) == WithKey(b, key, k0);
  }

  /** The last elements of two non-empty sorted sequences that agree on every key have the
      same key: the largest one. */
  lemma LastKeysAgree<T>(a: seq<T>, b: seq<T>, key: T -> int)
    requires |a| > 0 && |b| > 0
    requires SortedBy(a, key) && SortedBy(b, key)
    requires SameKeyOrder(a, b, key)
    ensures key(a[|a| - 1]) == key(b[|b| - 1])
  {
    var la, lb := a[|a| - 1], b[|b| - 1];
    WithKeyHasElement(a, key, |a| - 1);
    WithKeyHasElement(b, key, |b| - 1);
    var wa := WithKey(a, key, key(la));
    var wb := WithKey(b, key, key(lb));
    WithKeyMember(b, key, key(la), wa[0]);
    WithKeyMember(a, key, key(lb), wb[0]);
    var ia :| 0 <= ia < |a| && a[ia] == wb[0];
    var ib :| 0 <= ib < |b| && b[ib] == wa[0];
    assert key(b[ib]) <= key(lb);
    assert key(a[ia]) <= key(la);
  }

  lemma LastAgree<T>(a': seq<T>, la: T, b': seq<T>, lb: T, key: T -> int)
    requires key(la) == key(lb)
    requires SameKeyOrder(a' + [la], b' + [lb], key)
    ensures la == lb
  {
    WithKeySnoc(a', la, key, key(la));
    WithKeySnoc(b', lb, key, key(lb));
    var w := WithKey(a' + [la], key, key(la));
    assert w == WithKey(b' + [lb], key, key(lb));
    assert la == w[|w| - 1] == lb;
  }

  lemma PrefixAgree<T>(a': seq<T>, b': seq<T>, x: T, key: T -> int)
    requires SameKeyOrder(a' + [x], b' + [x], key)
    ensures SameKeyOrder(a', b', key)
  {
    forall k ensures WithKey(a', key, k) == WithKey(b', key, k) {
      WithKeySnoc(a', x, key, k);
      WithKeySnoc(b', x, key, k);
      var wa, wb := WithKey(a', key, k), WithKey(b', key, k);
      var tail := if key(x) == k then [x] else [];
      assert wa + tail == wb + tail;
      assert (wa + tail)[..|wa|] == wa;
      assert (wb + tail)[..|wb|] == wb;
    }
  }

  /** A stable sort has only one possible result: two sequences that are both sorted by `key`
      and agree on the order of the elements of every key are equal. */
  lemma {:induction false} SortedUnique<T>(a: seq<T>, b: seq<T>, key: T -> int)
    requires SortedBy(a, key) && SortedBy(b, key)
    requires SameKeyOrder(a, b, key)
    ensures a == b
    decreases |a| + |b|
  {
    if |b| > 0 {
      NonEmptyAgree(a, b, key);
    }
    if |a| > 0 {
      NonEmptyAgree(b, a, key);
      var a', b' := a[..|a| - 1], b[..|b| - 1];
      LastStepAgree(a, b, key);
      SortedUnique(a', b', key);
      assert a == a' + [a[|a| - 1]] && b == b' + [b[|b| - 1]];
    }
  }

  /** Two non-empty sorted sequences that agree on every key end in the same element, and
      what comes before it again agrees on every key. */
  lemma LastStepAgree<T>(a: seq<T>, b: seq<T>, key: T -> int)
    requires |a| > 0 && |b| > 0
    requires SortedBy(a, key) && SortedBy(b, key)
    requires SameKeyOrder(a, b, key)
    ensures a[|a| - 1] == b[|b| - 1]
    ensures SortedBy(a[..|a| - 1], key) && SortedBy(b[..|b| - 1], key)
    ensures SameKeyOrder(a[..|a| - 1], b[..|b| - 1], key)
  {
    var a', b' := a[..|a| - 1], b[..|b| - 1];
    var la, lb := a[|a| - 1], b[|b| - 1];
    assert a == a' + [la] && b == b' + [lb];
    LastKeysAgree(a, b, key);
    LastAgree(a', la, b', lb, key);
    PrefixAgree(a', b', la, key);
  }

  /** Every element of `s` shows up among the elements of its own key. */
  lemma {:induction false} WithKeyContains<T>(s: seq<T>, key: T -> int, i: nat)
    requires i < |s|
    ensures s[i] in WithKey(s, key, key(s[i]))
    decreases |s|
  {
    var s' := s[..|s| - 1];
    if i < |s| - 1 {
      WithKeyContains(s', key, i);
      assert s'[i] == s[i];
    }
  }

  /** Two elements of the same key keep their relative order in `WithKey`. */
  lemma {:induction false} WithKeyOrderIn<T>(s: seq<T>, key: T -> int, i: nat, j: nat)
    requires i < j < |s| && key(s[i]) == key(s[j])
    ensures exists p, q ::
      && 0 <= p < q < |WithKey(s, key, key(s[i]))|
      && WithKey(s, key, key(s[i]))[p] == s[i]
      && WithKey(s, key, key(s[i]))[q] == s[j]
    decreases |s|
  {
    var s' := s[..|s| - 1];
    var k := key(s[i]);
    var w' := WithKey(s', key, k);
    assert s'[i] == s[i];
    if j < |s| - 1 {
      assert s'[j] == s[j];
      WithKeyOrderIn(s', key, i, j);
      var p, q :| 0 <= p < q < |w'| && w'[p] == s[i] && w'[q] == s[j];
      assert WithKey(s, key, k)[p] == s[i] && WithKey(s, key, k)[q] == s[j];
    } else {
      WithKeyContains(s', key, i);
      var p :| 0 <= p < |w'| && w'[p] == s[i];
      assert WithKey(s, key, k) == w' + [s[j]];
      assert WithKey(s, key, k)[p] == s[i] && WithKey(s, key, k)[|w'|] == s[j];
    }
  }

  /** Two positions of `WithKey` come from positions of `s` in the same order. */
  lemma {:induction false} WithKeyOrderOut<T>(s: seq<T>, key: T -> int, k: int, p: nat, q: nat)
    requires p < q < |WithKey(s, key, k)|
    ensures exists a, b :: 0 <= a < b < |s| && s[a] == WithKey(s, key, k)[p] && s[b] == WithKey(s, key, k)[q]
    decreases |s|
  {
    var s' := s[..|s| - 1];
    var w' := WithKey(s', key, k);
    var w := WithKey(s, key, k);
    if q < |w'| {
      WithKeyOrderOut(s', key, k, p, q);
      var a, b :| 0 <= a < b < |s'| && s'[a] == w'[p] && s'[b] == w'[q];
      assert s[a] == w[p] && s[b] == w[q];
    } else {
      assert w == w' + [s[|s| - 1]];
      WithKeyMember(s', key, k, w'[p]);
      var a :| 0 <= a < |s'| && s'[a] == w'[p];
      assert s[a] == w[p] && s[|s| - 1] == w[q];
    }
  }

  /** Stability in positional form: two elements the sort leaves with equal keys were in the
      same order in its input. */
  lemma SortByKeepsTies<T>(s: seq<T>, key: T -> int, i: nat, j: nat) returns (a: nat, b: nat)
    requires i < j < |SortBy(s, key)|
    requires key(SortBy(s, key)[i]) == key(SortBy(s, key)[j])
    ensures a < b < |s| && s[a] == SortBy(s, key)[i] && s[b] == SortBy(s, key)[j]
  {
    var r := SortBy(s, key);
    var k := key(r[i]);
    WithKeyOrderIn(r, key, i, j);
    SortByStable(s, key, k);
    var p, q :| 0 <= p < q < |WithKey(r, key, k)| && WithKey(r, key, k)[p] == r[i] && WithKey(r, key, k)[q] == r[j];
    WithKeyOrderOut(s, key, k, p, q);
    a, b :| 0 <= a < b < |s| && s[a] == WithKey(s, key, k)[p] && s[b] == WithKey(s, key, k)[q];
  }

  /** When `rank` increases along `s`, it increases along every run of equal keys in the
      sorted result. */
  lemma SortByTiesRanked<T>(s: seq<T>, key: T -> int, rank: T -> int)
    requires forall a, b :: 0 <= a < b < |s| ==> rank(s[a]) < rank(s[b])
    ensures var r := SortBy(s, key);
      forall i, j :: 0 <= i < j < |r| && key(r[i]) == key(r[j]) ==> rank(r[i]) < rank(r[j])
  {
    var r := SortBy(s, key);
    forall i, j | 0 <= i < j < |r| && key(r[i]) == key(r[j])
      ensures rank(r[i]) < rank(r[j])
    {
      var a, b := SortByKeepsTies(s, key, i, j);
    }
  }
}
