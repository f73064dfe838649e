/** Sequence helpers shared by the pipeline: the `Array.prototype.filter` the source uses,
    and what it means to keep elements "in order". */
module Seqs {

  /** The elements of `s` that satisfy `p`, in their original order. */
  function Filter<T>(s: seq<T>, p: T -> bool): (r: seq<T>)
    ensures |r| <= |s|
    ensures forall i :: 0 <= i < |r| ==> r[i] in s && p(r[i])
    ensures forall j :: 0 <= j < |s| && p(s[j]) ==> s[j] in r
  {
    if |s| == 0 then []
    else Filter(s[..|s| - 1], p) + (if p(s[|s| - 1]) then [s[|s| - 1]] else [])
  }

  lemma AppendAssoc<T>(a: seq<T>, b: seq<T>, c: seq<T>)
    ensures a + (b + c) == (a + b) + c
  {
  }

  lemma FilterSnoc<T>(s: seq<T>, x: T, p: T -> bool)
    ensures Filter(s + [x], p) == Filter(s, p) + (if p(x) then [x] else [])
  {
    assert (s + [x])[..|s|] == s;
  }

  lemma {:induction false} FilterAppend<T>(a: seq<T>, b: seq<T>, p: T -> bool)
    ensures Filter(a + b, p) == Filter(a, p) + Filter(b, p)
    decreases |b|
  {
    if |b| == 0 {
      assert a + b == a;
    } else {
      var b' := b[..|b| - 1];
      var x := b[|b| - 1];
      assert a + b == (a + b') + [x];
      assert b == b' + [x];
      FilterAppend(a, b', p);
      FilterSnoc(a + b', x, p);
      FilterSnoc(b', x, p);
    }
  }

  /** How many elements of `s` satisfy `p`. */
  function Count<T>(s: seq<T>, p: T -> bool): nat {
    if |s| == 0 then 0 else Count(s[..|s| - 1], p) + (if p(s[|s| - 1]) then 1 else 0)
  }

  /** Counting the elements that satisfy `p` is measuring what `Filter` keeps. */
  lemma {:induction false} CountIsFilterLength<T>(s: seq<T>, p: T -> bool)
    ensures Count(s, p) == |Filter(s, p)|
  {
    if |s| > 0 {
      CountIsFilterLength(s[..|s| - 1], p);
    }
  }

  /** Nothing survives the filter exactly when no element satisfies `p`. */
  lemma FilterEmpty<T>(s: seq<T>, p: T -> bool)
    ensures Filter(s, p) == [] <==> forall k :: 0 <= k < |s| ==> !p(s[k])
  {
    if Filter(s, p) != [] {
      var x := Filter(s, p)[0];
      var k :| 0 <= k < |s| && s[k] == x;
    }
  }

  /** The positions of `s` whose element satisfies `p`, in increasing order. */
  function Positions<T>(s: seq<T>, p: T -> bool): (f: seq<nat>)
    ensures forall i :: 0 <= i < |f| ==> f[i] < |s|
    ensures forall i, j :: 0 <= i < j < |f| ==> f[i] < f[j]
    ensures forall j :: 0 <= j < |s| ==> (j in f <==> p(s[j]))
  {
    if |s| == 0 then []
    else
      var n := |s| - 1;
      var f' := Positions(s[..n], p);
      assert forall j :: 0 <= j < n ==> s[..n][j] == s[j];
      f' + (if p(s[n]) then [n] else [])
  }

  /** `Filter` keeps exactly the positions that satisfy `p`, each once, in increasing order:
      the i-th kept element is the element at the i-th satisfying position. */
  lemma {:induction false} FilterIsOrderedSelection<T>(s: seq<T>, p: T -> bool)
    ensures |Filter(s, p)| == |Positions(s, p)|
    ensures forall i :: 0 <= i < |Positions(s, p)| ==> Filter(s, p)[i] == s[Positions(s, p)[i]]
  {
    if |s| > 0 {
      var n := |s| - 1;
      var s' := s[..n];
      FilterIsOrderedSelection(s', p);
      var r' := Filter(s', p);
      var f' := Positions(s', p);
      forall i | 0 <= i < |f'|
        ensures f'[i] < n && r'[i] == s[f'[i]]
      {
        assert s'[f'[i]] == s[f'[i]];
      }
      SelectionStep(s, r', f', Filter(s, p), Positions(s, p));
    }
  }

  lemma SelectionStep<T>(s: seq<T>, r': seq<T>, f': seq<nat>, r: seq<T>, f: seq<nat>)
    requires |s| > 0
    requires |r'| == |f'|
    requires forall i :: 0 <= i < |f'| ==> f'[i] < |s| - 1 && r'[i] == s[f'[i]]
    requires (r == r' + [s[|s| - 1]] && f == f' + [|s| - 1]) || (r == r' && f == f')
    ensures |r| == |f|
    ensures forall i :: 0 <= i < |f| ==> r[i] == s[f[i]]
  {
  }

  /** The distinct elements of `s` in order of first appearance. */
  function Distinct<T(==)>(s: seq<T>): (r: seq<T>)
    ensures forall i :: 0 <= i < |r| ==> r[i] in s
    ensures forall j :: 0 <= j < |s| ==> s[j] in r
    ensures forall i, j :: 0 <= i < j < |r| ==> r[i] != r[j]
  {
    if |s| == 0 then []
    else
      var r' := Distinct(s[..|s| - 1]);
      if s[|s| - 1] in r' then r' else r' + [s[|s| - 1]]
  }

  lemma DistinctListed<T>(s: seq<T>, x: T)
    requires x in Distinct(s)
    ensures x in s
  {
  }

  /** The position of the first occurrence of `x` in `s`. */
  function FirstIndex<T(==)>(s: seq<T>, x: T): (i: nat)
    requires x in s
    ensures i < |s| && s[i] == x
    ensures forall j :: 0 <= j < i ==> s[j] != x
  {
    if s[0] == x then 0 else 1 + FirstIndex(s[1..], x)
  }

  /** Listed in order of first appearance: each element of `Distinct(s)` first occurs in `s`
      before the next one does. */
  lemma {:induction false} DistinctFollowsFirstAppearance<T>(s: seq<T>)
    ensures forall i, j :: 0 <= i < j < |Distinct(s)| ==>
      FirstIndex(s, Distinct(s)[i]) < FirstIndex(s, Distinct(s)[j])
  {
    if |s| > 0 {
      var s' := s[..|s| - 1];
      var x := s[|s| - 1];
      assert s == s' + [x];
      DistinctFollowsFirstAppearance(s');
      var d' := Distinct(s');
      if x in s' {
        var k :| 0 <= k < |s'| && s'[k] == x;
        assert x in d';
      }
      FirstAppearanceStep(s', x, d', Distinct(s));
    }
  }

  lemma FirstAppearanceStep<T>(s': seq<T>, x: T, d': seq<T>, d: seq<T>)
    requires forall i :: 0 <= i < |d'| ==> d'[i] in s'
    requires forall i, j :: 0 <= i < j < |d'| ==> FirstIndex(s', d'[i]) < FirstIndex(s', d'[j])
    requires (x in s' && d == d') || (x !in s' && d == d' + [x])
    ensures forall i, j :: 0 <= i < j < |d| ==> FirstIndex(s' + [x], d[i]) < FirstIndex(s' + [x], d[j])
  {
    var s := s' + [x];
    forall i, j | 0 <= i < j < |d|
      ensures FirstIndex(s, d[i]) < FirstIndex(s, d[j])
    {
      assert d[i] == d'[i] && d[i] in s';
      FirstIndexPrefix(s', x, d[i]);
      if j < |d'| {
        assert d[j] == d'[j] && d[j] in s';
        FirstIndexPrefix(s', x, d[j]);
      } else {
        assert d[j] == x && s[|s'|] == x;
        assert FirstIndex(s, x) == |s'|;
      }
    }
  }

  lemma FirstIndexPrefix<T>(s: seq<T>, x: T, y: T)
    requires y in s
    ensures FirstIndex(s + [x], y) == FirstIndex(s, y)
  {
    var i := FirstIndex(s, y);
    assert (s + [x])[i] == y;
  }

  /** Sum of an integer measure over a sequence. */
  function SumBy<T>(s: seq<T>, f: T -> int): int
  {
    if |s| == 0 then 0 else SumBy(s[..|s| - 1], f) + f(s[|s| - 1])
  }

  lemma {:induction false} SumByAppend<T>(a: seq<T>, b: seq<T>, f: T -> int)
    ensures SumBy(a + b, f) == SumBy(a, f) + SumBy(b, f)
    decreases |b|
  {
    if |b| > 0 {
      var b' := b[..|b| - 1];
      assert a + b == (a + b') + [b[|b| - 1]];
      assert (a + b)[..|a + b| - 1] == a + b';
      SumByAppend(a, b', f);
    } else {
      assert a + b == a;
    }
  }

  /** Replacing one element changes the sum by the difference of the two measures. */
  lemma SumByUpdate<T>(s: seq<T>, i: nat, y: T, f: T -> int)
    requires i < |s|
    ensures SumBy(s[i := y], f) == SumBy(s, f) - f(s[i]) + f(y)
  {
    assert s == s[..i] + [s[i]] + s[i + 1..];
    assert s[i := y] == s[..i] + [y] + s[i + 1..];
    SumByAppend(s[..i] + [s[i]], s[i + 1..], f);
    SumByAppend(s[..i] + [y], s[i + 1..], f);
    SumByAppend(s[..i], [s[i]], f);
    SumByAppend(s[..i], [y], f);
  }
}
