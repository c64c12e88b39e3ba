/** Sequence folds shared by the snippet reducer and the score table:
    order-preserving filtering, the first-maximum fold behind
    `Array.prototype.reduce((a, b) => b > a ? b : a)`, and the
    insertion order of a JavaScript `Map`. */
module Seqs {
  import opened Wrappers

  /** No element occurs twice. */
  ghost predicate Distinct<T>(xs: seq<T>)
  {
    forall i, j :: 0 <= i < j < |xs| ==> xs[i] != xs[j]
  }

  /** `xs.filter(keep)`: the elements that pass, in their original order. */
  function Filter<T(!new)>(xs: seq<T>, keep: T -> bool): (r: seq<T>)
    ensures |r| <= |xs|
    ensures forall x :: x in r <==> x in xs && keep(x)
  {
    if |xs| == 0 then []
    else (if keep(xs[0]) then [xs[0]] else []) + Filter(xs[1..], keep)
  }

  /** Filtering a non-empty prefix takes its head, then filters the rest. */
  lemma FilterCons<T(!new)>(xs: seq<T>, keep: T -> bool, k: nat)
    requires k < |xs|
    ensures Filter(xs[..k + 1], keep) == (if keep(xs[0]) then [xs[0]] else []) + Filter(xs[1..][..k], keep)
  {
    assert xs[..k + 1][1..] == xs[1..][..k];
  }

  /** Every element of a filtered sequence comes from a position of the
      original whose prefix filters to exactly the elements before it. */
  lemma {:induction false} FilterOrigin<T(!new)>(xs: seq<T>, keep: T -> bool, m: nat)
    requires m < |Filter(xs, keep)|
    ensures exists k :: 0 <= k < |xs| && xs[k] == Filter(xs, keep)[m]
                        && Filter(xs[..k], keep) == Filter(xs, keep)[..m]
    decreases |xs|
  {
    var r := Filter(xs, keep);
    assert |xs| > 0;
    assert Filter(xs[..0], keep) == [];
    if keep(xs[0]) && m == 0 {
      assert xs[0] == r[0];
      assert Filter(xs[..0], keep) == r[..0];
    } else {
      var h := if keep(xs[0]) then [xs[0]] else [];
      var f := Filter(xs[1..], keep);
      var m' := m - |h|;
      assert r == h + f;
      assert r[..m] == h + f[..m'] && r[m] == f[m'];
      FilterOrigin(xs[1..], keep, m');
      var k' :| 0 <= k' < |xs[1..]| && xs[1..][k'] == f[m'] && Filter(xs[1..][..k'], keep) == f[..m'];
      FilterCons(xs, keep, k');
      assert xs[k' + 1] == r[m];
    }
  }

  /** The index the fold `xs.reduce((a, b) => w(b) > w(a) ? b : a)` ends
      on: a maximum of `w`, strictly above everything before it, so the
      first of several equal maxima wins. */
  function FirstMax<T>(xs: seq<T>, w: T -> real): (k: nat)
    requires |xs| > 0
    ensures k < |xs|
    ensures forall j :: 0 <= j < |xs| ==> w(xs[j]) <= w(xs[k])
    ensures forall j :: 0 <= j < k ==> w(xs[j]) < w(xs[k])
  {
    FirstMaxFrom(xs, w, 0, 1)
  }

  /** The fold from position `i` on, with the accumulator at `best`. */
  function FirstMaxFrom<T>(xs: seq<T>, w: T -> real, best: nat, i: nat): (k: nat)
    requires best < i <= |xs|
    requires forall j :: 0 <= j < i ==> w(xs[j]) <= w(xs[best])
    requires forall j :: 0 <= j < best ==> w(xs[j]) < w(xs[best])
    ensures best <= k < |xs|
    ensures forall j :: 0 <= j < |xs| ==> w(xs[j]) <= w(xs[k])
    ensures forall j :: 0 <= j < k ==> w(xs[j]) < w(xs[k])
    decreases |xs| - i
  {
    if i == |xs| then best
    else FirstMaxFrom(xs, w, if w(xs[i]) > w(xs[best]) then i else best, i + 1)
  }

  /** The two properties of `FirstMax` pin the index down: no other
      index has them. */
  lemma FirstMaxUnique<T>(xs: seq<T>, w: T -> real, k: nat)
    requires k < |xs|
    requires forall j :: 0 <= j < |xs| ==> w(xs[j]) <= w(xs[k])
    requires forall j :: 0 <= j < k ==> w(xs[j]) < w(xs[k])
    ensures FirstMax(xs, w) == k
  {
  }

  /** The result of `f` at the first position in `i..n` where it has one:
      the scan a regular expression makes for its leftmost match. */
  function FirstSome<X>(f: nat -> Option<X>, i: nat, n: nat): (r: Option<X>)
    requires i <= n
    ensures r.Some? ==> exists k :: i <= k <= n && f(k) == r && forall j :: i <= j < k ==> f(j).None?
    ensures r.None? ==> forall k :: i <= k <= n ==> f(k).None?
    decreases n - i
  {
    if f(i).Some? then f(i)
    else if i == n then None
    else FirstSome(f, i + 1, n)
  }

  /** Reducing the filtered sequence picks a kept element of maximal weight,
      strictly heavier than every kept element before it in the ORIGINAL
      sequence. */
  lemma FirstMaxOfFilter<T(!new)>(xs: seq<T>, keep: T -> bool, w: T -> real)
    requires |Filter(xs, keep)| > 0
    ensures var c := Filter(xs, keep)[FirstMax(Filter(xs, keep), w)];
            && c in xs && keep(c)
            && (forall t :: t in xs && keep(t) ==> w(t) <= w(c))
            && exists k :: 0 <= k < |xs| && xs[k] == c
                           && forall j :: 0 <= j < k && keep(xs[j]) ==> w(xs[j]) < w(c)
  {
    var cs := Filter(xs, keep);
    var m := FirstMax(cs, w);
    var c := cs[m];
    assert c in cs;
    forall t | t in xs && keep(t)
      ensures w(t) <= w(c)
    {
      assert t in cs;
      var j :| 0 <= j < |cs| && cs[j] == t;
    }
    FilterOrigin(xs, keep, m);
    var k :| 0 <= k < |xs| && xs[k] == c && Filter(xs[..k], keep) == cs[..m];
    forall j | 0 <= j < k && keep(xs[j])
      ensures w(xs[j]) < w(c)
    {
      assert xs[j] in xs[..k];
      assert xs[j] in cs[..m];
      var i :| 0 <= i < m && cs[..m][i] == xs[j];
      assert cs[i] == xs[j];
    }
  }

  /** Position of the first occurrence of `x`. */
  function FirstIndex<T(==)>(xs: seq<T>, x: T): (i: nat)
    requires x in xs
    ensures i < |xs| && xs[i] == x
    ensures forall j :: 0 <= j < i ==> xs[j] != x
  {
    if xs[0] == x then 0 else 1 + FirstIndex(xs[1..], x)
  }

  /** `keys` lists each element of `xs` once, ordered by where it first occurs
      in `xs`: the order in which a JavaScript `Map` keeps keys set in the
      order `xs`. */
  ghost predicate FirstOccurrenceOrder<T(!new)>(keys: seq<T>, xs: seq<T>)
  {
    && Distinct(keys)
    && (forall x :: x in keys <==> x in xs)
    && (forall i, j :: 0 <= i < j < |keys| ==> FirstIndex(xs, keys[i]) < FirstIndex(xs, keys[j]))
  }

  /** In first-occurrence order, an element of `xs` that occurs before the
      key at position `i` is a key at some earlier position. */
  lemma EarlierKey<T(!new)>(keys: seq<T>, xs: seq<T>, i: nat, x: T) returns (j: nat)
    requires FirstOccurrenceOrder(keys, xs) && i < |keys| && x in xs
    requires FirstIndex(xs, x) < FirstIndex(xs, keys[i])
    ensures j < i && keys[j] == x
  {
    assert x in keys;
    j :| 0 <= j < |keys| && keys[j] == x;
    OrderedBefore(keys, xs, j, i);
  }

  /** In first-occurrence order, an element that occurs earlier in `xs` has
      the smaller position among the keys. */
  lemma OrderedBefore<T(!new)>(keys: seq<T>, xs: seq<T>, a: nat, b: nat)
    requires FirstOccurrenceOrder(keys, xs)
    requires a < |keys| && b < |keys|
    requires keys[a] in xs && keys[b] in xs
    requires FirstIndex(xs, keys[a]) < FirstIndex(xs, keys[b])
    ensures a < b
  {
  }

  /** Appends the elements of `xs` not yet present, in order, to `keys`. */
  function AppendNew<T(==,!new)>(keys: seq<T>, xs: seq<T>): (r: seq<T>)
    ensures forall x :: x in r <==> x in keys || x in xs
    decreases |xs|
  {
    if |xs| == 0 then keys
    else AppendNew(if xs[0] in keys then keys else keys + [xs[0]], xs[1..])
  }

  lemma FirstIndexPrefix<T>(p: seq<T>, q: seq<T>, x: T)
    requires x in p
    ensures FirstIndex(p + q, x) == FirstIndex(p, x)
  {
    var i := FirstIndex(p, x);
    assert (p + q)[i] == x;
    assert forall j :: 0 <= j < |p| ==> (p + q)[j] == p[j];
  }

  /** One step of `AppendNew` keeps first-occurrence order. */
  lemma AppendOneOrder<T(!new)>(keys: seq<T>, p: seq<T>, x: T)
    requires FirstOccurrenceOrder(keys, p)
    ensures FirstOccurrenceOrder(if x in keys then keys else keys + [x], p + [x])
  {
    var p' := p + [x];
    var keys' := if x in keys then keys else keys + [x];
    forall y | y in p
      ensures FirstIndex(p', y) == FirstIndex(p, y)
    {
      FirstIndexPrefix(p, [x], y);
    }
    if x !in keys {
      assert FirstIndex(p', x) == |p|;
      forall i, j | 0 <= i < j < |keys'|
        ensures FirstIndex(p', keys'[i]) < FirstIndex(p', keys'[j])
      {
        assert keys'[i] in p;
        if j < |keys| {
          assert keys'[j] in p;
        }
      }
    } else {
      forall i, j | 0 <= i < j < |keys'|
        ensures FirstIndex(p', keys'[i]) < FirstIndex(p', keys'[j])
      {
        assert keys'[i] in p && keys'[j] in p;
      }
    }
  }

  /** Appending the new elements of `xs` keeps first-occurrence order. */
  lemma AppendNewOrder<T(!new)>(keys: seq<T>, p: seq<T>, xs: seq<T>)
    requires FirstOccurrenceOrder(keys, p)
    ensures FirstOccurrenceOrder(AppendNew(keys, xs), p + xs)
  {
    var all := p + xs;
    assert all[..|p|] == p && all[|p|..] == xs;
    AppendNewOrderFrom(keys, all, |p|);
  }

  /** `AppendNewOrder` with `p` the first `n` elements of `all` and `xs` the
      rest. */
  lemma {:induction false} AppendNewOrderFrom<T(!new)>(keys: seq<T>, all: seq<T>, n: nat)
    requires n <= |all| && FirstOccurrenceOrder(keys, all[..n])
    ensures FirstOccurrenceOrder(AppendNew(keys, all[n..]), all)
    decreases |all| - n
  {
    if n == |all| {
      assert all[..n] == all;
    } else {
      var x := all[n];
      var keys' := if x in keys then keys else keys + [x];
      assert all[..n + 1] == all[..n] + [x];
      assert all[n..][1..] == all[n + 1..];
      AppendOneOrder(keys, all[..n], x);
      AppendNewOrderFrom(keys', all, n + 1);
    }
  }
}
