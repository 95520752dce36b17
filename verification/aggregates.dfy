/** The table primitives the queries are built from, stated once and generically:
    occurrence counting, the index of a maximum (pandas' `idxmax`), a tally of
    distinct values with their counts (`value_counts`), a lookup in that tally with
    a default of zero (`dict.get(c, 0)`), and the first k buckets by descending
    count (`value_counts().head(k)`). */
module Aggregates {

  function Min(a: nat, b: nat): nat
  {
    if a <= b then a else b
  }

  /** Number of occurrences of `x` in `xs`. */
  function Count<T(==)>(xs: seq<T>, x: T): (n: nat)
    ensures n <= |xs|
    ensures n > 0 <==> x in xs
  {
    if |xs| == 0 then 0
    else (if xs[0] == x then 1 else 0) + Count(xs[1..], x)
  }

  /** The index of the first maximal element, which is the position pandas'
      `idxmax` reports. */
  function ArgMax(xs: seq<int>): (i: nat)
    requires |xs| > 0
    ensures i < |xs|
    ensures forall j :: 0 <= j < |xs| ==> xs[j] <= xs[i]
    ensures forall j :: 0 <= j < i ==> xs[j] < xs[i]
  {
    if |xs| == 1 then 0
    else
      var k := ArgMax(xs[1..]) + 1;
      if xs[k] <= xs[0] then 0 else k
  }

  /** One line of a `value_counts` result: a value and how often it occurs. */
  datatype Bucket<T> = Bucket(value: T, count: nat)

  /** The values that have a bucket. */
  function Values<T(==)>(t: seq<Bucket<T>>): (vs: set<T>)
    ensures forall i :: 0 <= i < |t| ==> t[i].value in vs
  {
    if |t| == 0 then {} else {t[0].value} + Values(t[1..])
  }

  /** A value has a bucket exactly when some position holds it. */
  lemma {:induction false} ValuesIndex<T>(t: seq<Bucket<T>>, v: T)
    requires v in Values(t)
    ensures exists i :: 0 <= i < |t| && t[i].value == v
  {
    if t[0].value != v {
      ValuesIndex(t[1..], v);
      var i :| 0 <= i < |t[1..]| && t[1..][i].value == v;
      assert t[i + 1].value == v;
    }
  }

  function Counts<T>(t: seq<Bucket<T>>): (cs: seq<int>)
    ensures |cs| == |t|
    ensures forall i :: 0 <= i < |t| ==> cs[i] == t[i].count
  {
    seq(|t|, i requires 0 <= i < |t| => t[i].count as int)
  }

  /** No value has two buckets. */
  ghost predicate Distinct<T>(t: seq<Bucket<T>>)
  {
    |t| == 0 || (t[0].value !in Values(t[1..]) && Distinct(t[1..]))
  }

  /** `Distinct` read position by position. */
  lemma {:induction false} DistinctIndex<T>(t: seq<Bucket<T>>)
    requires Distinct(t)
    ensures forall i, j :: 0 <= i < j < |t| ==> t[i].value != t[j].value
  {
    if |t| > 0 {
      DistinctIndex(t[1..]);
      forall i, j | 0 <= i < j < |t| ensures t[i].value != t[j].value {
        if i == 0 {
          assert t[j] == t[1..][j - 1];
        } else {
          assert t[i] == t[1..][i - 1] && t[j] == t[1..][j - 1];
        }
      }
    }
  }

  /** The count recorded for `x`, or 0 when `x` has no bucket. */
  function Get<T(==)>(t: seq<Bucket<T>>, x: T): (n: nat)
    ensures x !in Values(t) ==> n == 0
  {
    if |t| == 0 then 0
    else if t[0].value == x then t[0].count
    else Get(t[1..], x)
  }

  /** With one bucket per value, `Get` reads back the bucket of that value. */
  lemma {:induction false} GetAt<T>(t: seq<Bucket<T>>, i: nat)
    requires Distinct(t)
    requires i < |t|
    ensures Get(t, t[i].value) == t[i].count
  {
    if i > 0 {
      assert t[1..][i - 1] == t[i];
      GetAt(t[1..], i - 1);
    }
  }

  /** One bucket per value means as many buckets as distinct values. */
  lemma {:induction false} DistinctSize<T>(t: seq<Bucket<T>>)
    requires Distinct(t)
    ensures |Values(t)| == |t|
  {
    if |t| > 0 {
      DistinctSize(t[1..]);
    }
  }

  /** Counts one more occurrence of `x`. */
  function Bump<T(==,!new)>(t: seq<Bucket<T>>, x: T): (u: seq<Bucket<T>>)
    requires Distinct(t)
    ensures Distinct(u)
    ensures Values(u) == Values(t) + {x}
    ensures forall y :: Get(u, y) == Get(t, y) + (if y == x then 1 else 0)
    ensures (forall i :: 0 <= i < |t| ==> t[i].count > 0) ==> forall i :: 0 <= i < |u| ==> u[i].count > 0
  {
    if |t| == 0 then [Bucket(x, 1)]
    else if t[0].value == x then [Bucket(x, t[0].count + 1)] + t[1..]
    else [t[0]] + Bump(t[1..], x)
  }

  /** The distinct values of `xs` with their occurrence counts, as
      `value_counts` produces them before sorting. */
  function Tally<T(==,!new)>(xs: seq<T>): (t: seq<Bucket<T>>)
    ensures Distinct(t)
    ensures forall x :: x in Values(t) <==> x in xs
    ensures forall x :: Get(t, x) == Count(xs, x)
    ensures forall i :: 0 <= i < |t| ==> t[i].count > 0
  {
    if |xs| == 0 then []
    else
      assert xs == [xs[0]] + xs[1..];
      Bump(Tally(xs[1..]), xs[0])
  }

  /** `t` without the buckets of value `v`. */
  function Without<T(==,!new)>(t: seq<Bucket<T>>, v: T): (u: seq<Bucket<T>>)
    ensures Values(u) == Values(t) - {v}
    ensures forall b :: b in u <==> b in t && b.value != v
  {
    if |t| == 0 then []
    else
      assert t == [t[0]] + t[1..];
      if t[0].value == v then Without(t[1..], v)
      else [t[0]] + Without(t[1..], v)
  }

  /** The bucket `ArgMax` selects has a count no smaller than any other bucket. */
  lemma MaxBucket<T>(t: seq<Bucket<T>>, i: nat)
    requires |t| > 0 && i == ArgMax(Counts(t))
    ensures forall b :: b in t ==> b.count <= t[i].count
  {
  }

  /** Counts never increase along `r`. */
  ghost predicate NonIncreasing<T>(r: seq<Bucket<T>>)
  {
    forall a, b :: 0 <= a < b < |r| ==> r[b].count <= r[a].count
  }

  /** A maximal bucket in front of a non-increasing sequence of buckets no
      larger than it keeps the counts non-increasing. */
  lemma ConsNonIncreasing<T>(top: Bucket<T>, tail: seq<Bucket<T>>)
    requires NonIncreasing(tail)
    requires forall b :: b in tail ==> b.count <= top.count
    ensures NonIncreasing([top] + tail)
  {
  }

  /** A bucket followed by the top k-1 of the buckets of the other values has
      k buckets (or all values), each from `t`, each value once. */
  lemma TopStepShape<T>(t: seq<Bucket<T>>, i: nat, rest: seq<Bucket<T>>, tail: seq<Bucket<T>>, k: nat)
    requires i < |t| && k > 0
    requires Values(rest) == Values(t) - {t[i].value}
    requires forall b :: b in rest ==> b in t
    requires |tail| == Min(k - 1, |Values(rest)|)
    requires forall b :: b in tail ==> b in rest
    requires Values(tail) <= Values(rest)
    requires Distinct(tail)
    ensures |[t[i]] + tail| == Min(k, |Values(t)|)
    ensures forall b :: b in [t[i]] + tail ==> b in t
    ensures Values([t[i]] + tail) <= Values(t)
    ensures Distinct([t[i]] + tail)
  {
  }

  /** A bucket of maximal count followed by the top k-1 of the buckets of the
      other values keeps counts non-increasing and leaves out nothing larger
      than its last bucket. */
  lemma TopStepOrder<T>(t: seq<Bucket<T>>, i: nat, rest: seq<Bucket<T>>, tail: seq<Bucket<T>>)
    requires i < |t|
    requires forall b :: b in t ==> b.count <= t[i].count
    requires forall b :: b in t && b.value != t[i].value ==> b in rest
    requires forall b :: b in tail ==> b in rest
    requires forall b :: b in rest ==> b in t
    requires NonIncreasing(tail)
    requires |tail| > 0 ==> forall b :: b in rest && b.value !in Values(tail) ==> b.count <= tail[|tail| - 1].count
    ensures NonIncreasing([t[i]] + tail)
    ensures forall b :: b in t && b.value !in Values([t[i]] + tail) ==> b.count <= ([t[i]] + tail)[|tail|].count
  {
    var r := [t[i]] + tail;
    assert r[1..] == tail;
    ConsNonIncreasing(t[i], tail);
    forall b | b in t && b.value !in Values(r) ensures b.count <= r[|tail|].count {
      assert b in rest;
    }
  }

  /** The `k` buckets with the largest counts, largest first, at most one per
      value; among equal counts the order is left open, as it is in
      `value_counts`. */
  function TopK<T(==,!new)>(t: seq<Bucket<T>>, k: nat): (r: seq<Bucket<T>>)
    ensures |r| == Min(k, |Values(t)|)
    ensures forall b :: b in r ==> b in t
    ensures Values(r) <= Values(t)
    ensures Distinct(r)
    ensures NonIncreasing(r)
    ensures |r| > 0 ==> forall b :: b in t && b.value !in Values(r) ==> b.count <= r[|r| - 1].count
    decreases k
  {
    if k == 0 || |t| == 0 then []
    else
      var i := ArgMax(Counts(t));
      var rest := Without(t, t[i].value);
      var tail := TopK(rest, k - 1);
      MaxBucket(t, i);
      TopStepShape(t, i, rest, tail, k);
      TopStepOrder(t, i, rest, tail);
      [t[i]] + tail
  }

  /** A tally's buckets that are kept report true occurrence counts. */
  lemma KeptCounts<T>(xs: seq<T>, t: seq<Bucket<T>>, r: seq<Bucket<T>>)
    requires Distinct(t)
    requires forall x :: Get(t, x) == Count(xs, x)
    requires forall i :: 0 <= i < |t| ==> t[i].count > 0
    requires forall b :: b in r ==> b in t
    ensures forall i :: 0 <= i < |r| ==> r[i].value in xs && r[i].count == Count(xs, r[i].value)
  {
    forall i | 0 <= i < |r| ensures r[i].value in xs && r[i].count == Count(xs, r[i].value) {
      assert r[i] in t;
      var j :| 0 <= j < |t| && t[j] == r[i];
      GetAt(t, j);
    }
  }

  /** A value of `xs` without a kept bucket occurs no more often than the
      last kept bucket says. */
  lemma LeftOutCounts<T>(xs: seq<T>, t: seq<Bucket<T>>, r: seq<Bucket<T>>)
    requires Distinct(t)
    requires forall x :: Get(t, x) == Count(xs, x)
    requires forall x :: x in Values(t) <==> x in xs
    requires |r| > 0 ==> forall b :: b in t && b.value !in Values(r) ==> b.count <= r[|r| - 1].count
    ensures |r| > 0 ==> forall x :: x in xs && x !in Values(r) ==> Count(xs, x) <= r[|r| - 1].count
  {
    if |r| > 0 {
      forall x | x in xs && x !in Values(r) ensures Count(xs, x) <= r[|r| - 1].count {
        ValuesIndex(t, x);
        var j :| 0 <= j < |t| && t[j].value == x;
        GetAt(t, j);
        assert t[j] in t;
      }
    }
  }

  /** A tally of `xs` cut down to its top `k` buckets lists the `k` most
      frequent values of `xs` with their true counts. */
  lemma TopOfTally<T(!new)>(xs: seq<T>, k: nat, t: seq<Bucket<T>>, r: seq<Bucket<T>>)
    requires Distinct(t)
    requires forall x :: x in Values(t) <==> x in xs
    requires forall x :: Get(t, x) == Count(xs, x)
    requires forall i :: 0 <= i < |t| ==> t[i].count > 0
    requires |r| == Min(k, |Values(t)|)
    requires forall b :: b in r ==> b in t
    requires Distinct(r)
    requires |r| > 0 ==> forall b :: b in t && b.value !in Values(r) ==> b.count <= r[|r| - 1].count
    ensures |r| == Min(k, |set x | x in xs|)
    ensures forall i :: 0 <= i < |r| ==> r[i].value in xs && r[i].count == Count(xs, r[i].value)
    ensures forall i, j :: 0 <= i < j < |r| ==> r[i].value != r[j].value
    ensures |r| > 0 ==> forall x :: x in xs && x !in Values(r) ==> Count(xs, x) <= r[|r| - 1].count
  {
    assert Values(t) == set x | x in xs;
    KeptCounts(xs, t, r);
    LeftOutCounts(xs, t, r);
    DistinctIndex(r);
  }

  /** `value_counts().head(k)`: the `k` most frequent values of `xs` (all of
      them when there are fewer), each once with its number of occurrences,
      most frequent first, with no value left out that occurs more often than
      the last one kept. */
  function MostCommon<T(==,!new)>(xs: seq<T>, k: nat): (r: seq<Bucket<T>>)
    ensures |r| == Min(k, |set x | x in xs|)
    ensures forall i :: 0 <= i < |r| ==> r[i].value in xs && r[i].count == Count(xs, r[i].value)
    ensures forall i, j :: 0 <= i < j < |r| ==> r[i].value != r[j].value
    ensures NonIncreasing(r)
    ensures |r| > 0 ==> forall x :: x in xs && x !in Values(r) ==> Count(xs, x) <= r[|r| - 1].count
  {
    var t := Tally(xs);
    var r := TopK(t, k);
    TopOfTally(xs, k, t, r);
    r
  }
}
