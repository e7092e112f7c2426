/** Grouping by key into an insertion-ordered map of arrays: the source's
    `if (!m[k]) m[k] = []; m[k].push(v)` followed by `Object.entries(m)`.
    A bucket list is a sequence of (key, values) pairs in the order the keys
    were first inserted. */
module Buckets {
  import opened Seqs

  /** The keys of `xs`, in order, with repetitions. */
  function Keys<K, V>(xs: seq<(K, V)>): (ks: seq<K>)
    ensures |ks| == |xs|
    ensures forall i :: 0 <= i < |xs| ==> ks[i] == xs[i].0
  {
    if xs == [] then [] else Keys(xs[..|xs| - 1]) + [xs[|xs| - 1].0]
  }

  /** The values of `xs`, in order. */
  function Vals<K, V>(xs: seq<(K, V)>): (vs: seq<V>)
    ensures |vs| == |xs|
    ensures forall i :: 0 <= i < |xs| ==> vs[i] == xs[i].1
  {
    if xs == [] then [] else Vals(xs[..|xs| - 1]) + [xs[|xs| - 1].1]
  }

  /** The values stored under key `k`, in insertion order: the reference
      meaning of one bucket. */
  function Select<K(==), V>(xs: seq<(K, V)>, k: K): (r: seq<V>)
    ensures forall v :: v in r ==> (k, v) in xs
    ensures |r| <= |xs|
  {
    if xs == [] then []
    else Select(xs[..|xs| - 1], k) + (if xs[|xs| - 1].0 == k then [xs[|xs| - 1].1] else [])
  }

  /** The keys of a bucket list. */
  function BucketKeys<K, V>(bs: seq<(K, seq<V>)>): (ks: seq<K>)
    ensures |ks| == |bs|
    ensures forall i :: 0 <= i < |bs| ==> ks[i] == bs[i].0
  {
    if bs == [] then [] else [bs[0].0] + BucketKeys(bs[1..])
  }

  /** All values of a bucket list, bucket after bucket. */
  function Flat<K, V>(bs: seq<(K, seq<V>)>): seq<V> {
    if bs == [] then [] else bs[0].1 + Flat(bs[1..])
  }

  /** Appends `v` to the bucket of `k`, opening a new bucket at the end when
      `k` has none yet. */
  function Insert<K(==), V>(bs: seq<(K, seq<V>)>, k: K, v: V): (r: seq<(K, seq<V>)>)
    requires Distinct(BucketKeys(bs))
    ensures k in BucketKeys(bs) ==> BucketKeys(r) == BucketKeys(bs)
    ensures k !in BucketKeys(bs) ==> BucketKeys(r) == BucketKeys(bs) + [k]
  {
    if bs == [] then [(k, [v])]
    else if bs[0].0 == k then [(k, bs[0].1 + [v])] + bs[1..]
    else
      assert BucketKeys(bs[1..]) == BucketKeys(bs)[1..];
      var rest := Insert(bs[1..], k, v);
      var r := [bs[0]] + rest;
      assert r[1..] == rest;
      r
  }

  /** Only the bucket of `k` grows, by `v` at its end; every other bucket
      is left as it was. */
  lemma {:induction false} InsertAt<K, V>(bs: seq<(K, seq<V>)>, k: K, v: V, i: nat)
    requires Distinct(BucketKeys(bs))
    requires i < |bs|
    ensures i < |Insert(bs, k, v)|
    ensures Insert(bs, k, v)[i] == (bs[i].0, bs[i].1 + (if bs[i].0 == k then [v] else []))
  {
    var r := Insert(bs, k, v);
    assert |r| == |BucketKeys(r)|;
    if i > 0 {
      if bs[0].0 == k {
        assert BucketKeys(bs)[i] == bs[i].0 && BucketKeys(bs)[0] == bs[0].0;
        assert bs[i].0 != k;
        assert r[i] == bs[1..][i - 1] == bs[i];
        assert bs[i].1 + [] == bs[i].1;
      } else {
        assert BucketKeys(bs[1..]) == BucketKeys(bs)[1..];
        InsertAt(bs[1..], k, v, i - 1);
        assert r[i] == Insert(bs[1..], k, v)[i - 1];
      }
    } else if bs[0].0 != k {
      assert r[0] == bs[0];
      assert bs[0].1 + [] == bs[0].1;
    }
  }

  /** A key with no bucket yet gets the one-value bucket `[v]`, at the end. */
  lemma {:induction false} InsertNew<K, V>(bs: seq<(K, seq<V>)>, k: K, v: V)
    requires Distinct(BucketKeys(bs))
    requires k !in BucketKeys(bs)
    ensures |Insert(bs, k, v)| == |bs| + 1
    ensures Insert(bs, k, v)[|bs|] == (k, [v])
  {
    var r := Insert(bs, k, v);
    assert |r| == |BucketKeys(r)|;
    if bs != [] {
      assert BucketKeys(bs)[0] == bs[0].0;
      assert BucketKeys(bs[1..]) == BucketKeys(bs)[1..];
      InsertNew(bs[1..], k, v);
      assert r[|bs|] == Insert(bs[1..], k, v)[|bs| - 1];
    }
  }

  /** Inserting adds exactly `v` to the values. */
  lemma {:induction false} InsertFlat<K, V>(bs: seq<(K, seq<V>)>, k: K, v: V)
    requires Distinct(BucketKeys(bs))
    ensures multiset(Flat(Insert(bs, k, v))) == multiset(Flat(bs)) + multiset{v}
  {
    if bs != [] && bs[0].0 != k {
      assert BucketKeys(bs[1..]) == BucketKeys(bs)[1..];
      InsertFlat(bs[1..], k, v);
      assert Insert(bs, k, v)[1..] == Insert(bs[1..], k, v);
    } else if bs != [] {
      assert Insert(bs, k, v)[1..] == bs[1..];
    }
  }

  /** Groups the pairs of `xs` by key, keys in first-seen order. */
  function Bucketize<K(==), V>(xs: seq<(K, V)>): (bs: seq<(K, seq<V>)>)
    ensures BucketKeys(bs) == Dedupe(Keys(xs))
    ensures forall i :: 0 <= i < |bs| ==> bs[i].1 == Select(xs, bs[i].0)
  {
    if xs == [] then []
    else
      var init := xs[..|xs| - 1];
      var last := xs[|xs| - 1];
      var bs0 := Bucketize(init);
      var r := Insert(bs0, last.0, last.1);
      BucketizeStep(xs, bs0, r);
      r
  }

  lemma {:induction false} BucketizeStep<K, V>(xs: seq<(K, V)>, bs0: seq<(K, seq<V>)>, r: seq<(K, seq<V>)>)
    requires xs != []
    requires BucketKeys(bs0) == Dedupe(Keys(xs[..|xs| - 1]))
    requires forall i :: 0 <= i < |bs0| ==> bs0[i].1 == Select(xs[..|xs| - 1], bs0[i].0)
    requires r == Insert(bs0, xs[|xs| - 1].0, xs[|xs| - 1].1)
    ensures BucketKeys(r) == Dedupe(Keys(xs))
    ensures forall i :: 0 <= i < |r| ==> r[i].1 == Select(xs, r[i].0)
  {
    StepKeys(xs, bs0, r);
    StepBuckets(xs, bs0, r);
  }

  lemma {:induction false} StepBuckets<K, V>(xs: seq<(K, V)>, bs0: seq<(K, seq<V>)>, r: seq<(K, seq<V>)>)
    requires xs != []
    requires BucketKeys(bs0) == Dedupe(Keys(xs[..|xs| - 1]))
    requires forall i :: 0 <= i < |bs0| ==> bs0[i].1 == Select(xs[..|xs| - 1], bs0[i].0)
    requires r == Insert(bs0, xs[|xs| - 1].0, xs[|xs| - 1].1)
    ensures forall i :: 0 <= i < |r| ==> r[i].1 == Select(xs, r[i].0)
  {
    assert Distinct(BucketKeys(bs0));
    assert |r| <= |bs0| + 1 by {
      assert |r| == |BucketKeys(r)|;
    }
    NewBucket(xs, bs0, r);
    forall i | 0 <= i < |bs0| ensures r[i].1 == Select(xs, r[i].0) {
      OldBucket(xs, bs0, r, i);
    }
  }

  /** Bucketing loses and invents no value: the buckets hold exactly the
      values of the pairs. */
  lemma {:induction false} BucketizeFlat<K, V>(xs: seq<(K, V)>)
    ensures multiset(Flat(Bucketize(xs))) == multiset(Vals(xs))
  {
    if xs != [] {
      var init := xs[..|xs| - 1];
      BucketizeFlat(init);
      StepVals(xs, Bucketize(init), Bucketize(xs));
    }
  }

  lemma {:induction false} StepKeys<K, V>(xs: seq<(K, V)>, bs0: seq<(K, seq<V>)>, r: seq<(K, seq<V>)>)
    requires xs != []
    requires BucketKeys(bs0) == Dedupe(Keys(xs[..|xs| - 1]))
    requires r == Insert(bs0, xs[|xs| - 1].0, xs[|xs| - 1].1)
    ensures BucketKeys(r) == Dedupe(Keys(xs))
  {
    var init := xs[..|xs| - 1];
    assert Keys(xs)[..|xs| - 1] == Keys(init);
    assert Keys(xs)[|xs| - 1] == xs[|xs| - 1].0;
  }

  lemma {:induction false} StepVals<K, V>(xs: seq<(K, V)>, bs0: seq<(K, seq<V>)>, r: seq<(K, seq<V>)>)
    requires xs != []
    requires Distinct(BucketKeys(bs0))
    requires multiset(Flat(bs0)) == multiset(Vals(xs[..|xs| - 1]))
    requires r == Insert(bs0, xs[|xs| - 1].0, xs[|xs| - 1].1)
    ensures multiset(Flat(r)) == multiset(Vals(xs))
  {
    assert Vals(xs) == Vals(xs[..|xs| - 1]) + [xs[|xs| - 1].1];
    InsertFlat(bs0, xs[|xs| - 1].0, xs[|xs| - 1].1);
  }

  /** A bucket that existed before the last pair keeps its values, plus the
      last value when the key matches. */
  lemma {:induction false} OldBucket<K, V>(xs: seq<(K, V)>, bs0: seq<(K, seq<V>)>, r: seq<(K, seq<V>)>, i: nat)
    requires xs != []
    requires Distinct(BucketKeys(bs0))
    requires i < |bs0|
    requires bs0[i].1 == Select(xs[..|xs| - 1], bs0[i].0)
    requires r == Insert(bs0, xs[|xs| - 1].0, xs[|xs| - 1].1)
    ensures r[i].1 == Select(xs, r[i].0)
  {
    InsertAt(bs0, xs[|xs| - 1].0, xs[|xs| - 1].1, i);
  }

  /** The bucket opened for the last pair's new key holds just its value. */
  lemma {:induction false} NewBucket<K, V>(xs: seq<(K, V)>, bs0: seq<(K, seq<V>)>, r: seq<(K, seq<V>)>)
    requires xs != []
    requires BucketKeys(bs0) == Dedupe(Keys(xs[..|xs| - 1]))
    requires r == Insert(bs0, xs[|xs| - 1].0, xs[|xs| - 1].1)
    ensures |r| > |bs0| ==> r[|bs0|].1 == Select(xs, r[|bs0|].0)
  {
    if |r| > |bs0| {
      var k := xs[|xs| - 1].0;
      assert k !in BucketKeys(bs0);
      InsertNew(bs0, k, xs[|xs| - 1].1);
      SelectEmptyIff(xs[..|xs| - 1], k);
    }
  }

  /** Select distributes over concatenation. */
  lemma {:induction false} SelectConcat<K, V>(a: seq<(K, V)>, b: seq<(K, V)>, k: K)
    ensures Select(a + b, k) == Select(a, k) + Select(b, k)
  {
    if b == [] {
      assert a + b == a;
    } else {
      var b' := b[..|b| - 1];
      assert (a + b)[..|a + b| - 1] == a + b';
      SelectConcat(a, b', k);
    }
  }

  /** A key that occurs in `xs` has a non-empty bucket, and a key that does
      not has an empty one. */
  lemma {:induction false} SelectEmptyIff<K, V>(xs: seq<(K, V)>, k: K)
    ensures Select(xs, k) == [] <==> k !in Keys(xs)
  {
    if xs != [] {
      var init := xs[..|xs| - 1];
      SelectEmptyIff(init, k);
      assert Keys(xs) == Keys(init) + [xs[|xs| - 1].0];
    }
  }

  /** Every bucket Bucketize produces is non-empty. */
  lemma {:induction false} BucketsNonEmpty<K, V>(xs: seq<(K, V)>)
    ensures forall i :: 0 <= i < |Bucketize(xs)| ==> Bucketize(xs)[i].1 != []
  {
    var bs := Bucketize(xs);
    forall i | 0 <= i < |bs| ensures bs[i].1 != [] {
      assert BucketKeys(bs)[i] == bs[i].0;
      assert bs[i].0 in Keys(xs);
      SelectEmptyIff(xs, bs[i].0);
    }
  }

  /** A pair of `xs` puts its value in the bucket of its key. */
  lemma {:induction false} SelectMember<K, V>(xs: seq<(K, V)>, k: K, v: V)
    requires (k, v) in xs
    ensures v in Select(xs, k)
  {
    if xs[|xs| - 1] != (k, v) {
      assert (k, v) in xs[..|xs| - 1] by {
        var i :| 0 <= i < |xs| && xs[i] == (k, v);
        assert i < |xs| - 1;
        assert xs[..|xs| - 1][i] == (k, v);
      }
      SelectMember(xs[..|xs| - 1], k, v);
    }
  }

  /** A pair of `xs` contributes its value to `Vals(xs)`. */
  lemma {:induction false} ValsMember<K, V>(xs: seq<(K, V)>, p: (K, V))
    requires p in xs
    ensures p.1 in Vals(xs)
  {
    var i :| 0 <= i < |xs| && xs[i] == p;
    assert Vals(xs)[i] == p.1;
  }
}
