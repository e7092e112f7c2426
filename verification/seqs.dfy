/** Sequence helpers: the `filter`, `find`/`findIndex` and `new Set(...)`
    operations the engine uses, with the algebra the proofs rely on. */
module Seqs {
  import opened Opt

  /** The elements of `s` that satisfy `p`, in order (`Array.prototype.filter`). */
  function Filter<T>(s: seq<T>, p: T -> bool): seq<T> {
    if s == [] then [] else (if p(s[0]) then [s[0]] else []) + Filter(s[1..], p)
  }

  /** The elements of `s` that do NOT satisfy `p`, in order. */
  function Reject<T>(s: seq<T>, p: T -> bool): seq<T> {
    if s == [] then [] else (if p(s[0]) then [] else [s[0]]) + Reject(s[1..], p)
  }

  /** Updating past the head updates the tail. */
  lemma {:induction false} UpdateTail<T>(s: seq<T>, i: nat, v: T)
    requires 0 < i < |s|
    ensures s[i := v] == [s[0]] + s[1..][i - 1 := v]
  {
    var r := [s[0]] + s[1..][i - 1 := v];
    assert forall j :: 0 <= j < |s| ==> r[j] == s[i := v][j] by {
      forall j | 0 <= j < |s| ensures r[j] == s[i := v][j] {
        if j > 0 {
          assert r[j] == s[1..][i - 1 := v][j - 1];
        }
      }
    }
  }

  /** Filter keeps exactly the elements that satisfy `p`. */
  lemma {:induction false} FilterMembers<T>(s: seq<T>, p: T -> bool)
    ensures forall x :: x in Filter(s, p) <==> x in s && p(x)
  {
    if s != [] {
      FilterMembers(s[1..], p);
      assert s == [s[0]] + s[1..];
    }
  }

  /** Reject keeps exactly the elements that do not satisfy `p`. */
  lemma {:induction false} RejectMembers<T>(s: seq<T>, p: T -> bool)
    ensures forall x :: x in Reject(s, p) <==> x in s && !p(x)
  {
    if s != [] {
      RejectMembers(s[1..], p);
      assert s == [s[0]] + s[1..];
    }
  }

  predicate Distinct<T(==)>(s: seq<T>) {
    forall i, j :: 0 <= i < j < |s| ==> s[i] != s[j]
  }

  /** `s` with `f` applied to its first element satisfying `p`; unchanged
      when none does (`findIndex` followed by an update at that index). */
  function UpdateFirst<T>(s: seq<T>, p: T -> bool, f: T -> T): (r: seq<T>)
    ensures |r| == |s|
  {
    if s == [] then []
    else if p(s[0]) then [f(s[0])] + s[1..]
    else [s[0]] + UpdateFirst(s[1..], p, f)
  }

  /** Exactly the first element satisfying `p` is replaced by its image. */
  lemma {:induction false} UpdateFirstSpec<T>(s: seq<T>, p: T -> bool, f: T -> T)
    ensures match FirstIndex(s, p)
            case None => UpdateFirst(s, p, f) == s
            case Some(k) => UpdateFirst(s, p, f) == s[k := f(s[k])]
  {
    if s != [] && !p(s[0]) {
      UpdateFirstSpec(s[1..], p, f);
      assert FirstIndex(s, p) == match FirstIndex(s[1..], p) case None => None case Some(k) => Some(k + 1);
      match FirstIndex(s[1..], p)
      case None =>
      case Some(k) => UpdateTail(s, k + 1, f(s[k + 1]));
    }
  }

  /** Pointwise: position `k` is replaced exactly when it holds the first
      element satisfying `p`. */
  lemma {:induction false} UpdateFirstAt<T>(s: seq<T>, p: T -> bool, f: T -> T, k: nat)
    requires k < |s|
    ensures UpdateFirst(s, p, f)[k] == if p(s[k]) && (forall j :: 0 <= j < k ==> !p(s[j])) then f(s[k]) else s[k]
  {
    UpdateFirstSpec(s, p, f);
    match FirstIndex(s, p)
    case None =>
    case Some(m) =>
      if k < m {
        assert !p(s[k]);
      } else if k > m {
        assert p(s[m]);
      }
  }

  /** Updating the first match in a concatenation updates it in the first
      part when that part has one, and in the second part otherwise. */
  lemma {:induction false} UpdateFirstConcat<T>(a: seq<T>, b: seq<T>, p: T -> bool, f: T -> T)
    ensures UpdateFirst(a + b, p, f)
            == if FirstIndex(a, p).Some? then UpdateFirst(a, p, f) + b else a + UpdateFirst(b, p, f)
  {
    match FirstIndex(a, p)
    case Some(k) =>
      UpdateFirstConcatHit(a, b, p, f);
    case None =>
      UpdateFirstConcatMiss(a, b, p, f);
  }

  lemma {:induction false} UpdateFirstConcatHit<T>(a: seq<T>, b: seq<T>, p: T -> bool, f: T -> T)
    requires exists i :: 0 <= i < |a| && p(a[i])
    ensures UpdateFirst(a + b, p, f) == UpdateFirst(a, p, f) + b
  {
    var x, t, ab := a[0], a[1..], a + b;
    assert ab[0] == x && ab[1..] == t + b;
    if p(x) {
      assert [f(x)] + (t + b) == ([f(x)] + t) + b;
    } else {
      var i :| 0 <= i < |a| && p(a[i]);
      assert t[i - 1] == a[i];
      UpdateFirstConcatHit(t, b, p, f);
      assert [x] + (UpdateFirst(t, p, f) + b) == ([x] + UpdateFirst(t, p, f)) + b;
    }
  }

  lemma {:induction false} UpdateFirstConcatMiss<T>(a: seq<T>, b: seq<T>, p: T -> bool, f: T -> T)
    requires forall i :: 0 <= i < |a| ==> !p(a[i])
    ensures UpdateFirst(a + b, p, f) == a + UpdateFirst(b, p, f)
  {
    if a == [] {
      assert a + b == b;
    } else {
      var x, t, ab := a[0], a[1..], a + b;
      assert ab[0] == x && ab[1..] == t + b;
      assert forall i :: 0 <= i < |t| ==> t[i] == a[i + 1];
      UpdateFirstConcatMiss(t, b, p, f);
      assert [x] + (t + UpdateFirst(b, p, f)) == ([x] + t) + UpdateFirst(b, p, f);
      assert [x] + t == a;
    }
  }

  /** The distinct elements of `s` in first-occurrence order: what
      `[...new Set(s)]` yields. */
  function Dedupe<T(==)>(s: seq<T>): (r: seq<T>)
    ensures Distinct(r)
    ensures forall x :: x in r ==> x in s
    ensures forall x :: x in s ==> x in r
    ensures |r| <= |s|
  {
    if s == [] then []
    else
      var init := Dedupe(s[..|s| - 1]);
      if s[|s| - 1] in s[..|s| - 1] then init else init + [s[|s| - 1]]
  }

  /** The index of the first element satisfying `p` (`findIndex`, or `find`
      when the caller then reads the element). */
  function FirstIndex<T>(s: seq<T>, p: T -> bool): (r: Option<nat>)
    ensures r.Some? ==> r.value < |s| && p(s[r.value])
    ensures r.Some? ==> forall j :: 0 <= j < r.value ==> !p(s[j])
    ensures r.None? <==> forall j :: 0 <= j < |s| ==> !p(s[j])
  {
    if s == [] then None
    else if p(s[0]) then Some(0)
    else match FirstIndex(s[1..], p)
      case None => None
      case Some(i) => Some(i + 1)
  }

  /** The positions, from `i` on and ascending, at which `f` is true. */
  function Positions(f: seq<bool>, i: nat): (r: seq<nat>)
    requires i <= |f|
    ensures forall j :: 0 <= j < |r| ==> i <= r[j] < |f| && f[r[j]]
    ensures forall j :: i <= j < |f| && f[j] ==> j in r
    ensures forall a, b :: 0 <= a < b < |r| ==> r[a] < r[b]
    decreases |f| - i
  {
    if i == |f| then []
    else
      var rest := Positions(f, i + 1);
      if f[i] then
        var r := [i] + rest;
        assert forall j :: 1 <= j < |r| ==> r[j] == rest[j - 1];
        assert r[0] == i;
        forall j | i < j < |f| && f[j] ensures j in r {
          assert j in rest;
        }
        r
      else rest
  }

  lemma {:induction false} PositionsNone(f: seq<bool>, i: nat)
    requires i <= |f|
    requires forall j :: i <= j < |f| ==> !f[j]
    ensures Positions(f, i) == []
    decreases |f| - i
  {
    if i < |f| {
      PositionsNone(f, i + 1);
    }
  }

  lemma {:induction false} PositionsExactly(f: seq<bool>, i: nat, h: nat)
    requires i <= h < |f|
    requires forall j :: i <= j < |f| ==> (f[j] <==> j == h)
    ensures Positions(f, i) == [h]
    decreases |f| - i
  {
    if i == h {
      PositionsNone(f, i + 1);
    } else {
      PositionsExactly(f, i + 1, h);
    }
  }

  lemma {:induction false} FilterConcat<T>(a: seq<T>, b: seq<T>, p: T -> bool)
    ensures Filter(a + b, p) == Filter(a, p) + Filter(b, p)
    ensures Reject(a + b, p) == Reject(a, p) + Reject(b, p)
  {
    if a != [] {
      assert (a + b)[0] == a[0];
      assert (a + b)[1..] == a[1..] + b;
      FilterConcat(a[1..], b, p);
    } else {
      assert a + b == b;
    }
  }

  /** Filter and Reject split a sequence into two parts that together hold
      every element exactly as often as the sequence does. */
  lemma {:induction false} FilterRejectPartition<T>(s: seq<T>, p: T -> bool)
    ensures multiset(Filter(s, p)) + multiset(Reject(s, p)) == multiset(s)
    ensures |Filter(s, p)| + |Reject(s, p)| == |s|
  {
    if s != [] {
      FilterRejectPartition(s[1..], p);
      assert s == [s[0]] + s[1..];
    }
  }

  lemma {:induction false} FilterAllKept<T>(s: seq<T>, p: T -> bool)
    requires forall x :: x in s ==> p(x)
    ensures Filter(s, p) == s
    ensures Reject(s, p) == []
  {
    if s != [] {
      FilterAllKept(s[1..], p);
      assert s == [s[0]] + s[1..];
    }
  }

  lemma {:induction false} FilterNoneKept<T>(s: seq<T>, p: T -> bool)
    requires forall x :: x in s ==> !p(x)
    ensures Filter(s, p) == []
    ensures Reject(s, p) == s
  {
    if s != [] {
      FilterNoneKept(s[1..], p);
      assert s == [s[0]] + s[1..];
    }
  }

  /** When nothing `q` selects satisfies `p`, rejecting `p` first does not
      change what `q` selects. */
  lemma {:induction false} FilterAfterReject<T>(s: seq<T>, p: T -> bool, q: T -> bool)
    requires forall x :: q(x) ==> !p(x)
    ensures Filter(Reject(s, p), q) == Filter(s, q)
  {
    if s != [] {
      FilterAfterReject(s[1..], p, q);
      FilterConcat(if p(s[0]) then [] else [s[0]], Reject(s[1..], p), q);
    }
  }

  /** Filtering by `p` first does not change what a narrower `q` selects. */
  lemma {:induction false} FilterNarrowing<T>(s: seq<T>, p: T -> bool, q: T -> bool)
    requires forall x :: q(x) ==> p(x)
    ensures Filter(Filter(s, p), q) == Filter(s, q)
  {
    if s != [] {
      FilterNarrowing(s[1..], p, q);
      FilterConcat(if p(s[0]) then [s[0]] else [], Filter(s[1..], p), q);
    }
  }

  lemma {:induction false} FilterEmptyIffNone<T>(s: seq<T>, p: T -> bool)
    ensures Filter(s, p) == [] <==> forall x :: x in s ==> !p(x)
  {
    if s != [] {
      FilterEmptyIffNone(s[1..], p);
      assert forall x :: x in s <==> x == s[0] || x in s[1..];
    }
  }

  /** Sets of distinct pieces: two sequences with no common element are
      deduplicated piecewise. */
  lemma {:induction false} DedupeConcatDisjoint<T>(a: seq<T>, b: seq<T>)
    requires forall x :: x in a ==> x !in b
    ensures Dedupe(a + b) == Dedupe(a) + Dedupe(b)
  {
    if b == [] {
      assert a + b == a;
    } else {
      var b' := b[..|b| - 1];
      var y := b[|b| - 1];
      assert b == b' + [y];
      assert a + b == (a + b') + [y];
      assert (a + b)[..|a + b| - 1] == a + b';
      DedupeConcatDisjoint(a, b');
      assert y in a + b' <==> y in b';
    }
  }

  /** A sequence holding only copies of `c` deduplicates to `[c]`, or `[]`. */
  lemma {:induction false} DedupeConstant<T>(s: seq<T>, c: T)
    requires forall x :: x in s ==> x == c
    ensures Dedupe(s) == if s == [] then [] else [c]
  {
    if s != [] {
      var s' := s[..|s| - 1];
      assert forall x :: x in s' ==> x in s;
      assert s[|s| - 1] in s;
      DedupeConstant(s', c);
      if s' != [] {
        assert s'[0] in s';
      }
    }
  }
}
