/** Interval maps over half-open extents that never coalesce: the shape of both the symbolic
    memory maps and the dead-store maps (`IntervalMap` with the `HalfOpenNoMerge` traits).
    A map is the in-order sequence of its extents; an iterator is an index into it. */
module Extents {
  import opened Options

  /** The bytes start, start + 1, ..., stop - 1, carrying `val`. */
  datatype Extent<+V> = Extent(start: nat, stop: nat, val: V)

  ghost predicate Sorted<V>(m: seq<Extent<V>>)
  {
    && (forall i {:trigger m[i].start} {:trigger m[i].stop} :: 0 <= i < |m| ==> m[i].start < m[i].stop)
    && (forall i: nat, j: nat {:trigger Precedes(m, i, j)} :: i < j < |m| ==> Precedes(m, i, j))
  }

  /** The extent at `i` ends before the one at `j` starts. */
  ghost predicate Precedes<V>(m: seq<Extent<V>>, i: nat, j: nat)
    requires i < j < |m|
  {
    m[i].stop <= m[j].start
  }

  /** Every extent lies within lo..hi. */
  ghost predicate Within<V>(m: seq<Extent<V>>, lo: nat, hi: nat)
  {
    forall i {:trigger m[i].start} {:trigger m[i].stop} :: 0 <= i < |m| ==> lo <= m[i].start <= m[i].stop <= hi
  }

  function FindFrom<V>(m: seq<Extent<V>>, x: nat, k: nat): (i: nat)
    requires k <= |m|
    ensures k <= i <= |m|
    ensures forall j :: k <= j < i ==> m[j].stop <= x
    ensures i < |m| ==> x < m[i].stop
    decreases |m| - k
  {
    if k == |m| || x < m[k].stop then k else FindFrom(m, x, k + 1)
  }

  /** `find`: the first extent that ends after `x`, or |m| for `end()`. */
  function Find<V>(m: seq<Extent<V>>, x: nat): (i: nat)
    ensures i <= |m|
    ensures forall j :: 0 <= j < i ==> m[j].stop <= x
    ensures i < |m| ==> x < m[i].stop
  {
    FindFrom(m, x, 0)
  }

  /** The extent holding byte `b`, if any. */
  function At<V>(m: seq<Extent<V>>, b: nat): (r: Option<Extent<V>>)
    ensures r.Some? ==> r.value in m && r.value.start <= b < r.value.stop
  {
    var i := Find(m, b);
    if i < |m| && m[i].start <= b then Some(m[i]) else None
  }

  /** In a sorted map the extent holding a byte is unique, so `At` finds any that exists. */
  lemma AtHit<V>(m: seq<Extent<V>>, i: nat, b: nat)
    requires Sorted(m) && i < |m| && m[i].start <= b < m[i].stop
    ensures At(m, b) == Some(m[i])
  {
    var f := Find(m, b);
    assert f <= i;
    assert f < i ==> Precedes(m, f, i);
  }

  lemma AtMiss<V>(m: seq<Extent<V>>, b: nat)
    requires forall i :: 0 <= i < |m| ==> !(m[i].start <= b < m[i].stop)
    ensures At(m, b) == None
  {
  }

  lemma AtConcat<V>(p: seq<Extent<V>>, q: seq<Extent<V>>, b: nat)
    requires Sorted(p + q)
    ensures Sorted(p) && Sorted(q)
    ensures At(p + q, b) == if At(p, b).Some? then At(p, b) else At(q, b)
  {
    SortedParts(p, q);
    if i :| 0 <= i < |p| && p[i].start <= b < p[i].stop {
      AtHit(p, i, b);
      AtHit(p + q, i, b);
    } else {
      AtMiss(p, b);
      if j :| 0 <= j < |q| && q[j].start <= b < q[j].stop {
        AtHit(q, j, b);
        assert (p + q)[|p| + j] == q[j];
        AtHit(p + q, |p| + j, b);
      } else {
        AtMiss(q, b);
        AtMiss(p + q, b);
      }
    }
  }

  lemma SortedParts<V>(p: seq<Extent<V>>, q: seq<Extent<V>>)
    requires Sorted(p + q)
    ensures Sorted(p) && Sorted(q)
    ensures forall i, j :: 0 <= i < |p| && 0 <= j < |q| ==> p[i].stop <= q[j].start
  {
    var m := p + q;
    assert forall i :: 0 <= i < |p| ==> p[i] == m[i];
    assert forall j :: 0 <= j < |q| ==> q[j] == m[|p| + j];
    forall i, j | 0 <= i < |p| && 0 <= j < |q| ensures p[i].stop <= q[j].start {
      assert Precedes(m, i, |p| + j);
    }
    forall i: nat, j: nat | i < j < |q| ensures Precedes(q, i, j) {
      assert Precedes(m, |p| + i, |p| + j);
    }
    forall i: nat, j: nat | i < j < |p| ensures Precedes(p, i, j) {
      assert Precedes(m, i, j);
    }
    forall j | 0 <= j < |q| ensures q[j].start < q[j].stop {
      assert m[|p| + j].start < m[|p| + j].stop;
    }
  }

  lemma SortedConcat<V>(p: seq<Extent<V>>, q: seq<Extent<V>>, at: nat)
    requires Sorted(p) && Sorted(q)
    requires forall x :: x in p ==> x.stop <= at
    requires forall x :: x in q ==> at <= x.start
    ensures Sorted(p + q)
  {
    var m, n := p + q, |p|;
    forall i: nat, j: nat | i < j < |m| ensures Precedes(m, i, j) {
      if j < n {
        assert Precedes(p, i, j);
      } else if n <= i {
        assert Precedes(q, i - n, j - n);
      } else {
        assert p[i] in p && q[j - n] in q;
      }
    }
  }

  lemma SpliceAt<V>(pre: seq<Extent<V>>, mid: seq<Extent<V>>, post: seq<Extent<V>>, b: nat)
    requires Sorted(pre + mid + post)
    ensures Sorted(pre) && Sorted(mid) && Sorted(post)
    ensures At(pre + mid + post, b) ==
            if At(pre, b).Some? then At(pre, b) else if At(mid, b).Some? then At(mid, b) else At(post, b)
  {
    AtConcat(pre + mid, post, b);
    AtConcat(pre, mid, b);
  }

  /** Replacing a stretch by sorted extents that stay inside its bounds keeps a map sorted. */
  lemma SpliceSorted<V>(pre: seq<Extent<V>>, mid: seq<Extent<V>>, post: seq<Extent<V>>, lo: nat, hi: nat)
    requires Sorted(pre) && Sorted(mid) && Sorted(post) && lo <= hi
    requires forall x :: x in pre ==> x.stop <= lo
    requires Within(mid, lo, hi)
    requires forall x :: x in post ==> hi <= x.start
    ensures Sorted(pre + mid + post)
  {
    SortedConcat(pre, mid, lo);
    SortedConcat(pre + mid, post, hi);
  }

  /** The two ends of a sorted map are sorted. */
  lemma EndsSorted<V>(m: seq<Extent<V>>, k: nat)
    requires Sorted(m) && k <= |m|
    ensures Sorted(m[..k]) && Sorted(m[k..])
    ensures forall i :: 0 <= i < k ==> m[i].stop <= m[k - 1].stop
  {
    assert m == m[..k] + m[k..];
    SortedParts(m[..k], m[k..]);
    forall i | 0 <= i < k ensures m[i].stop <= m[k - 1].stop {
      assert i < k - 1 ==> Precedes(m, i, k - 1);
    }
  }

  /** Dropping an extent keeps a map sorted. */
  lemma ErasedSorted<V>(m: seq<Extent<V>>, i: nat)
    requires Sorted(m) && i < |m|
    ensures Sorted(m[..i] + m[i + 1..])
  {
    Around(m, i);
    SortedConcat(m[..i], m[i + 1..], m[i].start);
  }

  /** Changing what an extent carries keeps a map sorted. */
  lemma ReplacedSorted<V>(m: seq<Extent<V>>, i: nat, x: Extent<V>)
    requires Sorted(m) && i < |m| && x.start == m[i].start && x.stop == m[i].stop
    ensures Sorted(m[i := x])
  {
    var r := m[i := x];
    forall j: nat, k: nat | j < k < |r| ensures Precedes(r, j, k) {
      assert Precedes(m, j, k);
    }
  }

  /** A sorted map, cut around its extent `i`. */
  lemma Around<V>(m: seq<Extent<V>>, i: nat)
    requires Sorted(m) && i < |m|
    ensures m == m[..i] + [m[i]] + m[i + 1..]
    ensures Sorted(m[..i]) && Sorted(m[i + 1..]) && Sorted([m[i]])
    ensures forall x :: x in m[..i] ==> x.stop <= m[i].start
    ensures forall x :: x in m[i + 1..] ==> m[i].stop <= x.start
  {
    var pre, post := m[..i], m[i + 1..];
    assert m == pre + [m[i]] + post;
    SortedParts(pre + [m[i]], post);
    SortedParts(pre, [m[i]]);
    assert (pre + [m[i]])[i] == m[i] && [m[i]][0] == m[i];
    forall x | x in pre ensures x.stop <= m[i].start {
      var k :| 0 <= k < |pre| && pre[k] == x;
      assert pre[k].stop <= [m[i]][0].start;
    }
    forall x | x in post ensures m[i].stop <= x.start {
      var k :| 0 <= k < |post| && post[k] == x;
      assert (pre + [m[i]])[i].stop <= post[k].start;
    }
  }

  lemma OnlyAt<V>(x: Extent<V>, b: nat)
    requires x.start < x.stop
    ensures At([x], b) == if x.start <= b < x.stop then Some(x) else None
  {
  }

  /** Number of bytes covered by the extents. */
  function Total<V>(m: seq<Extent<V>>): (n: int)
  {
    if m == [] then 0 else Total(m[..|m| - 1]) + (m[|m| - 1].stop - m[|m| - 1].start)
  }

  lemma {:induction false} TotalConcat<V>(p: seq<Extent<V>>, q: seq<Extent<V>>)
    ensures Total(p + q) == Total(p) + Total(q)
  {
    if q == [] {
      assert p + q == p;
    } else {
      assert (p + q)[..|p + q| - 1] == p + q[..|q| - 1];
      TotalConcat(p, q[..|q| - 1]);
    }
  }

  /** Disjoint extents inside lo..hi cover at most hi - lo bytes, and cover exactly that many
      only when they leave no byte out. */
  lemma {:induction false} TotalBound<V>(m: seq<Extent<V>>, lo: nat, hi: nat)
    requires Sorted(m) && Within(m, lo, hi) && lo <= hi
    ensures 0 <= Total(m) <= hi - lo
    ensures Total(m) == hi - lo ==> forall b :: lo <= b < hi ==> At(m, b).Some?
  {
    if m != [] {
      var last := m[|m| - 1];
      var rest := m[..|m| - 1];
      assert m == rest + [last];
      SortedParts(rest, [last]);
      TotalBound(rest, lo, last.start);
      forall b | lo <= b < hi && Total(m) == hi - lo ensures At(m, b).Some? {
        AtConcat(rest, [last], b);
        if last.start <= b {
          AtHit([last], 0, b);
        }
      }
    }
  }

  // ----- extents laid end to end

  /** The extents follow one another without gap from lo to hi. */
  ghost predicate Tiles<V>(m: seq<Extent<V>>, lo: nat, hi: nat)
    decreases m
  {
    if m == [] then lo == hi
    else m[0].start == lo && lo < m[0].stop && Tiles(m[1..], m[0].stop, hi)
  }

  lemma {:induction false} TilesConcat<V>(p: seq<Extent<V>>, q: seq<Extent<V>>, lo: nat, mid: nat, hi: nat)
    requires Tiles(p, lo, mid) && Tiles(q, mid, hi)
    ensures Tiles(p + q, lo, hi)
    decreases p
  {
    if p == [] {
      assert p + q == q;
    } else {
      assert (p + q)[1..] == p[1..] + q;
      TilesConcat(p[1..], q, p[0].stop, mid, hi);
    }
  }

  lemma TilesOne<V>(x: Extent<V>)
    requires x.start < x.stop
    ensures Tiles([x], x.start, x.stop)
  {
    assert [x][1..] == [];
  }

  lemma {:induction false} TilesSorted<V>(m: seq<Extent<V>>, lo: nat, hi: nat)
    requires Tiles(m, lo, hi)
    ensures lo <= hi && Sorted(m) && Within(m, lo, hi) && Total(m) == hi - lo
    ensures m != [] ==> m[|m| - 1].stop == hi
    decreases m
  {
    if m != [] {
      var rest := m[1..];
      TilesSorted(rest, m[0].stop, hi);
      assert m == [m[0]] + rest;
      SortedConcat([m[0]], rest, m[0].stop);
      TotalConcat([m[0]], rest);
      assert [m[0]][..0] == [];
    }
  }

  /** Every byte of a tiled range lies in some extent. */
  lemma TilesCover<V>(m: seq<Extent<V>>, lo: nat, hi: nat, b: nat)
    requires Tiles(m, lo, hi) && lo <= b < hi
    ensures At(m, b).Some?
  {
    TilesSorted(m, lo, hi);
    TotalBound(m, lo, hi);
  }

  // ----- covering more bytes

  /** How many of the bytes before `n` the map covers. */
  function Count<V>(m: seq<Extent<V>>, n: nat): nat
  {
    if n == 0 then 0 else Count(m, n - 1) + if At(m, n - 1).Some? then 1 else 0
  }

  lemma {:induction false} CountSame<V>(p: seq<Extent<V>>, q: seq<Extent<V>>, n: nat)
    requires forall b: nat :: b < n && At(p, b).Some? ==> At(q, b).Some?
    ensures Count(p, n) <= Count(q, n)
  {
    if n > 0 {
      CountSame(p, q, n - 1);
    }
  }

  lemma {:induction false} CountFull<V>(m: seq<Extent<V>>, lo: nat, hi: nat)
    requires lo <= hi && forall b: nat :: lo <= b < hi ==> At(m, b).Some?
    ensures Count(m, hi) == Count(m, lo) + (hi - lo)
    decreases hi
  {
    if lo < hi {
      CountFull(m, lo, hi - 1);
    }
  }

  lemma {:induction false} CountNone<V>(m: seq<Extent<V>>, lo: nat, hi: nat)
    requires lo <= hi && forall b: nat :: lo <= b < hi ==> At(m, b) == None
    ensures Count(m, hi) == Count(m, lo)
    decreases hi
  {
    if lo < hi {
      CountNone(m, lo, hi - 1);
    }
  }

  /** The total length of disjoint extents is the number of bytes they cover. */
  lemma {:induction false} TotalIsCount<V>(m: seq<Extent<V>>, n: nat)
    requires Sorted(m) && Within(m, 0, n)
    ensures Total(m) == Count(m, n)
    decreases |m|
  {
    if m == [] {
      forall b: nat | b < n ensures At(m, b) == None {
        AtMiss(m, b);
      }
      CountNone(m, 0, n);
    } else {
      var last, rest := m[|m| - 1], m[..|m| - 1];
      assert m == rest + [last];
      SortedParts(rest, [last]);
      TotalIsCount(rest, last.start);
      LastBytes(rest, last, n);
      CountSame(rest, m, last.start);
      CountSame(m, rest, last.start);
      CountFull(m, last.start, last.stop);
      CountNone(m, last.stop, n);
    }
  }

  lemma LastBytes<V>(rest: seq<Extent<V>>, last: Extent<V>, n: nat)
    requires Sorted(rest + [last]) && last.stop <= n
    ensures var m := rest + [last];
            && (forall b: nat :: b < last.start ==> (At(m, b).Some? <==> At(rest, b).Some?))
            && (forall b: nat :: last.start <= b < last.stop ==> At(m, b).Some?)
            && (forall b: nat :: last.stop <= b < n ==> At(m, b) == None)
  {
    var m := rest + [last];
    SortedParts(rest, [last]);
    assert [last][0] == last && last.start < last.stop;
    assert forall i :: 0 <= i < |rest| ==> rest[i].stop <= [last][0].start;
    forall b: nat ensures At(m, b) == if last.start <= b < last.stop then Some(last) else At(rest, b) {
      AtConcat(rest, [last], b);
      OnlyAt(last, b);
      if last.start <= b {
        AtMiss(rest, b);
      }
    }
    forall b: nat | last.stop <= b ensures At(rest, b) == None {
      AtMiss(rest, b);
    }
  }

  /** A map that covers every byte another covers is at least as long in total. */
  lemma TotalGrows<V>(p: seq<Extent<V>>, q: seq<Extent<V>>, n: nat)
    requires Sorted(p) && Within(p, 0, n) && Sorted(q) && Within(q, 0, n)
    requires forall b: nat :: b < n && At(p, b).Some? ==> At(q, b).Some?
    ensures Total(p) <= Total(q)
  {
    TotalIsCount(p, n);
    TotalIsCount(q, n);
    CountSame(p, q, n);
  }
}
