/** The alignment phase of `DSEMapPointer::mergeStores` (llpe/main/DSE.cpp:507-572): split and pad
    the to-map until it has a break wherever the from-map has one and covers all of it. */
module DeadStoreAlign {
  import opened Extents
  import opened DeadStores

  /** `t` has a break at `x`: no extent runs across it. */
  ghost predicate Boundary(t: DseMap, x: nat)
  {
    forall e :: e in t ==> !(e.start < x < e.stop)
  }

  ghost predicate CoversAll(t: DseMap, lo: nat, hi: nat)
  {
    forall b: nat :: lo <= b < hi ==> At(t, b).Some?
  }

  /** `u` says the same as `t` about every byte and counts the same for every store; it may only
      have more extents. */
  ghost predicate Refines(u: DseMap, t: DseMap)
  {
    && Sorted(u)
    && (forall s :: Refs(u, s) == Refs(t, s))
    && (forall b: nat :: Writers(u, b) == Writers(t, b))
    && (forall b: nat :: At(t, b).Some? ==> At(u, b).Some?)
  }

  /** Breaks of `t` outside lo..hi are breaks of `u`. */
  ghost predicate KeepsBreaks(u: DseMap, t: DseMap, lo: nat, hi: nat)
  {
    forall y: nat :: (y <= lo || hi <= y) && Boundary(t, y) ==> Boundary(u, y)
  }

  function SplitAt(t: DseMap, i: nat, x: nat): DseMap
    requires i < |t|
  {
    t[..i] + [t[i].(stop := x), t[i].(start := x)] + t[i + 1..]
  }

  lemma SplitSorted(t: DseMap, i: nat, x: nat)
    requires Sorted(t) && i < |t| && t[i].start < x < t[i].stop
    ensures Sorted(SplitAt(t, i, x))
  {
    Around(t, i);
    SpliceSorted(t[..i], [t[i].(stop := x), t[i].(start := x)], t[i + 1..], t[i].start, t[i].stop);
  }

  lemma SplitRefs(t: DseMap, i: nat, x: nat, s: StoreId)
    requires i < |t| && t[i].start < x < t[i].stop
    ensures Refs(SplitAt(t, i, x), s) == Refs(t, s)
  {
    var l, r := t[i].(stop := x), t[i].(start := x);
    assert t == t[..i] + [t[i]] + t[i + 1..];
    assert [l, r] == [l] + [r];
    RefsConcat(t[..i] + [t[i]], t[i + 1..], s);
    RefsConcat(t[..i], [t[i]], s);
    RefsConcat(t[..i] + [l, r], t[i + 1..], s);
    RefsConcat(t[..i], [l, r], s);
    RefsConcat([l], [r], s);
    RefsOne(l, s);
    RefsOne(r, s);
    RefsOne(t[i], s);
    OwedSplit(t[i].val, s, Length(l), Length(r));
  }

  lemma SplitWriters(t: DseMap, i: nat, x: nat, b: nat)
    requires Sorted(t) && i < |t| && t[i].start < x < t[i].stop
    ensures Writers(SplitAt(t, i, x), b) == Writers(t, b)
    ensures At(t, b).Some? ==> At(SplitAt(t, i, x), b).Some?
  {
    var l, r := t[i].(stop := x), t[i].(start := x);
    Around(t, i);
    SplitSorted(t, i, x);
    SpliceAt(t[..i], [t[i]], t[i + 1..], b);
    SpliceAt(t[..i], [l, r], t[i + 1..], b);
    OnlyAt(t[i], b);
    assert [l, r] == [l] + [r];
    AtConcat([l], [r], b);
    OnlyAt(l, b);
    OnlyAt(r, b);
  }

  lemma SplitRefines(t: DseMap, i: nat, x: nat)
    requires Sorted(t) && i < |t| && t[i].start < x < t[i].stop
    ensures Refines(SplitAt(t, i, x), t)
  {
    SplitSorted(t, i, x);
    forall s ensures Refs(SplitAt(t, i, x), s) == Refs(t, s) {
      SplitRefs(t, i, x, s);
    }
    forall b: nat
      ensures Writers(SplitAt(t, i, x), b) == Writers(t, b)
      ensures At(t, b).Some? ==> At(SplitAt(t, i, x), b).Some?
    {
      SplitWriters(t, i, x, b);
    }
  }

  lemma SplitBreaks(t: DseMap, i: nat, x: nat)
    requires Sorted(t) && i < |t| && t[i].start < x < t[i].stop
    ensures Boundary(SplitAt(t, i, x), x)
    ensures forall y: nat :: Boundary(t, y) ==> Boundary(SplitAt(t, i, x), y)
  {
    var u := SplitAt(t, i, x);
    Around(t, i);
    forall e | e in u ensures !(e.start < x < e.stop) {
    }
    forall y: nat | Boundary(t, y) ensures Boundary(u, y) {
      forall e | e in u ensures !(e.start < y < e.stop) {
        assert t[i] in t;
        assert e in t[..i] || e in t[i + 1..] || e == t[i].(stop := x) || e == t[i].(start := x);
      }
    }
  }

  /** Filling free space lo..hi with an empty entry. */
  lemma GapRefines(t: DseMap, lo: nat, hi: nat)
    requires Sorted(t) && lo < hi && Free(t, lo, hi)
    ensures Refines(Inserted(t, Extent(lo, hi, [])), t)
    ensures CoversAll(Inserted(t, Extent(lo, hi, [])), lo, hi)
  {
    var g := Extent(lo, hi, []);
    var u := Inserted(t, g);
    InsertedSorted(t, g);
    forall s ensures Refs(u, s) == Refs(t, s) {
      InsertedRefs(t, g, s);
    }
    var f := Find(t, lo);
    forall b: nat
      ensures Writers(u, b) == Writers(t, b)
      ensures At(t, b).Some? ==> At(u, b).Some?
      ensures lo <= b < hi ==> At(u, b).Some?
    {
      FreeSides(t, lo, hi);
      InsertedWriters(t, g, b);
      assert t == t[..f] + t[f..];
      AtConcat(t[..f], t[f..], b);
      SpliceAt(t[..f], [g], t[f..], b);
      OnlyAt(g, b);
    }
  }

  lemma GapBreaks(t: DseMap, lo: nat, hi: nat)
    requires lo < hi
    ensures KeepsBreaks(Inserted(t, Extent(lo, hi, [])), t, lo, hi)
  {
    var u := Inserted(t, Extent(lo, hi, []));
    forall y: nat | (y <= lo || hi <= y) && Boundary(t, y) ensures Boundary(u, y) {
      forall e | e in u ensures !(e.start < y < e.stop) {
        assert e in t || e == Extent(lo, hi, []);
      }
    }
  }

  /** The step at the start of a from-extent: fill a gap there, or break the to-extent that runs
      across it. Afterwards extent `i` starts exactly at `f.start`. */
  method AlignStart(t: DseMap, f: Extent<Entry>) returns (u: DseMap, i: nat)
    requires Sorted(t) && f.start < f.stop
    ensures Refines(u, t) && KeepsBreaks(u, t, f.start, f.stop)
    ensures i < |u| && u[i].start == f.start
  {
    i := Find(t, f.start);
    if i == |t| || t[i].start > f.start {
      var stop := if i == |t| || f.stop < t[i].start then f.stop else t[i].start;
      FreeGap(t, i, f.start, stop);
      GapRefines(t, f.start, stop);
      GapBreaks(t, f.start, stop);
      u := Inserted(t, Extent(f.start, stop, []));
    } else if t[i].start < f.start {
      SplitRefines(t, i, f.start);
      SplitBreaks(t, i, f.start);
      u := SplitAt(t, i, f.start);
      i := i + 1;
    } else {
      u := t;
    }
  }

  /** Bytes lo..hi below the extent found at `lo` are free. */
  lemma FreeGap(t: DseMap, i: nat, lo: nat, hi: nat)
    requires Sorted(t) && i == Find(t, lo) && (i < |t| ==> hi <= t[i].start)
    ensures Free(t, lo, hi)
  {
    FreeBefore(t, lo, hi);
    FreeTail(t, i, lo, hi);
  }

  /** One turn of the loop over the to-extents that end inside the from-extent `f`. */
  method AlignStep(t: DseMap, i: nat, f: Extent<Entry>) returns (u: DseMap, j: nat, upTo: nat)
    requires Sorted(t) && i < |t| && t[i].stop < f.stop && f.start <= t[i].start
    ensures Refines(u, t) && KeepsBreaks(u, t, f.start, f.stop)
    ensures CoversAll(u, t[i].start, upTo)
    ensures t[i].stop <= upTo <= f.stop
    ensures upTo < f.stop ==> j < |u| && u[j].start == upTo
    ensures upTo == f.stop ==> Boundary(u, f.stop) && (j < |u| ==> f.stop <= u[j].start)
  {
    var e, next := t[i], i + 1;
    forall b: nat | e.start <= b < e.stop ensures At(t, b).Some? {
      AtHit(t, i, b);
    }
    if next == |t| || t[next].start != e.stop {
      upTo := if next == |t| || f.stop < t[next].start then f.stop else t[next].start;
      EndsSorted(t, next);
      assert next < |t| ==> Precedes(t, i, next);
      assert Find(t, e.stop) == next;
      FreeGap(t, next, e.stop, upTo);
      GapRefines(t, e.stop, upTo);
      GapBreaks(t, e.stop, upTo);
      u := Inserted(t, Extent(e.stop, upTo, []));
      j := next + 1;
      if upTo == f.stop {
        SplitPoint(u, j, f.stop);
      }
    } else {
      u, j, upTo := t, next, e.stop;
    }
  }

  lemma SplitPoint(u: DseMap, j: nat, x: nat)
    requires Sorted(u) && j <= |u|
    requires j > 0 ==> u[j - 1].stop <= x
    requires j < |u| ==> x <= u[j].start
    ensures Boundary(u, x)
  {
    forall k | 0 <= k < |u| ensures !(u[k].start < x < u[k].stop) {
      if k < j - 1 {
        assert Precedes(u, k, j - 1);
      } else if j < k {
        assert Precedes(u, j, k);
      }
    }
  }

  /** The body of the alignment loop, for one from-extent. */
  method AlignOne(t: DseMap, f: Extent<Entry>) returns (u: DseMap)
    requires Sorted(t) && f.start < f.stop
    ensures Refines(u, t) && KeepsBreaks(u, t, f.start, f.stop)
    ensures CoversAll(u, f.start, f.stop) && Boundary(u, f.start) && Boundary(u, f.stop)
  {
    var i: nat;
    u, i := AlignStart(t, f);
    SplitPointAt(u, i);
    var upTo := f.start;
    while i < |u| && u[i].stop < f.stop
      invariant Refines(u, t) && KeepsBreaks(u, t, f.start, f.stop) && Boundary(u, f.start)
      invariant f.start <= upTo <= f.stop && CoversAll(u, f.start, upTo)
      invariant upTo < f.stop ==> i < |u| && u[i].start == upTo
      invariant upTo == f.stop ==> Boundary(u, f.stop) && (i < |u| ==> f.stop <= u[i].start)
      decreases f.stop - upTo
    {
      u, i, upTo := AlignStep(u, i, f);
    }
    if upTo < f.stop {
      forall b: nat | upTo <= b < f.stop ensures At(u, b).Some? {
        AtHit(u, i, b);
      }
      if u[i].stop > f.stop {
        SplitRefines(u, i, f.stop);
        SplitBreaks(u, i, f.stop);
        u := SplitAt(u, i, f.stop);
      } else {
        AfterStop(u, i);
      }
    }
  }

  lemma SplitPointAt(u: DseMap, i: nat)
    requires Sorted(u) && i < |u|
    ensures Boundary(u, u[i].start)
  {
    assert i > 0 ==> Precedes(u, i - 1, i);
    SplitPoint(u, i, u[i].start);
  }

  lemma AfterStop(u: DseMap, i: nat)
    requires Sorted(u) && i < |u|
    ensures Boundary(u, u[i].stop)
  {
    assert i + 1 < |u| ==> Precedes(u, i, i + 1);
    SplitPoint(u, i + 1, u[i].stop);
  }

  /** The extents before one in a sorted map end before it starts. */
  lemma EarlierKept(m: DseMap, k: nat)
    requires Sorted(m) && k < |m|
    ensures m[k].start < m[k].stop && forall n :: 0 <= n < k ==> m[n].start < m[n].stop <= m[k].start
  {
    forall n | 0 <= n < k ensures m[n].start < m[n].stop <= m[k].start {
      assert Precedes(m, n, k);
    }
  }

  /** The whole alignment loop. The to-map comes out covering every from-extent with a break at
      both its ends, and unchanged in what it says about any byte. */
  method Align(from: DseMap, to: DseMap) returns (u: DseMap)
    requires Sorted(from) && Sorted(to)
    ensures Refines(u, to)
    ensures forall f :: f in from ==> CoversAll(u, f.start, f.stop) && Boundary(u, f.start) && Boundary(u, f.stop)
  {
    u := to;
    var k := 0;
    while k < |from|
      invariant 0 <= k <= |from| && Refines(u, to)
      invariant forall n :: 0 <= n < k ==>
                  CoversAll(u, from[n].start, from[n].stop) && Boundary(u, from[n].start) && Boundary(u, from[n].stop)
    {
      EarlierKept(from, k);
      u := AlignOne(u, from[k]);
      k := k + 1;
    }
  }
}
