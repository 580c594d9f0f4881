/** Dead-store tracking (llpe/main/DSE.cpp): stores counted by the bytes that still name them,
    and killed when the count falls to zero before anything needed them. */
module DeadStores {
  import opened Options
  import opened Extents

  type StoreId = nat

  /** `TrackedStore`: the bytes, over every map, that still name this store. */
  datatype Tracked = Tracked(outstanding: nat, needed: bool)

  /** `DSEMapEntry` and `DSEMapTy`. */
  type Entry = seq<StoreId>
  type DseMap = seq<Extent<Entry>>

  // ----- counting byte references

  function Length(x: Extent<Entry>): nat
  {
    if x.start <= x.stop then x.stop - x.start else 0
  }

  /** `n` for each occurrence of `s` in an entry. */
  function Owed(e: Entry, s: StoreId, n: nat): nat
  {
    if e == [] then 0 else (if e[0] == s then n else 0) + Owed(e[1..], s, n)
  }

  /** Bytes of map `m` that name `s`: the sum over its extents of extent length. */
  function Refs(m: DseMap, s: StoreId): nat
  {
    if m == [] then 0 else Refs(m[..|m| - 1], s) + Owed(m[|m| - 1].val, s, Length(m[|m| - 1]))
  }

  ghost predicate AllSorted(maps: seq<DseMap>)
  {
    forall i {:trigger Sorted(maps[i])} :: 0 <= i < |maps| ==> Sorted(maps[i])
  }

  /** Bytes over all maps that name `s`. */
  function AllRefs(maps: seq<DseMap>, s: StoreId): nat
  {
    if maps == [] then 0 else Refs(maps[|maps| - 1], s) + AllRefs(maps[..|maps| - 1], s)
  }

  lemma {:induction false} OwedSplit(e: Entry, s: StoreId, a: nat, b: nat)
    ensures Owed(e, s, a + b) == Owed(e, s, a) + Owed(e, s, b)
  {
    if e != [] {
      OwedSplit(e[1..], s, a, b);
    }
  }

  lemma OwedPositive(e: Entry, s: StoreId, n: nat)
    ensures n > 0 ==> (Owed(e, s, n) > 0 <==> s in e)
    ensures s in e ==> Owed(e, s, n) >= n
    ensures s !in e ==> Owed(e, s, n) == 0
  {
  }

  lemma {:induction false} RefsConcat(p: DseMap, q: DseMap, s: StoreId)
    ensures Refs(p + q, s) == Refs(p, s) + Refs(q, s)
  {
    if q == [] {
      assert p + q == p;
    } else {
      assert (p + q)[..|p + q| - 1] == p + q[..|q| - 1];
      RefsConcat(p, q[..|q| - 1], s);
    }
  }

  lemma RefsOne(x: Extent<Entry>, s: StoreId)
    ensures Refs([x], s) == Owed(x.val, s, Length(x))
  {
    assert [x][..0] == [];
  }

  /** A map names `s` on some byte exactly when it holds at least one byte reference to it. */
  lemma {:induction false} RefsNamed(m: DseMap, s: StoreId)
    requires Sorted(m)
    ensures Refs(m, s) > 0 <==> exists i :: 0 <= i < |m| && s in m[i].val
  {
    if m != [] {
      var m', last := m[..|m| - 1], m[|m| - 1];
      assert m == m' + [last];
      SortedParts(m', [last]);
      RefsNamed(m', s);
      OwedPositive(last.val, s, Length(last));
      if i :| 0 <= i < |m| && s in m[i].val {
        assert i < |m'| ==> m'[i] == m[i];
      }
      if i :| 0 <= i < |m'| && s in m'[i].val {
        assert m[i] == m'[i];
      }
    }
  }

  lemma {:induction false} AllRefsUpdate(maps: seq<DseMap>, p: nat, m: DseMap, s: StoreId)
    requires p < |maps|
    ensures AllRefs(maps[p := m], s) + Refs(maps[p], s) == AllRefs(maps, s) + Refs(m, s)
  {
    var n := |maps| - 1;
    if p == n {
      assert maps[p := m][..n] == maps[..n];
    } else {
      assert maps[p := m][..n] == maps[..n][p := m];
      AllRefsUpdate(maps[..n], p, m, s);
    }
  }

  lemma AllRefsAppend(maps: seq<DseMap>, m: DseMap, s: StoreId)
    ensures AllRefs(maps + [m], s) == AllRefs(maps, s) + Refs(m, s)
  {
    assert (maps + [m])[..|maps|] == maps;
  }

  lemma {:induction false} AllRefsNamed(maps: seq<DseMap>, s: StoreId)
    ensures forall p :: 0 <= p < |maps| ==> Refs(maps[p], s) <= AllRefs(maps, s)
    ensures AllRefs(maps, s) > 0 ==> exists p :: 0 <= p < |maps| && Refs(maps[p], s) > 0
  {
    if maps != [] {
      var maps' := maps[..|maps| - 1];
      AllRefsNamed(maps', s);
      forall p | 0 <= p < |maps| ensures Refs(maps[p], s) <= AllRefs(maps, s) {
        assert p < |maps'| ==> maps'[p] == maps[p];
      }
      if AllRefs(maps, s) > 0 && Refs(maps[|maps| - 1], s) == 0 {
        var p :| 0 <= p < |maps'| && Refs(maps'[p], s) > 0;
        assert maps[p] == maps'[p];
      }
    }
  }

  // ----- what a map says about one byte

  /** The stores that may have written byte `b` last; empty where the map has no extent. */
  function Writers(m: DseMap, b: nat): Entry
  {
    var x := At(m, b);
    if x.Some? then x.value.val else []
  }

  /** `M` with the stores in `drop` removed from every entry, and emptied entries erased. */
  function Without(e: Entry, drop: set<StoreId>): (r: Entry)
    ensures forall s :: s in r <==> s in e && s !in drop
  {
    if e == [] then [] else (if e[0] in drop then [] else [e[0]]) + Without(e[1..], drop)
  }

  function Collected(m: DseMap, drop: set<StoreId>): (r: DseMap)
  {
    if m == [] then []
    else
      var rest, last := Collected(m[..|m| - 1], drop), m[|m| - 1];
      var e := Without(last.val, drop);
      if e == [] then rest else rest + [last.(val := e)]
  }

  lemma {:induction false} CollectedSorted(m: DseMap, drop: set<StoreId>, hi: nat)
    requires Sorted(m) && Within(m, 0, hi)
    ensures Sorted(Collected(m, drop)) && Within(Collected(m, drop), 0, hi)
  {
    if m != [] {
      var m', last := m[..|m| - 1], m[|m| - 1];
      assert m == m' + [last];
      SortedParts(m', [last]);
      CollectedSorted(m', drop, last.start);
      if Without(last.val, drop) != [] {
        SortedConcat(Collected(m', drop), [last.(val := Without(last.val, drop))], last.start);
      }
    }
  }

  lemma {:induction false} CollectedWriters(m: DseMap, drop: set<StoreId>, b: nat)
    requires Sorted(m)
    ensures Sorted(Collected(m, drop))
    ensures Writers(Collected(m, drop), b) == Without(Writers(m, b), drop)
  {
    if m != [] {
      var m', last := m[..|m| - 1], m[|m| - 1];
      assert m == m' + [last];
      SortedParts(m', [last]);
      CollectedSorted(m', drop, last.start);
      CollectedWriters(m', drop, b);
      CollectedLast(m', last, Collected(m', drop), drop, b);
    }
  }

  lemma CollectedLast(m: DseMap, last: Extent<Entry>, c: DseMap, drop: set<StoreId>, b: nat)
    requires Sorted(m + [last]) && Sorted(c) && Within(c, 0, last.start) && Writers(c, b) == Without(Writers(m, b), drop)
    ensures var x := last.(val := Without(last.val, drop));
            && Sorted(c + [x]) && Writers(c + [x], b) == Without(Writers(m + [last], b), drop)
            && (x.val == [] ==> Writers(c, b) == Writers(c + [x], b))
  {
    forall y | y in c ensures y.stop <= last.start {
      var i :| 0 <= i < |c| && c[i] == y;
    }
    var x := last.(val := Without(last.val, drop));
    SortedParts(m, [last]);
    assert [last][0] == last && last.start < last.stop;
    SortedConcat(c, [x], last.start);
    AtConcat(m, [last], b);
    AtConcat(c, [x], b);
    OnlyAt(last, b);
    OnlyAt(x, b);
  }

  // ----- edits of a map

  ghost predicate Overlaps(x: Extent<Entry>, lo: nat, hi: nat)
  {
    x.start < hi && lo < x.stop
  }

  /** The members of an entry that lie in `keep`; the complement of `Without`. */
  function Only(e: Entry, keep: set<StoreId>): (r: Entry)
    ensures forall s :: s in r <==> s in e && s in keep
  {
    if e == [] then [] else (if e[0] in keep then [e[0]] else []) + Only(e[1..], keep)
  }

  lemma {:induction false} OwedParts(e: Entry, keep: set<StoreId>, s: StoreId, n: nat)
    ensures Owed(e, s, n) == Owed(Without(e, keep), s, n) + Owed(Only(e, keep), s, n)
  {
    if e != [] {
      OwedParts(e[1..], keep, s, n);
      var w, o := Without(e[1..], keep), Only(e[1..], keep);
      if e[0] in keep {
        assert Without(e, keep) == w && ([e[0]] + o)[1..] == o;
      } else {
        assert Only(e, keep) == o && ([e[0]] + w)[1..] == w;
      }
    }
  }

  function KeepUnneeded(x: Extent<Entry>, drop: set<StoreId>): Extent<Entry>
  {
    x.(val := Without(x.val, drop))
  }

  lemma WithoutSame(e: Entry, a: set<StoreId>, b: set<StoreId>)
    requires forall s :: s in e ==> (s in a <==> s in b)
    ensures Without(e, a) == Without(e, b)
  {
  }

  lemma WithoutNothing(e: Entry, drop: set<StoreId>)
    requires forall s :: s in e ==> s !in drop
    ensures Without(e, drop) == e
  {
  }

  lemma {:induction false} OwedAppend(e: Entry, t: StoreId, s: StoreId, n: nat)
    ensures Owed(e + [t], s, n) == Owed(e, s, n) + if s == t then n else 0
  {
    if e != [] {
      assert (e + [t])[1..] == e[1..] + [t];
      OwedAppend(e[1..], t, s, n);
    } else {
      assert ([t])[1..] == [] && e + [t] == [t];
    }
  }

  /** What an entry loses by being collected. */
  lemma KeepRefs(m: DseMap, i: nat, x: Extent<Entry>, drop: set<StoreId>, s: StoreId)
    requires i < |m| && m[i] == x
    ensures Refs(m, s) == Refs(m[i := KeepUnneeded(x, drop)], s) + Owed(Only(x.val, drop), s, Length(x))
  {
    RefsReplace(m, i, KeepUnneeded(x, drop), s);
    OwedParts(x.val, drop, s, Length(x));
  }

  lemma RefsReplace(m: DseMap, i: nat, y: Extent<Entry>, s: StoreId)
    requires i < |m|
    ensures Refs(m[i := y], s) + Owed(m[i].val, s, Length(m[i])) == Refs(m, s) + Owed(y.val, s, Length(y))
  {
    RefsErase(m, i, s);
    RefsErase(m[i := y], i, s);
    assert m[i := y][..i] == m[..i] && m[i := y][i + 1..] == m[i + 1..];
  }

  lemma CollectedPrefixSorted(m: DseMap, k: nat, drop: set<StoreId>)
    requires Sorted(m) && k <= |m|
    ensures Sorted(Collected(m[..k], drop))
  {
    EndsSorted(m, k);
    CollectedSorted(m[..k], drop, if k == 0 then 0 else m[k - 1].stop);
  }

  lemma TwoMaps<T>(a: seq<T>, p: nat, x: T, y: T, x': T, y': T)
    requires p < |a|
    ensures (a[p := x] + [y])[p := x'] == a[p := x'] + [y]
    ensures (a[p := x'] + [y])[|a| := y'] == a[p := x'] + [y']
  {
  }

  /** Collecting one more extent: keep it with what is left of its entry, or erase it. */
  lemma CollectStep(m: DseMap, k: nat, drop: set<StoreId>)
    requires k < |m|
    ensures var c, c' := Collected(m[..k], drop), Collected(m[..k + 1], drop);
            var x := KeepUnneeded(m[k], drop);
            var t := c + m[k..];
            && t[|c|] == m[k]
            && (x.val != [] ==> c' == c + [x] && t[|c| := x] == c' + m[k + 1..])
            && (x.val == [] ==> c' == c && t[|c| := x][..|c|] + t[|c| := x][|c| + 1..] == c' + m[k + 1..])
  {
    assert m[..k + 1][..k] == m[..k] && m[..k + 1][k] == m[k];
  }

  lemma FreeBefore(m: DseMap, lo: nat, hi: nat)
    ensures Free(m[..Find(m, lo)], lo, hi)
  {
  }

  function Carved(x: Extent<Entry>, lo: nat, hi: nat): DseMap
  {
    (if x.start < lo then [Extent(x.start, lo, x.val)] else [])
    + (if hi < x.stop then [Extent(hi, x.stop, x.val)] else [])
  }

  lemma CarvedSorted(m: DseMap, i: nat, lo: nat, hi: nat)
    requires Sorted(m) && i < |m| && m[i].start <= lo < hi <= m[i].stop
    ensures Sorted(m[..i] + Carved(m[i], lo, hi) + m[i + 1..])
  {
    Around(m, i);
    SpliceSorted(m[..i], Carved(m[i], lo, hi), m[i + 1..], m[i].start, m[i].stop);
  }

  lemma CarvedRefs(m: DseMap, i: nat, lo: nat, hi: nat, s: StoreId)
    requires i < |m| && m[i].start <= lo < hi <= m[i].stop
    ensures Refs(m, s) == Refs(m[..i] + Carved(m[i], lo, hi) + m[i + 1..], s) + Owed(m[i].val, s, hi - lo)
  {
    var x, c := m[i], Carved(m[i], lo, hi);
    assert m == m[..i] + [x] + m[i + 1..];
    RefsConcat(m[..i] + [x], m[i + 1..], s);
    RefsConcat(m[..i], [x], s);
    RefsConcat(m[..i] + c, m[i + 1..], s);
    RefsConcat(m[..i], c, s);
    RefsOne(x, s);
    CarvedOwed(x, lo, hi, s);
  }

  lemma CarvedOwed(x: Extent<Entry>, lo: nat, hi: nat, s: StoreId)
    requires x.start <= lo < hi <= x.stop
    ensures Owed(x.val, s, Length(x)) == Refs(Carved(x, lo, hi), s) + Owed(x.val, s, hi - lo)
  {
    var l := if x.start < lo then [Extent(x.start, lo, x.val)] else [];
    var r := if hi < x.stop then [Extent(hi, x.stop, x.val)] else [];
    RefsConcat(l, r, s);
    OwedSplit(x.val, s, lo - x.start, hi - lo);
    OwedSplit(x.val, s, hi - x.start, x.stop - hi);
    RefsOne(Extent(x.start, lo, x.val), s);
    RefsOne(Extent(hi, x.stop, x.val), s);
    OwedSplit(x.val, s, 0, 0);
  }

  lemma CarvedWriters(m: DseMap, i: nat, lo: nat, hi: nat, b: nat)
    requires Sorted(m) && i < |m| && m[i].start <= lo < hi <= m[i].stop
    requires !(lo <= b < hi)
    ensures Writers(m[..i] + Carved(m[i], lo, hi) + m[i + 1..], b) == Writers(m, b)
  {
    Around(m, i);
    CarvedSorted(m, i, lo, hi);
    SpliceAt(m[..i], [m[i]], m[i + 1..], b);
    SpliceAt(m[..i], Carved(m[i], lo, hi), m[i + 1..], b);
    OnlyAt(m[i], b);
    CarvedAt(m[i], lo, hi, b);
  }

  lemma CarvedAt(x: Extent<Entry>, lo: nat, hi: nat, b: nat)
    requires x.start <= lo < hi <= x.stop && !(lo <= b < hi)
    ensures var r := At(Carved(x, lo, hi), b);
            if x.start <= b < x.stop then r.Some? && r.value.val == x.val else r == None
  {
    var c := Carved(x, lo, hi);
    if x.start <= b < lo {
      AtHit(c, 0, b);
    } else if hi <= b < x.stop {
      AtHit(c, |c| - 1, b);
    } else {
      AtMiss(c, b);
    }
  }

  /** No extent of the map meets bytes lo..hi. */
  ghost predicate Free(m: DseMap, lo: nat, hi: nat)
  {
    forall x :: x in m ==> x.stop <= lo || hi <= x.start
  }

  lemma CarvedFree(m: DseMap, i: nat, cutLo: nat, cutHi: nat, lo: nat, hi: nat)
    requires Sorted(m) && i < |m| && m[i].start <= cutLo < cutHi <= m[i].stop
    requires Free(m[..i], lo, hi)
    requires cutLo == if m[i].start < lo then lo else m[i].start
    requires cutHi == if m[i].stop < hi then m[i].stop else hi
    ensures var c := Carved(m[i], cutLo, cutHi);
            var m' := m[..i] + c + m[i + 1..];
            && Free(m'[..i + |c|], lo, hi)
            && (hi < m[i].stop ==> Free(m', lo, hi))
            && (i + |c| < |m'| ==> lo < m'[i + |c|].stop)
  {
    var c := Carved(m[i], cutLo, cutHi);
    var m' := m[..i] + c + m[i + 1..];
    assert m'[..i + |c|] == m[..i] + c;
    FreeConcat(m[..i], c, lo, hi);
    if i + |c| < |m'| {
      assert m'[i + |c|] == m[i + 1] && Precedes(m, i, i + 1);
    }
    if hi < m[i].stop {
      BehindFree(m, i, lo, hi);
      FreeConcat(m[..i] + c, m[i + 1..], lo, hi);
    }
  }

  lemma FreeConcat(a: DseMap, b: DseMap, lo: nat, hi: nat)
    requires Free(a, lo, hi) && Free(b, lo, hi)
    ensures Free(a + b, lo, hi)
  {
  }

  lemma BehindFree(m: DseMap, i: nat, lo: nat, hi: nat)
    requires Sorted(m) && i < |m| && hi <= m[i].stop
    ensures Free(m[i + 1..], lo, hi)
  {
    Around(m, i);
  }

  lemma FreeTail(m: DseMap, i: nat, lo: nat, hi: nat)
    requires Sorted(m) && i <= |m| && Free(m[..i], lo, hi)
    requires i < |m| ==> hi <= m[i].start
    ensures Free(m, lo, hi)
  {
    forall k | 0 <= k < |m| ensures m[k].stop <= lo || hi <= m[k].start {
      if k < i {
        assert m[k] in m[..i];
      } else if i < k {
        assert Precedes(m, i, k);
      }
    }
  }

  /** `insert` of an extent into free space. */
  function Inserted(m: DseMap, x: Extent<Entry>): DseMap
  {
    m[..Find(m, x.start)] + [x] + m[Find(m, x.start)..]
  }

  lemma FreeSides(m: DseMap, lo: nat, hi: nat)
    requires Sorted(m) && lo < hi && Free(m, lo, hi)
    ensures forall y :: y in m[..Find(m, lo)] ==> y.stop <= lo
    ensures forall y :: y in m[Find(m, lo)..] ==> hi <= y.start
  {
    var f := Find(m, lo);
    forall k | f <= k < |m| ensures hi <= m[k].start {
      assert m[k] in m;
      assert f < k ==> Precedes(m, f, k);
    }
  }

  lemma InsertedSorted(m: DseMap, x: Extent<Entry>)
    requires Sorted(m) && x.start < x.stop && Free(m, x.start, x.stop)
    ensures Sorted(Inserted(m, x))
  {
    var f := Find(m, x.start);
    FreeSides(m, x.start, x.stop);
    assert m == m[..f] + m[f..];
    SortedParts(m[..f], m[f..]);
    SpliceSorted(m[..f], [x], m[f..], x.start, x.stop);
  }

  lemma InsertedWriters(m: DseMap, x: Extent<Entry>, b: nat)
    requires Sorted(m) && x.start < x.stop && Free(m, x.start, x.stop)
    ensures Writers(Inserted(m, x), b) == if x.start <= b < x.stop then x.val else Writers(m, b)
  {
    var f := Find(m, x.start);
    InsertedSorted(m, x);
    FreeSides(m, x.start, x.stop);
    SpliceAt(m[..f], [x], m[f..], b);
    OnlyAt(x, b);
    assert m == m[..f] + m[f..];
    AtConcat(m[..f], m[f..], b);
  }

  lemma InsertedRefs(m: DseMap, x: Extent<Entry>, s: StoreId)
    ensures Refs(Inserted(m, x), s) == Refs(m, s) + Owed(x.val, s, Length(x))
  {
    var f := Find(m, x.start);
    assert m == m[..f] + m[f..];
    RefsConcat(m[..f], m[f..], s);
    RefsConcat(m[..f] + [x], m[f..], s);
    RefsConcat(m[..f], [x], s);
    RefsOne(x, s);
  }

  ghost predicate NamedBy(m: DseMap, s: StoreId)
  {
    exists x :: x in m && s in x.val
  }

  lemma NamedAppend(m: DseMap, y: Extent<Entry>)
    ensures forall s :: NamedBy(m + [y], s) <==> NamedBy(m, s) || s in y.val
  {
    forall s ensures NamedBy(m + [y], s) <==> NamedBy(m, s) || s in y.val {
      if s in y.val {
        assert y in m + [y];
      }
      if NamedBy(m, s) {
        var x :| x in m && s in x.val;
        assert x in m + [y];
      }
    }
  }

  /** Extents i..j of a sorted map are those that overlap the bytes lo..hi. */
  lemma CutIndices(m: DseMap, i: nat, j: nat, lo: nat, hi: nat, k: nat)
    requires Sorted(m) && i == Find(m, lo) && i <= j <= |m| && k < |m|
    requires forall n :: i <= n < j ==> m[n].start < hi
    requires j < |m| ==> hi <= m[j].start
    ensures Overlaps(m[k], lo, hi) <==> i <= k < j
  {
    if k < i {
    } else if k == i {
    } else {
      assert Precedes(m, i, k);
      assert k > j ==> Precedes(m, j, k);
    }
  }

  lemma CutMembers(m: DseMap, i: nat, j: nat, lo: nat, hi: nat, x: Extent<Entry>)
    requires i <= j <= |m|
    requires forall k :: 0 <= k < |m| ==> (Overlaps(m[k], lo, hi) <==> i <= k < j)
    ensures x in m[i..j] <==> x in m && Overlaps(x, lo, hi)
    ensures x in m[..i] + m[j..] <==> x in m && !Overlaps(x, lo, hi)
  {
    if x in m {
      var k :| 0 <= k < |m| && m[k] == x;
      if k < i {
        assert m[..i][k] == x;
      } else if k < j {
        assert m[i..j][k - i] == x;
      } else {
        assert m[j..][k - j] == x;
      }
    }
  }

  lemma CutOut(m: DseMap, i: nat, j: nat, lo: nat, hi: nat)
    requires Sorted(m) && i == Find(m, lo) && i <= j <= |m|
    requires forall n :: i <= n < j ==> m[n].start < hi
    requires j < |m| ==> hi <= m[j].start
    ensures forall x :: x in m[i..j] <==> x in m && Overlaps(x, lo, hi)
    ensures forall x :: x in m[..i] + m[j..] <==> x in m && !Overlaps(x, lo, hi)
  {
    forall k | 0 <= k < |m| ensures Overlaps(m[k], lo, hi) <==> i <= k < j {
      CutIndices(m, i, j, lo, hi, k);
    }
    forall x
      ensures x in m[i..j] <==> x in m && Overlaps(x, lo, hi)
      ensures x in m[..i] + m[j..] <==> x in m && !Overlaps(x, lo, hi)
    {
      CutMembers(m, i, j, lo, hi, x);
    }
  }

  lemma SliceStep<T>(m: seq<T>, i: nat, j: nat)
    requires i <= j < |m|
    ensures m[i..j + 1] == m[i..j] + [m[j]]
    ensures (m[..i] + m[j..])[i] == m[j]
    ensures (m[..i] + m[j..])[..i] + (m[..i] + m[j..])[i + 1..] == m[..i] + m[j + 1..]
  {
  }

  lemma RefsErase(m: DseMap, i: nat, s: StoreId)
    requires i < |m|
    ensures Refs(m, s) == Refs(m[..i] + m[i + 1..], s) + Owed(m[i].val, s, Length(m[i]))
  {
    assert m == m[..i] + [m[i]] + m[i + 1..];
    RefsConcat(m[..i] + [m[i]], m[i + 1..], s);
    RefsConcat(m[..i], [m[i]], s);
    RefsConcat(m[..i], m[i + 1..], s);
    RefsOne(m[i], s);
  }
}
