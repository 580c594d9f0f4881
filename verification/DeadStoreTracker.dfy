/** The mutable side of llpe/main/DSE.cpp: all live `TrackedStore`s and all `DSEMapPointer`s of a
    specialisation, with the operations that move byte references between them. */
module DeadStoreTracker {
  import opened Extents
  import opened DeadStores
  import opened DeadStoreAlign

  class Tracker {
    /** Live tracked stores; a store leaves when `delete this` runs in `derefBytes`. */
    var stores: map<StoreId, Tracked>
    /** Every map in use; a released map stays as the empty map. */
    var maps: seq<DseMap>
    /** Stores tagged INSTSTATUS_UNUSED_WRITER. */
    var killed: set<StoreId>
    /** Every store ever marked needed, and every store ever created. */
    ghost var needed: set<StoreId>
    ghost var created: set<StoreId>

    ghost function Out(s: StoreId): nat
      reads this
    {
      if s in stores then stores[s].outstanding else 0
    }

    /** Conservation with a debt: counters exceed the references held by the maps by exactly `n`
        bytes for each member of `owe`. */
    ghost predicate Balanced(owe: Entry, n: nat)
      reads this
    {
      && AllSorted(maps)
      && (forall s :: Out(s) == AllRefs(maps, s) + Owed(owe, s, n))
      && (forall s :: s in stores ==> stores[s].outstanding > 0 && (stores[s].needed <==> s in needed))
      && killed !! needed
      && killed !! stores.Keys
      && created == killed + needed + stores.Keys
    }

    /** Every counter equals the bytes that name its store, over all maps and extents; the live
        stores are those some map names, and the killed ones those never needed and no longer named. */
    ghost predicate Valid()
      reads this
    {
      Balanced([], 0)
    }

    constructor ()
      ensures Valid()
      ensures maps == [] && killed == {} && needed == {} && created == {}
    {
      stores, maps, killed := map[], [], {};
      needed, created := {}, {};
    }

    /** `TrackedStore::derefBytes`. Its assertion `nBytes <= outstandingBytes` is proved here from
        conservation, at every call. */
    method DerefBytes(s: StoreId, n: nat, ghost rest: Entry)
      requires n > 0 && Balanced([s] + rest, n)
      modifies this
      ensures Balanced(rest, n)
      ensures maps == old(maps) && needed == old(needed) && created == old(created)
      ensures old(killed) <= killed <= old(killed) + {s}
    {
      assert ([s] + rest)[1..] == rest;
      assert Out(s) == AllRefs(maps, s) + n + Owed(rest, s, n);
      assert n <= stores[s].outstanding;
      var left := stores[s].outstanding - n;
      if left == 0 {
        if !stores[s].needed {
          killed := killed + {s};
        }
        stores := stores - {s};
      } else {
        stores := stores[s := stores[s].(outstanding := left)];
      }
      forall t ensures Out(t) == AllRefs(maps, t) + Owed(rest, t, n) {
        assert old(Out(t)) == AllRefs(maps, t) + Owed([s] + rest, t, n);
      }
    }

    /** `derefBytes(DSEMapEntry*, nBytes)`. */
    method DerefEntry(e: Entry, n: nat)
      requires n > 0 && Balanced(e, n)
      modifies this
      ensures Valid()
      ensures maps == old(maps) && needed == old(needed) && created == old(created)
      ensures old(killed) <= killed
    {
      var k := 0;
      assert e[0..] == e;
      while k < |e|
        invariant 0 <= k <= |e|
        invariant Balanced(e[k..], n)
        invariant maps == old(maps) && needed == old(needed) && created == old(created)
        invariant old(killed) <= killed
      {
        assert e[k..] == [e[k]] + e[k + 1..];
        DerefBytes(e[k], n, e[k + 1..]);
        k := k + 1;
      }
      assert e[k..] == [];
      forall s ensures Owed([], s, 0) == Owed(e[k..], s, n) {
      }
    }

    /** Replace map `p` by `m`, which names each member of `e` on `n` fewer bytes. */
    method Retire(p: nat, m: DseMap, e: Entry, n: nat)
      requires Valid() && p < |maps| && Sorted(m) && n > 0
      requires forall s :: Refs(maps[p], s) == Refs(m, s) + Owed(e, s, n)
      modifies this
      ensures Valid()
      ensures maps == old(maps)[p := m] && needed == old(needed) && created == old(created)
      ensures old(killed) <= killed
    {
      forall s ensures AllRefs(maps, s) == AllRefs(maps[p := m], s) + Owed(e, s, n) {
        AllRefsUpdate(maps, p, m, s);
      }
      assert forall s :: old(Out(s)) == AllRefs(old(maps), s) + Owed([], s, 0);
      maps := maps[p := m];
      forall s ensures Out(s) == AllRefs(maps, s) + Owed(e, s, n) {
        assert Out(s) == old(Out(s));
      }
      DerefEntry(e, n);
    }

    /** `isNeeded = true` on every store of an entry. */
    method SetNeeded(e: Entry)
      requires Valid() && forall s :: s in e ==> s in stores
      modifies this
      ensures Valid()
      ensures maps == old(maps) && killed == old(killed) && created == old(created)
      ensures forall s :: s in needed <==> s in old(needed) || s in e
    {
      stores := map s | s in stores :: if s in e then stores[s].(needed := true) else stores[s];
      needed := needed + (set s | s in e);
      forall s ensures Out(s) == AllRefs(maps, s) + Owed([], s, 0) {
        assert Out(s) == old(Out(s));
      }
    }

    /** Every store a map names is live. */
    lemma NamedIsLive(p: nat, i: nat)
      requires Valid() && p < |maps| && i < |maps[p]|
      ensures forall s :: s in maps[p][i].val ==> s in stores
    {
      forall s | s in maps[p][i].val ensures s in stores {
        RefsNamed(maps[p], s);
        AllRefsNamed(maps, s);
        assert Out(s) == AllRefs(maps, s);
      }
    }

    /** Erase extent `i` of map `p`, releasing the bytes it holds on each of its stores. */
    method EraseExtent(p: nat, i: nat)
      requires Valid() && p < |maps| && i < |maps[p]|
      modifies this
      ensures Valid()
      ensures maps == old(maps)[p := old(maps[p])[..i] + old(maps[p])[i + 1..]]
      ensures needed == old(needed) && created == old(created) && old(killed) <= killed
    {
      var m, x := maps[p], maps[p][i];
      Around(m, i);
      var m' := m[..i] + m[i + 1..];
      ErasedSorted(m, i);
      forall s ensures Refs(m, s) == Refs(m', s) + Owed(x.val, s, Length(x)) {
        RefsErase(m, i, s);
      }
      Retire(p, m', x.val, Length(x));
    }

    /** Mark the stores of extent `i` needed and erase it. */
    method UseExtent(p: nat, i: nat)
      requires Valid() && p < |maps| && i < |maps[p]|
      modifies this
      ensures Valid()
      ensures maps == old(maps)[p := old(maps[p])[..i] + old(maps[p])[i + 1..]]
      ensures forall s :: s in needed <==> s in old(needed) || s in old(maps[p][i].val)
      ensures created == old(created) && old(killed) <= killed
    {
      NamedIsLive(p, i);
      SetNeeded(maps[p][i].val);
      EraseExtent(p, i);
    }

    /** The loop of `useWriters`, from the extent found at Offset. */
    method UseFrom(p: nat, i: nat, end: nat) returns (ghost j: nat)
      requires Valid() && p < |maps| && i <= |maps[p]|
      modifies this
      ensures Valid()
      ensures i <= j <= |old(maps[p])|
      ensures maps == old(maps)[p := old(maps[p])[..i] + old(maps[p])[j..]]
      ensures forall n :: i <= n < j ==> old(maps[p])[n].start < end
      ensures j < |old(maps[p])| ==> end <= old(maps[p])[j].start
      ensures forall s :: s in needed <==> s in old(needed) || NamedBy(old(maps[p])[i..j], s)
      ensures created == old(created) && old(killed) <= killed
    {
      ghost var m0 := maps[p];
      j := i;
      assert m0 == m0[..i] + m0[i..];
      while i < |maps[p]| && maps[p][i].start < end
        invariant Valid()
        invariant i <= j <= |m0| && maps == old(maps)[p := m0[..i] + m0[j..]]
        invariant forall n :: i <= n < j ==> m0[n].start < end
        invariant forall s :: s in needed <==> s in old(needed) || NamedBy(m0[i..j], s)
        invariant created == old(created) && old(killed) <= killed
        decreases |m0| - j
      {
        SliceStep(m0, i, j);
        NamedAppend(m0[i..j], m0[j]);
        UseExtent(p, i);
        j := j + 1;
      }
    }

    /** `useWriters`: bytes Offset..Offset + Size are read. Every entry that overlaps them has all
        its stores marked needed and leaves the map whole. */
    method UseWriters(p: nat, off: nat, size: nat)
      requires Valid() && p < |maps|
      modifies this
      ensures Valid()
      ensures |maps| == |old(maps)| && maps == old(maps)[p := maps[p]]
      ensures forall x :: x in maps[p] <==> x in old(maps[p]) && !Overlaps(x, off, off + size)
      ensures forall s :: s in needed <==>
                          s in old(needed)
                          || exists x :: x in old(maps[p]) && Overlaps(x, off, off + size) && s in x.val
      ensures created == old(created) && old(killed) <= killed
    {
      ghost var m0 := maps[p];
      var i := Find(maps[p], off);
      ghost var j := UseFrom(p, i, off + size);
      CutOut(m0, i, j, off, off + size);
    }
  
    /** Remove bytes lo..hi from extent `i`, keeping what is left on either side. */
    method Carve(p: nat, i: nat, lo: nat, hi: nat)
      requires Valid() && p < |maps| && i < |maps[p]|
      requires maps[p][i].start <= lo < hi <= maps[p][i].stop
      modifies this
      ensures Valid()
      ensures maps == old(maps)[p := old(maps[p])[..i] + Carved(old(maps[p][i]), lo, hi) + old(maps[p])[i + 1..]]
      ensures forall b: nat :: !(lo <= b < hi) ==> Writers(maps[p], b) == Writers(old(maps[p]), b)
      ensures needed == old(needed) && created == old(created) && old(killed) <= killed
    {
      var m, x := maps[p], maps[p][i];
      var m' := m[..i] + Carved(x, lo, hi) + m[i + 1..];
      CarvedSorted(m, i, lo, hi);
      forall s ensures Refs(m, s) == Refs(m', s) + Owed(x.val, s, hi - lo) {
        CarvedRefs(m, i, lo, hi, s);
      }
      forall b: nat | !(lo <= b < hi) ensures Writers(m', b) == Writers(m, b) {
        CarvedWriters(m, i, lo, hi, b);
      }
      Retire(p, m', x.val, hi - lo);
    }

    /** One turn of the hole-punching loop of `setWriter`, at extent `i`. */
    method PunchStep(p: nat, i: nat, off: nat, end: nat) returns (next: nat, done: bool)
      requires Valid() && p < |maps| && off < end && i < |maps[p]|
      requires maps[p][i].start < end && off < maps[p][i].stop && Free(maps[p][..i], off, end)
      modifies this
      ensures Valid()
      ensures |maps| == |old(maps)| && maps == old(maps)[p := maps[p]]
      ensures next <= |maps[p]| && Free(maps[p][..next], off, end)
      ensures |maps[p]| - next < |old(maps[p])| - i
      ensures next < |maps[p]| ==> off < maps[p][next].stop
      ensures done ==> Free(maps[p], off, end)
      ensures forall b: nat :: !(off <= b < end) ==> Writers(maps[p], b) == Writers(old(maps[p]), b)
      ensures needed == old(needed) && created == old(created) && old(killed) <= killed
    {
      var x := maps[p][i];
      ghost var lo := if x.start < off then off else x.start;
      ghost var hi := if x.stop < end then x.stop else end;
      CarvedFree(maps[p], i, lo, hi, off, end);
      if x.start < off {
        Carve(p, i, off, if x.stop < end then x.stop else end);
        done := x.stop > end;
        next := if done then i + 2 else i + 1;
      } else if x.stop > end {
        Carve(p, i, x.start, end);
        next, done := i + 1, false;
      } else {
        Carve(p, i, x.start, x.stop);
        next, done := i, false;
      }
    }

    /** The hole-punching loop of `setWriter`. */
    method PunchHole(p: nat, off: nat, end: nat)
      requires Valid() && p < |maps| && off < end
      modifies this
      ensures Valid()
      ensures |maps| == |old(maps)| && maps == old(maps)[p := maps[p]]
      ensures Free(maps[p], off, end)
      ensures forall b: nat :: !(off <= b < end) ==> Writers(maps[p], b) == Writers(old(maps[p]), b)
      ensures needed == old(needed) && created == old(created) && old(killed) <= killed
    {
      var i: nat, done := Find(maps[p], off), false;
      FreeBefore(maps[p], off, end);
      while !done && i < |maps[p]| && maps[p][i].start < end
        invariant Valid() && |maps| == |old(maps)| && maps == old(maps)[p := maps[p]]
        invariant i <= |maps[p]| && Free(maps[p][..i], off, end)
        invariant i < |maps[p]| ==> off < maps[p][i].stop
        invariant done ==> Free(maps[p], off, end)
        invariant forall b: nat :: !(off <= b < end) ==> Writers(maps[p], b) == Writers(old(maps[p]), b)
        invariant needed == old(needed) && created == old(created) && old(killed) <= killed
        decreases |maps[p]| - i
      {
        i, done := PunchStep(p, i, off, end);
      }
      if !done {
        FreeTail(maps[p], i, off, end);
      }
    }

    /** Insert a new store's extent into free space of map `p`. */
    method AddExtent(p: nat, x: Extent<Entry>, id: StoreId)
      requires Valid() && p < |maps| && id !in created
      requires x.val == [id] && x.start < x.stop && Free(maps[p], x.start, x.stop)
      modifies this
      ensures Valid()
      ensures maps == old(maps)[p := Inserted(old(maps[p]), x)]
      ensures needed == old(needed) && created == old(created) + {id} && old(killed) == killed
    {
      InsertedSorted(maps[p], x);
      ghost var m' := Inserted(maps[p], x);
      forall s ensures AllRefs(maps[p := m'], s) == AllRefs(maps, s) + (if s == id then Length(x) else 0) {
        AllRefsUpdate(maps, p, m', s);
        InsertedRefs(maps[p], x, s);
        assert [id][1..] == [];
      }
      assert Out(id) == AllRefs(maps, id);
      maps := maps[p := Inserted(maps[p], x)];
      stores := stores[id := Tracked(x.stop - x.start, false)];
      created := created + {id};
      forall s ensures Out(s) == AllRefs(maps, s) + Owed([], s, 0) {
        assert s != id ==> Out(s) == old(Out(s));
      }
    }

    /** `setWriter`: bytes Offset..Offset + Size are overwritten by store `id`, which no map has
        named before. Afterwards it alone is named there, and every other byte is as before. */
    method SetWriter(p: nat, off: nat, size: nat, id: StoreId)
      requires Valid() && p < |maps| && size > 0 && id !in created
      modifies this
      ensures Valid()
      ensures |maps| == |old(maps)| && maps == old(maps)[p := maps[p]]
      ensures forall b: nat ::
                Writers(maps[p], b) == if off <= b < off + size then [id] else Writers(old(maps[p]), b)
      ensures needed == old(needed) && created == old(created) + {id} && old(killed) <= killed
    {
      PunchHole(p, off, off + size);
      ghost var m := maps[p];
      var x := Extent(off, off + size, [id]);
      forall b: nat ensures Writers(Inserted(m, x), b) == if off <= b < off + size then [id] else Writers(m, b) {
        InsertedWriters(m, x, b);
      }
      AddExtent(p, x, id);
    }
  
    /** The stores `canKill` refuses: the needed ones that are still live. */
    function Unkillable(): (r: set<StoreId>)
      requires Valid()
      reads this
      ensures forall s :: s in stores ==> (s in r <==> s in needed)
    {
      set s | s in stores && stores[s].needed
    }

    /** `GCStores`: drop the stores that were needed after all from one entry. Returns whether the
        entry is now empty, so that its extent can go. */
    method GcStores(p: nat, i: nat) returns (gone: bool)
      requires Valid() && p < |maps| && i < |maps[p]|
      modifies this
      ensures Valid()
      ensures maps == old(maps)[p := old(maps[p])[i := KeepUnneeded(old(maps[p][i]), needed)]]
      ensures gone <==> maps[p][i].val == []
      ensures needed == old(needed) && created == old(created) && old(killed) <= killed
    {
      NamedIsLive(p, i);
      var m, x, drop := maps[p], maps[p][i], Unkillable();
      assert Sorted(m);
      WithoutSame(x.val, drop, needed);
      if forall s :: s in x.val ==> s !in drop {
        WithoutNothing(x.val, drop);
        assert m[i := x] == m && maps[p := m] == maps;
        return x.val == [];
      }
      var m' := m[i := KeepUnneeded(x, drop)];
      ReplacedSorted(m, i, KeepUnneeded(x, drop));
      forall s ensures Refs(m, s) == Refs(m', s) + Owed(Only(x.val, drop), s, Length(x)) {
        KeepRefs(m, i, x, drop, s);
      }
      Retire(p, m', Only(x.val, drop), Length(x));
      gone := m'[i].val == [];
    }

    /** One turn of a garbage-collecting loop, at extent `i` of map `p`, which is extent `k` of the
        map `m0` it started from: collect the entry and erase it if nothing is left. */
    method CollectAt(p: nat, i: nat, ghost m0: DseMap, ghost k: nat) returns (gone: bool)
      requires Valid() && p < |maps| && k < |m0|
      requires maps[p] == Collected(m0[..k], needed) + m0[k..] && i == |Collected(m0[..k], needed)|
      modifies this
      ensures Valid()
      ensures maps == old(maps)[p := Collected(m0[..k + 1], needed) + m0[k + 1..]]
      ensures gone ==> Collected(m0[..k + 1], needed) == Collected(m0[..k], needed)
      ensures !gone ==> Collected(m0[..k + 1], needed) == Collected(m0[..k], needed) + [KeepUnneeded(m0[k], needed)]
      ensures needed == old(needed) && created == old(created) && old(killed) <= killed
    {
      CollectStep(m0, k, needed);
      gone := GcStores(p, i);
      if gone {
        EraseExtent(p, i);
      }
    }

    /** The garbage-collecting loop that `mergeStores` runs over each of its maps. */
    method Collect(p: nat)
      requires Valid() && p < |maps|
      modifies this
      ensures Valid()
      ensures maps == old(maps)[p := Collected(old(maps[p]), needed)]
      ensures needed == old(needed) && created == old(created) && old(killed) <= killed
    {
      ghost var m0, k := maps[p], 0;
      var i := 0;
      assert Collected(m0[..0], needed) + m0[0..] == m0;
      while i < |maps[p]|
        invariant Valid() && 0 <= k <= |m0|
        invariant maps == old(maps)[p := Collected(m0[..k], needed) + m0[k..]]
        invariant i == |Collected(m0[..k], needed)|
        invariant needed == old(needed) && created == old(created) && old(killed) <= killed
        decreases |m0| - k
      {
        var gone := CollectAt(p, i, m0, k);
        i := if gone then i else i + 1;
        k := k + 1;
      }
      assert m0[..k] == m0 && Collected(m0, needed) + m0[k..] == Collected(m0, needed);
    }

    /** `outstandingBytes += entrySize` for each store of an entry about to be copied. */
    method RefEntry(e: Entry, n: nat)
      requires Valid() && forall s :: s in e ==> s in stores
      modifies this
      ensures Balanced(e, n)
      ensures maps == old(maps) && needed == old(needed) && created == old(created) && killed == old(killed)
    {
      var k := 0;
      while k < |e|
        invariant 0 <= k <= |e| && Balanced(e[..k], n)
        invariant stores.Keys == old(stores.Keys)
        invariant maps == old(maps) && needed == old(needed) && created == old(created) && killed == old(killed)
      {
        label before:
        var t := e[k];
        stores := stores[t := stores[t].(outstanding := stores[t].outstanding + n)];
        forall s ensures Out(s) == AllRefs(maps, s) + Owed(e[..k + 1], s, n) {
          assert old@before(Out(s)) == AllRefs(maps, s) + Owed(e[..k], s, n);
          OwedAppend(e[..k], t, s, n);
          assert e[..k + 1] == e[..k] + [t];
        }
        k := k + 1;
      }
      assert e[..k] == e;
    }

    /** Append a copy of an extent to map `q`, counting its bytes. */
    method CopyExtent(q: nat, x: Extent<Entry>)
      requires Valid() && q < |maps| && Sorted(maps[q] + [x])
      requires forall s :: s in x.val ==> s in stores
      modifies this
      ensures Valid()
      ensures maps == old(maps)[q := old(maps[q]) + [x]]
      ensures needed == old(needed) && created == old(created) && killed == old(killed)
    {
      assert (maps[q] + [x])[|maps[q]|] == x;
      RefEntry(x.val, x.stop - x.start);
      label before:
      forall s ensures AllRefs(maps[q := maps[q] + [x]], s) == AllRefs(maps, s) + Owed(x.val, s, Length(x)) {
        AllRefsUpdate(maps, q, maps[q] + [x], s);
        RefsConcat(maps[q], [x], s);
        RefsOne(x, s);
      }
      maps := maps[q := maps[q] + [x]];
      forall s ensures Out(s) == AllRefs(maps, s) + Owed([], s, 0) {
        assert Out(s) == old@before(Out(s));
      }
    }

    /** One turn of the copying loop: collect extent `i` and copy it unless it went. */
    method CopyStep(p: nat, i: nat, q: nat, ghost a: seq<DseMap>, ghost m0: DseMap, ghost k: nat) returns (next: nat)
      requires Valid() && p < q == |a| && k < |m0| && Sorted(m0)
      requires maps == a[p := Collected(m0[..k], needed) + m0[k..]] + [Collected(m0[..k], needed)]
      requires i == |Collected(m0[..k], needed)|
      modifies this
      ensures Valid()
      ensures maps == a[p := Collected(m0[..k + 1], needed) + m0[k + 1..]] + [Collected(m0[..k + 1], needed)]
      ensures next == |Collected(m0[..k + 1], needed)|
      ensures needed == old(needed) && created == old(created) && old(killed) <= killed
    {
      ghost var c' := Collected(m0[..k + 1], needed);
      TwoMaps(a, p, maps[p], maps[q], c' + m0[k + 1..], c');
      var gone := CollectAt(p, i, m0, k);
      next := i;
      if !gone {
        NamedIsLive(p, i);
        CollectedPrefixSorted(m0, k + 1, needed);
        CopyExtent(q, maps[p][i]);
        next := i + 1;
      }
    }

    /** `getReadableCopy`: fork map `p` at a control-flow split. Both copies come out garbage
        collected, and every store they name gains the bytes of the second copy. */
    method GetReadableCopy(p: nat) returns (q: nat)
      requires Valid() && p < |maps|
      modifies this
      ensures Valid()
      ensures q == |old(maps)|
      ensures maps == old(maps)[p := Collected(old(maps[p]), needed)] + [Collected(old(maps[p]), needed)]
      ensures needed == old(needed) && created == old(created) && old(killed) <= killed
    {
      ghost var a, m0, k := maps, maps[p], 0;
      assert Sorted(m0);
      q := |maps|;
      AddMap();
      var i := 0;
      assert Collected(m0[..0], needed) + m0[0..] == m0 && a[p := m0] == a;
      while i < |maps[p]|
        invariant Valid() && 0 <= k <= |m0|
        invariant maps == a[p := Collected(m0[..k], needed) + m0[k..]] + [Collected(m0[..k], needed)]
        invariant i == |Collected(m0[..k], needed)|
        invariant needed == old(needed) && created == old(created) && old(killed) <= killed
        decreases |m0| - k
      {
        i := CopyStep(p, i, q, a, m0, k);
        k := k + 1;
      }
      assert m0[..k] == m0 && Collected(m0, needed) + m0[k..] == Collected(m0, needed);
    }

    method AddMap()
      requires Valid()
      modifies this
      ensures Valid() && maps == old(maps) + [[]]
      ensures needed == old(needed) && created == old(created) && killed == old(killed)
    {
      forall s ensures AllRefs(maps + [[]], s) == AllRefs(maps, s) {
        AllRefsAppend(maps, [], s);
      }
      maps := maps + [[]];
      forall s ensures Out(s) == AllRefs(maps, s) + Owed([], s, 0) {
        assert Out(s) == old(Out(s));
      }
    }

    /** `release`: the object is freed, so map `p` lets go of every byte it holds. */
    method Release(p: nat)
      requires Valid() && p < |maps|
      modifies this
      ensures Valid() && maps == old(maps)[p := []]
      ensures needed == old(needed) && created == old(created) && old(killed) <= killed
    {
      while maps[p] != []
        invariant Valid() && |maps| == |old(maps)| && maps[p := []] == old(maps)[p := []]
        invariant needed == old(needed) && created == old(created) && old(killed) <= killed
        decreases |maps[p]|
      {
        EraseExtent(p, 0);
      }
      assert maps == maps[p := []];
    }

    /** `mergeStores` at a control-flow join. Both maps are collected; the to-map is then aligned
        with the from-map. The loop that should add the from-map's stores never adds one (its guard
        is false on entry), so what the to-map says about each byte does not change. It names the stores
        of both maps, as it should, exactly when the from-map names none that the to-map does not. */
    method MergeStores(from: nat, to: nat)
      requires Valid() && from < |maps| && to < |maps| && from != to
      modifies this
      ensures Valid()
      ensures |maps| == |old(maps)| && maps == old(maps)[from := maps[from]][to := maps[to]]
      ensures maps[from] == Collected(old(maps[from]), needed)
      ensures Refines(maps[to], Collected(old(maps[to]), needed))
      ensures forall f :: f in maps[from] ==>
                CoversAll(maps[to], f.start, f.stop) && Boundary(maps[to], f.start) && Boundary(maps[to], f.stop)
      ensures NamesUnion(maps[to], Collected(old(maps[to]), needed), maps[from]) <==>
                NamesNoMore(maps[from], Collected(old(maps[to]), needed))
      ensures needed == old(needed) && created == old(created) && old(killed) <= killed
    {
      Collect(from);
      Collect(to);
      AlignInto(from, to);
    }

    /** Two maps once their needed stores are gone. */
    method AlignInto(from: nat, to: nat)
      requires Valid() && from < |maps| && to < |maps| && from != to
      modifies this`maps
      ensures Valid() && |maps| == |old(maps)| && maps == old(maps)[to := maps[to]]
      ensures var merged := MergedInto(maps[to], old(maps[to]), maps[from]); merged
    {
      assert Sorted(maps[to]) && Sorted(maps[from]);
      if maps[from] == [] {
        EmptyMerged(maps[to]);
        return;
      }
      var u := Align(maps[from], maps[to]);
      UnionIff(u, maps[to], maps[from]);
      Exchange(to, u);
    }

    /** Put a map in the place of one that names each store on as many bytes. */
    method Exchange(p: nat, u: DseMap)
      requires Valid() && p < |maps| && Refines(u, maps[p])
      modifies this`maps
      ensures Valid() && maps == old(maps)[p := u]
    {
      SameRefs(maps, p, u);
      maps := maps[p := u];
      forall s ensures Out(s) == AllRefs(maps, s) + Owed([], s, 0) {
        assert old(Out(s)) == AllRefs(old(maps), s) + Owed([], s, 0);
      }
    }

    /** A store is live exactly while some extent of some map names it, and killed exactly when it
        was created, is named nowhere and was never needed. */
    lemma FreedExactly(s: StoreId)
      requires Valid()
      ensures s in stores <==> exists p, i :: 0 <= p < |maps| && 0 <= i < |maps[p]| && s in maps[p][i].val
      ensures s in killed <==> s in created && s !in needed && AllRefs(maps, s) == 0
    {
      AllRefsNamed(maps, s);
      assert Out(s) == AllRefs(maps, s) + Owed([], s, 0);
      if s in stores {
        var p :| 0 <= p < |maps| && Refs(maps[p], s) > 0;
        assert Sorted(maps[p]);
        RefsNamed(maps[p], s);
      }
      if p, i :| 0 <= p < |maps| && 0 <= i < |maps[p]| && s in maps[p][i].val {
        NamedIsLive(p, i);
      }
    }
  }

  // ----- what a merge should do

  /** The map names, on every byte, the stores that either of two maps names there. */
  ghost predicate NamesUnion(u: DseMap, t: DseMap, f: DseMap)
  {
    forall b: nat, s :: s in Writers(u, b) <==> s in Writers(t, b) || s in Writers(f, b)
  }

  /** What aligning makes of `t`: it says what it said, with a break at either end of each extent of `f`. */
  ghost predicate MergedInto(u: DseMap, t: DseMap, f: DseMap)
  {
    && Refines(u, t)
    && (forall x :: x in f ==> CoversAll(u, x.start, x.stop) && Boundary(u, x.start) && Boundary(u, x.stop))
    && (NamesUnion(u, t, f) <==> NamesNoMore(f, t))
  }

  lemma EmptyMerged(t: DseMap)
    requires Sorted(t)
    ensures var merged := MergedInto(t, t, []); merged
  {
  }

  /** A map that says what `t` says names the union only if `f` adds nothing. */
  lemma UnionIff(u: DseMap, t: DseMap, f: DseMap)
    requires Refines(u, t)
    ensures NamesUnion(u, t, f) <==> NamesNoMore(f, t)
  {
  }

  lemma SameRefs(maps: seq<DseMap>, p: nat, u: DseMap)
    requires p < |maps| && Refines(u, maps[p])
    ensures forall s :: AllRefs(maps[p := u], s) == AllRefs(maps, s)
  {
    forall s ensures AllRefs(maps[p := u], s) == AllRefs(maps, s) {
      AllRefsUpdate(maps, p, u, s);
    }
  }

  /** The first map names no store on any byte that the second does not. */
  ghost predicate NamesNoMore(f: DseMap, t: DseMap)
  {
    forall b: nat, s :: s in Writers(f, b) ==> s in Writers(t, b)
  }

  /** A store made on one of two paths that join: the merged map does not name it, so it is killed as soon
      as the other path lets go of its map, although a read behind the join would see it. */
  method UnionLost(id: StoreId) returns (t: Tracker)
    ensures t.Valid() && |t.maps| == 2 && t.killed == {id} && t.needed == {}
  {
    t := OneWriter(id);
    MergeEmpty(t, id);
    t.Release(0);
    TwoRefs([], t.maps[1], id);
    assert t.maps == [[], t.maps[1]];
    t.FreedExactly(id);
    NobodyElse(t, id);
  }

  /** Two paths, on the first of which one byte has been written. */
  method OneWriter(id: StoreId) returns (t: Tracker)
    ensures fresh(t) && t.Valid() && |t.maps| == 2 && t.maps[1] == [] && Writers(t.maps[0], 0) == [id]
    ensures t.created == {id} && t.needed == {}
  {
    t := new Tracker();
    t.AddMap();
    t.AddMap();
    t.SetWriter(0, 0, 1, id);
  }

  /** Merged into an empty map, the other map leaves no reference behind. */
  method MergeEmpty(t: Tracker, id: StoreId)
    requires t.Valid() && |t.maps| == 2 && t.maps[1] == [] && t.created == {id} && t.needed == {}
    modifies t
    ensures t.Valid() && |t.maps| == 2 && t.created == {id} && t.needed == {} && Refs(t.maps[1], id) == 0
  {
    t.MergeStores(0, 1);
    assert Collected([], t.needed) == [] && Refs([], id) == 0;
  }

  lemma TwoRefs(p: DseMap, q: DseMap, s: StoreId)
    ensures AllRefs([p, q], s) == Refs(p, s) + Refs(q, s)
  {
    AllRefsAppend([p], q, s);
    AllRefsAppend([], p, s);
    assert [] + [p] == [p] && [p] + [q] == [p, q];
  }

  lemma NobodyElse(t: Tracker, id: StoreId)
    requires t.Valid() && t.created == {id} && id in t.killed && t.needed == {}
    ensures t.killed == {id}
  {
  }
}
