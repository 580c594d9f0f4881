/** Dead-store elimination preserves meaning: over every run of allocations, writes, reads, forks and
    releases, deleting every store the tracker ever kills leaves each read with the writer it had. */
module DeadStoreRuns {
  import opened Options
  import opened Extents
  import opened DeadStores
  import opened DeadStoreTracker

  /** What happens to the objects of a specialisation along its paths. A view is one object on one path:
      an allocation adds a view of a new object, a fork one of the same object on another path, each
      under the next number. */
  datatype Event =
    | Write(view: nat, off: nat, size: nat, id: StoreId)
    | Read(view: nat, off: nat, size: nat)
    | Fork(view: nat)
    | Free(view: nat)
    | Alloc

  /** The event is about one of the first `n` views. */
  predicate Known(e: Event, n: nat)
  {
    e.Alloc? || e.view < n
  }

  /** Who wrote each byte last, in each view. */
  type Memory = seq<map<nat, StoreId>>

  function Written(m: map<nat, StoreId>, off: nat, size: nat, id: StoreId): (r: map<nat, StoreId>)
    ensures forall b: nat :: b in r <==> b in m || off <= b < off + size
    ensures forall b: nat :: b in r ==> r[b] == if off <= b < off + size then id else m[b]
  {
    if size == 0 then m else Written(m, off, size - 1, id)[off + size - 1 := id]
  }

  /** Execute one event, skipping the stores in `deleted`. */
  function Step(mem: Memory, e: Event, deleted: set<StoreId>): Memory
    requires Known(e, |mem|)
  {
    match e
    case Write(p, off, size, id) => if id in deleted then mem else mem[p := Written(mem[p], off, size, id)]
    case Read(_, _, _) => mem
    case Fork(p) => mem + [mem[p]]
    case Free(p) => mem[p := map[]]
    case Alloc => mem + [map[]]
  }

  function Views(run: seq<Event>): nat
  {
    if run == [] then 0 else Views(run[..|run| - 1]) + if run[|run| - 1].Fork? || run[|run| - 1].Alloc? then 1 else 0
  }

  function Ids(run: seq<Event>): set<StoreId>
  {
    if run == [] then {}
    else Ids(run[..|run| - 1]) + if run[|run| - 1].Write? then {run[|run| - 1].id} else {}
  }

  /** Events name existing views, writes are not empty (`DSEHandleWrite` returns early on those)
      and every write is a different instruction instance. */
  ghost predicate WellFormed(run: seq<Event>)
  {
    run != [] ==>
      var front, e := run[..|run| - 1], run[|run| - 1];
      && WellFormed(front)
      && Known(e, Views(front))
      && (e.Write? ==> e.size > 0 && e.id !in Ids(front))
  }

  function Execute(run: seq<Event>, deleted: set<StoreId>): (mem: Memory)
    requires WellFormed(run)
    ensures |mem| == Views(run)
  {
    if run == [] then [] else Step(Execute(run[..|run| - 1], deleted), run[|run| - 1], deleted)
  }

  function WriterOf(mem: Memory, p: nat, b: nat): Option<StoreId>
  {
    if p < |mem| && b in mem[p] then Some(mem[p][b]) else None
  }

  /** The read at position `k` sees the same writer of every byte with `deleted` stores left out. */
  ghost predicate ReadUnchanged(run: seq<Event>, k: nat, deleted: set<StoreId>)
    requires k < |run| && WellFormed(run[..k])
  {
    run[k].Read? ==>
      forall b: nat :: run[k].off <= b < run[k].off + run[k].size ==>
        WriterOf(Execute(run[..k], deleted), run[k].view, b) == WriterOf(Execute(run[..k], {}), run[k].view, b)
  }

  lemma {:induction false} PrefixWellFormed(run: seq<Event>, k: nat)
    requires WellFormed(run) && k <= |run|
    ensures WellFormed(run[..k])
  {
    if k < |run| {
      PrefixWellFormed(run[..|run| - 1], k);
      assert run[..|run| - 1][..k] == run[..k];
    } else {
      assert run[..k] == run;
    }
  }

  /** A byte whose last writer is kept has the same last writer when other stores are deleted. */
  lemma {:induction false} KeptWriter(run: seq<Event>, deleted: set<StoreId>, p: nat, b: nat)
    requires WellFormed(run)
    ensures var w, w' := WriterOf(Execute(run, {}), p, b), WriterOf(Execute(run, deleted), p, b);
            (w.None? ==> w'.None?) && (w.Some? && w.value !in deleted ==> w' == w)
  {
    if run != [] {
      var front, e := run[..|run| - 1], run[|run| - 1];
      KeptWriter(front, deleted, p, b);
      if e.Fork? {
        KeptWriter(front, deleted, e.view, b);
      }
    }
  }

  /** Every byte's last writer is still named by its view's map, or has been needed; and a map
      names nothing but last writers. */
  ghost predicate TrackedMap(m: DseMap, bytes: map<nat, StoreId>, needed: set<StoreId>)
  {
    && (forall b: nat :: b in bytes ==> bytes[b] in needed || bytes[b] in Writers(m, b))
    && (forall b: nat, s :: s in Writers(m, b) ==> b in bytes && bytes[b] == s)
  }

  ghost predicate Tracked(t: Tracker, mem: Memory)
    reads t
  {
    |mem| == |t.maps| && forall p :: 0 <= p < |mem| ==> TrackedMap(t.maps[p], mem[p], t.needed)
  }

  /** Some read of the run sees a byte last written by `s`. */
  ghost predicate Observed(run: seq<Event>, s: StoreId)
    requires WellFormed(run)
  {
    exists k, b :: Sees(run, k, b, s)
  }

  ghost predicate Sees(run: seq<Event>, k: nat, b: nat, s: StoreId)
    requires WellFormed(run)
  {
    && k < |run| && run[k].Read? && run[k].off <= b < run[k].off + run[k].size
    && (PrefixWellFormed(run, k); WriterOf(Execute(run[..k], {}), run[k].view, b) == Some(s))
  }

  /** `s` is the last writer of some byte when the run ends. */
  ghost predicate Standing(run: seq<Event>, s: StoreId)
    requires WellFormed(run)
  {
    exists p: nat, b: nat :: WriterOf(Execute(run, {}), p, b) == Some(s)
  }

  method RunWrite(t: Tracker, e: Event, ghost mem: Memory)
    requires t.Valid() && Tracked(t, mem) && e.Write? && e.view < |t.maps| && e.size > 0 && e.id !in t.created
    modifies t
    ensures t.Valid() && Tracked(t, Step(mem, e, {}))
    ensures t.needed == old(t.needed) && t.created == old(t.created) + {e.id}
  {
    t.SetWriter(e.view, e.off, e.size, e.id);
  }

  method RunRead(t: Tracker, e: Event, ghost mem: Memory)
    requires t.Valid() && Tracked(t, mem) && e.Read? && e.view < |t.maps|
    modifies t
    ensures t.Valid() && Tracked(t, mem)
    ensures old(t.needed) <= t.needed && t.created == old(t.created)
    ensures forall b :: e.off <= b < e.off + e.size && b in mem[e.view] ==> mem[e.view][b] in t.needed
    ensures e.size > 0 ==>
              forall s :: s in t.needed && s !in old(t.needed) ==>
                exists b: nat :: e.off <= b < e.off + e.size && WriterOf(mem, e.view, b) == Some(s)
  {
    ghost var m := t.maps[e.view];
    assert Sorted(m);
    assert TrackedMap(m, mem[e.view], t.needed);
    t.UseWriters(e.view, e.off, e.size);
    assert Sorted(t.maps[e.view]);
    UseTracked(m, t.maps[e.view], mem[e.view], old(t.needed), t.needed, e.off, e.off + e.size);
    if e.size > 0 {
      forall s | s in t.needed && s !in old(t.needed)
        ensures exists b: nat :: e.off <= b < e.off + e.size && WriterOf(mem, e.view, b) == Some(s)
      {
        var b: nat :| e.off <= b < e.off + e.size && b in mem[e.view] && mem[e.view][b] == s;
        assert WriterOf(mem, e.view, b) == Some(s);
      }
    }
  }

  /** What `useWriters` does to one map, seen through the bytes it tracks. */
  lemma UseTracked(m: DseMap, m': DseMap, bytes: map<nat, StoreId>, needed: set<StoreId>, needed': set<StoreId>,
                   lo: nat, hi: nat)
    requires Sorted(m) && Sorted(m') && TrackedMap(m, bytes, needed)
    requires forall x :: x in m' <==> x in m && !Overlaps(x, lo, hi)
    requires forall s :: s in needed' <==>
                         s in needed || exists x :: x in m && Overlaps(x, lo, hi) && s in x.val
    ensures TrackedMap(m', bytes, needed')
    ensures forall b :: lo <= b < hi && b in bytes ==> bytes[b] in needed'
    ensures lo < hi ==> forall s :: s in needed' && s !in needed ==>
                          exists b: nat :: lo <= b < hi && b in bytes && bytes[b] == s
  {
    forall b: nat
      ensures b in bytes ==> bytes[b] in needed' || bytes[b] in Writers(m', b)
      ensures lo <= b < hi && b in bytes ==> bytes[b] in needed'
      ensures forall s :: s in Writers(m', b) ==> s in Writers(m, b)
    {
      UseKeeps(m, m', lo, hi, b);
    }
    if lo < hi {
      forall s | s in needed' && s !in needed
        ensures exists b: nat :: lo <= b < hi && b in bytes && bytes[b] == s
      {
        var x :| x in m && Overlaps(x, lo, hi) && s in x.val;
        var i :| 0 <= i < |m| && m[i] == x;
        var b := if x.start < lo then lo else x.start;
        AtHit(m, i, b);
        assert s in Writers(m, b);
      }
    }
  }

  /** After `useWriters` a byte is named as before, unless its extent met the bytes read. */
  lemma UseKeeps(m: DseMap, m': DseMap, lo: nat, hi: nat, b: nat)
    requires Sorted(m) && Sorted(m')
    requires forall x :: x in m' <==> x in m && !Overlaps(x, lo, hi)
    ensures var x := At(m, b);
            x.Some? ==> if Overlaps(x.value, lo, hi) then x.value in m && x.value.val == Writers(m, b)
                        else Writers(m', b) == Writers(m, b)
    ensures At(m, b).Some? && lo <= b < hi ==> Overlaps(At(m, b).value, lo, hi)
    ensures forall s :: s in Writers(m', b) ==> s in Writers(m, b)
  {
    var x := At(m, b);
    var x' := At(m', b);
    if x'.Some? {
      var i :| 0 <= i < |m| && m[i] == x'.value;
      AtHit(m, i, b);
    }
    if x.Some? && !Overlaps(x.value, lo, hi) {
      var i :| 0 <= i < |m'| && m'[i] == x.value;
      AtHit(m', i, b);
    }
  }

  method RunFork(t: Tracker, e: Event, ghost mem: Memory)
    requires t.Valid() && Tracked(t, mem) && e.Fork? && e.view < |t.maps|
    modifies t
    ensures t.Valid() && Tracked(t, Step(mem, e, {}))
    ensures t.needed == old(t.needed) && t.created == old(t.created)
  {
    ghost var m := t.maps[e.view];
    assert Sorted(m);
    var q := t.GetReadableCopy(e.view);
    forall b: nat ensures Writers(Collected(m, t.needed), b) == Without(Writers(m, b), t.needed) {
      CollectedWriters(m, t.needed, b);
    }
  }

  method RunFree(t: Tracker, e: Event, ghost mem: Memory)
    requires t.Valid() && Tracked(t, mem) && e.Free? && e.view < |t.maps|
    modifies t
    ensures t.Valid() && Tracked(t, Step(mem, e, {}))
    ensures t.needed == old(t.needed) && t.created == old(t.created)
  {
    t.Release(e.view);
  }

  method RunAlloc(t: Tracker, e: Event, ghost mem: Memory)
    requires t.Valid() && Tracked(t, mem) && e.Alloc?
    modifies t
    ensures t.Valid() && Tracked(t, Step(mem, e, {}))
    ensures t.needed == old(t.needed) && t.created == old(t.created)
  {
    t.AddMap();
    forall b: nat ensures Writers([], b) == [] {
      AtMiss<Entry>([], b);
    }
  }

  /** An event makes needed exactly the writers of the bytes it reads. */
  ghost predicate Served(mem: Memory, e: Event, before: set<StoreId>, after: set<StoreId>)
    requires Known(e, |mem|)
  {
    && (e.Read? ==>
          forall b :: e.off <= b < e.off + e.size && b in mem[e.view] ==> mem[e.view][b] in after)
    && (!(e.Read? && e.size == 0) ==>
          forall s :: s in after && s !in before ==>
            e.Read? && exists b: nat :: e.off <= b < e.off + e.size && WriterOf(mem, e.view, b) == Some(s))
  }

  method RunEvent(t: Tracker, e: Event, ghost mem: Memory)
    requires t.Valid() && Tracked(t, mem) && Known(e, |t.maps|)
    requires e.Write? ==> e.size > 0 && e.id !in t.created
    modifies t
    ensures t.Valid() && Tracked(t, Step(mem, e, {}))
    ensures old(t.needed) <= t.needed
    ensures t.created == old(t.created) + if e.Write? then {e.id} else {}
    ensures Served(mem, e, old(t.needed), t.needed)
  {
    match e {
      case Write(_, _, _, _) => RunWrite(t, e, mem);
      case Read(_, _, _) => RunRead(t, e, mem);
      case Fork(_) => RunFork(t, e, mem);
      case Free(_) => RunFree(t, e, mem);
      case Alloc => RunAlloc(t, e, mem);
    }
  }

  /** Event `k` of a run, on a tracker that has run the events before it. */
  method RunAt(t: Tracker, run: seq<Event>, k: nat)
    requires WellFormed(run) && k < |run| && WellFormed(run[..k])
    requires t.Valid() && Tracked(t, Execute(run[..k], {})) && t.created == Ids(run[..k])
    requires Accounted(run, k, t.needed)
    modifies t
    ensures WellFormed(run[..k + 1])
    ensures t.Valid() && Tracked(t, Execute(run[..k + 1], {})) && t.created == Ids(run[..k + 1])
    ensures Accounted(run, k + 1, t.needed)
  {
    PrefixWellFormed(run, k + 1);
    assert run[..k + 1][..k] == run[..k] && run[..k + 1][k] == run[k];
    ghost var before := t.needed;
    ghost var mem := Execute(run[..k], {});
    RunEvent(t, run[k], mem);
    AccountedStep(run, k, before, t.needed);
  }

  /** Track a whole run. Deleting the killed stores preserves meaning: every read of the run still
      sees the writers it saw before. And, when reads are not empty, nothing is missed: the killed
      stores are exactly those that no read saw and that no longer stand anywhere at the end. */
  method TrackRun(run: seq<Event>) returns (killed: set<StoreId>)
    requires WellFormed(run)
    ensures forall k :: 0 <= k < |run| ==> WellFormed(run[..k]) && ReadUnchanged(run, k, killed)
    ensures NonEmptyReads(run) ==>
              forall s :: s in killed <==> s in Ids(run) && !Observed(run, s) && !Standing(run, s)
  {
    var t := new Tracker();
    var k := 0;
    assert run[..0] == [];
    while k < |run|
      invariant 0 <= k <= |run| && WellFormed(run[..k]) && fresh(t)
      invariant t.Valid() && Tracked(t, Execute(run[..k], {})) && t.created == Ids(run[..k])
      invariant Accounted(run, k, t.needed)
    {
      RunAt(t, run, k);
      k := k + 1;
    }
    killed := t.killed;
    assert run[..k] == run;
    Deletable(run, t.needed, killed);
    KilledExactly(t, run);
  }

  lemma KilledExactly(t: Tracker, run: seq<Event>)
    requires WellFormed(run) && t.Valid() && Tracked(t, Execute(run, {})) && t.created == Ids(run)
    requires Accounted(run, |run|, t.needed)
    ensures NonEmptyReads(run) ==>
              forall s :: s in t.killed <==> s in Ids(run) && !Observed(run, s) && !Standing(run, s)
  {
    if NonEmptyReads(run) {
      forall s ensures s in t.killed <==> s in Ids(run) && !Observed(run, s) && !Standing(run, s) {
        if Observed(run, s) {
          ObservedIsNeeded(run, s, t.needed);
        }
        if Standing(run, s) {
          StandingIsHeld(t, run, s);
        }
        DeadIsKilled(t, run, s);
      }
    }
  }

  ghost predicate NonEmptyReads(run: seq<Event>)
  {
    forall k :: 0 <= k < |run| && run[k].Read? ==> run[k].size > 0
  }

  /** Everything the first `k` events read is needed, and nothing else is. */
  ghost predicate Accounted(run: seq<Event>, k: nat, needed: set<StoreId>)
    requires WellFormed(run)
  {
    && (forall n :: 0 <= n < k < |run| + 1 ==> WellFormed(run[..n]) && ReadNeeded(run, n, needed))
    && (NonEmptyReads(run) ==> forall s :: s in needed ==> Observed(run, s))
  }

  lemma AccountedStep(run: seq<Event>, k: nat, before: set<StoreId>, needed: set<StoreId>)
    requires WellFormed(run) && k < |run| && WellFormed(run[..k]) && Known(run[k], Views(run[..k]))
    requires Accounted(run, k, before) && before <= needed
    requires Served(Execute(run[..k], {}), run[k], before, needed)
    ensures Accounted(run, k + 1, needed)
  {
    if NonEmptyReads(run) {
      forall s | s in needed && s !in before ensures Observed(run, s) {
        var b: nat :| run[k].off <= b < run[k].off + run[k].size
                      && WriterOf(Execute(run[..k], {}), run[k].view, b) == Some(s);
        assert Sees(run, k, b, s);
      }
    }
    forall n | 0 <= n < k ensures ReadNeeded(run, n, needed) {
      assert ReadNeeded(run, n, before);
    }
  }

  lemma Deletable(run: seq<Event>, needed: set<StoreId>, deleted: set<StoreId>)
    requires WellFormed(run) && Accounted(run, |run|, needed) && needed !! deleted
    ensures forall k :: 0 <= k < |run| ==> WellFormed(run[..k]) && ReadUnchanged(run, k, deleted)
  {
    forall k | 0 <= k < |run| ensures WellFormed(run[..k]) && ReadUnchanged(run, k, deleted) {
      assert ReadNeeded(run, k, needed);
      NeededUnchanged(run, k, needed, deleted);
    }
  }

  lemma ObservedIsNeeded(run: seq<Event>, s: StoreId, needed: set<StoreId>)
    requires WellFormed(run) && Accounted(run, |run|, needed) && Observed(run, s)
    ensures s in needed
  {
    var k, b :| Sees(run, k, b, s);
    assert ReadNeeded(run, k, needed);
  }

  lemma StandingIsHeld(t: Tracker, run: seq<Event>, s: StoreId)
    requires WellFormed(run) && t.Valid() && Tracked(t, Execute(run, {})) && Standing(run, s)
    ensures s in t.needed || s in t.stores
  {
    var mem := Execute(run, {});
    var p: nat, b: nat :| WriterOf(mem, p, b) == Some(s);
    assert TrackedMap(t.maps[p], mem[p], t.needed);
    if s !in t.needed {
      NamedAt(t, p, b, s);
    }
  }

  lemma DeadIsKilled(t: Tracker, run: seq<Event>, s: StoreId)
    requires WellFormed(run) && t.Valid() && Tracked(t, Execute(run, {})) && t.created == Ids(run)
    requires Accounted(run, |run|, t.needed) && NonEmptyReads(run)
    ensures s in Ids(run) && !Observed(run, s) && !Standing(run, s) ==> s in t.killed
  {
    t.FreedExactly(s);
    var mem := Execute(run, {});
    if s in t.stores {
      var p, i :| 0 <= p < |t.maps| && 0 <= i < |t.maps[p]| && s in t.maps[p][i].val;
      assert Sorted(t.maps[p]);
      var b := t.maps[p][i].start;
      AtHit(t.maps[p], i, b);
      assert s in Writers(t.maps[p], b);
      assert TrackedMap(t.maps[p], mem[p], t.needed);
      assert WriterOf(mem, p, b) == Some(s);
    }
  }

  lemma NamedAt(t: Tracker, p: nat, b: nat, s: StoreId)
    requires t.Valid() && p < |t.maps| && s in Writers(t.maps[p], b)
    ensures s in t.stores
  {
    var x := At(t.maps[p], b).value;
    var i :| 0 <= i < |t.maps[p]| && t.maps[p][i] == x;
    t.NamedIsLive(p, i);
  }

  /** Every writer the read at `k` sees is needed. */
  ghost predicate ReadNeeded(run: seq<Event>, k: nat, needed: set<StoreId>)
    requires k < |run| && WellFormed(run[..k])
  {
    run[k].Read? ==>
      forall b: nat :: run[k].off <= b < run[k].off + run[k].size ==>
        var w := WriterOf(Execute(run[..k], {}), run[k].view, b);
        w.Some? ==> w.value in needed
  }

  lemma NeededUnchanged(run: seq<Event>, k: nat, needed: set<StoreId>, deleted: set<StoreId>)
    requires k < |run| && WellFormed(run[..k]) && ReadNeeded(run, k, needed) && needed !! deleted
    ensures ReadUnchanged(run, k, deleted)
  {
    if run[k].Read? {
      forall b: nat | run[k].off <= b < run[k].off + run[k].size
        ensures WriterOf(Execute(run[..k], deleted), run[k].view, b) == WriterOf(Execute(run[..k], {}), run[k].view, b)
      {
        KeptWriter(run[..k], deleted, run[k].view, b);
      }
    }
  }
}
