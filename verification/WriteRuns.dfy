/** Whole runs of range writes on one map: what the bytes read as, and what the coverage counter
    says (llpe/main/LoadForward.cpp:1787-1922). */
module WriteRuns {
  import opened Options
  import opened Extents
  import opened SymbolicValues
  import opened SubValues
  import opened ValueCuts
  import opened RangeClears
  import opened LayeredStore
  import opened StoreCollapse

  /** Flat memory: a byte holds what the last write that covers it put there. */
  function FlatAfter(writes: Pieces, was: Abs, b: nat): Abs
    decreases |writes|
  {
    if writes == [] then was else FlatAfter(writes[1..], FlatOne(writes[0], was, b), b)
  }

  /** One write. */
  function FlatOne(e: Extent<Val>, was: Abs, b: nat): Abs
  {
    if e.start <= b < e.stop then ByteAt(e.val, b - e.start) else was
  }

  /** What a map over `below` says of a byte. */
  function Over(m: Pieces, below: Abs, b: nat): Abs
  {
    if Peek(m, b).Some? then Peek(m, b).value else below
  }

  lemma FlatOneMono(e: Extent<Val>, x: Abs, y: Abs, b: nat, exact: bool)
    requires var stands := StandsAt(x, y, exact); stands
    ensures var stands := StandsAt(FlatOne(e, x, b), FlatOne(e, y, b), exact); stands
  {
    if e.start <= b < e.stop {
      StandsSelf(FlatOne(e, x, b));
    }
  }

  lemma {:induction false} FlatMono(writes: Pieces, x: Abs, y: Abs, b: nat, exact: bool)
    requires var stands := StandsAt(x, y, exact); stands
    ensures var stands := StandsAt(FlatAfter(writes, x, b), FlatAfter(writes, y, b), exact); stands
    decreases |writes|
  {
    if writes != [] {
      FlatOneMono(writes[0], x, y, b, exact);
      FlatMono(writes[1..], FlatOne(writes[0], x, b), FlatOne(writes[0], y, b), b, exact);
    }
  }

  /** Writes that may be made one after another on an object of `end` bytes. */
  ghost predicate Writable(m: Pieces, writes: Pieces, end: nat)
  {
    && Sorted(m) && Within(m, 0, end) && AllFit(m) && MayOverlay(m, writes)
    && AllFit(writes) && Within(writes, 0, end)
  }

  lemma WritableNext(m: Pieces, writes: Pieces, end: nat)
    requires writes != [] && var ok := Writable(m, writes, end); ok
    ensures var e := writes[0];
            && e.start < e.stop <= end && Fits(e.val, e.stop - e.start) && (var may := MayWrite(m, e.start, e.stop, end, [e]); may)
            && (var ok := Writable(WrittenMap(m, e.start, e.stop, [e]), writes[1..], end); ok)
  {
    var e := writes[0];
    assert e in writes && ExtentFits(e);
    assert forall i :: 0 <= i < |writes[1..]| ==> writes[1..][i] == writes[i + 1];
    MayWriteOne(m, e.start, e.stop, end, end, e.val);
    assert Extent(e.start, e.stop, e.val) == e;
    Written(m, e.start, e.stop, end, [e], 0);
    WrittenFits(m, e.start, e.stop, end, [e]);
  }

  lemma FlatStep(m: Pieces, e: Extent<Val>, end: nat, b: nat, below: Abs)
    requires var may := MayWrite(m, e.start, e.stop, end, [e]); may
    ensures var stands := StandsAt(Over(WrittenMap(m, e.start, e.stop, [e]), below, b), FlatOne(e, Over(m, below, b), b), StepExact(m, e)); stands
  {
    WrittenLook(m, e.start, e.stop, end, [e], b, below);
    OneByte(e, b);
    WrittenFlat(Over(WrittenMap(m, e.start, e.stop, [e]), below, b), m, e, b, below);
  }

  lemma OneByte(e: Extent<Val>, b: nat)
    requires e.start <= e.stop
    ensures e.start <= b < e.stop ==> Peek([e], b) == Some(ByteAt(e.val, b - e.start))
  {
    if e.start <= b < e.stop {
      OnlyAt(e, b);
    }
  }

  lemma WrittenFlat(now: Abs, m: Pieces, e: Extent<Val>, b: nat, below: Abs)
    requires e.start <= b < e.stop ==> Peek([e], b) == Some(ByteAt(e.val, b - e.start))
    requires var ok := ReadsWritten(now, Over(m, below, b), m, e.start, e.stop, [e], b); ok
    ensures var stands := StandsAt(now, FlatOne(e, Over(m, below, b), b), StepExact(m, e)); stands
  {
    var lo, hi := e.start, e.stop;
    if lo <= b < hi {
      StandsSelf(now);
    } else {
      WrittenOutside(now, Over(m, below, b), m, lo, hi, [e], b);
    }
  }

  lemma WrittenOutside(now: Abs, was: Abs, m: Pieces, lo: nat, hi: nat, fill: Pieces, b: nat)
    requires !(lo <= b < hi) && var ok := ReadsWritten(now, was, m, lo, hi, fill, b); ok
    ensures var stands := StandsAt(now, was, LeftExact(m, lo) && RightExact(m, hi)); stands
  {
    StandsEither(now, was, Straddles(m, lo, hi, b), b < lo, LeftExact(m, lo), RightExact(m, hi));
  }

  lemma StandsEither(now: Abs, was: Abs, straddles: bool, left: bool, exL: bool, exR: bool)
    requires if straddles then StandsAt(now, was, if left then exL else exR) else now == was
    ensures var stands := StandsAt(now, was, exL && exR); stands
  {
    StandsSelf(was);
  }

  /** Any run of range writes stands for the same run on flat memory: each byte allows what the last
      write covering it put there, and `exact` says that it allows just that, which holds when no value
      is partly overwritten in a way that loses something. */
  lemma {:induction false} RunIsFlat(m: Pieces, writes: Pieces, end: nat, b: nat, below: Abs, exact: bool)
    requires (exact ==> OverlayExact(m, writes)) && var ok := Writable(m, writes, end); ok
    ensures var stands := StandsAt(Over(OverlayMap(m, writes), below, b), FlatAfter(writes, Over(m, below, b), b), exact); stands
    decreases |writes|
  {
    if writes == [] {
      StandsSelf(Over(m, below, b));
    } else {
      var m1 := WrittenMap(m, writes[0].start, writes[0].stop, [writes[0]]);
      OverlayExactNext(m, writes);
      StepBoth(m, writes, end, b, below, m1, exact);
      RunIsFlat(m1, writes[1..], end, b, below, exact);
      OverlayMapNext(m, writes);
      RunThen(Over(OverlayMap(m, writes), below, b), writes, b, Over(m1, below, b), Over(m, below, b), exact);
    }
  }

  lemma RunThen(now: Abs, writes: Pieces, b: nat, mid: Abs, was: Abs, exact: bool)
    requires writes != []
    requires var stands := StandsAt(mid, FlatOne(writes[0], was, b), exact); stands
    requires var stands := StandsAt(now, FlatAfter(writes[1..], mid, b), exact); stands
    ensures var stands := StandsAt(now, FlatAfter(writes, was, b), exact); stands
  {
    var step, rest := FlatOne(writes[0], was, b), writes[1..];
    FlatMono(rest, mid, step, b, exact);
    StandsTrans(now, FlatAfter(rest, mid, b), FlatAfter(rest, step, b), exact, exact);
  }

  lemma StepBoth(m: Pieces, writes: Pieces, end: nat, b: nat, below: Abs, m1: Pieces, exact: bool)
    requires writes != [] && (exact ==> StepExact(m, writes[0])) && var ok := Writable(m, writes, end); ok
    requires m1 == WrittenMap(m, writes[0].start, writes[0].stop, [writes[0]])
    ensures var ok := Writable(m1, writes[1..], end); ok
    ensures var stands := StandsAt(Over(m1, below, b), FlatOne(writes[0], Over(m, below, b), b), exact); stands
  {
    WritableNext(m, writes, end);
    FlatStep(m, writes[0], end, b, below);
    StandsWeaker(Over(m1, below, b), FlatOne(writes[0], Over(m, below, b), b), StepExact(m, writes[0]), exact);
  }

  /** A run of in-bounds writes on a fresh map. The counter is exact throughout, so the store below is
      dropped only when it hides nothing, and every byte reads as flat memory would have it. */
  method Run(size: nat, under: Option<Store>, writes: Pieces, ghost ms: seq<Multi>) returns (m: Multi, ghost now: seq<Multi>)
    requires 0 < size < UNKNOWN_SIZE && Chain(under, ms) && var ok := Writable([], writes, size); ok
    ensures m.Shaped() && m.allocSize == size && m.covered == Total(m.extents)
    ensures Chain(Some(Layer(m)), now) && (m.under != under ==> m.covered == size) && m.extents == OverlayMap([], writes)
    ensures forall b: nat :: b < size ==>
              StandsAt(Look(Some(Layer(m)), now, b), FlatAfter(writes, old(Look(under, ms, b)), b), OverlayExact([], writes))
  {
    ghost var below := map b: nat | b < size :: Look(under, ms, b);
    m := RunFresh(size, under, writes, ms, below);
    now := if m.under == under then [m] + ms else [m];
    RunReads(m, now, under, ms, writes, size, below);
  }

  /** A map of `size` bytes whose counter is exact, over what it lay over unless it covers every byte. */
  ghost predicate Exact(m: Multi, size: nat, under: Option<Store>)
    reads m
  {
    && m.Shaped() && m.Counted() && m.allocSize == size && m.covered == Total(m.extents)
    && (m.under == under || (m.under == None && m.covered == size))
  }

  /** The writes on a new map, which change nothing below it. */
  method RunFresh(size: nat, under: Option<Store>, writes: Pieces, ghost ms: seq<Multi>, ghost below: map<nat, Abs>) returns (m: Multi)
    requires 0 < size < UNKNOWN_SIZE && Reads(under, ms, size, below) && var ok := Writable([], writes, size); ok
    ensures fresh(m) && m.extents == OverlayMap([], writes) && var exact := Exact(m, size, under); exact
    ensures var ok := Reads(under, ms, size, below); ok
  {
    m := Fresh(size, under);
    RunAll(m, writes, size, under);
  }

  /** A new map over a store. */
  method Fresh(size: nat, under: Option<Store>) returns (m: Multi)
    requires size < U64
    ensures fresh(m) && m.extents == [] && var exact := Exact(m, size, under); exact
  {
    m := new Multi(size);
    m.under := under;
  }

  /** What the bytes read as after a run on a fresh map. */
  lemma RunReads(m: Multi, now: seq<Multi>, under: Option<Store>, ms: seq<Multi>, writes: Pieces, size: nat, below: map<nat, Abs>)
    requires Reads(under, ms, size, below) && m.extents == OverlayMap([], writes) && var ok := Writable([], writes, size); ok
    requires var exact := Exact(m, size, under); exact
    requires now == if m.under == under then [m] + ms else [m]
    ensures Chain(Some(Layer(m)), now)
    ensures forall b: nat :: b < size ==>
              StandsAt(Look(Some(Layer(m)), now, b), FlatAfter(writes, below[b], b), OverlayExact([], writes))
  {
    assert now[1..] == if m.under == under then ms else [];
    TopChain(m, now);
    forall b: nat | b < size ensures StandsAt(Look(Some(Layer(m)), now, b), FlatAfter(writes, below[b], b), OverlayExact([], writes)) {
      if m.under != under {
        FullyCovered(m.extents, size, b);
      }
      FreshLook(m, now, under, ms, writes, size, b);
    }
  }

  lemma FreshLook(m: Multi, now: seq<Multi>, under: Option<Store>, ms: seq<Multi>, writes: Pieces, size: nat, b: nat)
    requires Chain(Some(Layer(m)), now) && Chain(under, ms) && m.extents == OverlayMap([], writes)
    requires (m.under == under && now[1..] == ms) || Peek(m.extents, b).Some?
    requires var ok := Writable([], writes, size); ok
    ensures var stands := StandsAt(Look(Some(Layer(m)), now, b), FlatAfter(writes, Look(under, ms, b), b), OverlayExact([], writes)); stands
  {
    TopOver(m, now, under, ms, b, Look(under, ms, b));
    FreshRun(writes, size, b, Look(under, ms, b));
  }

  /** The writes, one after another. */
  method RunAll(m: Multi, writes: Pieces, size: nat, ghost under: Option<Store>)
    requires size < UNKNOWN_SIZE && var exact := Exact(m, size, under); exact
    requires var ok := Writable(m.extents, writes, size); ok
    modifies m`extents, m`covered, m`allocSize, m`under
    ensures m.extents == OverlayMap(old(m.extents), writes) && var exact := Exact(m, size, under); exact
  {
    assert writes[0..] == writes;
    var i := 0;
    while i < |writes|
      invariant 0 <= i <= |writes| && var exact := Exact(m, size, under); exact
      invariant OverlayMap(m.extents, writes[i..]) == OverlayMap(old(m.extents), writes)
      invariant var ok := Writable(m.extents, writes[i..], size); ok
    {
      RunStep(m, writes[i..], size, under);
      assert writes[i..][1..] == writes[i + 1..];
      i := i + 1;
    }
  }

  lemma FreshRun(writes: Pieces, size: nat, b: nat, below: Abs)
    requires var ok := Writable([], writes, size); ok
    ensures var stands := StandsAt(Over(OverlayMap([], writes), below, b), FlatAfter(writes, below, b), OverlayExact([], writes)); stands
  {
    RunIsFlat([], writes, size, b, below, OverlayExact([], writes));
    PeekNone([], b);
  }

  method RunStep(m: Multi, writes: Pieces, size: nat, ghost under: Option<Store>)
    requires size < UNKNOWN_SIZE && writes != [] && var exact := Exact(m, size, under); exact
    requires var ok := Writable(m.extents, writes, size); ok
    modifies m`extents, m`covered, m`allocSize, m`under
    ensures m.extents == WrittenMap(old(m.extents), writes[0].start, writes[0].stop, [writes[0]])
    ensures var exact := Exact(m, size, under); exact
    ensures var ok := Writable(m.extents, writes[1..], size); ok
  {
    var e := writes[0];
    WritableNext(m.extents, writes, size);
    StaysFull(m.extents, e, size);
    m.Put(e, size);
  }

  /** A map that covers every byte still does after a write. */
  lemma StaysFull(m: Pieces, e: Extent<Val>, size: nat)
    requires var may := MayWrite(m, e.start, e.stop, size, [e]); may
    ensures Total(m) == size ==> Total(WrittenMap(m, e.start, e.stop, [e])) == size
  {
    WrittenTotal(m, e.start, e.stop, size, [e]);
    Written(m, e.start, e.stop, size, [e], 0);
    WrittenFits(m, e.start, e.stop, size, [e]);
    TotalBound(WrittenMap(m, e.start, e.stop, [e]), 0, size);
  }
}
