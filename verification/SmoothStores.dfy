/** Stores of values that can be cut anywhere. What the range writes, the collapsing of layers and the
    readers ask of a store while they work follows from what values it holds to begin with, and from
    no write punching a hole in a value that cannot be truncated. */
module SmoothStores {
  import opened Options
  import opened Extents
  import opened SymbolicValues
  import opened SubValues
  import opened ValueCuts
  import opened RangeClears
  import opened LayeredStore
  import opened Stacks
  import opened StoreCollapse
  import opened WriteRuns
  import opened SmoothValues

  // ----- reading

  lemma SmoothPartsAt(e: Extent<Val>, cuts: iset<nat>)
    requires ExtentFits(e) && SmoothVal(e.val)
    ensures Parts(e, cuts)
  {
    forall lo: nat, hi: nat | lo in cuts && hi in cuts && e.start <= lo < hi <= e.stop ensures PartsAt(e, lo, hi) {
      SmoothTakes(e.val, e.stop - e.start, lo - e.start, hi - lo);
    }
  }

  /** Smooth values may be cut anywhere. */
  lemma SlicesAnywhere(v: Val, start: nat, stop: nat, cuts: iset<nat>)
    requires start < stop && Fits(v, stop - start) && SmoothVal(v) && forall x: nat :: x in cuts
    ensures var ok := Slices(v, start, stop, cuts); ok
  {
    SmoothPartsAt(Extent(start, stop, v), cuts);
    forall lo: nat, hi: nat | lo in cuts && hi in cuts && start <= lo < hi <= stop ensures SlicesAt(v, start, stop, lo, hi, cuts) {
      SmoothSlice(v, start, stop, lo, hi, cuts);
    }
  }

  lemma SmoothSlice(v: Val, start: nat, stop: nat, lo: nat, hi: nat, cuts: iset<nat>)
    requires start <= lo < hi <= stop && Fits(v, stop - start) && SmoothVal(v) && forall x: nat :: x in cuts
    ensures var ok := SlicesAt(v, start, stop, lo, hi, cuts); ok
  {
    var len, off, n := stop - start, lo - start, hi - lo;
    SmoothTakes(v, len, off, n);
    SubValsKeep(v, len, off, n, start);
    SubValsSmooth(v, len, off, n, start);
    KeptClipped(IvsSubVals(v, len, off, n, start), start + off, start + off + n, v, start, LosesNothing(v, len, off, n), cuts);
  }

  lemma KeptClipped(pieces: Pieces, lo: nat, hi: nat, v: Val, start: nat, exact: bool, cuts: iset<nat>)
    requires SmoothParts(pieces) && (forall x: nat :: x in cuts) && var keeps := Keeps(pieces, lo, hi, v, start, exact); keeps
    ensures Clipped(pieces, cuts)
  {
    forall e | e in pieces ensures ClippedOne(e, cuts) {
      assert Stands(e, v, start, exact);
      SmoothPartsAt(e, cuts);
    }
  }

  /** Every layer is in order, and every value describes its bytes and is smooth. */
  ghost predicate SmoothStack(st: Stack, size: nat)
  {
    match st
    case Nothing => true
    case Bottom(v) => v.kind == KDeallocated || (size > 0 && Fits(v, size) && SmoothVal(v))
    case Over(top, rest) => Sorted(top) && AllFit(top) && SmoothParts(top) && SmoothStack(rest, size)
    case Threshold(rest) => true
  }

  /** A stack of smooth values may be read and joined with any other. */
  lemma {:induction false} SmoothStackSlices(st: Stack, size: nat, cuts: iset<nat>)
    requires SmoothStack(st, size) && forall x: nat :: x in cuts
    ensures StackSlices(st, size, cuts)
    decreases st
  {
    match st
    case Nothing =>
    case Bottom(v) =>
      if v.kind != KDeallocated {
        SlicesAnywhere(v, 0, size, cuts);
      }
    case Over(top, rest) =>
      forall e | e in top ensures e.start in cuts && e.stop in cuts && Slices(e.val, e.start, e.stop, cuts) {
        assert ExtentFits(e) && SmoothVal(e.val);
        SlicesAnywhere(e.val, e.start, e.stop, cuts);
      }
      SmoothStackSlices(rest, size, cuts);
    case Threshold(_) =>
  }

  // ----- writing one extent

  /** Every value of the map may be cut, and is of the grade. */
  ghost predicate AllEasy(m: Pieces, g: Grade)
  {
    forall e {:trigger EasyExtent(e, g)} :: e in m ==> EasyExtent(e, g)
  }

  predicate EasyExtent(e: Extent<Val>, g: Grade)
  {
    ExtentFits(e) && Easy(e.val) && Graded(e.val, g)
  }

  /** The write punches a hole in the extent. */
  predicate Punches(w: Extent<Val>, e: Extent<Val>)
  {
    e.start < w.start && w.stop < e.stop
  }

  predicate Meets(w: Extent<Val>, e: Extent<Val>)
  {
    w.start < e.stop && e.start < w.stop
  }

  lemma EasyKept(e: Extent<Val>, lo: nat, hi: nat, g: Grade)
    requires EasyExtent(e, g) && e.start <= lo < hi <= e.stop
    ensures (var may := MayKeep(e, lo, hi); may) && (var rest := AllRest(Kept(e, lo, hi), g); rest)
    ensures g.lossless ==> var whole := KeptWhole(e, lo, hi); whole
  {
    if CanTruncate(e.val) {
      EasyTruncated(e, lo, hi, g);
    } else {
      assert Rest(Val(e.val.kind, [], true), g);
    }
  }

  lemma EasyTruncated(e: Extent<Val>, lo: nat, hi: nat, g: Grade)
    requires EasyExtent(e, g) && e.start <= lo < hi <= e.stop && CanTruncate(e.val)
    ensures (var may := MayKeep(e, lo, hi); may) && (var rest := AllRest(Kept(e, lo, hi), g); rest)
    ensures g.lossless ==> var whole := KeptWhole(e, lo, hi); whole
  {
    var len, off, n := e.stop - e.start, lo - e.start, hi - lo;
    EasyCut(e.val, len, off, n, e.start);
    assert var ready := CanCutTo(e.val, len, off, n); ready;
    CutRest(e.val, len, off, n, e.start, g);
    TruncatedIs(e, lo, hi);
  }

  lemma TruncatedIs(e: Extent<Val>, lo: nat, hi: nat)
    requires e.start <= lo < hi <= e.stop && CanTruncate(e.val) && MayKeep(e, lo, hi)
    ensures Kept(e, lo, hi) == Truncated(e.val, e.stop - e.start, lo - e.start, hi - lo, e.start)
  {
  }

  lemma CutRest(v: Val, len: nat, off: nat, n: nat, start: nat, g: Grade)
    requires Easy(v) && Graded(v, g) && var ready := CanCutTo(v, len, off, n); ready
    ensures var rest := AllRest(Truncated(v, len, off, n, start), g); rest
  {
    TruncatedEasy(v, len, off, n, start);
    RestWeaker(Truncated(v, len, off, n, start), Grade(Lossless(v), !v.WhollyUnknown()), g);
  }

  lemma RestWeaker(pieces: Pieces, strong: Grade, weak: Grade)
    requires AllRest(pieces, strong) && (weak.lossless ==> strong.lossless) && (weak.known ==> strong.known)
    ensures AllRest(pieces, weak)
  {
    forall e | e in pieces ensures Rest(e.val, weak) {
      assert Rest(e.val, strong);
    }
  }

  /** A write that punches no hole in a value that cannot be truncated may be made. */
  lemma EasyClear(m: Pieces, w: Extent<Val>, g: Grade)
    requires Sorted(m) && AllEasy(m, g) && w.start < w.stop
    requires forall e :: e in m && !CanTruncate(e.val) ==> !Punches(w, e)
    ensures var may := MayClear(m, w.start, w.stop); may
    ensures g.lossless ==> StepExact(m, w)
  {
    forall e | LeftOf(m, w.start) == Some(e) ensures MayKeep(e, e.start, w.start) && (g.lossless ==> KeptWhole(e, e.start, w.start)) {
      assert e in m && EasyExtent(e, g);
      EasyKept(e, e.start, w.start, g);
    }
    forall e | LeftOf(m, w.stop) == Some(e) ensures MayKeep(e, w.stop, e.stop) && (g.lossless ==> KeptWhole(e, w.stop, e.stop)) {
      assert e in m && EasyExtent(e, g);
      EasyKept(e, w.stop, e.stop, g);
    }
  }

  /** An extent of a written map is what was written, an old one the write did not meet, or what is left
      of one it did. */
  predicate Remains(x: Extent<Val>, m: Pieces, w: Extent<Val>, g: Grade)
  {
    x == w || (x in m && !Meets(w, x)) || Rest(x.val, g)
  }

  lemma LeftRemains(m: Pieces, lo: nat, g: Grade, x: Extent<Val>)
    requires Sorted(m) && AllEasy(m, g) && x in LeftRest(m, lo)
    ensures Rest(x.val, g)
  {
    var e := LeftOf(m, lo).value;
    assert e in m && EasyExtent(e, g);
    EasyKept(e, e.start, lo, g);
  }

  lemma RightRemains(m: Pieces, lo: nat, hi: nat, g: Grade, x: Extent<Val>)
    requires Sorted(m) && AllEasy(m, g) && lo < hi && x in RightRest(m, lo, hi)
    ensures Rest(x.val, g)
  {
    var e := LeftOf(m, hi).value;
    assert e in m && EasyExtent(e, g);
    EasyKept(e, hi, e.stop, g);
  }

  lemma WrittenRemains(m: Pieces, w: Extent<Val>, g: Grade, x: Extent<Val>)
    requires Sorted(m) && AllEasy(m, g) && w.start < w.stop && x in WrittenMap(m, w.start, w.stop, [w])
    ensures Remains(x, m, w, g)
  {
    var lo, hi := w.start, w.stop;
    AfterPart(m, hi);
    if x in LeftRest(m, lo) {
      LeftRemains(m, lo, g, x);
    } else if x in RightRest(m, lo, hi) {
      RightRemains(m, lo, hi, g, x);
    } else if x in m[..Find(m, lo)] {
      assert x.stop <= lo;
    } else {
      assert x in m[After(m, hi)..] || x == w;
    }
  }

  lemma WrittenEasy(m: Pieces, w: Extent<Val>, end: nat, g: Grade)
    requires Sorted(m) && Within(m, 0, end) && AllFit(m) && AllEasy(m, g) && EasyExtent(w, g) && w.stop <= end
    requires var may := MayClear(m, w.start, w.stop); may
    ensures var m1 := WrittenMap(m, w.start, w.stop, [w]); Sorted(m1) && Within(m1, 0, end) && AllFit(m1) && AllEasy(m1, g)
  {
    var m1 := WrittenMap(m, w.start, w.stop, [w]);
    TilesOne(w);
    Written(m, w.start, w.stop, end, [w], 0);
    WrittenFits(m, w.start, w.stop, end, [w]);
    forall x | x in m1 ensures EasyExtent(x, g) {
      WrittenRemains(m, w, g, x);
      assert ExtentFits(x) && (x in m ==> EasyExtent(x, g));
    }
  }

  // ----- writing many

  /** The first of the writes to meet the extent, if any, does not punch a hole in it. */
  predicate Spared(e: Extent<Val>, writes: Pieces)
    decreases |writes|
  {
    writes == [] || if Meets(writes[0], e) then !Punches(writes[0], e) else Spared(e, writes[1..])
  }

  /** No write punches a hole in an earlier one that cannot be truncated and is still whole. */
  predicate SparedRun(writes: Pieces)
    decreases |writes|
  {
    writes == [] || ((CanTruncate(writes[0].val) || Spared(writes[0], writes[1..])) && SparedRun(writes[1..]))
  }

  ghost predicate SparedAll(m: Pieces, writes: Pieces)
  {
    forall e {:trigger Spared(e, writes)} :: e in m && !CanTruncate(e.val) ==> Spared(e, writes)
  }

  /** A map and writes to be made on it, all of easy values. */
  ghost predicate EasyRun(m: Pieces, writes: Pieces, end: nat, g: Grade)
  {
    && Sorted(m) && Within(m, 0, end) && AllFit(m) && AllEasy(m, g) && Within(writes, 0, end) && AllEasy(writes, g)
    && SparedAll(m, writes) && SparedRun(writes)
  }

  /** Such writes can be made one after another, and lose nothing if none of the values does. */
  lemma {:induction false} EasyOverlay(m: Pieces, writes: Pieces, end: nat, g: Grade)
    requires var easy := EasyRun(m, writes, end, g); easy
    ensures MayOverlay(m, writes) && (g.lossless ==> OverlayExact(m, writes))
    ensures var now := OverlayMap(m, writes); Sorted(now) && Within(now, 0, end) && AllFit(now) && AllEasy(now, g)
    decreases |writes|
  {
    if writes != [] {
      EasyNext(m, writes, end, g);
      EasyOverlay(WrittenMap(m, writes[0].start, writes[0].stop, [writes[0]]), writes[1..], end, g);
    }
  }

  lemma EasyNext(m: Pieces, writes: Pieces, end: nat, g: Grade)
    requires writes != [] && var easy := EasyRun(m, writes, end, g); easy
    ensures var may := MayClear(m, writes[0].start, writes[0].stop); may
    ensures g.lossless ==> StepExact(m, writes[0])
    ensures var easy := EasyRun(WrittenMap(m, writes[0].start, writes[0].stop, [writes[0]]), writes[1..], end, g); easy
  {
    var w, rest := writes[0], writes[1..];
    assert w in writes && EasyExtent(w, g);
    forall e | e in m && !CanTruncate(e.val) ensures !Punches(w, e) {
      assert Spared(e, writes) && EasyExtent(e, g);
    }
    EasyClear(m, w, g);
    WrittenEasy(m, w, end, g);
    assert forall i :: 0 <= i < |rest| ==> rest[i] == writes[i + 1];
    StillSpared(m, writes, g);
  }

  lemma StillSpared(m: Pieces, writes: Pieces, g: Grade)
    requires writes != [] && Sorted(m) && AllEasy(m, g) && writes[0].start < writes[0].stop && SparedAll(m, writes) && SparedRun(writes)
    ensures SparedAll(WrittenMap(m, writes[0].start, writes[0].stop, [writes[0]]), writes[1..])
  {
    var w, rest := writes[0], writes[1..];
    forall e | e in WrittenMap(m, w.start, w.stop, [w]) && !CanTruncate(e.val) ensures Spared(e, rest) {
      WrittenRemains(m, w, g, e);
      assert e in m ==> Spared(e, writes);
    }
  }

  /** A run of writes of easy values on a fresh map, none punching a hole in an earlier one that cannot be
      truncated, can be made; and reads exactly as flat memory if no value loses anything. */
  lemma EasyWritable(writes: Pieces, size: nat, g: Grade)
    requires Within(writes, 0, size) && AllEasy(writes, g) && SparedRun(writes)
    ensures (var ok := Writable([], writes, size); ok) && (g.lossless ==> OverlayExact([], writes)) && AllEasy(OverlayMap([], writes), g)
  {
    var easy := EasyRun([], writes, size, g);
    assert easy;
    EasyOverlay([], writes, size, g);
    EasyFits(writes, g);
  }

  lemma EasyFits(writes: Pieces, g: Grade)
    requires AllEasy(writes, g)
    ensures AllFit(writes)
  {
    forall e | e in writes ensures ExtentFits(e) {
      assert EasyExtent(e, g);
    }
  }

  /** A run of writes of values that lose nothing when cut reads exactly as flat memory would have it:
      each byte holds what the last write covering it put there, and a byte no write covers what the
      store below holds. */
  method RunExactly(size: nat, under: Option<Store>, writes: Pieces, ghost ms: seq<Multi>) returns (m: Multi, ghost now: seq<Multi>)
    requires 0 < size < UNKNOWN_SIZE && Chain(under, ms) && Within(writes, 0, size) && AllEasy(writes, LOSSLESS)
    ensures m.Shaped() && m.allocSize == size && m.covered == Total(m.extents) && Chain(Some(Layer(m)), now)
    ensures forall b: nat :: b < size ==> Look(Some(Layer(m)), now, b) == FlatAfter(writes, old(Look(under, ms, b)), b)
  {
    LosslessSpared(writes);
    EasyWritable(writes, size, LOSSLESS);
    m, now := Run(size, under, writes, ms);
  }

  /** After a run of writes of known values, sets of several constants among them, every byte of the map is known:
      it holds what flat memory would have there, whatever was cut. */
  method RunKnown(size: nat, under: Option<Store>, writes: Pieces, ghost ms: seq<Multi>) returns (m: Multi, ghost now: seq<Multi>)
    requires 0 < size < UNKNOWN_SIZE && Chain(under, ms) && Within(writes, 0, size) && AllEasy(writes, KNOWN)
    ensures m.Shaped() && m.allocSize == size && m.covered == Total(m.extents) && Chain(Some(Layer(m)), now)
    ensures forall b: nat :: b < size && Peek(m.extents, b).Some? ==>
              Look(Some(Layer(m)), now, b).OneOf? && StandsAt(Look(Some(Layer(m)), now, b), FlatAfter(writes, old(Look(under, ms, b)), b), false)
  {
    KnownSpared(writes);
    EasyWritable(writes, size, KNOWN);
    m, now := Run(size, under, writes, ms);
    forall b: nat | Peek(m.extents, b).Some? ensures Look(Some(Layer(m)), now, b).OneOf? {
      assert EasyExtent(At(m.extents, b).value, KNOWN);
    }
  }

  lemma {:induction false} KnownSpared(writes: Pieces)
    requires AllEasy(writes, KNOWN)
    ensures SparedRun(writes)
    decreases |writes|
  {
    if writes != [] {
      assert EasyExtent(writes[0], KNOWN);
      KnownSpared(writes[1..]);
    }
  }

  lemma {:induction false} LosslessSpared(writes: Pieces)
    requires AllEasy(writes, LOSSLESS)
    ensures SparedRun(writes)
    decreases |writes|
  {
    if writes != [] {
      assert EasyExtent(writes[0], LOSSLESS);
      LosslessSpared(writes[1..]);
    }
  }

  // ----- collapsing layers

  /** The map covers the first byte of the extent if it covers any. */
  ghost predicate FirstToo(m: Pieces, e: Extent<Val>)
  {
    forall b: nat :: e.start <= b < e.stop && At(m, b).Some? ==> At(m, e.start).Some?
  }

  /** Extents in order spare an extent whose first byte they cover if they cover any. */
  lemma {:induction false} FirstSpared(es: Pieces, e: Extent<Val>)
    requires Sorted(es) && e.start < e.stop && FirstToo(es, e)
    ensures Spared(e, es)
    decreases |es|
  {
    if es != [] {
      var w, rest := es[0], es[1..];
      assert es == [w] + rest;
      SortedParts([w], rest);
      if Meets(w, e) {
        if Punches(w, e) {
          AtHit(es, 0, w.start);
          NothingFirst(es, e.start);
        }
      } else {
        forall b: nat | e.start <= b < e.stop ensures At(es, b) == At(rest, b) {
          AtConcat([w], rest, b);
          OnlyAt(w, b);
        }
        FirstSpared(rest, e);
      }
    }
  }

  lemma NothingFirst(es: Pieces, b: nat)
    requires Sorted(es) && es != [] && b < es[0].start
    ensures At(es, b) == None
  {
    forall i | 0 <= i < |es| ensures b < es[i].start {
      assert i > 0 ==> Precedes(es, 0, i);
    }
    AtMiss(es, b);
  }

  /** Extents in order never meet. */
  lemma {:induction false} SortedSpared(es: Pieces)
    requires Sorted(es)
    ensures SparedRun(es)
    decreases |es|
  {
    if es != [] {
      assert es == [es[0]] + es[1..];
      SortedParts([es[0]], es[1..]);
      BehindSpared(es[0], es[1..]);
      SortedSpared(es[1..]);
    }
  }

  lemma {:induction false} BehindSpared(e: Extent<Val>, es: Pieces)
    requires forall i :: 0 <= i < |es| ==> e.stop <= es[i].start
    ensures Spared(e, es)
    decreases |es|
  {
    if es != [] {
      BehindSpared(e, es[1..]);
    }
  }

  ghost predicate AllFirst(upper: Pieces, lower: Pieces)
  {
    forall e {:trigger FirstToo(upper, e)} :: e in lower && !CanTruncate(e.val) ==> FirstToo(upper, e)
  }

  ghost predicate EasyMap(m: Pieces, end: nat, g: Grade)
  {
    Sorted(m) && Within(m, 0, end) && AllFit(m) && AllEasy(m, g)
  }

  /** Maps of easy values over one another, in which what cannot be truncated is covered from its first
      byte on or not at all. */
  ghost predicate EasyLayers(maps: seq<Pieces>, end: nat, g: Grade)
  {
    && (forall i {:trigger EasyMap(maps[i], end, g)} :: 0 <= i < |maps| ==> EasyMap(maps[i], end, g))
    && (forall i, j {:trigger AllFirst(maps[i], maps[j])} :: 0 <= i < j < |maps| ==> AllFirst(maps[i], maps[j]))
  }

  lemma EasyOver(upper: Pieces, lower: Pieces, end: nat, g: Grade)
    requires EasyMap(upper, end, g) && EasyMap(lower, end, g) && AllFirst(upper, lower)
    ensures MayOverlay(lower, upper) && (g.lossless ==> OverlayExact(lower, upper)) && EasyMap(OverlayMap(lower, upper), end, g)
    ensures var ok := Overlayable(lower, upper, end); ok
  {
    forall e | e in lower && !CanTruncate(e.val) ensures Spared(e, upper) {
      assert EasyExtent(e, g) && FirstToo(upper, e);
      FirstSpared(upper, e);
    }
    SortedSpared(upper);
    EasyOverlay(lower, upper, end, g);
  }

  /** Two maps made one cover what either covered. */
  lemma FirstOfBoth(top: Pieces, second: Pieces, end: nat, e: Extent<Val>)
    requires (var ok := Overlayable(second, top, end); ok) && FirstToo(top, e) && FirstToo(second, e)
    ensures FirstToo(OverlayMap(second, top), e)
  {
    var one := OverlayMap(second, top);
    forall b: nat | e.start <= b < e.stop && At(one, b).Some? ensures At(one, e.start).Some? {
      OverlayPeek(second, top, end, b);
      OverlayPeek(second, top, end, e.start);
      assert Peek(one, b).Some?;
      assert At(top, b).Some? || At(second, b).Some?;
      assert Peek(top, e.start).Some? || Peek(second, e.start).Some?;
    }
  }

  /** Such maps can be collapsed from the top, and lose nothing if no value does. */
  lemma {:induction false} EasyCollapse(maps: seq<Pieces>, end: nat, g: Grade)
    requires EasyLayers(maps, end, g)
    ensures MayCollapse(maps) && (g.lossless ==> CollapseExact(maps))
    decreases |maps|
  {
    if |maps| > 1 {
      assert EasyMap(maps[0], end, g) && EasyMap(maps[1], end, g) && AllFirst(maps[0], maps[1]);
      EasyOver(maps[0], maps[1], end, g);
      CollapsedLayers(maps, end, g);
      EasyCollapse([OverlayMap(maps[1], maps[0])] + maps[2..], end, g);
    }
  }

  /** What such maps are folded into are such maps. */
  lemma {:induction false} EasyFolds(maps: seq<Pieces>, now: seq<Pieces>, end: nat, g: Grade)
    requires EasyLayers(maps, end, g) && Folds(maps, now)
    ensures var easy := EasyLayers(now, end, g); easy
    decreases |maps|
  {
    if now != maps {
      var one := OverlayMap(maps[1], maps[0]);
      assert EasyMap(maps[0], end, g) && EasyMap(maps[1], end, g) && AllFirst(maps[0], maps[1]);
      EasyOver(maps[0], maps[1], end, g);
      if Folds([one] + maps[2..], now) {
        CollapsedLayers(maps, end, g);
        EasyFolds([one] + maps[2..], now, end, g);
      } else {
        EasyFolds([one], now, end, g);
      }
    }
  }

  lemma FoldedTop(now: seq<Multi>, maps: seq<Pieces>, end: nat, g: Grade)
    requires maps != [] && EasyLayers(maps, end, g) && Folds(maps, Own(now))
    ensures now != [] && var easy := AllEasy(now[0].extents, g); easy
  {
    EasyFolds(maps, Own(now), end, g);
    FoldsSome(maps, Own(now));
    assert EasyMap(Own(now)[0], end, g);
  }

  lemma {:induction false} FoldsSome(maps: seq<Pieces>, now: seq<Pieces>)
    requires maps != [] && Folds(maps, now)
    ensures now != []
    decreases |maps|
  {
    if now != maps {
      var one := OverlayMap(maps[1], maps[0]);
      if Folds([one] + maps[2..], now) {
        FoldsSome([one] + maps[2..], now);
      } else {
        FoldsSome([one], now);
      }
    }
  }

  /** Layers of such values collapse, and read as before if no value loses anything; and if all their values are
      known, so are all of the map they end in. */
  method SimplifyEasy(s: Store, ghost size: nat, ghost end: nat, ghost ms: seq<Multi>, ghost g: Grade) returns (r: Store, ghost now: seq<Multi>)
    requires Chain(Some(s), ms) && size <= end < UNKNOWN_SIZE && EasyLayers(Own(ms), end, g)
    requires forall m :: m in ms ==> Sized(m, size, end)
    modifies ms
    ensures Chain(Some(r), now) && !OwnsTwo(r)
    ensures forall b: nat :: b < size ==>
              && StandsAt(Look(Some(r), now, b), old(Look(Some(s), ms, b)), false)
              && (g.lossless ==> Look(Some(r), now, b) == old(Look(Some(s), ms, b)))
    ensures old(Own(ms)) != [] ==> r.Layer? && AllEasy(r.m.extents, g)
  {
    ghost var own := Own(ms);
    EasyCollapse(own, end, g);
    r, now := SimplifyStore(s, size, end, ms);
    if own != [] {
      FoldedTop(now, own, end, g);
    }
  }

  lemma CollapsedLayers(maps: seq<Pieces>, end: nat, g: Grade)
    requires |maps| > 1 && EasyLayers(maps, end, g) && EasyMap(OverlayMap(maps[1], maps[0]), end, g)
    requires var ok := Overlayable(maps[1], maps[0], end); ok
    ensures EasyLayers([OverlayMap(maps[1], maps[0])] + maps[2..], end, g)
  {
    var one := OverlayMap(maps[1], maps[0]);
    var next := [one] + maps[2..];
    forall i | 0 <= i < |next| ensures EasyMap(next[i], end, g) {
      assert i > 0 ==> next[i] == maps[i + 1] && EasyMap(maps[i + 1], end, g);
    }
    forall j: nat | 1 < j < |maps| ensures AllFirst(one, maps[j]) {
      FirstAtLayer(maps, end, g, j);
    }
    CollapsedFirst(maps, end, g, one, next);
  }

  lemma CollapsedFirst(maps: seq<Pieces>, end: nat, g: Grade, one: Pieces, next: seq<Pieces>)
    requires |maps| > 1 && next == [one] + maps[2..] && var easy := EasyLayers(maps, end, g); easy
    requires forall j: nat :: 1 < j < |maps| ==> AllFirst(one, maps[j])
    ensures forall i, j :: 0 <= i < j < |next| ==> AllFirst(next[i], next[j])
  {
    forall i, j | 0 <= i < j < |next| ensures AllFirst(next[i], next[j]) {
      CollapsedPair(maps, end, g, one, next, i, j);
    }
  }

  lemma CollapsedPair(maps: seq<Pieces>, end: nat, g: Grade, one: Pieces, next: seq<Pieces>, i: nat, j: nat)
    requires |maps| > 1 && next == [one] + maps[2..] && i < j < |next| == |maps| - 1
    requires (var easy := EasyLayers(maps, end, g); easy) && var first := AllFirst(one, maps[j + 1]); first
    ensures var first := AllFirst(next[i], next[j]); first
  {
    CollapsedAt(maps, one, next, i);
    CollapsedAt(maps, one, next, j);
    if i > 0 {
      FirstBelow(maps, end, g, i + 1, j + 1);
    }
  }

  lemma CollapsedAt(maps: seq<Pieces>, one: Pieces, next: seq<Pieces>, k: nat)
    requires |maps| > 1 && next == [one] + maps[2..] && k < |next|
    ensures next[k] == if k == 0 then one else maps[k + 1]
  {
  }

  lemma FirstBelow(maps: seq<Pieces>, end: nat, g: Grade, i: nat, j: nat)
    requires i < j < |maps| && EasyLayers(maps, end, g)
    ensures var first := AllFirst(maps[i], maps[j]); first
  {
  }

  lemma FirstAtLayer(maps: seq<Pieces>, end: nat, g: Grade, j: nat)
    requires 1 < j < |maps| && EasyLayers(maps, end, g) && var ok := Overlayable(maps[1], maps[0], end); ok
    ensures var first := AllFirst(OverlayMap(maps[1], maps[0]), maps[j]); first
  {
    assert AllFirst(maps[0], maps[j]) && AllFirst(maps[1], maps[j]);
    FirstOverAll(maps[0], maps[1], maps[j], end, maps, j);
  }

  lemma FirstOverAll(top: Pieces, second: Pieces, lower: Pieces, end: nat, maps: seq<Pieces>, j: nat)
    requires 1 < j < |maps| && top == maps[0] && second == maps[1] && lower == maps[j] && var ok := Overlayable(second, top, end); ok
    requires AllFirst(maps[0], maps[j]) && AllFirst(maps[1], maps[j])
    ensures AllFirst(OverlayMap(second, top), lower)
  {
    forall e | e in lower && !CanTruncate(e.val) ensures FirstToo(OverlayMap(second, top), e) {
      assert FirstToo(top, e) && FirstToo(second, e);
      FirstOfBoth(top, second, end, e);
    }
  }
}
