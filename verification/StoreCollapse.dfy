/** Collapsing layers that nobody else uses: `LocStore::simplifyStore`
    (llpe/main/LoadForward.cpp:3975-4010). */
module StoreCollapse {
  import opened Options
  import opened Extents
  import opened SymbolicValues
  import opened SubValues
  import opened ValueCuts
  import opened RangeClears
  import opened LayeredStore

  // ----- writing all extents of one map over another

  /** Each extent in turn may be written over the map. */
  ghost predicate MayOverlay(m: Pieces, es: Pieces)
    decreases |es|
  {
    es == [] || (MayClear(m, es[0].start, es[0].stop) && MayOverlay(WrittenMap(m, es[0].start, es[0].stop, [es[0]]), es[1..]))
  }

  ghost function OverlayMap(m: Pieces, es: Pieces): Pieces
    decreases |es|
  {
    if es == [] then m else OverlayMap(WrittenMap(m, es[0].start, es[0].stop, [es[0]]), es[1..])
  }

  /** No value is partly covered in a way that loses anything. */
  ghost predicate OverlayExact(m: Pieces, es: Pieces)
    decreases |es|
  {
    es == [] || (OverlayExact(WrittenMap(m, es[0].start, es[0].stop, [es[0]]), es[1..]) && StepExact(m, es[0]))
  }

  /** What is left of the values the extent partly covers loses nothing. */
  ghost predicate StepExact(m: Pieces, e: Extent<Val>)
  {
    LeftExact(m, e.start) && RightExact(m, e.stop)
  }

  lemma OverlayMapNext(m: Pieces, es: Pieces)
    requires es != []
    ensures OverlayMap(m, es) == OverlayMap(WrittenMap(m, es[0].start, es[0].stop, [es[0]]), es[1..])
  {
  }

  lemma OverlayExactNext(m: Pieces, es: Pieces)
    requires es != []
    ensures OverlayExact(m, es) == (OverlayExact(WrittenMap(m, es[0].start, es[0].stop, [es[0]]), es[1..]) && StepExact(m, es[0]))
  {
  }

  /** A map and the extents to be written over it. */
  ghost predicate Overlayable(m: Pieces, es: Pieces, end: nat)
  {
    && Sorted(m) && Within(m, 0, end) && AllFit(m) && Sorted(es) && Within(es, 0, end) && AllFit(es) && MayOverlay(m, es)
  }

  /** The first write, and what is left to write. */
  lemma OverlayNext(m: Pieces, es: Pieces, end: nat)
    requires es != [] && var ok := Overlayable(m, es, end); ok
    ensures var e := es[0];
            && e.start < e.stop <= end && e.start < e.stop && Fits(e.val, e.stop - e.start)
            && (var may := MayWrite(m, e.start, e.stop, end, [e]); may)
            && (var ok := Overlayable(WrittenMap(m, e.start, e.stop, [e]), es[1..], end); ok)
  {
    var e := es[0];
    assert e in es && ExtentFits(e);
    MayWriteOne(m, e.start, e.stop, end, end, e.val);
    assert Extent(e.start, e.stop, e.val) == e;
    Written(m, e.start, e.stop, end, [e], 0);
    WrittenFits(m, e.start, e.stop, end, [e]);
    assert es == [e] + es[1..];
    SortedParts([e], es[1..]);
  }

  lemma StandsTrans(a: Abs, b: Abs, c: Abs, x: bool, y: bool)
    requires (var one := StandsAt(a, b, x); one) && var two := StandsAt(b, c, y); two
    ensures var both := StandsAt(a, c, x && y); both
  {
    CoversTrans(a, b, c);
    StemsTrans(a, b, c);
  }

  lemma StandsWeaker(a: Abs, b: Abs, x: bool, y: bool)
    requires StandsAt(a, b, x) && (y ==> x)
    ensures StandsAt(a, b, y)
  {
  }

  /** An extent that ends before the range is written stays as it is. */
  lemma AtUntouched(m: Pieces, lo: nat, hi: nat, end: nat, fill: Pieces, b: nat, x: Extent<Val>)
    requires At(m, b) == Some(x) && x.stop <= lo && var may := MayWrite(m, lo, hi, end, fill); may
    ensures At(WrittenMap(m, lo, hi, fill), b) == Some(x)
  {
    var i := Find(m, b);
    var now := WrittenMap(m, lo, hi, fill);
    FrontKept(m, lo, hi, fill, i);
    assert Sorted(now) by {
      Written(m, lo, hi, end, fill, b);
    }
    AtHit(now, i, b);
  }

  lemma FrontKept(m: Pieces, lo: nat, hi: nat, fill: Pieces, i: nat)
    requires i < |m| && m[i].stop <= lo && i < Find(m, lo)
    ensures i < |WrittenMap(m, lo, hi, fill)| && WrittenMap(m, lo, hi, fill)[i] == m[i]
  {
    var front := m[..Find(m, lo)];
    assert front[i] == m[i];
  }

  /** ... through all the writes that follow. */
  lemma {:induction false} OverlayUntouched(m: Pieces, es: Pieces, end: nat, b: nat, x: Extent<Val>)
    requires At(m, b) == Some(x) && (es != [] ==> x.stop <= es[0].start) && var ok := Overlayable(m, es, end); ok
    ensures At(OverlayMap(m, es), b) == Some(x)
    decreases |es|
  {
    if es != [] {
      var e := es[0];
      OverlayNext(m, es, end);
      AtUntouched(m, e.start, e.stop, end, [e], b, x);
      SecondStarts(es);
      OverlayUntouched(WrittenMap(m, e.start, e.stop, [e]), es[1..], end, b, x);
    }
  }

  /** What a byte reads as when all extents of one map are written over another: as in the upper map
      where it has one, else as in the lower, which may allow more where a value was partly covered. */
  ghost predicate OverlaySays(now: Option<Abs>, m: Pieces, es: Pieces, exact: bool, b: nat)
  {
    Says(now, Peek(m, b), Peek(es, b), exact)
  }

  ghost predicate Says(now: Option<Abs>, was: Option<Abs>, over: Option<Abs>, exact: bool)
  {
    if over.Some? then now == over
    else if was.None? then now == None
    else now.Some? && StandsAt(now.value, was.value, exact)
  }

  lemma SaysTrans(now: Option<Abs>, mid: Option<Abs>, was: Option<Abs>, over: Option<Abs>, x: bool, y: bool, both: bool)
    requires (var says := Says(now, mid, over, x); says) && (both ==> x && y)
    requires mid == was || (mid.Some? && was.Some? && var stands := StandsAt(mid.value, was.value, y); stands)
    ensures var says := Says(now, was, over, both); says
  {
    if over.None? && mid.Some? && mid != was {
      CoversTrans(now.value, mid.value, was.value);
      StemsTrans(now.value, mid.value, was.value);
    }
  }

  /** The byte is in the first extent written. */
  lemma OverlayFirst(m: Pieces, es: Pieces, end: nat, b: nat)
    requires es != [] && es[0].start <= b < es[0].stop && var ok := Overlayable(m, es, end); ok
    ensures At(OverlayMap(m, es), b) == At(es, b) == Some(es[0])
  {
    OverlayNext(m, es, end);
    WrittenAt(m, es[0], end, b);
    SecondStarts(es);
    OverlayUntouched(WrittenMap(m, es[0].start, es[0].stop, [es[0]]), es[1..], end, b, es[0]);
    AtHit(es, 0, b);
  }

  lemma OverlayFirstSays(m: Pieces, es: Pieces, end: nat, b: nat)
    requires es != [] && es[0].start <= b < es[0].stop && var ok := Overlayable(m, es, end); ok
    ensures var says := OverlaySays(Peek(OverlayMap(m, es), b), m, es, OverlayExact(m, es), b); says
  {
    OverlayFirst(m, es, end, b);
    SaysSame(OverlayMap(m, es), m, es, OverlayExact(m, es), b);
  }

  lemma SaysSame(now: Pieces, m: Pieces, es: Pieces, exact: bool, b: nat)
    requires At(now, b) == At(es, b) && At(es, b).Some?
    ensures var says := OverlaySays(Peek(now, b), m, es, exact, b); says
  {
  }

  lemma SecondStarts(es: Pieces)
    requires Sorted(es) && es != []
    ensures es[1..] != [] ==> es[0].stop <= es[1..][0].start
  {
    assert |es| > 1 ==> Precedes(es, 0, 1);
  }

  /** A written extent is where it was written. */
  lemma WrittenAt(m: Pieces, e: Extent<Val>, end: nat, b: nat)
    requires e.start <= b < e.stop && var may := MayWrite(m, e.start, e.stop, end, [e]); may
    ensures At(WrittenMap(m, e.start, e.stop, [e]), b) == Some(e)
  {
    Written(m, e.start, e.stop, end, [e], b);
    var front := m[..Find(m, e.start)] + LeftRest(m, e.start);
    var now := WrittenMap(m, e.start, e.stop, [e]);
    assert now[|front|] == e;
    AtHit(now, |front|, b);
  }

  /** The byte is not in the first extent written. */
  lemma OverlayRest(m: Pieces, es: Pieces, end: nat, b: nat, now: Option<Abs>, exact: bool)
    requires es != [] && !(es[0].start <= b < es[0].stop) && var ok := Overlayable(m, es, end); ok
    requires var e := es[0]; var says := OverlaySays(now, WrittenMap(m, e.start, e.stop, [e]), es[1..], exact, b); says
    ensures var says := OverlaySays(now, m, es, exact && StepExact(m, es[0]), b); says
  {
    var e := es[0];
    OverlayNext(m, es, end);
    Written(m, e.start, e.stop, end, [e], b);
    assert es == [e] + es[1..];
    PeekConcat([e], es[1..], b);
    OnlyAt(e, b);
    var mid := Peek(WrittenMap(m, e.start, e.stop, [e]), b);
    var ex := if b < e.start then LeftExact(m, e.start) else RightExact(m, e.stop);
    assert Peek(es, b) == Peek(es[1..], b);
    SaysTrans(now, mid, Peek(m, b), Peek(es, b), exact, ex, exact && StepExact(m, e));
  }

  lemma NoneSays(m: Pieces, b: nat)
    ensures var says := OverlaySays(Peek(OverlayMap(m, []), b), m, [], OverlayExact(m, []), b); says
  {
    PeekNone([], b);
    if Peek(m, b).Some? {
      StandsSelf(Peek(m, b).value);
    }
  }

  lemma {:induction false} OverlayPeek(m: Pieces, es: Pieces, end: nat, b: nat)
    requires var ok := Overlayable(m, es, end); ok
    ensures var says := OverlaySays(Peek(OverlayMap(m, es), b), m, es, OverlayExact(m, es), b); says
    decreases |es|
  {
    if es == [] {
      NoneSays(m, b);
    } else {
      var e := es[0];
      OverlayNext(m, es, end);
      var m1 := WrittenMap(m, e.start, e.stop, [e]);
      OverlayPeek(m1, es[1..], end, b);
      if e.start <= b < e.stop {
        OverlayFirstSays(m, es, end, b);
      } else {
        OverlayRest(m, es, end, b, Peek(OverlayMap(m, es), b), OverlayExact(m1, es[1..]));
      }
    }
  }

  // ----- the maps

  /** Bytes once covered stay covered. */
  lemma StillCovered(m: Pieces, lo: nat, hi: nat, end: nat, fill: Pieces, b: nat)
    requires Peek(m, b).Some? && var may := MayWrite(m, lo, hi, end, fill); may
    ensures Peek(WrittenMap(m, lo, hi, fill), b).Some?
  {
    Written(m, lo, hi, end, fill, b);
  }

  /** The map below is dropped only once every byte of the object is covered. */
  ghost predicate Dropped(under: Option<Store>, was: Option<Store>, m: Pieces, size: nat)
  {
    under == was || (under == None && forall b: nat :: b < size ==> Peek(m, b).Some?)
  }

  /** Write the extents of one map over another, in order. */
  method Overlay(m: Multi, es: Pieces, ghost size: nat, ghost end: nat)
    requires m.Shaped() && m.Counted() && size <= m.allocSize <= end < UNKNOWN_SIZE
    requires var ok := Overlayable(m.extents, es, end); ok
    modifies m`extents, m`covered, m`allocSize, m`under
    ensures m.Shaped() && m.Counted() && old(m.allocSize) <= m.allocSize <= end
    ensures m.extents == OverlayMap(old(m.extents), es)
    ensures Dropped(m.under, old(m.under), m.extents, size)
  {
    var i := 0;
    assert es[0..] == es;
    while i < |es|
      invariant 0 <= i <= |es| && m.Shaped() && m.Counted() && old(m.allocSize) <= m.allocSize <= end
      invariant OverlayMap(m.extents, es[i..]) == OverlayMap(old(m.extents), es)
      invariant var ok := Overlayable(m.extents, es[i..], end); ok
      invariant Dropped(m.under, old(m.under), m.extents, size)
    {
      OverlayOne(m, es[i..], size, end, old(m.under));
      assert es[i..][1..] == es[i + 1..];
      i := i + 1;
    }
  }

  /** One write of an overlay. */
  method OverlayOne(m: Multi, es: Pieces, ghost size: nat, ghost end: nat, ghost was: Option<Store>)
    requires m.Shaped() && m.Counted() && size <= m.allocSize <= end < UNKNOWN_SIZE && es != [] && Dropped(m.under, was, m.extents, size)
    requires var ok := Overlayable(m.extents, es, end); ok
    modifies m`extents, m`covered, m`allocSize, m`under
    ensures m.Shaped() && m.Counted() && old(m.allocSize) <= m.allocSize <= end
    ensures m.extents == WrittenMap(old(m.extents), es[0].start, es[0].stop, [es[0]])
    ensures var ok := Overlayable(m.extents, es[1..], end); ok
    ensures Dropped(m.under, was, m.extents, size)
  {
    var e := es[0];
    OverlayNext(m.extents, es, end);
    DroppedKept(m.under, was, m.extents, size, e, end);
    ghost var under := m.under;
    m.Put(e, end);
    if m.under != under {
      AllCovered(m.extents, m.allocSize, size);
    }
  }

  lemma AllCovered(m: Pieces, end: nat, size: nat)
    requires Sorted(m) && Within(m, 0, end) && Total(m) == end && size <= end
    ensures forall b: nat :: b < size ==> Peek(m, b).Some?
  {
    forall b: nat | b < size ensures Peek(m, b).Some? {
      FullyCovered(m, end, b);
    }
  }

  lemma DroppedKept(under: Option<Store>, was: Option<Store>, m: Pieces, size: nat, e: Extent<Val>, end: nat)
    requires Dropped(under, was, m, size) && var may := MayWrite(m, e.start, e.stop, end, [e]); may
    ensures Dropped(under, was, WrittenMap(m, e.start, e.stop, [e]), size)
  {
    if under != was {
      forall b: nat | b < size ensures Peek(WrittenMap(m, e.start, e.stop, [e]), b).Some? {
        assert Peek(m, b).Some?;
        StillCovered(m, e.start, e.stop, end, [e], b);
      }
    }
  }

  // ----- the store

  /** What a byte reads as through two maps over a store. */
  function TwoOver(es: Pieces, m: Pieces, below: Abs, b: nat): Abs
  {
    if Peek(es, b).Some? then Peek(es, b).value else if Peek(m, b).Some? then Peek(m, b).value else below
  }

  /** What a byte reads as once two maps over `below` have become one. */
  lemma CollapsedByte(m: Pieces, es: Pieces, end: nat, b: nat, below: Abs)
    requires var ok := Overlayable(m, es, end); ok
    ensures var r := Peek(OverlayMap(m, es), b);
            var stands := StandsAt(if r.Some? then r.value else below, TwoOver(es, m, below, b), OverlayExact(m, es)); stands
  {
    OverlayPeek(m, es, end, b);
    StandsSelf(below);
    if Peek(es, b).Some? {
      StandsSelf(Peek(es, b).value);
    }
  }

  /** What the bytes of a store read as. */
  ghost predicate Reads(s: Option<Store>, ms: seq<Multi>, size: nat, was: map<nat, Abs>)
    reads ms
  {
    Chain(s, ms) && forall b: nat :: b < size ==> b in was && Look(s, ms, b) == was[b]
  }

  /** The bytes of a store allow what they read as before. */
  ghost predicate Standing(s: Store, ms: seq<Multi>, size: nat, was: map<nat, Abs>, exact: bool)
    reads ms
  {
    Chain(Some(s), ms) && forall b: nat :: b < size ==> b in was && StandsAt(Look(Some(s), ms, b), was[b], exact)
  }

  ghost function ReadsOf(s: Store, ms: seq<Multi>, size: nat): (was: map<nat, Abs>)
    requires Chain(Some(s), ms)
    reads ms
    ensures var ok := Reads(Some(s), ms, size, was); ok
  {
    map b: nat | b < size :: Look(Some(s), ms, b)
  }

  lemma StandingStart(s: Store, ms: seq<Multi>, size: nat, was: map<nat, Abs>, exact: bool)
    requires Reads(Some(s), ms, size, was)
    ensures var standing := Standing(s, ms, size, was, exact); standing
  {
    forall b: nat | b < size ensures b in was && StandsAt(Look(Some(s), ms, b), was[b], exact) {
      StandsSelf(was[b]);
    }
  }

  lemma StandingThen(r: Store, now: seq<Multi>, size: nat, mid: map<nat, Abs>, was: map<nat, Abs>, exact: bool)
    requires var standing := Standing(r, now, size, mid, exact); standing
    requires forall b: nat :: b < size ==> b in mid && b in was && StandsAt(mid[b], was[b], exact)
    ensures var standing := Standing(r, now, size, was, exact); standing
  {
    forall b: nat | b < size ensures b in was && StandsAt(Look(Some(r), now, b), was[b], exact) {
      StandsTrans(Look(Some(r), now, b), mid[b], was[b], exact, exact);
    }
  }

  /** The two maps at the top of a chain. */
  lemma TwoTop(m: Multi, m2: Multi, ms: seq<Multi>)
    requires Chain(Some(Layer(m)), ms) && m.under == Some(Layer(m2))
    ensures |ms| >= 2 && ms[0] == m && ms[1] == m2 && m in ms && m2 in ms && m2 !in ms[2..] && m != m2
    ensures forall x :: x in ms[1..] ==> x in ms && (x == m2 || x in ms[2..])
  {
    assert Chain(m.under, ms[1..]) && ms[1..][0] == ms[1] == m2 && ms[1] in ms && ms[0] in ms;
    ChainAcyclic(Some(Layer(m)), ms);
    ChainAcyclic(Some(Layer(m2)), ms[1..]);
    assert ms[1..][1..] == ms[2..];
  }

  lemma ReadsTwo(m: Multi, m2: Multi, ms: seq<Multi>, size: nat, was: map<nat, Abs>)
    requires m.under == Some(Layer(m2)) && var ok := Reads(Some(Layer(m)), ms, size, was); ok
    ensures |ms| >= 2 && Chain(m2.under, ms[2..])
    ensures forall b: nat :: b < size ==> b in was && was[b] == TwoOver(m.extents, m2.extents, Look(m2.under, ms[2..], b), b)
  {
    assert Chain(m.under, ms[1..]) && ms[1..][1..] == ms[2..] && ms[1..][0] == m2;
    forall b: nat | b < size ensures b in was && was[b] == TwoOver(m.extents, m2.extents, Look(m2.under, ms[2..], b), b) {
      LookTop(Some(Layer(m)), ms, b);
      LookTop(Some(Layer(m2)), ms[1..], b);
    }
  }

  /** One turn of `simplifyStore`: the top map is written over the one below it. */
  method Collapse(m: Multi, m2: Multi, ghost size: nat, ghost end: nat, ghost ms: seq<Multi>, ghost was: map<nat, Abs>, ghost exact: bool)
    returns (ghost now: seq<Multi>)
    requires m.under == Some(Layer(m2)) && m.Shaped() && m2.Shaped() && m2.Counted() && var ok := Reads(Some(Layer(m)), ms, size, was); ok
    requires size <= m2.allocSize <= end < UNKNOWN_SIZE && m.allocSize <= end && var top := CollapsibleTop(m2.extents, m.extents, exact); top
    modifies m2`extents, m2`covered, m2`allocSize, m2`under
    ensures m2.Shaped() && m2.Counted() && size <= m2.allocSize <= end && m2.extents == OverlayMap(old(m2.extents), m.extents)
    ensures (now == ms[1..] || now == [m2]) && var standing := Standing(Layer(m2), now, size, was, exact); standing
  {
    TwoTop(m, m2, ms);
    ghost var lower, under, rest := m2.extents, m2.under, ms[2..];
    ReadsTwo(m, m2, ms, size, was);
    WithinMore(m.extents, m.allocSize, end);
    WithinMore(lower, m2.allocSize, end);
    Overlay(m2, m.extents, size, end);
    now := if m2.under == under then ms[1..] else [m2];
    assert ms[1..][1..] == rest;
    assert Chain(under, rest) && now[1..] == if m2.under == under then rest else [];
    TopChain(m2, now);
    forall b: nat | b < size ensures b in was && StandsAt(Look(Some(Layer(m2)), now, b), was[b], exact) {
      ghost var below := old(Look(under, rest, b));
      TopOver(m2, now, under, rest, b, below);
      CollapsedByte(lower, m.extents, end, b, below);
    }
  }

  lemma TopChain(m: Multi, now: seq<Multi>)
    requires now != [] && now[0] == m && Chain(m.under, now[1..])
    ensures Chain(Some(Layer(m)), now)
  {
  }

  lemma TopOver(m: Multi, now: seq<Multi>, under: Option<Store>, rest: seq<Multi>, b: nat, below: Abs)
    requires Chain(Some(Layer(m)), now) && Chain(under, rest) && below == Look(under, rest, b)
    requires (m.under == under && now[1..] == rest) || Peek(m.extents, b).Some?
    ensures Look(Some(Layer(m)), now, b) == if Peek(m.extents, b).Some? then Peek(m.extents, b).value else below
  {
  }

  /** The maps from the top that nobody else uses. */
  ghost function Own(ms: seq<Multi>): seq<Pieces>
    reads ms
  {
    if ms == [] || ms[0].refCount != 1 then [] else [ms[0].extents] + Own(ms[1..])
  }

  /** Each map in turn may be written over the next. */
  ghost predicate MayCollapse(maps: seq<Pieces>)
    decreases |maps|
  {
    |maps| <= 1 || (MayOverlay(maps[1], maps[0]) && MayCollapse([OverlayMap(maps[1], maps[0])] + maps[2..]))
  }

  /** No pointer is partly covered, and every constant is cut cleanly. */
  ghost predicate CollapseExact(maps: seq<Pieces>)
    decreases |maps|
  {
    |maps| <= 1 || (OverlayExact(maps[1], maps[0]) && CollapseExact([OverlayMap(maps[1], maps[0])] + maps[2..]))
  }

  /** The upper of two maps is written over the lower, and what lay below stays, or is dropped. */
  ghost predicate FoldStep(maps: seq<Pieces>, now: seq<Pieces>)
  {
    |maps| >= 2 && (now == [OverlayMap(maps[1], maps[0])] + maps[2..] || now == [OverlayMap(maps[1], maps[0])])
  }

  /** That happened some number of times. */
  ghost predicate Folds(maps: seq<Pieces>, now: seq<Pieces>)
    decreases |maps|
  {
    now == maps
    || (|maps| >= 2 && (Folds([OverlayMap(maps[1], maps[0])] + maps[2..], now) || Folds([OverlayMap(maps[1], maps[0])], now)))
  }

  lemma {:induction false} FoldsOn(maps: seq<Pieces>, mid: seq<Pieces>, now: seq<Pieces>)
    requires Folds(maps, mid) && FoldStep(mid, now)
    ensures Folds(maps, now)
    decreases |maps|
  {
    if mid != maps {
      var one := OverlayMap(maps[1], maps[0]);
      if Folds([one] + maps[2..], mid) {
        FoldsOn([one] + maps[2..], mid, now);
      } else {
        FoldsOn([one], mid, now);
      }
    }
  }

  lemma OwnNext(ms: seq<Multi>)
    requires |ms| >= 2 && ms[0].refCount == 1 && ms[1].refCount == 1
    ensures Own(ms) == [ms[0].extents, ms[1].extents] + Own(ms[2..]) && Own(ms[1..]) == [ms[1].extents] + Own(ms[2..])
  {
    var below := ms[1..];
    assert below[0] == ms[1];
    OwnOne(ms);
    OwnOne(below);
    assert below[1..] == ms[2..];
    OwnTwo(ms[0].extents, ms[1].extents, Own(ms[2..]));
  }

  lemma OwnOne(ms: seq<Multi>)
    requires ms != [] && ms[0].refCount == 1
    ensures Own(ms) == [ms[0].extents] + Own(ms[1..])
  {
  }

  lemma OwnTwo(top: Pieces, second: Pieces, rest: seq<Pieces>)
    ensures [top] + ([second] + rest) == [top, second] + rest
  {
  }

  /** The maps nobody else uses may be collapsed, and losslessly if so promised. */
  ghost predicate Owned(ms: seq<Multi>, exact: bool)
    reads ms
  {
    Collapsible(Own(ms), exact)
  }

  ghost predicate Collapsible(maps: seq<Pieces>, exact: bool)
  {
    MayCollapse(maps) && (exact ==> CollapseExact(maps))
  }

  ghost predicate CollapsibleTop(lower: Pieces, upper: Pieces, exact: bool)
  {
    MayOverlay(lower, upper) && (exact ==> OverlayExact(lower, upper))
  }

  /** The two maps at the top, as a turn finds them. */
  lemma OwnBefore(ms: seq<Multi>, exact: bool)
    requires |ms| >= 2 && ms[0].refCount == 1 && ms[1].refCount == 1 && var owned := Owned(ms, exact); owned
    ensures var all := Collapsible([ms[0].extents, ms[1].extents] + Own(ms[2..]), exact); all
    ensures var top := CollapsibleTop(ms[1].extents, ms[0].extents, exact); top
  {
    OwnNext(ms);
    CollapseNext(ms[0].extents, ms[1].extents, Own(ms[2..]), exact);
  }

  /** The maps after a turn: the lower one, now written over, is their top. */
  lemma OwnAfter(ms: seq<Multi>, now: seq<Multi>, m2: Multi, top: Pieces, second: Pieces, rest: seq<Pieces>, exact: bool)
    requires |ms| >= 2 && ms[1] == m2 && (now == ms[1..] || now == [m2]) && m2.refCount == 1
    requires m2.extents == OverlayMap(second, top) && Own(ms[2..]) == rest
    requires var all := Collapsible([top, second] + rest, exact); all
    ensures var owned := Owned(now, exact); owned
    ensures var step := FoldStep([top, second] + rest, Own(now)); step
  {
    CollapseNext(top, second, rest, exact);
    OneCollapsible([m2.extents], exact);
    assert ms[1..][1..] == ms[2..] && now[0] == m2;
    OwnTop(now, m2, if now == ms[1..] then rest else []);
    Stepped(top, second, rest, Own(now), m2.extents);
  }

  lemma Stepped(top: Pieces, second: Pieces, rest: seq<Pieces>, now: seq<Pieces>, one: Pieces)
    requires one == OverlayMap(second, top) && (now == [one] + rest || now == [one])
    ensures FoldStep([top, second] + rest, now)
  {
    var maps := [top, second] + rest;
    assert maps[0] == top && maps[1] == second && maps[2..] == rest;
  }

  lemma OwnTop(ms: seq<Multi>, m: Multi, rest: seq<Pieces>)
    requires ms != [] && ms[0] == m && m.refCount == 1 && Own(ms[1..]) == rest
    ensures Own(ms) == [m.extents] + rest && (rest == [] ==> Own(ms) == [m.extents])
  {
    assert [m.extents] + [] == [m.extents];
  }

  /** A map in order, no larger than `end`. */
  ghost predicate Sized(m: Multi, size: nat, end: nat)
    reads m
  {
    m.Shaped() && m.Counted() && size <= m.allocSize <= end
  }

  /** The two topmost maps have no other user. */
  predicate OwnsTwo(s: Store)
    reads if s.Layer? then {s.m} else {}, if s.Layer? && s.m.under.Some? && s.m.under.value.Layer? then {s.m.under.value.m} else {}
  {
    s.Layer? && s.m.under.Some? && s.m.under.value.Layer? && s.m.refCount == 1 && s.m.under.value.m.refCount == 1
  }

  /** `simplifyStore`: as long as the two topmost maps have no other user, write the upper over the
      lower. None such are left in the end. Every byte then allows what it allowed, and exactly that
      when nothing that cannot be cut was partly covered. */
  method SimplifyStore(s: Store, ghost size: nat, ghost end: nat, ghost ms: seq<Multi>) returns (r: Store, ghost now: seq<Multi>)
    requires Chain(Some(s), ms) && size <= end < UNKNOWN_SIZE && MayCollapse(Own(ms))
    requires forall m :: m in ms ==> Sized(m, size, end)
    modifies ms
    ensures Chain(Some(r), now) && !OwnsTwo(r) && (!old(OwnsTwo(s)) ==> r == s && now == ms)
    ensures forall b: nat :: b < size ==> StandsAt(Look(Some(r), now, b), old(Look(Some(s), ms, b)), CollapseExact(old(Own(ms))))
    ensures var folds := Folds(old(Own(ms)), Own(now)); folds
  {
    r, now := s, ms;
    ghost var own := Own(ms);
    ghost var exact, was := CollapseExact(Own(ms)), ReadsOf(s, ms, size);
    StandingStart(s, ms, size, was, exact);
    while OwnsTwo(r)
      invariant (forall m :: m in now ==> m in ms) && var standing := Standing(r, now, size, was, exact); standing
      invariant (var owned := Owned(now, exact); owned) && (!old(OwnsTwo(s)) ==> r == s && now == ms)
      invariant var folds := Folds(own, Own(now)); folds
      invariant forall m :: m in now ==> Sized(m, size, end)
      decreases |now|
    {
      ghost var mid, before := ReadsOf(r, now, size), Own(now);
      assert Chain(r.m.under, now[1..]) && now[1..][0] == now[1] && now[1] in now;
      r, now := CollapseTop(r.m, size, end, now, mid, exact);
      StandingThen(r, now, size, mid, was, exact);
      FoldsOn(own, before, Own(now));
    }
  }

  /** The maps that are left after a turn may be collapsed in turn. */
  lemma CollapseNext(top: Pieces, second: Pieces, rest: seq<Pieces>, exact: bool)
    requires var all := Collapsible([top, second] + rest, exact); all
    ensures var ok := CollapsibleTop(second, top, exact); ok
    ensures var ok := Collapsible([OverlayMap(second, top)] + rest, exact); ok
  {
    var maps := [top, second] + rest;
    assert maps[0] == top && maps[1] == second && maps[2..] == rest;
  }

  lemma OneCollapsible(maps: seq<Pieces>, exact: bool)
    requires |maps| == 1
    ensures var ok := Collapsible(maps, exact); ok
  {
  }

  /** The body of the loop. */
  method CollapseTop(m: Multi, ghost size: nat, ghost end: nat, ghost ms: seq<Multi>, ghost was: map<nat, Abs>, ghost exact: bool)
    returns (r: Store, ghost now: seq<Multi>)
    requires size <= end < UNKNOWN_SIZE && var ok := Reads(Some(Layer(m)), ms, size, was); ok
    requires var owned := Owned(ms, exact); owned
    requires m.under.Some? && m.under.value.Layer? && m.refCount == 1 && m.under.value.m.refCount == 1
    requires forall m :: m in ms ==> Sized(m, size, end)
    modifies if m.under.Some? && m.under.value.Layer? then {m.under.value.m} else {}
    ensures |now| < |ms| && (forall m :: m in now ==> m in ms)
    ensures var owned := Owned(now, exact); owned
    ensures var step := FoldStep(old(Own(ms)), Own(now)); step
    ensures forall m :: m in now ==> Sized(m, size, end)
    ensures var standing := Standing(r, now, size, was, exact); standing
  {
    var m2 := m.under.value.m;
    TwoTop(m, m2, ms);
    ghost var top, second, below, rest := m.extents, m2.extents, ms[2..], Own(ms[2..]);
    OwnBefore(ms, exact);
    OwnNext(ms);
    now := Collapse(m, m2, size, end, ms, was, exact);
    r := Layer(m2);
    OwnAfter(ms, now, m2, top, second, rest, exact);
  }
}
