/** A chain of layers as a value: what each byte holds, where a threshold store shows through, and
    what it means for a list of extents to answer a read. */
module Stacks {
  import opened Options
  import opened Extents
  import opened SymbolicValues
  import opened SubValues
  import opened ValueCuts
  import opened SmoothValues
  import opened RangeClears
  import opened LayeredStore

  /** Maps over one another, down to a single value or to nothing; `Threshold` marks the store below
      which a read does not look. */
  datatype Stack = Nothing | Bottom(v: Val) | Over(top: Pieces, rest: Stack) | Threshold(rest: Stack)

  ghost function StackOf(s: Option<Store>, ms: seq<Multi>, threshold: Option<Store>): Stack
    requires Chain(s, ms)
    reads ms
  {
    if threshold.Some? && s == threshold then Threshold(Unmarked(s, ms)) else Stacked(s, ms, threshold)
  }

  /** The stack without looking for a threshold at the top. */
  ghost function Stacked(s: Option<Store>, ms: seq<Multi>, threshold: Option<Store>): Stack
    requires Chain(s, ms)
    reads ms
    decreases |ms|
  {
    match s
    case None => Nothing
    case Some(Single(v)) => Bottom(v)
    case Some(Layer(m)) =>
      if threshold.Some? && m.under == threshold then Over(m.extents, Threshold(Unmarked(m.under, ms[1..])))
      else Over(m.extents, Stacked(m.under, ms[1..], threshold))
  }

  ghost function Unmarked(s: Option<Store>, ms: seq<Multi>): Stack
    requires Chain(s, ms)
    reads ms
    decreases |ms|
  {
    match s
    case None => Nothing
    case Some(Single(v)) => Bottom(v)
    case Some(Layer(m)) => Over(m.extents, Unmarked(m.under, ms[1..]))
  }

  function LookIn(st: Stack, b: nat): Abs
  {
    match st
    case Nothing => OneOf({Anything})
    case Bottom(v) => ByteAt(v, b)
    case Over(top, rest) => if Peek(top, b).Some? then Peek(top, b).value else LookIn(rest, b)
    case Threshold(rest) => LookIn(rest, b)
  }

  /** No layer above the threshold has the byte. */
  predicate Through(st: Stack, b: nat)
  {
    match st
    case Nothing => false
    case Bottom(_) => false
    case Over(top, rest) => Peek(top, b).None? && Through(rest, b)
    case Threshold(_) => true
  }

  /** Values any part of which can be had exactly. */
  predicate Divisible(v: Val)
  {
    v.WhollyUnknown() || v.kind == KSplat || v.kind == KVarArg || (v.kind == KScalar && |v.items| == 1)
  }

  /** The value that holds the byte is divisible. */
  predicate Exactly(st: Stack, b: nat)
  {
    match st
    case Nothing => true
    case Bottom(v) => Divisible(v)
    case Over(top, rest) => if At(top, b).Some? then Divisible(At(top, b).value.val) else Exactly(rest, b)
    case Threshold(rest) => Exactly(rest, b)
  }

  /** The value that holds the byte is one any part of which is known. */
  predicate Surely(st: Stack, b: nat)
  {
    match st
    case Nothing => true
    case Bottom(v) => Sure(v)
    case Over(top, rest) => if At(top, b).Some? then Sure(At(top, b).value.val) else Surely(rest, b)
    case Threshold(rest) => Surely(rest, b)
  }

  lemma {:induction false} UnmarkedLook(s: Option<Store>, ms: seq<Multi>, b: nat)
    requires Chain(s, ms)
    ensures LookIn(Unmarked(s, ms), b) == Look(s, ms, b)
    decreases |ms|
  {
    if ms != [] {
      UnmarkedLook(ms[0].under, ms[1..], b);
    }
  }

  lemma {:induction false} StackedLook(s: Option<Store>, ms: seq<Multi>, threshold: Option<Store>, b: nat)
    requires Chain(s, ms)
    ensures LookIn(Stacked(s, ms, threshold), b) == Look(s, ms, b)
    decreases |ms|
  {
    if ms != [] {
      UnmarkedLook(ms[0].under, ms[1..], b);
      StackedLook(ms[0].under, ms[1..], threshold, b);
    }
  }

  /** A stack denotes what its chain denotes. */
  lemma StackLook(s: Option<Store>, ms: seq<Multi>, threshold: Option<Store>, b: nat)
    requires Chain(s, ms)
    ensures LookIn(StackOf(s, ms, threshold), b) == Look(s, ms, b)
  {
    UnmarkedLook(s, ms, b);
    StackedLook(s, ms, threshold, b);
  }

  lemma StackUnder(s: Option<Store>, ms: seq<Multi>, threshold: Option<Store>)
    requires Chain(s, ms) && ms != [] && !(threshold.Some? && s == threshold)
    ensures StackOf(s, ms, threshold) == Over(ms[0].extents, StackOf(ms[0].under, ms[1..], threshold))
  {
  }

  // ----- where values may be cut

  /** Any part of the extent between points of `cuts` can be had as one value: no array is torn, and a
      value with padding is only taken whole. */
  ghost predicate Parts(e: Extent<Val>, cuts: iset<nat>)
  {
    forall lo: nat, hi: nat {:trigger PartsAt(e, lo, hi)} :: lo in cuts && hi in cuts && e.start <= lo < hi <= e.stop ==> PartsAt(e, lo, hi)
  }

  predicate PartsAt(e: Extent<Val>, lo: nat, hi: nat)
    requires e.start <= lo < hi <= e.stop
  {
    var len, off, n := e.stop - e.start, lo - e.start, hi - lo;
    CanTake(e.val, len, off, n) && NoTears(e.val, len, off, n)
  }

  /** Cut between points of `cuts`, the value falls into pieces that show it, which lie between points of
      `cuts` and can be cut there in turn. */
  ghost predicate Slices(v: Val, start: nat, stop: nat, cuts: iset<nat>)
  {
    && start < stop && Fits(v, stop - start) && Parts(Extent(start, stop, v), cuts)
    && forall lo: nat, hi: nat {:trigger SlicesAt(v, start, stop, lo, hi, cuts)} ::
         lo in cuts && hi in cuts && start <= lo < hi <= stop ==> SlicesAt(v, start, stop, lo, hi, cuts)
  }

  ghost predicate SlicesAt(v: Val, start: nat, stop: nat, lo: nat, hi: nat, cuts: iset<nat>)
    requires start <= lo < hi <= stop
  {
    var len, off, n := stop - start, lo - start, hi - lo;
    && CanTake(v, len, off, n) && CleanPart(v, len, off, n) && Clipped(IvsSubVals(v, len, off, n, start), cuts)
  }

  /** The extents lie between points of `cuts` and can be cut there. */
  ghost predicate Clipped(r: Pieces, cuts: iset<nat>)
  {
    forall e {:trigger ClippedOne(e, cuts)} :: e in r ==> ClippedOne(e, cuts)
  }

  ghost predicate ClippedOne(e: Extent<Val>, cuts: iset<nat>)
  {
    ExtentFits(e) && e.start in cuts && e.stop in cuts && Parts(e, cuts)
  }

  ghost predicate LayerSlices(m: Pieces, cuts: iset<nat>)
  {
    forall e {:trigger Slices(e.val, e.start, e.stop, cuts)} ::
      e in m ==> e.start in cuts && e.stop in cuts && Slices(e.val, e.start, e.stop, cuts)
  }

  /** Every value of the stack is cut only at points that are fit for it. */
  ghost predicate StackSlices(st: Stack, size: nat, cuts: iset<nat>)
  {
    match st
    case Nothing => true
    case Bottom(v) => v.kind == KDeallocated || Slices(v, 0, size, cuts)
    case Over(top, rest) => Sorted(top) && LayerSlices(top, cuts) && StackSlices(rest, size, cuts)
    case Threshold(_) => true
  }

  // ----- answers to a read

  ghost predicate AnswersAt(p: Option<Abs>, st: Stack, b: nat)
  {
    if Through(st, b) then p == None
    else p.Some? && StandsAt(p.value, LookIn(st, b), Exactly(st, b)) && (Surely(st, b) ==> p.value.OneOf?)
  }

  /** The extents answer for the bytes lo..hi: they are in order and lie in the range, leave out
      exactly the bytes where the threshold shows through, and elsewhere stand for what the topmost
      layer says, exactly so for values that can be divided, and are known where those are surely. */
  ghost predicate Answers(r: Pieces, lo: nat, hi: nat, st: Stack, cuts: iset<nat>)
  {
    && Sorted(r) && Within(r, lo, hi) && Clipped(r, cuts)
    && forall b: nat :: lo <= b < hi ==> AnswersAt(Peek(r, b), st, b)
  }

  lemma AnswersNone(lo: nat, st: Stack, cuts: iset<nat>)
    ensures Answers([], lo, lo, st, cuts)
  {
  }

  lemma AnswersConcat(p: Pieces, q: Pieces, lo: nat, mid: nat, hi: nat, st: Stack, cuts: iset<nat>)
    requires lo <= mid <= hi
    requires var ok := Answers(p, lo, mid, st, cuts); ok
    requires var ok := Answers(q, mid, hi, st, cuts); ok
    ensures var ok := Answers(p + q, lo, hi, st, cuts); ok
  {
    WithinEach(p, lo, mid);
    WithinEach(q, mid, hi);
    SortedConcat(p, q, mid);
    forall b: nat | lo <= b < hi ensures AnswersAt(Peek(p + q, b), st, b) {
      PeekConcat(p, q, b);
      if b < mid {
        PeekNone(q, b);
        assert AnswersAt(Peek(p, b), st, b);
      } else {
        PeekNone(p, b);
        assert AnswersAt(Peek(q, b), st, b);
      }
    }
  }

  /** Where the top layer has nothing, an answer from below is an answer. */
  lemma AnswersBelow(r: Pieces, lo: nat, hi: nat, top: Pieces, rest: Stack, cuts: iset<nat>)
    requires (forall b: nat :: lo <= b < hi ==> At(top, b) == None) && var ok := Answers(r, lo, hi, rest, cuts); ok
    ensures var ok := Answers(r, lo, hi, Over(top, rest), cuts); ok
  {
    forall b: nat | lo <= b < hi ensures AnswersAt(Peek(r, b), Over(top, rest), b) {
      BelowAt(Peek(r, b), top, rest, b);
    }
  }

  lemma BelowAt(p: Option<Abs>, top: Pieces, rest: Stack, b: nat)
    requires At(top, b) == None && AnswersAt(p, rest, b)
    ensures var ok := AnswersAt(p, Over(top, rest), b); ok
  {
    OverMiss(top, rest, b);
  }

  lemma OverMiss(top: Pieces, rest: Stack, b: nat)
    requires At(top, b) == None
    ensures var st := Over(top, rest);
            Through(st, b) == Through(rest, b) && LookIn(st, b) == LookIn(rest, b) && Exactly(st, b) == Exactly(rest, b) && Surely(st, b) == Surely(rest, b)
  {
  }

  lemma OverHit(top: Pieces, rest: Stack, b: nat, e: Extent<Val>)
    requires At(top, b) == Some(e)
    ensures var st := Over(top, rest);
            !Through(st, b) && LookIn(st, b) == ByteAt(e.val, b - e.start) && Exactly(st, b) == Divisible(e.val)
  {
  }

  /** The byte is held by the value. */
  predicate HeldBy(st: Stack, b: nat, v: Val, start: nat)
    requires start <= b
  {
    !Through(st, b) && LookIn(st, b) == ByteAt(v, b - start) && (Exactly(st, b) ==> Divisible(v)) && (Surely(st, b) ==> Sure(v))
  }

  /** Pieces that stand for a stretch of one value answer for it. */
  lemma AnswersPieces(r: Pieces, lo: nat, hi: nat, st: Stack, v: Val, start: nat, exact: bool, cuts: iset<nat>)
    requires start <= lo && (Divisible(v) ==> exact) && (Sure(v) ==> AllKnown(r)) && var keeps := Keeps(r, lo, hi, v, start, exact); keeps
    requires Clipped(r, cuts)
    requires forall b: nat :: lo <= b < hi ==> HeldBy(st, b, v, start)
    ensures Answers(r, lo, hi, st, cuts)
  {
    TilesSorted(r, lo, hi);
    forall b: nat | lo <= b < hi ensures AnswersAt(Peek(r, b), st, b) {
      KeepsPeek(r, lo, hi, v, start, exact, b);
      assert HeldBy(st, b, v, start);
    }
  }

  /** An extent of an answer allows what the stack holds there. */
  lemma AnswersHit(r: Pieces, lo: nat, hi: nat, st: Stack, cuts: iset<nat>, i: nat, x: nat)
    requires i < |r| && r[i].start <= x < r[i].stop && var ok := Answers(r, lo, hi, st, cuts); ok
    ensures lo <= x < hi && !Through(st, x) && StandsAt(ByteAt(r[i].val, x - r[i].start), LookIn(st, x), false)
  {
    HitPeek(r, i, x);
    assert lo <= x < hi;
    AnswersStands(Peek(r, x), st, x);
  }

  lemma HitPeek(r: Pieces, i: nat, x: nat)
    requires Sorted(r) && i < |r| && r[i].start <= x < r[i].stop
    ensures Peek(r, x) == Some(ByteAt(r[i].val, x - r[i].start))
  {
    AtHit(r, i, x);
  }

  lemma AnswersStands(p: Option<Abs>, st: Stack, x: nat)
    requires AnswersAt(p, st, x) && p.Some?
    ensures !Through(st, x) && StandsAt(p.value, LookIn(st, x), false)
  {
  }

  // ----- values read in parts

  /** The value that holds the byte, above the threshold. */
  function Holder(st: Stack, b: nat): Option<Val>
  {
    match st
    case Nothing => None
    case Bottom(v) => Some(v)
    case Over(top, rest) => if At(top, b).Some? then Some(At(top, b).value.val) else Holder(rest, b)
    case Threshold(_) => None
  }

  /** Of the bytes from..to the answer holds parts of such values. */
  ghost predicate InParts(r: Pieces, from: nat, to: nat, st: Stack)
  {
    forall b: nat :: from <= b < to && At(r, b).Some? && Holder(st, b).Some? ==> AnyPart(At(r, b).value.val, Holder(st, b).value)
  }

  lemma PartsConcat(p: Pieces, q: Pieces, from: nat, mid: nat, to: nat, st: Stack)
    requires Sorted(p + q) && Within(p, from, mid) && Within(q, mid, to) && from <= mid <= to
    requires var ok := InParts(p, from, mid, st); ok
    requires var ok := InParts(q, mid, to, st); ok
    ensures var ok := InParts(p + q, from, to, st); ok
  {
    WithinEach(p, from, mid);
    WithinEach(q, mid, to);
    forall b: nat | from <= b < to && At(p + q, b).Some? && Holder(st, b).Some? ensures AnyPart(At(p + q, b).value.val, Holder(st, b).value) {
      AtConcat(p, q, b);
      if b < mid {
        AtMiss(q, b);
      } else {
        AtMiss(p, b);
      }
    }
  }

  lemma PartsNone(from: nat, st: Stack)
    ensures var ok := InParts([], from, from, st); ok
  {
  }

  lemma PartsBelow(r: Pieces, from: nat, to: nat, top: Pieces, rest: Stack)
    requires (forall b: nat :: from <= b < to ==> At(top, b) == None) && var ok := InParts(r, from, to, rest); ok
    ensures var ok := InParts(r, from, to, Over(top, rest)); ok
  {
  }

  /** Parts of the one value that holds the bytes. */
  lemma PartsHeld(r: Pieces, from: nat, to: nat, st: Stack, v: Val)
    requires AllParts(r, v) && forall b: nat :: from <= b < to ==> Holder(st, b) == Some(v)
    ensures var ok := InParts(r, from, to, st); ok
  {
  }

  // ----- values read whole

  /** The bytes around `b` that the map leaves to the layer below, of those from `lo` on. */
  function GapStart(top: Pieces, lo: nat, b: nat): nat
  {
    var i := Find(top, b);
    if i > 0 && lo < top[i - 1].stop then top[i - 1].stop else lo
  }

  function GapStop(top: Pieces, hi: nat, b: nat): nat
  {
    var i := Find(top, b);
    if i < |top| && top[i].start < hi then top[i].start else hi
  }

  /** The value that holds the byte, if it lies wholly in the bytes asked of its layer when lo..hi are
      asked of the stack. */
  function WholeAt(st: Stack, lo: nat, hi: nat, size: nat, b: nat): Option<Extent<Val>>
  {
    match st
    case Nothing => None
    case Bottom(v) => if lo == 0 && hi == size && v.kind != KDeallocated then Some(Extent(0, size, v)) else None
    case Over(top, rest) =>
      if At(top, b).Some? then
        var e := At(top, b).value;
        if lo <= e.start && e.stop <= hi then Some(e) else None
      else WholeAt(rest, GapStart(top, lo, b), GapStop(top, hi, b), size, b)
    case Threshold(_) => None
  }

  /** Of the bytes from..to the answer holds such values as they are. */
  ghost predicate Wholes(r: Pieces, from: nat, to: nat, st: Stack, lo: nat, hi: nat, size: nat)
  {
    forall b: nat :: from <= b < to && WholeAt(st, lo, hi, size, b).Some? ==> At(r, b) == WholeAt(st, lo, hi, size, b)
  }

  lemma WholesConcat(p: Pieces, q: Pieces, from: nat, mid: nat, to: nat, st: Stack, lo: nat, hi: nat, size: nat)
    requires Sorted(p + q) && Within(p, from, mid) && Within(q, mid, to) && from <= mid <= to
    requires var ok := Wholes(p, from, mid, st, lo, hi, size); ok
    requires var ok := Wholes(q, mid, to, st, lo, hi, size); ok
    ensures var ok := Wholes(p + q, from, to, st, lo, hi, size); ok
  {
    WithinEach(p, from, mid);
    WithinEach(q, mid, to);
    forall b: nat | from <= b < to && WholeAt(st, lo, hi, size, b).Some? ensures At(p + q, b) == WholeAt(st, lo, hi, size, b) {
      AtConcat(p, q, b);
      if b < mid {
        AtMiss(q, b);
      } else {
        AtMiss(p, b);
      }
    }
  }

  lemma WholesNone(from: nat, st: Stack, lo: nat, hi: nat, size: nat)
    ensures var ok := Wholes([], from, from, st, lo, hi, size); ok
  {
  }

  /** In a gap of the top layer the layer below holds the values that are read whole. */
  lemma WholesBelow(r: Pieces, from: nat, to: nat, top: Pieces, rest: Stack, lo: nat, hi: nat, size: nat, i: nat)
    requires i <= |top| && (forall b: nat :: from <= b < to ==> At(top, b) == None && Find(top, b) == i)
    requires from == (if i > 0 && lo < top[i - 1].stop then top[i - 1].stop else lo)
    requires to == if i < |top| && top[i].start < hi then top[i].start else hi
    requires var ok := Wholes(r, from, to, rest, from, to, size); ok
    ensures var ok := Wholes(r, from, to, Over(top, rest), lo, hi, size); ok
  {
    forall b: nat | from <= b < to && WholeAt(Over(top, rest), lo, hi, size, b).Some?
      ensures At(r, b) == WholeAt(Over(top, rest), lo, hi, size, b)
    {
      assert GapStart(top, lo, b) == from && GapStop(top, hi, b) == to;
    }
  }
}
