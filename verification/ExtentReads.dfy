/** Reading a range of a store as a list of extents: `readValRangeMultiFrom`
    (llpe/main/LoadForward.cpp:2095-2233). */
module ExtentReads {
  import opened Options
  import opened Extents
  import opened Constants
  import opened SymbolicValues
  import opened SubValues
  import opened ValueCuts
  import opened SmoothValues
  import opened RangeClears
  import opened LayeredStore
  import opened Stacks

  /** `n` bytes of undef. */
  function Undef(n: nat): Val
  {
    ScalarOf(CUndef(IntTy(8 * n, n)))
  }

  lemma UndefByte(n: nat, k: nat)
    requires n > 0
    ensures ByteAt(Undef(n), k) == OneOf({Anything}) && Fits(Undef(n), n)
  {
    ScalarByte(CUndef(IntTy(8 * n, n)), k);
    ScalarFits(CUndef(IntTy(8 * n, n)), n);
  }

  /** Undef and unknown values can be cut anywhere. */
  lemma UndefClipped(lo: nat, hi: nat, v: Val, cuts: iset<nat>)
    requires lo < hi && lo in cuts && hi in cuts && (v == Undef(hi - lo) || v == OVERDEF)
    ensures Clipped([Extent(lo, hi, v)], cuts)
  {
    var e, c := Extent(lo, hi, v), CUndef(IntTy(8 * (hi - lo), hi - lo));
    UndefByte(hi - lo, 0);
    ScalarFits(c, hi - lo);
    forall x: nat, y: nat | x in cuts && y in cuts && e.start <= x < y <= e.stop ensures PartsAt(e, x, y) {
      UndefPart(e, x, y, c);
    }
    assert ClippedOne(e, cuts);
  }

  lemma UndefPart(e: Extent<Val>, lo: nat, hi: nat, c: CutConst)
    requires e.start <= lo < hi <= e.stop && Fits(e.val, e.stop - e.start) && c.CUndef? && Size(c) == e.stop - e.start
    requires e.val == OVERDEF || e.val == ScalarOf(c)
    ensures PartsAt(e, lo, hi)
  {
    if e.val == ScalarOf(c) {
      ScalarFits(c, Size(c));
      assert Untorn(c, lo - e.start, hi - lo);
    }
  }

  lemma NothingAnswers(lo: nat, hi: nat, cuts: iset<nat>)
    requires lo < hi && lo in cuts && hi in cuts
    ensures var ok := Answers([Extent(lo, hi, Undef(hi - lo))], lo, hi, Nothing, cuts); ok
  {
    var u := Undef(hi - lo);
    UndefByte(hi - lo, 0);
    WholeKeeps(Extent(lo, hi, u));
    UndefClipped(lo, hi, u, cuts);
    forall b: nat | lo <= b < hi ensures HeldBy(Nothing, b, u, lo) {
      UndefByte(hi - lo, b - lo);
    }
    AnswersPieces([Extent(lo, hi, u)], lo, hi, Nothing, u, lo, true, cuts);
  }

  lemma ThresholdAnswers(lo: nat, hi: nat, rest: Stack, cuts: iset<nat>)
    ensures var ok := Answers([], lo, hi, Threshold(rest), cuts); ok
  {
    forall b: nat | lo <= b < hi ensures AnswersAt(Peek([], b), Threshold(rest), b) {
      PeekNone([], b);
    }
  }

  /** The whole of a value stands for itself. */
  lemma WholeKeeps(e: Extent<Val>)
    requires ExtentFits(e)
    ensures var keeps := Keeps([e], e.start, e.stop, e.val, e.start, true); keeps
  {
    WholeStands(e.val, e.start, e.stop);
    assert Extent(e.start, e.stop, e.val) == e;
    KeepsOne(e, e.val, e.start, true);
  }

  lemma FreedAnswers(v: Val, lo: nat, hi: nat, cuts: iset<nat>)
    requires lo < hi && lo in cuts && hi in cuts && v.kind == KDeallocated
    ensures var ok := Answers([Extent(lo, hi, OVERDEF)], lo, hi, Bottom(v), cuts); ok
  {
    WholeKeeps(Extent(lo, hi, OVERDEF));
    UndefClipped(lo, hi, OVERDEF, cuts);
    AnswersPieces([Extent(lo, hi, OVERDEF)], lo, hi, Bottom(v), OVERDEF, lo, true, cuts);
  }

  /** Parts of such values are known. */
  lemma SureParts(v: Val, len: nat, off: nat, n: nat, above: nat)
    requires var ready := CanTake(v, len, off, n); ready
    ensures Sure(v) ==> AllKnown(IvsSubVals(v, len, off, n, above))
  {
    if Sure(v) {
      SubValsSmooth(v, len, off, n, above);
    }
  }

  /** Part of a single value. */
  lemma BottomAnswers(v: Val, lo: nat, hi: nat, size: nat, cuts: iset<nat>)
    requires Slices(v, 0, size, cuts) && lo < hi <= size && lo in cuts && hi in cuts
    ensures (var ready := CanTake(v, size, lo, hi - lo); ready)
    ensures var ok := Answers(IvsSubVals(v, size, lo, hi - lo, 0), lo, hi, Bottom(v), cuts); ok
  {
    assert SlicesAt(v, 0, size, lo, hi, cuts);
    SubValsKeep(v, size, lo, hi - lo, 0);
    SureParts(v, size, lo, hi - lo, 0);
    AnswersPieces(IvsSubVals(v, size, lo, hi - lo, 0), lo, hi, Bottom(v), v, 0, LosesNothing(v, size, lo, hi - lo), cuts);
  }

  lemma WholeBottomAnswers(v: Val, size: nat, cuts: iset<nat>)
    requires Slices(v, 0, size, cuts) && 0 in cuts && size in cuts
    ensures var ok := Answers([Extent(0, size, v)], 0, size, Bottom(v), cuts); ok
  {
    var e := Extent(0, size, v);
    WholeKeeps(e);
    assert ClippedOne(e, cuts);
    AnswersPieces([e], 0, size, Bottom(v), v, 0, true, cuts);
  }

  /** Part of an extent of the top layer. */
  lemma PartAnswers(top: Pieces, rest: Stack, e: Extent<Val>, i: nat, lo: nat, hi: nat, cuts: iset<nat>)
    requires Sorted(top) && i < |top| && top[i] == e && (var ok := Slices(e.val, e.start, e.stop, cuts); ok)
    requires e.start <= lo < hi <= e.stop && lo in cuts && hi in cuts
    ensures (var ready := CanTake(e.val, e.stop - e.start, lo - e.start, hi - lo); ready)
    ensures var ok := Answers(IvsSubVals(e.val, e.stop - e.start, lo - e.start, hi - lo, e.start), lo, hi, Over(top, rest), cuts); ok
    ensures var ok := InParts(IvsSubVals(e.val, e.stop - e.start, lo - e.start, hi - lo, e.start), lo, hi, Over(top, rest)); ok
  {
    var v, len := e.val, e.stop - e.start;
    assert SlicesAt(v, e.start, e.stop, lo, hi, cuts);
    SubValsKeep(v, len, lo - e.start, hi - lo, e.start);
    SureParts(v, len, lo - e.start, hi - lo, e.start);
    assert e.start + (lo - e.start) == lo && lo + (hi - lo) == hi;
    HitBytes(top, rest, i, lo, hi);
    PartsSmall(v, len, lo - e.start, hi - lo, e.start);
    HitParts(IvsSubVals(v, len, lo - e.start, hi - lo, e.start), top, rest, i, lo, hi);
    AnswersPieces(IvsSubVals(v, len, lo - e.start, hi - lo, e.start), lo, hi, Over(top, rest), v, e.start,
                  LosesNothing(v, len, lo - e.start, hi - lo), cuts);
  }

  lemma HitParts(r: Pieces, top: Pieces, rest: Stack, i: nat, lo: nat, hi: nat)
    requires Sorted(top) && i < |top| && top[i].start <= lo && hi <= top[i].stop && AllParts(r, top[i].val)
    ensures var ok := InParts(r, lo, hi, Over(top, rest)); ok
  {
    forall b: nat | lo <= b < hi ensures Holder(Over(top, rest), b) == Some(top[i].val) {
      AtHit(top, i, b);
    }
    PartsHeld(r, lo, hi, Over(top, rest), top[i].val);
  }

  lemma HitBytes(top: Pieces, rest: Stack, i: nat, lo: nat, hi: nat)
    requires Sorted(top) && i < |top| && top[i].start <= lo < hi <= top[i].stop
    ensures var st, e := Over(top, rest), top[i];
            forall b: nat :: lo <= b < hi ==> HeldBy(st, b, e.val, e.start)
  {
    forall b: nat | lo <= b < hi ensures At(top, b) == Some(top[i]) {
      AtHit(top, i, b);
    }
  }

  lemma WholeAnswers(top: Pieces, rest: Stack, i: nat, cuts: iset<nat>)
    requires Sorted(top) && LayerSlices(top, cuts) && i < |top|
    ensures var ok := Answers([top[i]], top[i].start, top[i].stop, Over(top, rest), cuts); ok
  {
    var e := top[i];
    assert e in top && Slices(e.val, e.start, e.stop, cuts);
    WholeKeeps(e);
    HitBytes(top, rest, i, e.start, e.stop);
    assert Extent(e.start, e.stop, e.val) == e && ClippedOne(e, cuts);
    AnswersPieces([e], e.start, e.stop, Over(top, rest), e.val, e.start, true, cuts);
  }

  /** Between two extents the top layer has nothing. */
  lemma GapMiss(top: Pieces, i: nat, lo: nat, hi: nat)
    requires Sorted(top) && i <= |top| && (i > 0 ==> top[i - 1].stop <= lo) && (i < |top| ==> hi <= top[i].start)
    ensures forall b: nat :: lo <= b < hi ==> At(top, b) == None && Find(top, b) == i
  {
    forall b: nat | lo <= b < hi ensures At(top, b) == None && Find(top, b) == i {
      forall k | 0 <= k < |top| ensures !(top[k].start <= b < top[k].stop) {
        if k < i - 1 {
          assert Precedes(top, k, i - 1);
        } else if k > i {
          assert Precedes(top, i, k);
        }
      }
      AtMiss(top, b);
      forall j | 0 <= j < i ensures top[j].stop <= b {
        assert j < i - 1 ==> Precedes(top, j, i - 1);
      }
      FindIs(top, b, i);
    }
  }

  lemma SlicesOf(top: Pieces, i: nat, cuts: iset<nat>)
    requires LayerSlices(top, cuts) && i < |top|
    ensures var ok := Slices(top[i].val, top[i].start, top[i].stop, cuts); ok
    ensures top[i].start in cuts && top[i].stop in cuts
  {
    assert top[i] in top;
  }

  // ----- the reader

  /** `readValRangeMultiFrom`: the bytes off..end of a store as extents, leaving gaps where
      `threshold` shows through. `cuts` are the points at which values may come to be cut. */
  method ReadMulti(s: Option<Store>, off: nat, end: nat, threshold: Option<Store>, size: nat, ghost ms: seq<Multi>, ghost cuts: iset<nat>)
    returns (r: Pieces)
    requires Chain(s, ms) && off < end <= size && off in cuts && end in cuts
    requires StackSlices(StackOf(s, ms, threshold), size, cuts)
    ensures var ok := Answers(r, off, end, StackOf(s, ms, threshold), cuts); ok
    ensures var ok := Wholes(r, off, end, StackOf(s, ms, threshold), off, end, size); ok
    ensures var ok := InParts(r, off, end, StackOf(s, ms, threshold)); ok
    decreases |ms|, 2, 0
  {
    if s.None? {
      NothingAnswers(off, end, cuts);
      return [Extent(off, end, Undef(end - off))];
    }
    if s == threshold {
      ThresholdAnswers(off, end, Unmarked(s, ms), cuts);
      return [];
    }
    match s.value {
      case Single(v) =>
        if v.kind == KDeallocated {
          FreedAnswers(v, off, end, cuts);
          return [Extent(off, end, OVERDEF)];
        }
        if off == 0 && end == size {
          PartsHeld([Extent(0, size, v)], 0, size, Bottom(v), v);
          WholeBottomAnswers(v, size, cuts);
          AtHit([Extent(0, size, v)], 0, 0);
          BottomWhole(v, size);
          return [Extent(0, size, v)];
        }
        BottomAnswers(v, off, end, size, cuts);
        PartsSmall(v, size, off, end - off, 0);
        PartsHeld(IvsSubVals(v, size, off, end - off, 0), off, end, Bottom(v), v);
        return IvsSubVals(v, size, off, end - off, 0);
      case Layer(m) =>
        r := ReadLayer(m, off, end, threshold, size, ms, cuts);
    }
  }

  lemma BottomWhole(v: Val, size: nat)
    requires size > 0
    ensures var ok := Wholes([Extent(0, size, v)], 0, size, Bottom(v), 0, size, size); ok
  {
    forall b: nat | b < size ensures At([Extent(0, size, v)], b) == Some(Extent(0, size, v)) {
      OnlyAt(Extent(0, size, v), b);
    }
  }

  /** Whether the threshold is this layer, and what lies above it otherwise. */
  ghost predicate LayerReady(m: Multi, threshold: Option<Store>, size: nat, ms: seq<Multi>, cuts: iset<nat>)
    reads ms, m
  {
    && Chain(Some(Layer(m)), ms) && ms != [] && threshold != Some(Layer(m)) && Sorted(m.extents) && LayerSlices(m.extents, cuts)
    && StackSlices(StackOf(m.under, ms[1..], threshold), size, cuts)
  }

  /** The part of a read that one layer answers, deferring its gaps to the store below. */
  method ReadLayer(m: Multi, off: nat, end: nat, threshold: Option<Store>, size: nat, ghost ms: seq<Multi>, ghost cuts: iset<nat>)
    returns (r: Pieces)
    requires LayerReady(m, threshold, size, ms, cuts) && off < end <= size && off in cuts && end in cuts
    ensures var ok := Answers(r, off, end, Over(m.extents, StackOf(m.under, ms[1..], threshold)), cuts); ok
    ensures var ok := Wholes(r, off, end, Over(m.extents, StackOf(m.under, ms[1..], threshold)), off, end, size); ok
    ensures var ok := InParts(r, off, end, Over(m.extents, StackOf(m.under, ms[1..], threshold))); ok
    decreases |ms|, 1, 0
  {
    ghost var st := Over(m.extents, StackOf(m.under, ms[1..], threshold));
    var i, cur;
    r, i, cur := ReadLeft(m.extents, off, end, st.rest, size, cuts);
    while i < |m.extents| && m.extents[i].start < end
      invariant 0 <= i <= |m.extents| && off <= cur <= end && cur in cuts && Reached(m.extents, i, off, cur, end)
      invariant var ok := Answered(r, off, cur, st, off, end, size, cuts); ok
      decreases |m.extents| - i
    {
      var more, next := ReadStep(m, i, off, cur, end, threshold, size, ms, cuts);
      assert i + 1 < |m.extents| ==> Precedes(m.extents, i, i + 1);
      AnsweredConcat(r, more, off, cur, next, st, off, end, size, cuts);
      r, cur, i := r + more, next, i + 1;
    }
    if cur < end {
      var more := ReadGap(m, i, off, cur, end, end, threshold, size, ms, cuts);
      AnsweredConcat(r, more, off, cur, end, st, off, end, size, cuts);
      r := r + more;
    }
  }

  /** The extents answer for the bytes from..to of those asked, lo..hi, values read whole as they are. */
  ghost predicate Answered(r: Pieces, from: nat, to: nat, st: Stack, lo: nat, hi: nat, size: nat, cuts: iset<nat>)
  {
    Answers(r, from, to, st, cuts) && Wholes(r, from, to, st, lo, hi, size) && InParts(r, from, to, st)
  }

  lemma AnsweredConcat(p: Pieces, q: Pieces, from: nat, mid: nat, to: nat, st: Stack, lo: nat, hi: nat, size: nat, cuts: iset<nat>)
    requires from <= mid <= to
    requires var ok := Answered(p, from, mid, st, lo, hi, size, cuts); ok
    requires var ok := Answered(q, mid, to, st, lo, hi, size, cuts); ok
    ensures var ok := Answered(p + q, from, to, st, lo, hi, size, cuts); ok
  {
    AnswersConcat(p, q, from, mid, to, st, cuts);
    WholesConcat(p, q, from, mid, to, st, lo, hi, size);
    PartsConcat(p, q, from, mid, to, st);
  }

  /** The read has got to `cur`: past the extents before `i`, and not into the one at `i`. */
  ghost predicate Reached(top: Pieces, i: nat, off: nat, cur: nat, end: nat)
    requires i <= |top|
  {
    && (cur < end ==> cur == if i > 0 && off < top[i - 1].stop then top[i - 1].stop else off)
    && (i < |top| && top[i].start < end ==> cur <= top[i].start)
  }

  /** The value that overlaps the range on the left. */
  method ReadLeft(top: Pieces, off: nat, end: nat, ghost rest: Stack, ghost size: nat, ghost cuts: iset<nat>) returns (r: Pieces, i: nat, cur: nat)
    requires Sorted(top) && LayerSlices(top, cuts) && off < end && off in cuts && end in cuts
    ensures i <= |top| && off <= cur <= end && cur in cuts && Reached(top, i, off, cur, end)
    ensures var ok := Answered(r, off, cur, Over(top, rest), off, end, size, cuts); ok
  {
    i := Find(top, off);
    if i < |top| && top[i].start < off {
      var e := top[i];
      SlicesOf(top, i, cuts);
      cur := if end < e.stop then end else e.stop;
      PartAnswers(top, rest, e, i, off, cur, cuts);
      PartNotWhole(IvsSubVals(e.val, e.stop - e.start, off - e.start, cur - off, e.start), top, rest, i, off, cur, off, end, size);
      assert i + 1 < |top| ==> Precedes(top, i, i + 1);
      r := IvsSubVals(e.val, e.stop - e.start, off - e.start, cur - off, e.start);
      i := i + 1;
    } else {
      r, cur := [], off;
      AnswersNone(off, Over(top, rest), cuts);
      WholesNone(off, Over(top, rest), off, end, size);
      PartsNone(off, Over(top, rest));
    }
  }

  /** Of a value that does not lie wholly in the range none is read whole. */
  lemma PartNotWhole(r: Pieces, top: Pieces, rest: Stack, i: nat, from: nat, to: nat, lo: nat, hi: nat, size: nat)
    requires Sorted(top) && i < |top| && top[i].start <= from && to <= top[i].stop && (top[i].start < lo || hi < top[i].stop)
    ensures var ok := Wholes(r, from, to, Over(top, rest), lo, hi, size); ok
  {
    forall b: nat | from <= b < to ensures WholeAt(Over(top, rest), lo, hi, size, b) == None {
      AtHit(top, i, b);
    }
  }

  /** The bytes before the extent at `i`, read from below. */
  method ReadGap(m: Multi, i: nat, ghost off: nat, lo: nat, hi: nat, ghost end: nat, threshold: Option<Store>, size: nat, ghost ms: seq<Multi>, ghost cuts: iset<nat>)
    returns (r: Pieces)
    requires lo == (if i > 0 && i <= |m.extents| && off < m.extents[i - 1].stop then m.extents[i - 1].stop else off)
    requires hi == if i < |m.extents| && m.extents[i].start < end then m.extents[i].start else end
    requires LayerReady(m, threshold, size, ms, cuts) && lo < hi <= size && lo in cuts && hi in cuts
    requires i <= |m.extents| && (i > 0 ==> m.extents[i - 1].stop <= lo) && (i < |m.extents| ==> hi <= m.extents[i].start)
    ensures var ok := Answered(r, lo, hi, Over(m.extents, StackOf(m.under, ms[1..], threshold)), off, end, size, cuts); ok
    decreases |ms|, 0, 0
  {
    r := ReadMulti(m.under, lo, hi, threshold, size, ms[1..], cuts);
    GapMiss(m.extents, i, lo, hi);
    AnswersBelow(r, lo, hi, m.extents, StackOf(m.under, ms[1..], threshold), cuts);
    WholesBelow(r, lo, hi, m.extents, StackOf(m.under, ms[1..], threshold), off, end, size, i);
    PartsBelow(r, lo, hi, m.extents, StackOf(m.under, ms[1..], threshold));
  }

  /** One turn of the loop: the gap before the extent at `i`, then the extent, cut at the end of the
      range. */
  method ReadStep(m: Multi, i: nat, ghost off: nat, cur: nat, end: nat, threshold: Option<Store>, size: nat, ghost ms: seq<Multi>, ghost cuts: iset<nat>)
    returns (r: Pieces, next: nat)
    requires LayerReady(m, threshold, size, ms, cuts) && cur < end <= size && cur in cuts && end in cuts
    requires i < |m.extents| && m.extents[i].start < end && Reached(m.extents, i, off, cur, end)
    ensures next == (if end < m.extents[i].stop then end else m.extents[i].stop) && cur < next && next in cuts
    ensures var ok := Answered(r, cur, next, Over(m.extents, StackOf(m.under, ms[1..], threshold)), off, end, size, cuts); ok
    decreases |ms|, 0, 1
  {
    ghost var st := Over(m.extents, StackOf(m.under, ms[1..], threshold));
    var e := m.extents[i];
    SlicesOf(m.extents, i, cuts);
    r := [];
    AnswersNone(cur, st, cuts);
    WholesNone(cur, st, off, end, size);
    PartsNone(cur, st);
    if e.start != cur {
      r := ReadGap(m, i, off, cur, e.start, end, threshold, size, ms, cuts);
    }
    var part;
    part, next := TakeExtent(m.extents, i, off, end, st.rest, size, cuts);
    AnsweredConcat(r, part, cur, e.start, next, st, off, end, size, cuts);
    r := r + part;
  }

  /** The extent at `i`, or as much of it as lies before `end`. */
  method TakeExtent(top: Pieces, i: nat, ghost off: nat, end: nat, ghost rest: Stack, ghost size: nat, ghost cuts: iset<nat>) returns (r: Pieces, next: nat)
    requires Sorted(top) && LayerSlices(top, cuts) && i < |top| && top[i].start < end && end in cuts
    ensures next == (if end < top[i].stop then end else top[i].stop) && top[i].start < next && next in cuts
    ensures var ok := Answered(r, top[i].start, next, Over(top, rest), off, end, size, cuts); ok
  {
    var e := top[i];
    SlicesOf(top, i, cuts);
    if end < e.stop {
      PartAnswers(top, rest, e, i, e.start, end, cuts);
      PartNotWhole(IvsSubVals(e.val, e.stop - e.start, 0, end - e.start, e.start), top, rest, i, e.start, end, off, end, size);
      return IvsSubVals(e.val, e.stop - e.start, 0, end - e.start, e.start), end;
    }
    WholeAnswers(top, rest, i, cuts);
    ExtentWhole(top, rest, i, off, end, size);
    HitParts([e], top, rest, i, e.start, e.stop);
    return [e], e.stop;
  }

  lemma ExtentWhole(top: Pieces, rest: Stack, i: nat, lo: nat, hi: nat, size: nat)
    requires Sorted(top) && i < |top| && top[i].start < top[i].stop
    ensures var ok := Wholes([top[i]], top[i].start, top[i].stop, Over(top, rest), lo, hi, size); ok
  {
    forall b: nat | top[i].start <= b < top[i].stop ensures At([top[i]], b) == At(top, b) == Some(top[i]) {
      AtHit(top, i, b);
      OnlyAt(top[i], b);
    }
  }
}
