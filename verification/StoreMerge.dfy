/** Merging two stores at a control-flow join: the two-cursor loop of `LocStore::mergeStores`
    (llpe/main/LoadForward.cpp:3735-3973). */
module StoreMerge {
  import opened Options
  import opened Extents
  import opened SymbolicValues
  import opened SubValues
  import opened ValueCuts
  import opened SmoothValues
  import opened RangeClears
  import opened LayeredStore
  import opened Stacks
  import opened ExtentReads

  // ----- what a merged list says

  /** Where either side overrides the ancestor, the merged list allows what each side holds, and if it is
      known nothing else; where neither does, it leaves a gap. */
  ghost predicate MergedAt(p: Option<Abs>, a: Stack, b: Stack, x: nat)
  {
    if Through(a, x) && Through(b, x) then p == None
    else p.Some? && StandsAt(p.value, Either(LookIn(a, x), LookIn(b, x)), false)
  }

  ghost predicate Merged(out: Pieces, lo: nat, hi: nat, a: Stack, b: Stack)
  {
    && Sorted(out) && Within(out, lo, hi) && AllFit(out)
    && forall x: nat :: lo <= x < hi ==> MergedAt(Peek(out, x), a, b, x)
  }

  lemma MergedSwap(out: Pieces, lo: nat, hi: nat, a: Stack, b: Stack)
    requires var ok := Merged(out, lo, hi, a, b); ok
    ensures var ok := Merged(out, lo, hi, b, a); ok
  {
    forall x: nat | lo <= x < hi ensures MergedAt(Peek(out, x), b, a, x) {
      assert MergedAt(Peek(out, x), a, b, x);
      EitherSwap(LookIn(a, x), LookIn(b, x));
    }
  }

  lemma {:induction false} EitherSwap(a: Abs, b: Abs)
    ensures Either(a, b) == Either(b, a)
  {
    if a.OneOf? && b.OneOf? {
      assert a.ps + b.ps == b.ps + a.ps;
    }
  }

  lemma MergedConcat(p: Pieces, q: Pieces, lo: nat, mid: nat, hi: nat, a: Stack, b: Stack)
    requires lo <= mid <= hi
    requires var ok := Merged(p, lo, mid, a, b); ok
    requires var ok := Merged(q, mid, hi, a, b); ok
    ensures var ok := Merged(p + q, lo, hi, a, b); ok
  {
    WithinEach(p, lo, mid);
    WithinEach(q, mid, hi);
    SortedConcat(p, q, mid);
    forall x: nat | lo <= x < hi ensures MergedAt(Peek(p + q, x), a, b, x) {
      PeekConcat(p, q, x);
      if x < mid {
        PeekNone(q, x);
        assert MergedAt(Peek(p, x), a, b, x);
      } else {
        PeekNone(p, x);
        assert MergedAt(Peek(q, x), a, b, x);
      }
    }
  }

  /** The extent says at `x` what a merged list has to say. */
  ghost predicate SaysMerged(e: Extent<Val>, a: Stack, b: Stack, x: nat)
    requires e.start <= x
  {
    MergedAt(Some(ByteAt(e.val, x - e.start)), a, b, x)
  }

  /** One merged extent. */
  lemma MergedOne(e: Extent<Val>, a: Stack, b: Stack)
    requires ExtentFits(e) && forall x: nat :: e.start <= x < e.stop ==> SaysMerged(e, a, b, x)
    ensures var ok := Merged([e], e.start, e.stop, a, b); ok
  {
    forall x: nat | e.start <= x < e.stop ensures MergedAt(Peek([e], x), a, b, x) {
      OnlyAt(e, x);
      assert SaysMerged(e, a, b, x);
    }
  }

  /** A gap that both sides leave. */
  lemma MergedGap(lo: nat, hi: nat, a: Stack, b: Stack)
    requires forall x: nat :: lo <= x < hi ==> Through(a, x) && Through(b, x)
    ensures var ok := Merged([], lo, hi, a, b); ok
  {
    forall x: nat | lo <= x < hi ensures MergedAt(Peek([], x), a, b, x) {
      PeekNone([], x);
    }
  }

  // ----- when what is merged is known

  /** Two values read whole merge to a known one exactly when they are known, meet, and have not too many items
      together; and parts of such as can be had anywhere do. */
  ghost predicate Knows(known: bool, x: Extent<Val>, y: Extent<Val>)
  {
    if x.start == y.start && x.stop == y.stop then x.start < x.stop ==> KnowsWholes(known, x.val, y.val, x.stop - x.start)
    else KnowsParts(known, x.val, y.val)
  }

  ghost predicate KnowsWholes(known: bool, a: Val, b: Val, n: nat)
  {
    Steady(a) && Steady(b) ==> (known <==> Joins(a, b, n))
  }

  ghost predicate KnowsParts(known: bool, a: Val, b: Val)
  {
    Partible(a) && Partible(b) && |a.items| + |b.items| <= PBMAX ==> known
  }

  /** The byte lies in a value of each side; if `apart`, in no two that cover the same bytes. */
  ghost predicate BothKnown(known: bool, a: Stack, b: Stack, size: nat, x: nat, apart: bool)
  {
    var l, r := WholeAt(a, 0, size, size, x), WholeAt(b, 0, size, size, x);
    l.Some? && r.Some? ==> Knows(known, l.value, r.value) && (apart ==> !(l.value.start == r.value.start && l.value.stop == r.value.stop))
  }

  /** The byte lies in a value of one side, over which the other does not override the ancestor. */
  ghost predicate BaseKnown(known: bool, a: Stack, b: Stack, base: Stack, size: nat, x: nat)
  {
    var l := WholeAt(a, 0, size, size, x);
    l.Some? && (forall y: nat :: l.value.start <= y < l.value.stop ==> Through(b, y)) ==>
      var r := WholeAt(base, l.value.start, l.value.stop, size, x);
      r.Some? ==> Knows(known, l.value, r.value)
  }

  ghost predicate Told(out: Pieces, lo: nat, hi: nat, a: Stack, b: Stack, base: Stack, size: nat, apart: bool)
  {
    forall x: nat :: lo <= x < hi && At(out, x).Some? ==>
      SaysTold(At(out, x).value, a, b, base, size, x, apart)
  }

  ghost predicate SaysTold(e: Extent<Val>, a: Stack, b: Stack, base: Stack, size: nat, x: nat, apart: bool)
  {
    JoinKnown(!e.val.WhollyUnknown(), a, b, base, size, x, apart)
  }

  /** The byte lies in a value of one side any part of which can be had, and not in the other: of such a value of
      the ancestor a part can be had wherever it is cut. */
  ghost predicate PartKnown(known: bool, a: Stack, b: Stack, base: Stack, size: nat, x: nat)
  {
    var l, h := WholeAt(a, 0, size, size, x), Holder(base, x);
    l.Some? && h.Some? && Through(b, x) ==> KnowsBase(known, l.value.val, h.value)
  }

  ghost predicate KnowsBase(known: bool, v: Val, h: Val)
  {
    Partible(v) && Sure(h) && Bits(h) && |v.items| + |h.items| <= PBMAX ==> known
  }

  /** Whether the merged byte is known, where the values that hold it are read whole. */
  ghost predicate JoinKnown(known: bool, a: Stack, b: Stack, base: Stack, size: nat, x: nat, apart: bool)
  {
    && BothKnown(known, a, b, size, x, apart) && BaseKnown(known, a, b, base, size, x) && BaseKnown(known, b, a, base, size, x)
    && PartKnown(known, a, b, base, size, x) && PartKnown(known, b, a, base, size, x)
  }

  lemma ToldConcat(p: Pieces, q: Pieces, lo: nat, mid: nat, hi: nat, a: Stack, b: Stack, base: Stack, size: nat, apart: bool)
    requires Sorted(p + q) && Within(p, lo, mid) && Within(q, mid, hi) && lo <= mid <= hi
    requires var told := Told(p, lo, mid, a, b, base, size, apart); told
    requires var told := Told(q, mid, hi, a, b, base, size, apart); told
    ensures var told := Told(p + q, lo, hi, a, b, base, size, apart); told
  {
    WithinEach(p, lo, mid);
    WithinEach(q, mid, hi);
    forall x: nat | lo <= x < hi && At(p + q, x).Some?
      ensures SaysTold(At(p + q, x).value, a, b, base, size, x, apart)
    {
      AtConcat(p, q, x);
      if x < mid {
        AtMiss(q, x);
      } else {
        AtMiss(p, x);
      }
    }
  }

  lemma ToldNone(lo: nat, hi: nat, a: Stack, b: Stack, base: Stack, size: nat, apart: bool)
    ensures var told := Told([], lo, hi, a, b, base, size, apart); told
  {
  }

  lemma ToldOne(e: Extent<Val>, a: Stack, b: Stack, base: Stack, size: nat, apart: bool)
    requires e.start < e.stop
    requires forall x: nat :: e.start <= x < e.stop ==> SaysTold(e, a, b, base, size, x, apart)
    ensures var told := Told([e], e.start, e.stop, a, b, base, size, apart); told
  {
    forall x: nat | e.start <= x < e.stop ensures At([e], x) == Some(e) {
      OnlyAt(e, x);
    }
    assert forall x: nat :: e.start <= x < e.stop ==> SaysTold(e, a, b, base, size, x, apart);
  }

  /** What is told with the sides in one order, of values that do not cover the same bytes, holds in the other. */
  lemma ToldSwap(out: Pieces, lo: nat, hi: nat, a: Stack, b: Stack, base: Stack, size: nat)
    requires var told := Told(out, lo, hi, b, a, base, size, true); told
    ensures var told := Told(out, lo, hi, a, b, base, size, false); told
  {
    forall x: nat | lo <= x < hi && At(out, x).Some?
      ensures SaysTold(At(out, x).value, a, b, base, size, x, false)
    {
      assert SaysTold(At(out, x).value, b, a, base, size, x, true);
    }
  }

  /** Where the threshold shows through no value is read whole. */
  lemma {:induction false} ThroughNotWhole(st: Stack, lo: nat, hi: nat, size: nat, x: nat)
    requires Through(st, x)
    ensures WholeAt(st, lo, hi, size, x) == None
    decreases st
  {
    if st.Over? {
      ThroughNotWhole(st.rest, GapStart(st.top, lo, x), GapStop(st.top, hi, x), size, x);
    }
  }

  /** The merge of two parts, one of each value. */
  lemma {:induction false} PartsKnow(x: Extent<Val>, y: Extent<Val>, lo: nat, hi: nat, v: Val, w: Val, known: bool)
    requires x.start <= lo < hi <= x.stop && y.start <= lo < hi <= y.stop && known == Joins(v, w, hi - lo)
    requires x.start == y.start && x.stop == y.stop ==> lo == x.start && hi == x.stop
    requires var kept := PartKept(v, x.val, x.stop - x.start, lo - x.start, hi - lo); kept
    requires var kept := PartKept(w, y.val, y.stop - y.start, lo - y.start, hi - lo); kept
    ensures var knows := Knows(known, x, y); knows
  {
    if x.start == y.start && x.stop == y.stop {
      WholesKnow(x.val, y.val, hi - lo, v, w);
    } else {
      SplitsKnow(x.val, y.val, hi - lo, v, w);
    }
  }

  lemma {:induction false} WholesKnow(a: Val, b: Val, n: nat, v: Val, w: Val)
    requires WholeKept(v, a) && WholeKept(w, b)
    ensures var knows := KnowsWholes(Joins(v, w, n), a, b, n); knows
  {
  }

  lemma {:induction false} SplitsKnow(a: Val, b: Val, n: nat, v: Val, w: Val)
    requires AnyKept(v, a) && AnyKept(w, b)
    ensures var knows := KnowsParts(Joins(v, w, n), a, b); knows
  {
    if Partible(a) && Partible(b) && |a.items| + |b.items| <= PBMAX {
      RoomFor(v, w, n);
    }
  }

  // ----- one side of the merge

  /** The extents of one side, what they stand for, and what shows through them. */
  ghost predicate Side(m: Pieces, st: Stack, base: Stack, size: nat, cuts: iset<nat>)
  {
    && Answers(m, 0, size, st, cuts) && Wholes(m, 0, size, st, 0, size, size)
    && forall x: nat :: x < size && Through(st, x) ==> LookIn(st, x) == LookIn(base, x)
  }

  /** The merge has got to `cur`: past the extents before `i`, and not past the one at `i`. */
  predicate Cursor(m: Pieces, i: nat, cur: nat)
  {
    i <= |m| && (i > 0 ==> m[i - 1].stop <= cur) && (i < |m| ==> cur < m[i].stop)
  }

  /** Up to the extent at the cursor this side has nothing. */
  lemma SideGap(m: Pieces, st: Stack, base: Stack, size: nat, cuts: iset<nat>, i: nat, cur: nat, x: nat)
    requires Cursor(m, i, cur) && cur <= x < size && (i < |m| ==> x < m[i].start)
    requires var ok := Side(m, st, base, size, cuts); ok
    ensures Through(st, x) && LookIn(st, x) == LookIn(base, x)
  {
    GapMiss(m, i, cur, x + 1);
    assert At(m, x) == None && Peek(m, x) == None;
    assert AnswersAt(Peek(m, x), st, x);
  }

  /** From the extent at the cursor, this side's value allows what the side holds. */
  lemma SideValue(m: Pieces, st: Stack, base: Stack, size: nat, cuts: iset<nat>, i: nat, x: nat)
    requires i < |m| && m[i].start <= x < m[i].stop
    requires var ok := Side(m, st, base, size, cuts); ok
    ensures x < size && !Through(st, x) && StandsAt(ByteAt(m[i].val, x - m[i].start), LookIn(st, x), false)
  {
    AnswersHit(m, 0, size, st, cuts, i, x);
  }

  lemma SideExtent(m: Pieces, st: Stack, base: Stack, size: nat, cuts: iset<nat>, i: nat)
    requires i < |m| && var ok := Side(m, st, base, size, cuts); ok
    ensures ClippedOne(m[i], cuts) && m[i].stop <= size
  {
    assert m[i] in m && m[i].stop <= size;
  }

  // ----- merging parts of values

  /** A part between two points of `cuts` can be had. */
  lemma PartsBetween(e: Extent<Val>, lo: nat, hi: nat, cuts: iset<nat>)
    requires ClippedOne(e, cuts) && lo in cuts && hi in cuts && e.start <= lo < hi <= e.stop
    ensures var parts := PartsAt(e, lo, hi); parts
  {
  }

  /** The part lo..hi of an extent as one value. */
  method TakePart(e: Extent<Val>, lo: nat, hi: nat) returns (w: Val)
    requires e.start <= lo < hi <= e.stop && var parts := PartsAt(e, lo, hi); parts
    ensures var stands := StandsPart(w, e.val, lo - e.start, hi - lo); stands
    ensures var kept := PartKept(w, e.val, e.stop - e.start, lo - e.start, hi - lo); kept
  {
    w := TakeBytes(e.val, e.stop - e.start, lo - e.start, hi - lo);
  }

  method TakeBytes(v: Val, len: nat, off: nat, n: nat) returns (w: Val)
    requires (var ready := CanTake(v, len, off, n); ready) && NoTears(v, len, off, n)
    ensures var stands := StandsPart(w, v, off, n); stands
    ensures var kept := PartKept(w, v, len, off, n); kept
  {
    SubValSound(v, len, off, n);
    SubValKept(v, len, off, n);
    w := IvsSubVal(v, len, off, n);
  }

  /** What merges two bytes stands for what those stand for. */
  lemma {:induction false} StandsEither(now: Abs, v: Abs, w: Abs, a: Abs, b: Abs)
    requires Covers(now, v) && Covers(now, w) && Stems(now, Either(v, w)) && StandsAt(v, a, false) && StandsAt(w, b, false)
    ensures var stands := StandsAt(now, Either(a, b), false); stands
  {
    CoversTrans(now, v, a);
    CoversTrans(now, w, b);
    CoversEither(now, a, b);
    if now.OneOf? {
      StemsLeft(v, a, b);
      StemsLeft(w, b, a);
      assert Either(a, b) == Either(b, a);
      StemsEither(now, v, w, Either(a, b));
    }
  }

  lemma {:induction false} CoversEither(now: Abs, a: Abs, b: Abs)
    requires Covers(now, a) && Covers(now, b)
    ensures Covers(now, Either(a, b))
  {
  }

  lemma {:induction false} StemsLeft(v: Abs, a: Abs, b: Abs)
    requires Stems(v, a) && b.OneOf?
    ensures Stems(v, Either(a, b))
  {
    if v.OneOf? {
      forall q | q in v.ps ensures FromOne(q, Either(a, b).ps) {
        assert FromOne(q, a.ps);
        FromMore(q, a.ps, b.ps);
      }
    }
  }

  lemma FromMore(q: Pattern, ps: set<Pattern>, qs: set<Pattern>)
    requires FromOne(q, ps)
    ensures FromOne(q, ps + qs)
  {
  }

  /** Merging two values that stand for two sides stands for both. */
  lemma {:induction false} MergeBoth(v: Val, w: Val, n: nat, k: nat, a: Abs, b: Abs)
    requires k < n && (var fits := Fits(v, n) && Fits(w, n); fits)
    requires var both := StandsAt(ByteAt(v, k), a, false) && StandsAt(ByteAt(w, k), b, false); both
    ensures var m := MergeValues(v, w, n); var fits := Fits(m, n); var stands := StandsAt(ByteAt(m, k), Either(a, b), false);
            fits && stands
  {
    var m := MergeValues(v, w, n);
    MergeValuesSound(v, w, n, k);
    MergeValuesBytes(v, w, n, k);
    StandsEither(ByteAt(m, k), ByteAt(v, k), ByteAt(w, k), a, b);
  }

  /** A value for the bytes lo..hi that stands for what the stack holds there. */
  ghost predicate Stead(v: Val, lo: nat, hi: nat, st: Stack)
  {
    lo < hi && Fits(v, hi - lo) && forall x: nat :: lo <= x < hi ==> StandsAt(ByteAt(v, x - lo), LookIn(st, x), false)
  }

  lemma {:induction false} SteadMerge(v: Val, w: Val, lo: nat, hi: nat, a: Stack, b: Stack)
    requires var ok := Stead(v, lo, hi, a); ok
    requires var ok := Stead(w, lo, hi, b); ok
    requires forall x: nat :: lo <= x < hi ==> !Through(a, x)
    ensures var ok := Merged([Extent(lo, hi, MergeValues(v, w, hi - lo))], lo, hi, a, b); ok
  {
    var m := MergeValues(v, w, hi - lo);
    forall x: nat | lo <= x < hi ensures SteadBoth(m, lo, hi, a, b, x) {
      MergeBoth(v, w, hi - lo, x - lo, LookIn(a, x), LookIn(b, x));
    }
    assert SteadBoth(m, lo, hi, a, b, lo);
    SteadOne(m, lo, hi, a, b);
  }

  ghost predicate SteadBoth(m: Val, lo: nat, hi: nat, a: Stack, b: Stack, x: nat)
    requires lo <= x < hi
  {
    Fits(m, hi - lo) && StandsAt(ByteAt(m, x - lo), Either(LookIn(a, x), LookIn(b, x)), false)
  }

  lemma {:induction false} SteadOne(m: Val, lo: nat, hi: nat, a: Stack, b: Stack)
    requires lo < hi && (forall x: nat :: lo <= x < hi ==> !Through(a, x)) && forall x: nat :: lo <= x < hi ==> SteadBoth(m, lo, hi, a, b, x)
    ensures var ok := Merged([Extent(lo, hi, m)], lo, hi, a, b); ok
  {
    var e := Extent(lo, hi, m);
    assert SteadBoth(m, lo, hi, a, b, lo);
    forall x: nat | lo <= x < hi ensures SaysMerged(e, a, b, x) {
      assert SteadBoth(m, lo, hi, a, b, x);
    }
    MergedOne(e, a, b);
  }

  /** A part of one side's value allows what that side holds there. */
  lemma PartStead(m: Pieces, st: Stack, base: Stack, size: nat, cuts: iset<nat>, i: nat, lo: nat, hi: nat, w: Val)
    requires i < |m| && m[i].start <= lo < hi <= m[i].stop && var ok := Side(m, st, base, size, cuts); ok
    requires var stands := StandsPart(w, m[i].val, lo - m[i].start, hi - lo); stands
    ensures var ok := Stead(w, lo, hi, st); ok
    ensures forall x: nat :: lo <= x < hi ==> !Through(st, x)
  {
    forall x: nat | lo <= x < hi ensures !Through(st, x) && StandsAt(ByteAt(w, x - lo), LookIn(st, x), false) {
      SideValue(m, st, base, size, cuts, i, x);
      PartByte(w, m[i].val, lo - m[i].start, hi - lo, x - lo, x - m[i].start);
      StandsThrough(ByteAt(w, x - lo), ByteAt(m[i].val, x - m[i].start), LookIn(st, x));
    }
    PartByte(w, m[i].val, lo - m[i].start, hi - lo, 0, lo - m[i].start);
  }

  lemma PartByte(w: Val, v: Val, off: nat, n: nat, k: nat, at: nat)
    requires k < n && at == off + k && var stands := StandsPart(w, v, off, n); stands
    ensures var ok := Fits(w, n) && StandsAt(ByteAt(w, k), ByteAt(v, at), false); ok
  {
  }

  lemma StandsThrough(a: Abs, b: Abs, c: Abs)
    requires StandsAt(a, b, false) && StandsAt(b, c, false)
    ensures StandsAt(a, c, false)
  {
    CoversTrans(a, b, c);
    StemsTrans(a, b, c);
  }

  /** A value for each side, the first of which overrides the ancestor, merged into one for both. */
  method MergeSteads(v: Val, w: Val, lo: nat, hi: nat, ghost a: Stack, ghost b: Stack) returns (m: Val)
    requires var ok := Stead(v, lo, hi, a); ok
    requires var ok := Stead(w, lo, hi, b); ok
    requires forall x: nat :: lo <= x < hi ==> !Through(a, x)
    ensures lo < hi && Fits(v, hi - lo) && Fits(w, hi - lo) && var ok := Merged([Extent(lo, hi, m)], lo, hi, a, b); ok
    ensures !m.WhollyUnknown() <==> Joins(v, w, hi - lo)
  {
    MergeValuesKnown(v, w, hi - lo);
    SteadMerge(v, w, lo, hi, a, b);
    m := MergeValues(v, w, hi - lo);
  }

  // ----- reading the ancestor

  /** Extents that leave out no byte of a range lie end to end over it. */
  lemma {:induction false} CoverTiles(m: Pieces, lo: nat, hi: nat)
    requires Sorted(m) && Within(m, lo, hi) && lo <= hi && forall b: nat :: lo <= b < hi ==> Peek(m, b).Some?
    ensures Tiles(m, lo, hi)
    decreases m
  {
    if m == [] {
      assert lo < hi ==> Peek(m, lo).Some?;
      AtMiss(m, lo);
    } else {
      var rest := m[1..];
      assert m == [m[0]] + rest;
      SortedParts([m[0]], rest);
      FirstStarts(m, lo, hi);
      forall b: nat | m[0].stop <= b < hi ensures Peek(rest, b).Some? {
        AtConcat([m[0]], rest, b);
        OnlyAt(m[0], b);
        assert Peek(m, b).Some?;
      }
      assert forall i :: 0 <= i < |rest| ==> rest[i] == m[i + 1];
      CoverTiles(rest, m[0].stop, hi);
    }
  }

  lemma FirstStarts(m: Pieces, lo: nat, hi: nat)
    requires Sorted(m) && Within(m, lo, hi) && m != [] && Peek(m, lo).Some?
    ensures m[0].start == lo
  {
    FindIs(m, lo, 0);
  }

  /** A stack with no threshold shows nothing through. */
  lemma {:induction false} NoThreshold(s: Option<Store>, ms: seq<Multi>, b: nat)
    requires Chain(s, ms)
    ensures !Through(StackOf(s, ms, None), b)
    decreases |ms|
  {
    if ms != [] {
      NoThreshold(ms[0].under, ms[1..], b);
    }
  }

  lemma BaseTiles(m: Pieces, lo: nat, hi: nat, st: Stack, cuts: iset<nat>)
    requires lo < hi && (forall b: nat :: !Through(st, b)) && var ok := Answers(m, lo, hi, st, cuts); ok
    ensures Tiles(m, lo, hi)
  {
    forall b: nat | lo <= b < hi ensures Peek(m, b).Some? {
      assert AnswersAt(Peek(m, b), st, b);
    }
    CoverTiles(m, lo, hi);
  }

  lemma BaseValue(m: Pieces, lo: nat, hi: nat, st: Stack, cuts: iset<nat>, i: nat, x: nat)
    requires i < |m| && m[i].start <= x < m[i].stop && (forall b: nat :: !Through(st, b)) && var ok := Answers(m, lo, hi, st, cuts); ok
    ensures StandsAt(ByteAt(m[i].val, x - m[i].start), LookIn(st, x), false)
  {
    AnswersHit(m, lo, hi, st, cuts, i, x);
  }

  lemma {:induction false} BaseStead(m: Pieces, lo: nat, hi: nat, st: Stack, cuts: iset<nat>, i: nat, ost: Stack)
    requires i < |m| && (forall b: nat :: !Through(st, b)) && var ok := Answers(m, lo, hi, st, cuts); ok
    requires forall x: nat :: lo <= x < hi ==> LookIn(ost, x) == LookIn(st, x)
    ensures ExtentFits(m[i]) && lo <= m[i].start && m[i].stop <= hi && m[i].start in cuts && m[i].stop in cuts
    ensures var ok := Stead(m[i].val, m[i].start, m[i].stop, ost); ok
  {
    assert m[i] in m && ClippedOne(m[i], cuts);
    forall x: nat | m[i].start <= x < m[i].stop ensures StandsAt(ByteAt(m[i].val, x - m[i].start), LookIn(ost, x), false) {
      BaseValue(m, lo, hi, st, cuts, i, x);
    }
  }

  /** The ancestor of the two sides, as the merge knows it. */
  ghost predicate Ancestor(anc: Option<Store>, ams: seq<Multi>, base: Stack, size: nat, cuts: iset<nat>)
    reads ams
  {
    Chain(anc, ams) && base == StackOf(anc, ams, None) && StackSlices(base, size, cuts)
  }

  /** Unless the other side overrides part of the value, all of it is merged with the ancestor at once. */
  ghost predicate Alone(c: Extent<Val>, lo: nat, hi: nat, ost: Stack)
  {
    (forall y: nat :: c.start <= y < c.stop ==> Through(ost, y)) ==> lo == c.start && hi == c.stop
  }

  /** The part lo..hi of one side's value, merged with what the ancestor holds there. */
  method MergeWithBase(cs: Pieces, ci: nat, lo: nat, hi: nat, anc: Option<Store>, size: nat,
                       ghost cst: Stack, ghost ost: Stack, ghost base: Stack, ghost ams: seq<Multi>, ghost cuts: iset<nat>, ghost apart: bool)
    returns (out: Pieces)
    requires ci < |cs| && cs[ci].start <= lo < hi <= cs[ci].stop && hi <= size && lo in cuts && hi in cuts
    requires var ok := Side(cs, cst, base, size, cuts); ok
    requires var clipped := ClippedOne(cs[ci], cuts); clipped
    requires (var single := AloneOn(cs[ci], lo, hi, ost, base); single) && var known := Ancestor(anc, ams, base, size, cuts); known
    ensures Tiles(out, lo, hi) && var ok := Merged(out, lo, hi, cst, ost); ok
    ensures var told := Told(out, lo, hi, cst, ost, base, size, apart); told
  {
    var bs := ReadMulti(anc, lo, hi, None, size, ams, cuts);
    forall b: nat ensures !Through(base, b) {
      NoThreshold(anc, ams, b);
    }
    BaseTiles(bs, lo, hi, base, cuts);
    assert bs[0..] == bs;
    out := [];
    MergedNone(lo, cst, ost);
    ToldNone(lo, lo, cst, ost, base, size, apart);
    var k, at := 0, lo;
    while k < |bs|
      invariant 0 <= k <= |bs| && lo <= at <= hi && Tiles(bs[k..], at, hi) && Tiles(out, lo, at)
      invariant var ok := Merged(out, lo, at, cst, ost); ok
      invariant var told := Told(out, lo, at, cst, ost, base, size, apart); told
    {
      var e := bs[k];
      assert bs[k..][0] == e && bs[k..][1..] == bs[k + 1..];
      var piece := BasePiece(cs, ci, bs, k, lo, hi, size, cst, ost, base, cuts, apart);
      BaseAppend(out, piece, lo, at, cst, ost, base, size, apart);
      TilesOne(piece);
      TilesConcat(out, [piece], lo, at, e.stop);
      out := out + [piece];
      k, at := k + 1, e.stop;
    }
  }

  lemma BaseAppend(out: Pieces, piece: Extent<Val>, lo: nat, at: nat, cst: Stack, ost: Stack, base: Stack, size: nat, apart: bool)
    requires lo <= at == piece.start < piece.stop
    requires var ok := Merged(out, lo, at, cst, ost); ok
    requires var ok := Merged([piece], piece.start, piece.stop, cst, ost); ok
    requires var told := Told(out, lo, at, cst, ost, base, size, apart); told
    requires var told := Told([piece], piece.start, piece.stop, cst, ost, base, size, apart); told
    ensures var ok := Merged(out + [piece], lo, piece.stop, cst, ost); ok
    ensures var told := Told(out + [piece], lo, piece.stop, cst, ost, base, size, apart); told
  {
    MergedConcat(out, [piece], lo, at, piece.stop, cst, ost);
    ToldConcat(out, [piece], lo, at, piece.stop, cst, ost, base, size, apart);
  }

  /** What was read of the ancestor. */
  ghost predicate BaseSays(bs: Pieces, lo: nat, hi: nat, base: Stack, size: nat, cuts: iset<nat>)
  {
    (forall b: nat :: !Through(base, b)) && Answers(bs, lo, hi, base, cuts) && Wholes(bs, lo, hi, base, lo, hi, size) && InParts(bs, lo, hi, base)
  }

  /** Over these bytes of its value the side is alone: the other shows the ancestor. */
  ghost predicate AloneOn(c: Extent<Val>, lo: nat, hi: nat, ost: Stack, base: Stack)
  {
    (forall x: nat :: lo <= x < hi ==> Through(ost, x) && LookIn(ost, x) == LookIn(base, x)) && Alone(c, lo, hi, ost)
  }

  /** As much of one side's value as the piece of the ancestor covers, merged with that piece. */
  method BasePiece(cs: Pieces, ci: nat, bs: Pieces, k: nat, ghost lo: nat, ghost hi: nat, ghost size: nat,
                   ghost cst: Stack, ghost ost: Stack, ghost base: Stack, ghost cuts: iset<nat>, ghost apart: bool)
    returns (piece: Extent<Val>)
    requires ci < |cs| && cs[ci].start <= lo < hi <= cs[ci].stop && k < |bs|
    requires var ok := Side(cs, cst, base, size, cuts); ok
    requires var clipped := ClippedOne(cs[ci], cuts); clipped
    requires var says := BaseSays(bs, lo, hi, base, size, cuts); says
    requires var single := AloneOn(cs[ci], lo, hi, ost, base); single
    ensures piece.start == bs[k].start < piece.stop == bs[k].stop && var ok := Merged([piece], piece.start, piece.stop, cst, ost); ok
    ensures var told := Told([piece], piece.start, piece.stop, cst, ost, base, size, apart); told
  {
    var e := bs[k];
    BaseReady(cs, ci, bs, k, lo, hi, size, ost, base, cuts);
    var v := TakePart(cs[ci], e.start, e.stop);
    PartStead(cs, cst, base, size, cuts, ci, e.start, e.stop, v);
    var m := MergeSteads(v, e.val, e.start, e.stop, cst, ost);
    piece := Extent(e.start, e.stop, m);
    BaseTold(cs, ci, bs, k, lo, hi, size, cst, ost, base, cuts, v, m, apart);
  }

  lemma BaseReady(cs: Pieces, ci: nat, bs: Pieces, k: nat, lo: nat, hi: nat, size: nat, ost: Stack, base: Stack, cuts: iset<nat>)
    requires ci < |cs| && cs[ci].start <= lo < hi <= cs[ci].stop && k < |bs| && ClippedOne(cs[ci], cuts)
    requires BaseSays(bs, lo, hi, base, size, cuts) && AloneOn(cs[ci], lo, hi, ost, base)
    ensures lo <= bs[k].start < bs[k].stop <= hi && var parts := PartsAt(cs[ci], bs[k].start, bs[k].stop); parts
    ensures var ok := Stead(bs[k].val, bs[k].start, bs[k].stop, ost); ok
  {
    BaseStead(bs, lo, hi, base, cuts, k, ost);
    PartsBetween(cs[ci], bs[k].start, bs[k].stop, cuts);
  }

  lemma {:induction false} BaseTold(cs: Pieces, ci: nat, bs: Pieces, k: nat, lo: nat, hi: nat, size: nat, cst: Stack, ost: Stack, base: Stack,
                                    cuts: iset<nat>, v: Val, m: Val, apart: bool)
    requires ci < |cs| && k < |bs| && cs[ci].start <= lo <= bs[k].start < bs[k].stop <= hi <= cs[ci].stop
    requires !m.WhollyUnknown() <==> Joins(v, bs[k].val, bs[k].stop - bs[k].start)
    requires var ok := Side(cs, cst, base, size, cuts); ok
    requires var says := BaseSays(bs, lo, hi, base, size, cuts); says
    requires var single := AloneOn(cs[ci], lo, hi, ost, base); single
    requires var kept := PartKept(v, cs[ci].val, cs[ci].stop - cs[ci].start, bs[k].start - cs[ci].start, bs[k].stop - bs[k].start); kept
    ensures var told := Told([Extent(bs[k].start, bs[k].stop, m)], bs[k].start, bs[k].stop, cst, ost, base, size, apart); told
  {
    var e := bs[k];
    var piece := Extent(e.start, e.stop, m);
    BaseFits(bs, lo, hi, base, size, cuts, k);
    WholePart(e.val, e.stop - e.start);
    PartsKnow(cs[ci], e, e.start, e.stop, v, e.val, !m.WhollyUnknown());
    forall x: nat | e.start <= x < e.stop ensures SaysTold(piece, cst, ost, base, size, x, apart) {
      SideWhole(cs, cst, base, size, cuts, ci, x);
      AtHit(bs, k, x);
      BaseKept(cs[ci], e, bs, k, lo, hi, base, size, cuts, x, v, !m.WhollyUnknown());
      AloneTold(piece, cst, ost, base, size, x, apart, cs[ci], e);
    }
    ToldOne(piece, cst, ost, base, size, apart);
  }

  /** A part of such a value, merged with a part of such a value of the ancestor. */
  lemma {:induction false} BaseKept(c: Extent<Val>, e: Extent<Val>, bs: Pieces, k: nat, lo: nat, hi: nat, base: Stack, size: nat, cuts: iset<nat>, x: nat, v: Val, known: bool)
    requires k < |bs| && bs[k] == e && e.start <= x < e.stop && lo <= x < hi && At(bs, x) == Some(e) && c.start <= e.start < e.stop <= c.stop
    requires known == Joins(v, e.val, e.stop - e.start) && var says := BaseSays(bs, lo, hi, base, size, cuts); says
    requires var kept := PartKept(v, c.val, c.stop - c.start, e.start - c.start, e.stop - e.start); kept
    ensures Holder(base, x).Some? ==> var kept := KnowsBase(known, c.val, Holder(base, x).value); kept
  {
    if Holder(base, x).Some? {
      var h := Holder(base, x).value;
      HeldPart(bs, lo, hi, base, size, cuts, x);
      TwoKept(v, c.val, e.val, h, e.stop - e.start);
    }
  }

  lemma HeldPart(bs: Pieces, lo: nat, hi: nat, base: Stack, size: nat, cuts: iset<nat>, x: nat)
    requires lo <= x < hi && At(bs, x).Some? && Holder(base, x).Some? && BaseSays(bs, lo, hi, base, size, cuts)
    ensures var part := AnyPart(At(bs, x).value.val, Holder(base, x).value); part
  {
  }

  lemma {:induction false} TwoKept(v: Val, c: Val, w: Val, h: Val, n: nat)
    requires AnyKept(v, c) && AnyPart(w, h)
    ensures var kept := KnowsBase(Joins(v, w, n), c, h); kept
  {
    if Partible(c) && Sure(h) && Bits(h) && |c.items| + |h.items| <= PBMAX {
      RoomFor(v, w, n);
    }
  }

  lemma BaseFits(bs: Pieces, lo: nat, hi: nat, base: Stack, size: nat, cuts: iset<nat>, k: nat)
    requires k < |bs| && BaseSays(bs, lo, hi, base, size, cuts)
    ensures Sorted(bs) && Fits(bs[k].val, bs[k].stop - bs[k].start) && var ok := Wholes(bs, lo, hi, base, lo, hi, size); ok
  {
    assert bs[k] in bs && ClippedOne(bs[k], cuts);
  }

  /** Where only one side has a value, that and the ancestor's tell whether the merge is known. */
  lemma {:induction false} AloneTold(piece: Extent<Val>, cst: Stack, ost: Stack, base: Stack, size: nat, x: nat, apart: bool, c: Extent<Val>, e: Extent<Val>)
    requires Through(ost, x) && var knows := Knows(!piece.val.WhollyUnknown(), c, e); knows
    requires WholeAt(cst, 0, size, size, x).Some? ==> WholeAt(cst, 0, size, size, x) == Some(c)
    requires (forall y: nat :: c.start <= y < c.stop ==> Through(ost, y)) ==>
               var whole := WholeAt(base, c.start, c.stop, size, x); whole.Some? ==> whole == Some(e)
    requires Holder(base, x).Some? ==> var kept := KnowsBase(!piece.val.WhollyUnknown(), c.val, Holder(base, x).value); kept
    ensures SaysTold(piece, cst, ost, base, size, x, apart)
  {
    ThroughNotWhole(ost, 0, size, size, x);
  }

  /** A value is what it is kept as when it is taken whole. */
  lemma WholePart(v: Val, n: nat)
    requires n > 0 && Fits(v, n)
    ensures var kept := PartKept(v, v, n, 0, n); kept
  {
  }

  /** If the side's value is read whole it is the extent at hand. */
  lemma SideWhole(m: Pieces, st: Stack, base: Stack, size: nat, cuts: iset<nat>, i: nat, x: nat)
    requires i < |m| && m[i].start <= x < m[i].stop && var ok := Side(m, st, base, size, cuts); ok
    ensures WholeAt(st, 0, size, size, x).Some? ==> WholeAt(st, 0, size, size, x) == Some(m[i])
  {
    SideValue(m, st, base, size, cuts, i, x);
    AtHit(m, i, x);
  }

  lemma MergedNone(lo: nat, a: Stack, b: Stack)
    ensures var ok := Merged([], lo, lo, a, b); ok
  {
  }

  // ----- the two cursors

  function Max(a: nat, b: nat): nat
  {
    if a < b then b else a
  }

  /** The side to consume from: the one defined first from `cur` on, and of two defined at once the
      one that ends first. */
  predicate Chosen(cs: Pieces, ci: nat, os: Pieces, oi: nat, cur: nat)
  {
    && ci < |cs|
    && (oi < |os| ==>
          || Max(cs[ci].start, cur) < Max(os[oi].start, cur)
          || (Max(cs[ci].start, cur) == Max(os[oi].start, cur) && cs[ci].stop <= os[oi].stop))
  }

  /** If the extent at the cursor began before `cur`, an extent of the other side ends or starts there. */
  ghost predicate Parted(cs: Pieces, ci: nat, os: Pieces, oi: nat, cur: nat)
  {
    ci < |cs| && cs[ci].start < cur ==> (0 < oi <= |os| && os[oi - 1].stop == cur) || (oi < |os| && os[oi].start == cur)
  }

  ghost predicate Cursors(cs: Pieces, ci: nat, os: Pieces, oi: nat, cur: nat)
  {
    Cursor(cs, ci, cur) && Cursor(os, oi, cur) && Parted(cs, ci, os, oi, cur) && Parted(os, oi, cs, ci, cur)
  }

  /** The extents at the cursors do not cover the same bytes. */
  ghost predicate Distinct(cs: Pieces, ci: nat, os: Pieces, oi: nat, cur: nat)
  {
    ci < |cs| && oi < |os| && cs[ci].start <= cur && os[oi].start <= cur ==> cs[ci].stop != os[oi].stop
  }

  ghost predicate Sides(cs: Pieces, cst: Stack, os: Pieces, ost: Stack, base: Stack, size: nat, cuts: iset<nat>)
  {
    Side(cs, cst, base, size, cuts) && Side(os, ost, base, size, cuts)
  }

  /** Some byte of the range lies in no extent. */
  ghost predicate Holey(out: Pieces, lo: nat, hi: nat)
  {
    exists b: nat {:trigger Peek(out, b)} :: lo <= b < hi && Peek(out, b).None?
  }

  /** The list covers the object, or has gaps. */
  ghost predicate Covering(out: Pieces, gaps: bool, size: nat)
  {
    if gaps then size == 0 || Holey(out, 0, size) else Tiles(out, 0, size)
  }

  lemma HoleyConcat(p: Pieces, q: Pieces, lo: nat, mid: nat, hi: nat)
    requires Sorted(p + q) && Within(p, lo, mid) && Within(q, mid, hi) && lo <= mid <= hi
    ensures Holey(p, lo, mid) || Holey(q, mid, hi) ==> Holey(p + q, lo, hi)
  {
    WithinEach(p, lo, mid);
    WithinEach(q, mid, hi);
    if b: nat :| lo <= b < mid && Peek(p, b).None? {
      PeekConcat(p, q, b);
      PeekNone(q, b);
    }
    if b: nat :| mid <= b < hi && Peek(q, b).None? {
      PeekConcat(p, q, b);
      PeekNone(p, b);
    }
  }

  /** One of the lists reaches the end of the object. */
  predicate Ends(ls: Pieces, rs: Pieces, size: nat)
  {
    (ls != [] && ls[|ls| - 1].stop == size) || (rs != [] && rs[|rs| - 1].stop == size)
  }

  /** What a step of the merge leaves behind. */
  ghost predicate Stepped(more: Pieces, cur: nat, next: nat, gap: bool, cst: Stack, ost: Stack, base: Stack, size: nat, cuts: iset<nat>, apart: bool)
  {
    && cur < next <= size && next in cuts && (if gap then Holey(more, cur, next) else Tiles(more, cur, next)) && Merged(more, cur, next, cst, ost)
    && Told(more, cur, next, cst, ost, base, size, apart)
  }

  lemma GapStep(cs: Pieces, cst: Stack, ci: nat, os: Pieces, ost: Stack, oi: nat, base: Stack, size: nat, cuts: iset<nat>, cur: nat, apart: bool)
    requires Cursors(cs, ci, os, oi, cur) && Chosen(cs, ci, os, oi, cur) && cur < cs[ci].start
    requires var ok := Sides(cs, cst, os, ost, base, size, cuts); ok
    ensures var ok := Stepped([], cur, cs[ci].start, true, cst, ost, base, size, cuts, apart); ok
    ensures var at := Cursors(cs, ci, os, oi, cs[ci].start); at
  {
    SideExtent(cs, cst, base, size, cuts, ci);
    forall x: nat | cur <= x < cs[ci].start ensures Through(cst, x) && Through(ost, x) {
      SideGap(cs, cst, base, size, cuts, ci, cur, x);
      SideGap(os, ost, base, size, cuts, oi, cur, x);
    }
    MergedGap(cur, cs[ci].start, cst, ost);
    PeekNone([], cur);
    ToldNone(cur, cs[ci].start, cst, ost, base, size, apart);
    if oi < |os| {
      SideExtent(os, ost, base, size, cuts, oi);
    }
  }

  /** Past the end of the extent at the cursor, the cursor is at the next. */
  lemma CursorNext(m: Pieces, st: Stack, base: Stack, size: nat, cuts: iset<nat>, i: nat)
    requires i < |m| && var ok := Side(m, st, base, size, cuts); ok
    ensures Cursor(m, i + 1, m[i].stop) && (i + 1 < |m| ==> m[i].stop <= m[i + 1].start) && (m[i].stop == size ==> i + 1 == |m|)
  {
    if i + 1 < |m| {
      assert Precedes(m, i, i + 1) && m[i + 1].start < m[i + 1].stop <= size;
    }
  }

  /** One turn of the merge loop, consuming from the first side. */
  method Step(cs: Pieces, ci: nat, os: Pieces, oi: nat, cur: nat, anc: Option<Store>, size: nat,
              ghost cst: Stack, ghost ost: Stack, ghost base: Stack, ghost ams: seq<Multi>, ghost cuts: iset<nat>, ghost apart: bool)
    returns (more: Pieces, next: nat, gap: bool, ci': nat, oi': nat)
    requires Chosen(cs, ci, os, oi, cur) && cur in cuts && (apart ==> Distinct(cs, ci, os, oi, cur)) && var at := Cursors(cs, ci, os, oi, cur); at
    requires var ok := Sides(cs, cst, os, ost, base, size, cuts); ok
    requires var known := Ancestor(anc, ams, base, size, cuts); known
    ensures var ok := Stepped(more, cur, next, gap, cst, ost, base, size, cuts, apart); ok
    ensures (next == size ==> Ends(cs, os, size)) && var at := Cursors(cs, ci', os, oi', next); at
  {
    var c := cs[ci];
    SideExtent(cs, cst, base, size, cuts, ci);
    CursorNext(cs, cst, base, size, cuts, ci);
    if oi < |os| {
      SideExtent(os, ost, base, size, cuts, oi);
    }
    if cur < c.start {
      // neither side is defined yet
      GapStep(cs, cst, ci, os, ost, oi, base, size, cuts, cur, apart);
      return [], c.start, true, ci, oi;
    }
    if oi == |os| || os[oi].start > cur {
      // only the consumed side is defined: merge it with the ancestor
      var bump := oi == |os| || os[oi].start >= c.stop;
      next := if bump then c.stop else os[oi].start;
      more := StepBase(cs, ci, os, oi, cur, next, anc, size, cst, ost, base, ams, cuts, apart);
      return more, next, false, if bump then ci + 1 else ci, oi;
    }
    // both sides are defined, and the consumed one ends no later
    more := StepBoth(cs, ci, os, oi, cur, size, cst, ost, base, cuts, apart);
    CursorNext(os, ost, base, size, cuts, oi);
    return more, c.stop, false, ci + 1, if c.stop == os[oi].stop then oi + 1 else oi;
  }

  method StepBase(cs: Pieces, ci: nat, os: Pieces, oi: nat, cur: nat, next: nat, anc: Option<Store>, size: nat,
                  ghost cst: Stack, ghost ost: Stack, ghost base: Stack, ghost ams: seq<Multi>, ghost cuts: iset<nat>, ghost apart: bool)
    returns (more: Pieces)
    requires ci < |cs| && cs[ci].start <= cur < next <= cs[ci].stop && (oi < |os| ==> cur < os[oi].start && next <= os[oi].start)
    requires cur in cuts && (next == cs[ci].stop || (oi < |os| && next == os[oi].start)) && var at := Cursors(cs, ci, os, oi, cur); at
    requires var ok := Sides(cs, cst, os, ost, base, size, cuts); ok
    requires var known := Ancestor(anc, ams, base, size, cuts); known
    ensures var ok := Stepped(more, cur, next, false, cst, ost, base, size, cuts, apart); ok
  {
    SideExtent(cs, cst, base, size, cuts, ci);
    if oi < |os| {
      SideExtent(os, ost, base, size, cuts, oi);
    }
    forall x: nat | cur <= x < next ensures Through(ost, x) && LookIn(ost, x) == LookIn(base, x) {
      SideGap(os, ost, base, size, cuts, oi, cur, x);
    }
    AloneHere(cs, ci, os, oi, cur, next, ost, base, size, cuts);
    more := MergeWithBase(cs, ci, cur, next, anc, size, cst, ost, base, ams, cuts, apart);
  }

  lemma AloneHere(cs: Pieces, ci: nat, os: Pieces, oi: nat, cur: nat, next: nat, ost: Stack, base: Stack, size: nat, cuts: iset<nat>)
    requires ci < |cs| && cs[ci].start <= cur < next <= cs[ci].stop && (oi < |os| ==> cur < os[oi].start && next <= os[oi].start)
    requires (next == cs[ci].stop || (oi < |os| && next == os[oi].start)) && var at := Cursors(cs, ci, os, oi, cur); at
    requires var ok := Side(os, ost, base, size, cuts); ok
    ensures var alone := Alone(cs[ci], cur, next, ost); alone
  {
    var c := cs[ci];
    if c.start < cur {
      assert os[oi - 1].stop == cur;
      SideValue(os, ost, base, size, cuts, oi - 1, cur - 1);
      assert !Through(ost, cur - 1);
    }
    if next < c.stop {
      SideValue(os, ost, base, size, cuts, oi, next);
      assert !Through(ost, next);
    }
  }

  method StepBoth(cs: Pieces, ci: nat, os: Pieces, oi: nat, cur: nat, size: nat,
                  ghost cst: Stack, ghost ost: Stack, ghost base: Stack, ghost cuts: iset<nat>, ghost apart: bool)
    returns (more: Pieces)
    requires ci < |cs| && oi < |os| && cs[ci].start <= cur < cs[ci].stop <= os[oi].stop && os[oi].start <= cur && cur in cuts
    requires (apart ==> Distinct(cs, ci, os, oi, cur)) && var at := Cursors(cs, ci, os, oi, cur); at
    requires var ok := Sides(cs, cst, os, ost, base, size, cuts); ok
    ensures var ok := Stepped(more, cur, cs[ci].stop, false, cst, ost, base, size, cuts, apart); ok
  {
    SideExtent(cs, cst, base, size, cuts, ci);
    SideExtent(os, ost, base, size, cuts, oi);
    PartsBetween(cs[ci], cur, cs[ci].stop, cuts);
    PartsBetween(os[oi], cur, cs[ci].stop, cuts);
    var stop := cs[ci].stop;
    var v := TakePart(cs[ci], cur, stop);
    var w := TakePart(os[oi], cur, stop);
    PartStead(cs, cst, base, size, cuts, ci, cur, stop, v);
    PartStead(os, ost, base, size, cuts, oi, cur, stop, w);
    var m := MergeSteads(v, w, cur, stop, cst, ost);
    BothTold(cs, ci, os, oi, cur, size, cst, ost, base, cuts, v, w, m, apart);
    TilesOne(Extent(cur, stop, m));
    more := [Extent(cur, stop, m)];
  }

  lemma {:induction false} BothTold(cs: Pieces, ci: nat, os: Pieces, oi: nat, cur: nat, size: nat, cst: Stack, ost: Stack, base: Stack,
                                    cuts: iset<nat>, v: Val, w: Val, m: Val, apart: bool)
    requires ci < |cs| && oi < |os| && cs[ci].start <= cur < cs[ci].stop <= os[oi].stop && os[oi].start <= cur
    requires (apart ==> Distinct(cs, ci, os, oi, cur)) && var at := Cursors(cs, ci, os, oi, cur); at
    requires var ok := Sides(cs, cst, os, ost, base, size, cuts); ok
    requires !m.WhollyUnknown() <==> Joins(v, w, cs[ci].stop - cur)
    requires var kept := PartKept(v, cs[ci].val, cs[ci].stop - cs[ci].start, cur - cs[ci].start, cs[ci].stop - cur); kept
    requires var kept := PartKept(w, os[oi].val, os[oi].stop - os[oi].start, cur - os[oi].start, cs[ci].stop - cur); kept
    ensures var told := Told([Extent(cur, cs[ci].stop, m)], cur, cs[ci].stop, cst, ost, base, size, apart); told
  {
    var stop := cs[ci].stop;
    var piece := Extent(cur, stop, m);
    StartHere(cs, ci, os, oi, cur, cst, ost, base, size, cuts);
    PartsKnow(cs[ci], os[oi], cur, stop, v, w, !m.WhollyUnknown());
    forall x: nat | cur <= x < stop ensures SaysTold(piece, cst, ost, base, size, x, apart) {
      SideWhole(cs, cst, base, size, cuts, ci, x);
      SideWhole(os, ost, base, size, cuts, oi, x);
      SideValue(cs, cst, base, size, cuts, ci, x);
      SideValue(os, ost, base, size, cuts, oi, x);
    }
    ToldOne(piece, cst, ost, base, size, apart);
  }

  /** Of two extents that are both under way at least one starts here. */
  lemma StartHere(cs: Pieces, ci: nat, os: Pieces, oi: nat, cur: nat, cst: Stack, ost: Stack, base: Stack, size: nat, cuts: iset<nat>)
    requires ci < |cs| && oi < |os| && cs[ci].start <= cur && os[oi].start <= cur && var at := Cursors(cs, ci, os, oi, cur); at
    requires var ok := Sides(cs, cst, os, ost, base, size, cuts); ok
    ensures cs[ci].start == cur || os[oi].start == cur
  {
    if cs[ci].start < cur && oi > 0 {
      assert Precedes(os, oi - 1, oi);
    }
  }

  /** Which side to consume from next. */
  predicate FromLeft(ls: Pieces, i: nat, rs: Pieces, j: nat, cur: nat)
  {
    i < |ls| && (j < |rs| ==>
      if Max(ls[i].start, cur) == Max(rs[j].start, cur) then ls[i].stop <= rs[j].stop
      else Max(ls[i].start, cur) < Max(rs[j].start, cur))
  }

  lemma SidesSwap(cs: Pieces, cst: Stack, os: Pieces, ost: Stack, base: Stack, size: nat, cuts: iset<nat>)
    requires var ok := Sides(cs, cst, os, ost, base, size, cuts); ok
    ensures var ok := Sides(os, ost, cs, cst, base, size, cuts); ok
  {
  }

  lemma SteppedSwap(more: Pieces, cur: nat, next: nat, gap: bool, cst: Stack, ost: Stack, base: Stack, size: nat, cuts: iset<nat>)
    requires var ok := Stepped(more, cur, next, gap, cst, ost, base, size, cuts, true); ok
    ensures var ok := Stepped(more, cur, next, gap, ost, cst, base, size, cuts, false); ok
  {
    MergedSwap(more, cur, next, cst, ost);
    ToldSwap(more, cur, next, ost, cst, base, size);
  }

  /** What the merge has made so far of the bytes before `cur`. */
  ghost predicate Done(out: Pieces, cur: nat, gaps: bool, a: Stack, b: Stack, base: Stack, size: nat)
  {
    (if gaps then Holey(out, 0, cur) else Tiles(out, 0, cur)) && Merged(out, 0, cur, a, b) && Told(out, 0, cur, a, b, base, size, false)
  }

  lemma Append(out: Pieces, more: Pieces, cur: nat, next: nat, gaps: bool, gap: bool, a: Stack, b: Stack, base: Stack, size: nat, cuts: iset<nat>)
    requires var done := Done(out, cur, gaps, a, b, base, size); done
    requires var ok := Stepped(more, cur, next, gap, a, b, base, size, cuts, false); ok
    ensures cur < next <= size && next in cuts
    ensures var done := Done(out + more, next, gaps || gap, a, b, base, size); done
  {
    MergedConcat(out, more, 0, cur, next, a, b);
    ToldConcat(out, more, 0, cur, next, a, b, base, size, false);
    HoleyConcat(out, more, 0, cur, next);
    if !gaps && !gap {
      TilesConcat(out, more, 0, cur, next);
    }
  }

  /** One turn of the merge loop, consuming from the side that comes first. */
  method Turn(ls: Pieces, i: nat, rs: Pieces, j: nat, cur: nat, anc: Option<Store>, size: nat,
              ghost lst: Stack, ghost rst: Stack, ghost base: Stack, ghost ams: seq<Multi>, ghost cuts: iset<nat>)
    returns (more: Pieces, next: nat, gap: bool, i': nat, j': nat)
    requires (i < |ls| || j < |rs|) && cur in cuts && var at := Cursors(ls, i, rs, j, cur); at
    requires (var known := Ancestor(anc, ams, base, size, cuts); known) && var ok := Sides(ls, lst, rs, rst, base, size, cuts); ok
    ensures var ok := Stepped(more, cur, next, gap, lst, rst, base, size, cuts, false); ok
    ensures (next == size ==> Ends(ls, rs, size)) && var at := Cursors(ls, i', rs, j', next); at
  {
    if FromLeft(ls, i, rs, j, cur) {
      more, next, gap, i', j' := Step(ls, i, rs, j, cur, anc, size, lst, rst, base, ams, cuts, false);
    } else {
      SidesSwap(ls, lst, rs, rst, base, size, cuts);
      more, next, gap, j', i' := Step(rs, j, ls, i, cur, anc, size, rst, lst, base, ams, cuts, true);
      SteppedSwap(more, cur, next, gap, rst, lst, base, size, cuts);
    }
  }

  /** The two-cursor loop. The merged list allows, at every byte that either side overrides, what each
      side holds, and nothing else if it is known; it leaves gaps exactly where neither does, and says whether
      there are any. Where the values that hold a byte are read whole, it is known exactly when
      they meet and are not too many. */
  method MergeLists(ls: Pieces, rs: Pieces, anc: Option<Store>, size: nat,
                    ghost lst: Stack, ghost rst: Stack, ghost base: Stack, ghost ams: seq<Multi>, ghost cuts: iset<nat>)
    returns (out: Pieces, gaps: bool)
    requires 0 in cuts && (var known := Ancestor(anc, ams, base, size, cuts); known) && var ok := Sides(ls, lst, rs, rst, base, size, cuts); ok
    ensures var whole := Covering(out, gaps, size); whole
    ensures var ok := Merged(out, 0, size, lst, rst); ok
    ensures var told := Told(out, 0, size, lst, rst, base, size, false); told
  {
    out, gaps := [], false;
    var i: nat, j: nat, cur: nat := 0, 0, 0;
    Begin(ls, lst, rs, rst, base, size, cuts);
    while i < |ls| || j < |rs|
      invariant cur <= size && cur in cuts && (cur == size > 0 ==> Ends(ls, rs, size)) && var at := Cursors(ls, i, rs, j, cur); at
      invariant var done := Done(out, cur, gaps, lst, rst, base, size); done
      decreases size - cur
    {
      var more, next, gap;
      more, next, gap, i, j := Turn(ls, i, rs, j, cur, anc, size, lst, rst, base, ams, cuts);
      Append(out, more, cur, next, gaps, gap, lst, rst, base, size, cuts);
      out, gaps, cur := out + more, gaps || gap, next;
    }
    Finish(ls, lst, rs, rst, base, size, cuts, cur, out, gaps);
    if (ls == [] || ls[|ls| - 1].stop != size) && (rs == [] || rs[|rs| - 1].stop != size) {
      gaps := true;
    }
  }

  lemma Begin(ls: Pieces, lst: Stack, rs: Pieces, rst: Stack, base: Stack, size: nat, cuts: iset<nat>)
    requires var ok := Sides(ls, lst, rs, rst, base, size, cuts); ok
    ensures var at := Cursors(ls, 0, rs, 0, 0); at
    ensures var done := Done([], 0, false, lst, rst, base, size); done
  {
    MergedNone(0, lst, rst);
    ToldNone(0, 0, lst, rst, base, size, false);
  }

  /** Behind both sides the ancestor shows. */
  lemma Finish(ls: Pieces, lst: Stack, rs: Pieces, rst: Stack, base: Stack, size: nat, cuts: iset<nat>, cur: nat, out: Pieces, gaps: bool)
    requires cur <= size && (cur == size > 0 ==> Ends(ls, rs, size)) && var at := Cursors(ls, |ls|, rs, |rs|, cur); at
    requires var ok := Sides(ls, lst, rs, rst, base, size, cuts); ok
    requires var done := Done(out, cur, gaps, lst, rst, base, size); done
    ensures var ok := Merged(out, 0, size, lst, rst); ok
    ensures var told := Told(out, 0, size, lst, rst, base, size, false); told
    ensures !gaps && Ends(ls, rs, size) ==> Tiles(out, 0, size)
    ensures gaps || (!Ends(ls, rs, size) && size > 0) ==> Holey(out, 0, size)
  {
    forall x: nat | cur <= x < size ensures Through(lst, x) && Through(rst, x) {
      SideGap(ls, lst, base, size, cuts, |ls|, cur, x);
      SideGap(rs, rst, base, size, cuts, |rs|, cur, x);
    }
    MergedGap(cur, size, lst, rst);
    ToldNone(cur, size, lst, rst, base, size, false);
    MergedConcat(out, [], 0, cur, size, lst, rst);
    ToldConcat(out, [], 0, cur, size, lst, rst, base, size, false);
    assert out + [] == out;
    HoleyEnd(out, cur, size);
  }

  lemma HoleyEnd(out: Pieces, cur: nat, size: nat)
    requires Sorted(out) && Within(out, 0, cur) && cur <= size
    ensures Holey(out, 0, cur) || cur < size ==> Holey(out, 0, size)
  {
    if cur < size {
      WithinEach(out, 0, cur);
      PeekNone(out, cur);
    }
  }
}
