/** Punching a hole in an interval map of values: what is left of the map, extent by extent
    (clearRange in llpe/main/LoadForward.cpp:1827-1922). */
module RangeClears {
  import opened Options
  import opened Extents
  import opened SymbolicValues
  import opened SubValues
  import opened ValueCuts

  /** What a map says about a byte: None where it has no extent. */
  function Peek(m: Pieces, b: nat): Option<Abs>
  {
    var e := At(m, b);
    if e.Some? then Some(ByteAt(e.value.val, b - e.value.start)) else None
  }

  /** The value of an extent describes its bytes. */
  predicate ExtentFits(e: Extent<Val>)
  {
    e.start < e.stop && Fits(e.val, e.stop - e.start)
  }

  ghost predicate AllFit(m: Pieces)
  {
    forall e {:trigger ExtentFits(e)} :: e in m ==> ExtentFits(e)
  }

  /** A splat of several bytes, which the source refuses to truncate. */
  predicate MultiSplat(v: Val)
  {
    !v.WhollyUnknown() && v.kind == KSplat && |v.items| != 1
  }

  /** A value that cannot be truncated and whose first item is no constant: `getSingleConstant` asserts. */
  predicate NotConstant(v: Val)
  {
    !CanTruncate(v) && !v.items[0].v.K?
  }

  /** Bytes lo..hi may be asked of the extent: a value that can be truncated is cut safely there. */
  predicate WellCut(e: Extent<Val>, lo: nat, hi: nat)
  {
    && e.start <= lo < hi <= e.stop && Fits(e.val, e.stop - e.start)
    && (CanTruncate(e.val) && !MultiSplat(e.val) ==>
          && CanCutTo(e.val, e.stop - e.start, lo - e.start, hi - lo)
          && SafeCut(e.val, e.stop - e.start, lo - e.start, hi - lo, e.start))
  }

  /** Bytes lo..hi of the extent may be kept: a value that can be truncated is cut safely there. */
  predicate MayKeep(e: Extent<Val>, lo: nat, hi: nat)
  {
    && e.start <= lo < hi <= e.stop && Fits(e.val, e.stop - e.start)
    && (CanTruncate(e.val) ==>
          && CanCutTo(e.val, e.stop - e.start, lo - e.start, hi - lo)
          && SafeCut(e.val, e.stop - e.start, lo - e.start, hi - lo, e.start))
  }

  /** What is kept of an extent: the truncated value, or for a value that cannot be truncated its
      kind and no more. */
  function Kept(e: Extent<Val>, lo: nat, hi: nat): Pieces
  {
    if !MayKeep(e, lo, hi) then []
    else if CanTruncate(e.val) then Truncated(e.val, e.stop - e.start, lo - e.start, hi - lo, e.start)
    else [Extent(lo, hi, Val(e.val.kind, [], true))]
  }

  /** What is kept behind a hole, where the source does not ask whether the value can be truncated: of a
      value that cannot, nothing is known. */
  function KeptBehind(e: Extent<Val>, lo: nat, hi: nat): Pieces
  {
    if !MayKeep(e, lo, hi) then []
    else if CanTruncate(e.val) then Truncated(e.val, e.stop - e.start, lo - e.start, hi - lo, e.start)
    else [Extent(lo, hi, if |e.val.items| == 1 then OVERDEF else e.val.SetOverdef())]
  }

  /** The kept bytes say what the extent said. */
  ghost predicate KeptWhole(e: Extent<Val>, lo: nat, hi: nat)
    requires e.start <= lo <= hi
  {
    CanTruncate(e.val) && KeepsAll(e.val, lo - e.start, hi - lo)
  }

  lemma KeptKeeps(e: Extent<Val>, lo: nat, hi: nat)
    requires MayKeep(e, lo, hi)
    ensures var keeps := Keeps(Kept(e, lo, hi), lo, hi, e.val, e.start, KeptWhole(e, lo, hi)); keeps
  {
    if CanTruncate(e.val) {
      CutKeeps(e.val, e.stop - e.start, lo - e.start, hi - lo, e.start, lo, hi);
    } else {
      ForgottenKeeps(e.val.kind, lo, hi, e.val, e.start);
    }
  }

  lemma BehindKeeps(e: Extent<Val>, lo: nat, hi: nat)
    requires MayKeep(e, lo, hi)
    ensures var keeps := Keeps(KeptBehind(e, lo, hi), lo, hi, e.val, e.start, KeptWhole(e, lo, hi)); keeps
  {
    if CanTruncate(e.val) {
      CutKeeps(e.val, e.stop - e.start, lo - e.start, hi - lo, e.start, lo, hi);
    } else {
      ForgottenKeeps(KUnknown, lo, hi, e.val, e.start);
      ForgottenKeeps(e.val.kind, lo, hi, e.val, e.start);
    }
  }

  lemma CutKeeps(v: Val, len: nat, off: nat, n: nat, start: nat, lo: nat, hi: nat)
    requires (var ready := CanCutTo(v, len, off, n); ready) && SafeCut(v, len, off, n, start) && lo == start + off && hi == lo + n
    ensures var keeps := Keeps(Truncated(v, len, off, n, start), lo, hi, v, start, KeepsAll(v, off, n)); keeps
  {
    TruncatedKeeps(v, len, off, n, start);
  }

  /** A value that says nothing stands for any other. */
  lemma ForgottenKeeps(kind: Kind, lo: nat, hi: nat, v: Val, start: nat)
    requires kind != KDeallocated && start <= lo < hi
    ensures var keeps := Keeps([Extent(lo, hi, Val(kind, [], true))], lo, hi, v, start, false); keeps
  {
    StandsIntro(Val(kind, [], true), lo, hi, v, start, lo - start, false);
    KeepsOne(Extent(lo, hi, Val(kind, [], true)), v, start, false);
  }

  /** Pieces that stand for part of a value answer for each byte of that part. */
  lemma KeepsPeek(pieces: Pieces, lo: nat, hi: nat, v: Val, start: nat, exact: bool, b: nat)
    requires Keeps(pieces, lo, hi, v, start, exact) && lo <= b < hi && start <= b
    ensures Peek(pieces, b).Some? && StandsAt(Peek(pieces, b).value, ByteAt(v, b - start), exact)
  {
    TilesCover(pieces, lo, hi, b);
    var e := At(pieces, b).value;
    assert Stands(e, v, start, exact);
    assert e.start - start + (b - e.start) == b - start;
  }

  lemma KeepsMiss(pieces: Pieces, lo: nat, hi: nat, v: Val, start: int, exact: bool, b: nat)
    requires Keeps(pieces, lo, hi, v, start, exact) && !(lo <= b < hi)
    ensures Peek(pieces, b) == None
  {
    TilesSorted(pieces, lo, hi);
    AtMiss(pieces, b);
  }

  // ----- a map with a hole

  /** The extent that starts before `x` and ends after it. */
  function LeftOf(m: Pieces, x: nat): Option<Extent<Val>>
  {
    var i := Find(m, x);
    if i < |m| && m[i].start < x then Some(m[i]) else None
  }

  /** The index of the first extent starting at or after `x`. */
  function After(m: Pieces, x: nat): nat
  {
    if LeftOf(m, x).Some? then Find(m, x) + 1 else Find(m, x)
  }

  /** `left` stands for what an extent reaching past `lo` says before it. */
  ghost predicate StandsLeft(left: Pieces, m: Pieces, lo: nat, exact: bool)
  {
    var l := LeftOf(m, lo);
    if l.Some? then Keeps(left, l.value.start, lo, l.value.val, l.value.start, exact) else left == []
  }

  ghost predicate StandsRight(right: Pieces, m: Pieces, hi: nat, exact: bool)
  {
    var r := LeftOf(m, hi);
    if r.Some? then Keeps(right, hi, r.value.stop, r.value.val, r.value.start, exact) else right == []
  }

  /** The map with `left` and `right` in place of everything that meets lo..hi. */
  function Holed(m: Pieces, lo: nat, hi: nat, left: Pieces, right: Pieces): Pieces
  {
    (m[..Find(m, lo)] + left) + (right + m[After(m, hi)..])
  }

  lemma FrontSorted(m: Pieces, lo: nat, left: Pieces, exact: bool)
    requires Sorted(m) && StandsLeft(left, m, lo, exact)
    ensures Sorted(m[..Find(m, lo)] + left) && forall x :: x in m[..Find(m, lo)] + left ==> x.stop <= lo
  {
    var l, before := LeftOf(m, lo), m[..Find(m, lo)];
    EndsSorted(m, Find(m, lo));
    if l.Some? {
      EarlierEnd(m, Find(m, lo));
      TilesSorted(left, l.value.start, lo);
      WithinEach(left, l.value.start, lo);
      SortedConcat(before, left, l.value.start);
    } else {
      assert before + left == before;
    }
  }

  /** The extents before one in a sorted map end before it starts. */
  lemma EarlierEnd(m: Pieces, i: nat)
    requires Sorted(m) && i < |m|
    ensures forall x :: x in m[..i] ==> x.stop <= m[i].start
  {
    Around(m, i);
  }

  lemma WithinEach(m: Pieces, lo: nat, hi: nat)
    requires Within(m, lo, hi)
    ensures forall x :: x in m ==> lo <= x.start && x.stop <= hi
  {
    forall x | x in m ensures lo <= x.start && x.stop <= hi {
      var i :| 0 <= i < |m| && m[i] == x;
    }
  }

  lemma AfterPart(m: Pieces, hi: nat)
    requires Sorted(m)
    ensures var j := After(m, hi); j <= |m| && Sorted(m[j..]) && forall x :: x in m[j..] ==> hi <= x.start
    ensures LeftOf(m, hi).Some? ==> forall x :: x in m[After(m, hi)..] ==> LeftOf(m, hi).value.stop <= x.start
  {
    var j := After(m, hi);
    EndsSorted(m, j);
    forall x | x in m[j..] ensures hi <= x.start && (LeftOf(m, hi).Some? ==> LeftOf(m, hi).value.stop <= x.start) {
      var k :| j <= k < |m| && m[k] == x;
      if LeftOf(m, hi).Some? {
        assert Precedes(m, j - 1, k);
      } else if k > j {
        assert Precedes(m, j, k);
      }
    }
  }

  lemma BackSorted(m: Pieces, hi: nat, end: nat, right: Pieces, exact: bool)
    requires Sorted(m) && Within(m, 0, end) && StandsRight(right, m, hi, exact)
    ensures Sorted(right + m[After(m, hi)..])
    ensures forall x :: x in right + m[After(m, hi)..] ==> hi <= x.start && x.stop <= end
  {
    var r, after := LeftOf(m, hi), m[After(m, hi)..];
    AfterPart(m, hi);
    AfterEnds(m, hi, end);
    if r.Some? {
      TilesSorted(right, hi, r.value.stop);
      WithinEach(right, hi, r.value.stop);
      SortedConcat(right, after, r.value.stop);
    } else {
      assert right + after == after;
    }
  }

  lemma AfterEnds(m: Pieces, hi: nat, end: nat)
    requires Sorted(m) && Within(m, 0, end) && After(m, hi) <= |m|
    ensures LeftOf(m, hi).Some? ==> LeftOf(m, hi).value.stop <= end
    ensures forall x :: x in m[After(m, hi)..] ==> x.stop <= end
  {
    forall x | x in m[After(m, hi)..] ensures x.stop <= end {
      var k :| After(m, hi) <= k < |m| && m[k] == x;
    }
  }

  /** Making a hole keeps a map in order and in bounds. */
  lemma HoledSorted(m: Pieces, lo: nat, hi: nat, end: nat, left: Pieces, right: Pieces, exL: bool, exR: bool)
    requires Sorted(m) && Within(m, 0, end) && lo < hi && StandsLeft(left, m, lo, exL) && StandsRight(right, m, hi, exR)
    ensures Sorted(Holed(m, lo, hi, left, right))
    ensures forall x :: x in m[..Find(m, lo)] + left ==> x.stop <= lo
    ensures forall x :: x in right + m[After(m, hi)..] ==> hi <= x.start && x.stop <= end
  {
    FrontSorted(m, lo, left, exL);
    BackSorted(m, hi, end, right, exR);
    SortedConcat(m[..Find(m, lo)] + left, right + m[After(m, hi)..], lo);
  }

  // ----- what the map with a hole says

  lemma AtSplit(m: Pieces, i: nat, b: nat)
    requires Sorted(m) && i <= |m|
    ensures At(m, b) == if At(m[..i], b).Some? then At(m[..i], b) else At(m[i..], b)
  {
    assert m == m[..i] + m[i..];
    AtConcat(m[..i], m[i..], b);
  }

  lemma NothingFrom(m: Pieces, i: nat, b: nat)
    requires Sorted(m) && i <= |m| && (i < |m| ==> b < m[i].start)
    ensures At(m[i..], b) == None
  {
    forall k | 0 <= k < |m[i..]| ensures b < m[i..][k].start {
      assert m[i..][k] == m[i + k];
      if k > 0 {
        assert Precedes(m, i, i + k);
      }
    }
    AtMiss(m[i..], b);
  }

  /** Where the map's extent for a byte before `x` is found. */
  lemma AtBefore(m: Pieces, x: nat, b: nat)
    requires Sorted(m) && b < x
    ensures var l := LeftOf(m, x);
            At(m, b) == if l.Some? && l.value.start <= b then l else At(m[..Find(m, x)], b)
  {
    var i := Find(m, x);
    if i < |m| && m[i].start <= b {
      AtHit(m, i, b);
    } else {
      AtSplit(m, i, b);
      NothingFrom(m, i, b);
    }
  }

  lemma AtAfter(m: Pieces, x: nat, b: nat)
    requires Sorted(m) && x <= b
    ensures var j, r := After(m, x), LeftOf(m, x);
            j <= |m| && At(m, b) == if r.Some? && b < r.value.stop then r else At(m[j..], b)
  {
    var j, r := After(m, x), LeftOf(m, x);
    if r.Some? && b < r.value.stop {
      AtHit(m, j - 1, b);
    } else {
      AtSplit(m, j, b);
      AtMiss(m[..j], b);
    }
  }

  lemma PeekConcat(p: Pieces, q: Pieces, b: nat)
    requires Sorted(p + q)
    ensures Peek(p + q, b) == if Peek(p, b).Some? then Peek(p, b) else Peek(q, b)
  {
    AtConcat(p, q, b);
  }

  lemma PeekNone(p: Pieces, b: nat)
    requires forall x :: x in p ==> !(x.start <= b < x.stop)
    ensures Peek(p, b) == None
  {
    AtMiss(p, b);
  }

  /** The byte `b` outside the hole lies in an extent that reaches into it. */
  ghost predicate Straddles(m: Pieces, lo: nat, hi: nat, b: nat)
  {
    var l, r := LeftOf(m, lo), LeftOf(m, hi);
    (b < lo && l.Some? && l.value.start <= b) || (hi <= b && r.Some? && b < r.value.stop)
  }

  /** Nothing in the hole; outside it what was said before, except that a value reaching into the
      hole may now allow more. */
  ghost predicate HoledSays(now: Option<Abs>, m: Pieces, lo: nat, hi: nat, exL: bool, exR: bool, b: nat)
  {
    if lo <= b < hi then now == None
    else if Straddles(m, lo, hi, b)
    then Peek(m, b).Some? && now.Some? && StandsAt(now.value, Peek(m, b).value, if b < lo then exL else exR)
    else now == Peek(m, b)
  }

  lemma NothingBefore(m: Pieces, lo: nat, b: nat)
    requires Sorted(m) && LeftOf(m, lo).Some? && LeftOf(m, lo).value.start <= b
    ensures Peek(m[..Find(m, lo)], b) == None
  {
    EarlierEnd(m, Find(m, lo));
    PeekNone(m[..Find(m, lo)], b);
  }

  lemma PeekFront(m: Pieces, lo: nat, left: Pieces, exact: bool, b: nat)
    requires Sorted(m) && StandsLeft(left, m, lo, exact)
    ensures var before := m[..Find(m, lo)];
            Peek(before + left, b) == if Peek(before, b).Some? then Peek(before, b) else Peek(left, b)
  {
    FrontSorted(m, lo, left, exact);
    PeekConcat(m[..Find(m, lo)], left, b);
  }

  lemma HoledBefore(m: Pieces, lo: nat, hi: nat, left: Pieces, exL: bool, exR: bool, b: nat)
    requires Sorted(m) && b < lo < hi && StandsLeft(left, m, lo, exL)
    ensures var says := HoledSays(Peek(m[..Find(m, lo)] + left, b), m, lo, hi, exL, exR, b); says
  {
    var l := LeftOf(m, lo);
    PeekFront(m, lo, left, exL, b);
    if l.Some? && l.value.start <= b {
      NothingBefore(m, lo, b);
      BeforeIn(m, lo, left, exL, b, l.value);
      SaysBefore(Peek(left, b), m, lo, hi, exL, exR, b);
    } else {
      BeforeOut(m, lo, left, exL, b);
      SaysBefore(Peek(m, b), m, lo, hi, exL, exR, b);
    }
  }

  lemma SaysBefore(now: Option<Abs>, m: Pieces, lo: nat, hi: nat, exL: bool, exR: bool, b: nat)
    requires b < lo < hi
    requires var l := LeftOf(m, lo);
             if l.Some? && l.value.start <= b then now.Some? && Peek(m, b).Some? && StandsAt(now.value, Peek(m, b).value, exL)
             else now == Peek(m, b)
    ensures var says := HoledSays(now, m, lo, hi, exL, exR, b); says
  {
  }

  lemma BeforeIn(m: Pieces, lo: nat, left: Pieces, exact: bool, b: nat, e: Extent<Val>)
    requires Sorted(m) && e.start <= b < lo && LeftOf(m, lo) == Some(e) && StandsLeft(left, m, lo, exact)
    ensures Peek(left, b).Some? && Peek(m, b).Some? && StandsAt(Peek(left, b).value, Peek(m, b).value, exact)
  {
    AtBefore(m, lo, b);
    KeepsPeek(left, e.start, lo, e.val, e.start, exact, b);
  }

  lemma BeforeOut(m: Pieces, lo: nat, left: Pieces, exact: bool, b: nat)
    requires Sorted(m) && b < lo && (LeftOf(m, lo).Some? ==> b < LeftOf(m, lo).value.start) && StandsLeft(left, m, lo, exact)
    ensures Peek(left, b) == None && Peek(m[..Find(m, lo)], b) == Peek(m, b)
  {
    LeftMiss(m, lo, left, exact, b);
    AtBefore(m, lo, b);
    SamePeek(m[..Find(m, lo)], m, b);
  }

  lemma LeftMiss(m: Pieces, lo: nat, left: Pieces, exact: bool, b: nat)
    requires b < lo && (LeftOf(m, lo).Some? ==> b < LeftOf(m, lo).value.start) && StandsLeft(left, m, lo, exact)
    ensures Peek(left, b) == None
  {
    var l := LeftOf(m, lo);
    if l.Some? {
      KeepsMiss(left, l.value.start, lo, l.value.val, l.value.start, exact, b);
    } else {
      PeekNone(left, b);
    }
  }

  lemma PeekBack(m: Pieces, hi: nat, end: nat, right: Pieces, exact: bool, b: nat)
    requires Sorted(m) && Within(m, 0, end) && StandsRight(right, m, hi, exact)
    ensures After(m, hi) <= |m|
    ensures var after := m[After(m, hi)..];
            Peek(right + after, b) == if Peek(right, b).Some? then Peek(right, b) else Peek(after, b)
  {
    BackSorted(m, hi, end, right, exact);
    PeekConcat(right, m[After(m, hi)..], b);
  }

  lemma HoledAfter(m: Pieces, lo: nat, hi: nat, end: nat, right: Pieces, exL: bool, exR: bool, b: nat)
    requires Sorted(m) && Within(m, 0, end) && lo < hi <= b && StandsRight(right, m, hi, exR)
    ensures var says := HoledSays(Peek(right + m[After(m, hi)..], b), m, lo, hi, exL, exR, b); says
  {
    var r := LeftOf(m, hi);
    PeekBack(m, hi, end, right, exR, b);
    if r.Some? && b < r.value.stop {
      BehindIn(m, hi, right, exR, b, r.value);
      SaysAfter(Peek(right, b), m, lo, hi, exL, exR, b);
    } else {
      BehindOut(m, hi, right, exR, b);
      SaysAfter(Peek(m[After(m, hi)..], b), m, lo, hi, exL, exR, b);
    }
  }

  lemma SaysAfter(now: Option<Abs>, m: Pieces, lo: nat, hi: nat, exL: bool, exR: bool, b: nat)
    requires lo < hi <= b
    requires var r := LeftOf(m, hi);
             if r.Some? && b < r.value.stop then now.Some? && Peek(m, b).Some? && StandsAt(now.value, Peek(m, b).value, exR)
             else now == Peek(m, b)
    ensures var says := HoledSays(now, m, lo, hi, exL, exR, b); says
  {
  }

  lemma BehindIn(m: Pieces, hi: nat, right: Pieces, exact: bool, b: nat, e: Extent<Val>)
    requires Sorted(m) && hi <= b < e.stop && LeftOf(m, hi) == Some(e) && StandsRight(right, m, hi, exact)
    ensures Peek(right, b).Some? && Peek(m, b).Some? && StandsAt(Peek(right, b).value, Peek(m, b).value, exact)
  {
    AtAfter(m, hi, b);
    KeepsPeek(right, hi, e.stop, e.val, e.start, exact, b);
  }

  lemma BehindOut(m: Pieces, hi: nat, right: Pieces, exact: bool, b: nat)
    requires Sorted(m) && hi <= b && (LeftOf(m, hi).Some? ==> LeftOf(m, hi).value.stop <= b) && StandsRight(right, m, hi, exact)
    ensures Peek(right, b) == None && After(m, hi) <= |m| && Peek(m[After(m, hi)..], b) == Peek(m, b)
  {
    RightMiss(m, hi, right, exact, b);
    AtAfter(m, hi, b);
    SamePeek(m[After(m, hi)..], m, b);
  }

  lemma RightMiss(m: Pieces, hi: nat, right: Pieces, exact: bool, b: nat)
    requires hi <= b && (LeftOf(m, hi).Some? ==> LeftOf(m, hi).value.stop <= b) && StandsRight(right, m, hi, exact)
    ensures Peek(right, b) == None
  {
    var r := LeftOf(m, hi);
    if r.Some? {
      KeepsMiss(right, hi, r.value.stop, r.value.val, r.value.start, exact, b);
    } else {
      PeekNone(right, b);
    }
  }

  lemma SamePeek(p: Pieces, q: Pieces, b: nat)
    requires At(p, b) == At(q, b)
    ensures Peek(p, b) == Peek(q, b)
  {
  }

  lemma HoledWithin(m: Pieces, lo: nat, hi: nat, end: nat, left: Pieces, right: Pieces, exL: bool, exR: bool)
    requires Sorted(m) && Within(m, 0, end) && lo < hi <= end && StandsLeft(left, m, lo, exL) && StandsRight(right, m, hi, exR)
    ensures Within(Holed(m, lo, hi, left, right), 0, end)
  {
    HoledSorted(m, lo, hi, end, left, right, exL, exR);
    var now := Holed(m, lo, hi, left, right);
    forall i | 0 <= i < |now| ensures 0 <= now[i].start <= now[i].stop <= end {
      assert now[i] in m[..Find(m, lo)] + left || now[i] in right + m[After(m, hi)..];
    }
  }

  lemma HoledPeek(m: Pieces, lo: nat, hi: nat, end: nat, left: Pieces, right: Pieces, exL: bool, exR: bool, b: nat)
    requires Sorted(m) && Within(m, 0, end) && lo < hi && StandsLeft(left, m, lo, exL) && StandsRight(right, m, hi, exR)
    ensures var says := HoledSays(Peek(Holed(m, lo, hi, left, right), b), m, lo, hi, exL, exR, b); says
  {
    var front, back := m[..Find(m, lo)] + left, right + m[After(m, hi)..];
    HoledSorted(m, lo, hi, end, left, right, exL, exR);
    PeekConcat(front, back, b);
    if b < hi {
      PeekNone(back, b);
    }
    if lo <= b {
      PeekNone(front, b);
    }
    if b < lo {
      HoledBefore(m, lo, hi, left, exL, exR, b);
    } else if hi <= b {
      HoledAfter(m, lo, hi, end, right, exL, exR, b);
    }
  }

  // ----- clearing a range

  /** The range lies strictly inside one extent. */
  predicate Hole(m: Pieces, lo: nat, hi: nat)
  {
    LeftOf(m, lo).Some? && LeftOf(m, lo) == LeftOf(m, hi)
  }

  /** The range lo..hi may be cleared: the values that reach into it are cut safely, and no assertion
      fails. */
  ghost predicate MayClear(m: Pieces, lo: nat, hi: nat)
  {
    && (forall e {:trigger MayKeep(e, e.start, lo)} :: LeftOf(m, lo) == Some(e) ==> MayKeep(e, e.start, lo))
    && (forall e {:trigger MayKeep(e, hi, e.stop)} :: LeftOf(m, hi) == Some(e) ==> MayKeep(e, hi, e.stop))
    && (Hole(m, lo, hi) ==> !NotConstant(LeftOf(m, lo).value.val))
  }

  /** The values that reach into the range are cut safely, if at all. */
  ghost predicate CutsWell(m: Pieces, lo: nat, hi: nat)
  {
    && (forall e {:trigger WellCut(e, e.start, lo)} :: LeftOf(m, lo) == Some(e) ==> WellCut(e, e.start, lo))
    && (forall e {:trigger WellCut(e, hi, e.stop)} :: LeftOf(m, hi) == Some(e) ==> WellCut(e, hi, e.stop))
  }

  /** An assertion of the source fails: a splat of several bytes is cut, or a hole made in a value that
      cannot be truncated, without asking. */
  predicate Asserts(m: Pieces, lo: nat, hi: nat)
  {
    || (LeftOf(m, lo).Some? && MultiSplat(LeftOf(m, lo).value.val))
    || (LeftOf(m, hi).Some? && MultiSplat(LeftOf(m, hi).value.val))
    || (Hole(m, lo, hi) && NotConstant(LeftOf(m, lo).value.val))
  }

  lemma CutsOrAsserts(m: Pieces, lo: nat, hi: nat)
    requires CutsWell(m, lo, hi) && !Asserts(m, lo, hi)
    ensures var may := MayClear(m, lo, hi); may
  {
    forall e | LeftOf(m, lo) == Some(e) ensures MayKeep(e, e.start, lo) {
      assert WellCut(e, e.start, lo);
    }
    forall e | LeftOf(m, hi) == Some(e) ensures MayKeep(e, hi, e.stop) {
      assert WellCut(e, hi, e.stop);
    }
  }

  lemma ClearsWell(m: Pieces, lo: nat, hi: nat)
    requires MayClear(m, lo, hi)
    ensures !Asserts(m, lo, hi) && var well := CutsWell(m, lo, hi); well
  {
    forall e | LeftOf(m, lo) == Some(e) ensures WellCut(e, e.start, lo) && !MultiSplat(e.val) {
      assert MayKeep(e, e.start, lo);
    }
    forall e | LeftOf(m, hi) == Some(e) ensures WellCut(e, hi, e.stop) && !MultiSplat(e.val) {
      assert MayKeep(e, hi, e.stop);
    }
  }

  /** The value is one of the map and is cut at `x`. */
  ghost predicate CutAt(m: Pieces, x: nat, e: Extent<Val>)
  {
    e in m && e.start < x < e.stop
  }

  lemma LeftOfIs(m: Pieces, x: nat, e: Extent<Val>)
    requires Sorted(m)
    ensures LeftOf(m, x) == Some(e) <==> CutAt(m, x, e)
  {
    if CutAt(m, x, e) {
      var i :| 0 <= i < |m| && m[i] == e;
      AtHit(m, i, x);
    }
  }

  /** Clearing a range fails an assertion if and only if the range lies strictly inside one value that
      cannot be truncated and starts with no constant, or cuts a splat of several bytes. */
  lemma AssertsIff(m: Pieces, lo: nat, hi: nat)
    requires Sorted(m) && lo < hi
    ensures Asserts(m, lo, hi) <==>
              || (exists e :: CutAt(m, lo, e) && CutAt(m, hi, e) && NotConstant(e.val))
              || (exists e :: (CutAt(m, lo, e) || CutAt(m, hi, e)) && MultiSplat(e.val))
  {
    forall e ensures (LeftOf(m, lo) == Some(e) <==> CutAt(m, lo, e)) && (LeftOf(m, hi) == Some(e) <==> CutAt(m, hi, e)) {
      LeftOfIs(m, lo, e);
      LeftOfIs(m, hi, e);
    }
    if Asserts(m, lo, hi) {
      if LeftOf(m, lo).Some? {
        assert CutAt(m, lo, LeftOf(m, lo).value);
      }
      if LeftOf(m, hi).Some? {
        assert CutAt(m, hi, LeftOf(m, hi).value);
      }
    }
  }

  /** Two bytes written into the middle of a pointer to an object. */
  lemma PointerPunched(id: nat, off: Option<int>)
    ensures Asserts([Extent(0, 8, Val(KPointer, [Item(Obj(id), off)], false))], 2, 4)
  {
    var e := Extent(0, 8, Val(KPointer, [Item(Obj(id), off)], false));
    assert [e][0] == e;
    LeftOfIs([e], 2, e);
    LeftOfIs([e], 4, e);
  }

  function LeftRest(m: Pieces, lo: nat): Pieces
  {
    var l := LeftOf(m, lo);
    if l.Some? then Kept(l.value, l.value.start, lo) else []
  }

  function RightRest(m: Pieces, lo: nat, hi: nat): Pieces
  {
    var r := LeftOf(m, hi);
    if r.None? then []
    else if Hole(m, lo, hi) then KeptBehind(r.value, hi, r.value.stop)
    else Kept(r.value, hi, r.value.stop)
  }

  /** The map without the bytes lo..hi. */
  function ClearedMap(m: Pieces, lo: nat, hi: nat): Pieces
  {
    Holed(m, lo, hi, LeftRest(m, lo), RightRest(m, lo, hi))
  }

  /** What is left of the value reaching into the range loses nothing. */
  ghost predicate LeftExact(m: Pieces, lo: nat)
  {
    var l := LeftOf(m, lo);
    l.Some? ==> l.value.start <= lo && KeptWhole(l.value, l.value.start, lo)
  }

  ghost predicate RightExact(m: Pieces, hi: nat)
  {
    var r := LeftOf(m, hi);
    r.Some? ==> r.value.start <= hi <= r.value.stop && KeptWhole(r.value, hi, r.value.stop)
  }

  lemma ClearedStands(m: Pieces, lo: nat, hi: nat)
    requires MayClear(m, lo, hi)
    ensures var left := StandsLeft(LeftRest(m, lo), m, lo, LeftExact(m, lo)); left
    ensures var right := StandsRight(RightRest(m, lo, hi), m, hi, RightExact(m, hi)); right
  {
    var l, r := LeftOf(m, lo), LeftOf(m, hi);
    if l.Some? {
      assert MayKeep(l.value, l.value.start, lo);
      KeptKeeps(l.value, l.value.start, lo);
    }
    if r.Some? {
      assert MayKeep(r.value, hi, r.value.stop);
      KeptKeeps(r.value, hi, r.value.stop);
      BehindKeeps(r.value, hi, r.value.stop);
    }
  }

  /** The map `now` has no byte of lo..hi, and says outside it what `m` said, except that a value reaching
      into the range may now allow more: anything at all of a value that cannot be truncated, and
      exactly as much of a splat or a cleanly cut constant. */
  ghost predicate ClearedOf(now: Pieces, m: Pieces, lo: nat, hi: nat, end: nat)
  {
    && Sorted(now) && Within(now, 0, end)
    && forall b: nat :: HoledSays(Peek(now, b), m, lo, hi, LeftExact(m, lo), RightExact(m, hi), b)
  }

  /** A cleared map is in order and in bounds, and has lost the range and no more. */
  lemma Cleared(m: Pieces, lo: nat, hi: nat, end: nat)
    requires Sorted(m) && Within(m, 0, end) && MayClear(m, lo, hi) && lo < hi <= end
    ensures var cleared := ClearedOf(ClearedMap(m, lo, hi), m, lo, hi, end); cleared
  {
    var left, right, exL, exR := LeftRest(m, lo), RightRest(m, lo, hi), LeftExact(m, lo), RightExact(m, hi);
    ClearedStands(m, lo, hi);
    HoledSorted(m, lo, hi, end, left, right, exL, exR);
    var now := Holed(m, lo, hi, left, right);
    forall b: nat ensures HoledSays(Peek(now, b), m, lo, hi, exL, exR, b) {
      HoledPeek(m, lo, hi, end, left, right, exL, exR, b);
    }
    HoledWithin(m, lo, hi, end, left, right, exL, exR);
  }

  lemma KeepsFit(pieces: Pieces, lo: nat, hi: nat, v: Val, start: int, exact: bool)
    requires Keeps(pieces, lo, hi, v, start, exact)
    ensures AllFit(pieces)
  {
    forall e | e in pieces ensures ExtentFits(e) {
      assert Stands(e, v, start, exact);
    }
  }

  lemma HoledFits(m: Pieces, lo: nat, hi: nat, left: Pieces, right: Pieces, exL: bool, exR: bool)
    requires AllFit(m) && StandsLeft(left, m, lo, exL) && StandsRight(right, m, hi, exR)
    ensures AllFit(m[..Find(m, lo)] + left) && AllFit(right + m[After(m, hi)..])
  {
    var l, r := LeftOf(m, lo), LeftOf(m, hi);
    if l.Some? {
      KeepsFit(left, l.value.start, lo, l.value.val, l.value.start, exL);
    }
    if r.Some? {
      KeepsFit(right, hi, r.value.stop, r.value.val, r.value.start, exR);
    }
  }

  // ----- writing a range

  /** The map with the bytes lo..hi taken over by `new`. */
  function WrittenMap(m: Pieces, lo: nat, hi: nat, fill: Pieces): Pieces
  {
    (m[..Find(m, lo)] + LeftRest(m, lo)) + fill + (RightRest(m, lo, hi) + m[After(m, hi)..])
  }

  /** What a byte reads as after the range is written. */
  ghost predicate WrittenSays(now: Option<Abs>, m: Pieces, lo: nat, hi: nat, fill: Pieces, b: nat)
  {
    if lo <= b < hi then now.Some? && now == Peek(fill, b)
    else if Straddles(m, lo, hi, b)
    then Peek(m, b).Some? && now.Some? && StandsAt(now.value, Peek(m, b).value, if b < lo then LeftExact(m, lo) else RightExact(m, hi))
    else now == Peek(m, b)
  }

  lemma ThreeSorted(front: Pieces, fill: Pieces, back: Pieces, lo: nat, hi: nat)
    requires Sorted(front + back) && Tiles(fill, lo, hi) && lo <= hi
    requires forall x :: x in front ==> x.stop <= lo
    requires forall x :: x in back ==> hi <= x.start
    ensures Sorted(front + fill + back)
  {
    SortedParts(front, back);
    TilesSorted(fill, lo, hi);
    SpliceSorted(front, fill, back, lo, hi);
  }

  lemma ThreePeek(front: Pieces, fill: Pieces, back: Pieces, lo: nat, hi: nat, b: nat)
    requires Sorted(front + back) && Tiles(fill, lo, hi) && lo < hi
    requires forall x :: x in front ==> x.stop <= lo
    requires forall x :: x in back ==> hi <= x.start
    ensures Peek(front + fill + back, b) == if lo <= b < hi then Peek(fill, b) else Peek(front + back, b)
    ensures lo <= b < hi ==> Peek(fill, b).Some?
  {
    ThreeSorted(front, fill, back, lo, hi);
    PeekConcat(front + fill, back, b);
    SortedParts(front + fill, back);
    PeekConcat(front, fill, b);
    PeekConcat(front, back, b);
    if lo <= b < hi {
      PeekNone(front, b);
      TilesCover(fill, lo, hi, b);
    } else {
      TilesSorted(fill, lo, hi);
      AtMiss(fill, b);
    }
  }

  /** Writing a range keeps the map in order and in bounds; each byte of the range then reads as what
      was written and each byte outside it as before, or as allowing more if its value reached into
      the range. */
  lemma Written(m: Pieces, lo: nat, hi: nat, end: nat, fill: Pieces, b: nat)
    requires Sorted(m) && Within(m, 0, end) && MayClear(m, lo, hi) && lo < hi <= end && Tiles(fill, lo, hi)
    ensures Sorted(WrittenMap(m, lo, hi, fill))
    ensures var says := WrittenSays(Peek(WrittenMap(m, lo, hi, fill), b), m, lo, hi, fill, b); says
  {
    var left, right, exL, exR := LeftRest(m, lo), RightRest(m, lo, hi), LeftExact(m, lo), RightExact(m, hi);
    ClearedStands(m, lo, hi);
    HoledSorted(m, lo, hi, end, left, right, exL, exR);
    HoledPeek(m, lo, hi, end, left, right, exL, exR, b);
    ThreeSorted(m[..Find(m, lo)] + left, fill, right + m[After(m, hi)..], lo, hi);
    ThreePeek(m[..Find(m, lo)] + left, fill, right + m[After(m, hi)..], lo, hi, b);
  }

  /** Writing a range leaves only values that describe their bytes, within bounds. */
  lemma WrittenFits(m: Pieces, lo: nat, hi: nat, end: nat, fill: Pieces)
    requires Sorted(m) && Within(m, 0, end) && MayClear(m, lo, hi) && lo < hi <= end && Tiles(fill, lo, hi)
    requires AllFit(m) && AllFit(fill)
    ensures AllFit(WrittenMap(m, lo, hi, fill)) && Within(WrittenMap(m, lo, hi, fill), 0, end)
  {
    var left, right, exL, exR := LeftRest(m, lo), RightRest(m, lo, hi), LeftExact(m, lo), RightExact(m, hi);
    ClearedStands(m, lo, hi);
    HoledSorted(m, lo, hi, end, left, right, exL, exR);
    HoledFits(m, lo, hi, left, right, exL, exR);
    TilesSorted(fill, lo, hi);
    WithinEach(fill, lo, hi);
    var front, back := m[..Find(m, lo)] + left, right + m[After(m, hi)..];
    var now := front + fill + back;
    forall x | x in now ensures ExtentFits(x) && x.stop <= end {
      assert x in front || x in fill || x in back;
    }
  }
}
