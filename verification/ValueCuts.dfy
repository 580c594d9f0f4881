/** Parts of symbolic values: `getSubConst`, `getIVSSubVals` and `getIVSSubVal`
    (llpe/main/LoadForward.cpp:1433-1510, 1700-1785). */
module ValueCuts {
  import opened Options
  import opened Extents
  import opened Constants
  import opened SymbolicValues
  import opened SubValues

  // ----- getSubConst

  /** `getSingleConstant`. */
  function BaseConst(b: Base): Option<Const>
  {
    match b
    case K(c) => Some(c)
    case Obj(id) => Some(CAddr(id, false))
    case Token(_, _) => None
  }

  /** The bytes of constants laid end to end, if all of them can be read. */
  function Gather(pieces: Pieces): Option<seq<nat>>
  {
    if pieces == [] then Some([])
    else
      var e := pieces[0];
      if |e.val.items| == 0 || e.stop < e.start then None
      else
        var c, rest := BaseConst(e.val.items[0].v), Gather(pieces[1..]);
        if c.Some? && rest.Some? && (forall k :: 0 <= k < e.stop - e.start ==> !R.Refused(c.value, k))
        then Some(BytesFrom(c.value, 0, e.stop - e.start) + rest.value)
        else None
  }

  predicate AnyUnknown(pieces: Pieces)
  {
    exists i :: 0 <= i < |pieces| && pieces[i].val.WhollyUnknown()
  }

  /** `valsToConst`: one constant for a list of extents, made of bytes unless the list is one extent. */
  function ValsToConst(pieces: Pieces): Option<Const>
  {
    if pieces == [] || AnyUnknown(pieces) then None
    else if |pieces| == 1 then BaseConst(pieces[0].val.items[0].v)
    else
      var bytes := Gather(pieces);
      if bytes.Some? then Some(FromBytes(bytes.value)) else None
  }

  /** Bytes off..off + n of a constant may be asked for here: it is taken whole, or can be cut. */
  predicate Takes(c: Const, off: nat, n: nat)
  {
    ValidConst(c) && n > 0 && off + n <= Size(c) && ((off == 0 && n == Size(c)) || Laid(c))
  }

  /** No part of the constant comes out with the wrong size. */
  predicate Untorn(c: Const, off: nat, n: nat)
  {
    Takes(c, off, n) && ((off == 0 && n == Size(c)) || NoTear(c, off, n))
  }

  /** `getConstSubVals`, on constants that need not be such as can be cut when they are taken whole. */
  function PartVals(c: Const, off: nat, n: nat, above: nat): Pieces
    requires Takes(c, off, n)
  {
    if off == 0 && n == Size(c) then [Extent(above, above + n, ScalarOf(c))] else ConstSubVals(c, off, n, above)
  }

  /** `getSubConst`. */
  function SubConst(c: Const, off: nat, n: nat): Option<Const>
    requires Takes(c, off, n)
  {
    ValsToConst(PartVals(c, off, n, 0))
  }

  /** `d` holds what the cells hold, or 0 where they hold undef. */
  ghost predicate Resolves(d: Const, cells: seq<Cell>, off: nat, n: nat)
    requires off + n <= |cells|
  {
    forall k: nat :: k < n ==> ResolvesAt(CellAt(d, k), cells[off + k])
  }

  predicate ResolvesAt(now: Cell, cell: Cell)
  {
    now == cell || (cell == Any && now == Known(0))
  }

  lemma OfCellInjective(a: Cell, b: Cell)
    requires OfCell(a) == OfCell(b)
    ensures a == b
  {
  }

  /** The constant behind a faithful extent has the extent's bytes. */
  lemma ExtentConst(e: Extent<Val>, cells: seq<Cell>, above: nat, d: Const)
    requires Faithful(e, cells, above) && BaseConst(e.val.items[0].v) == Some(d)
    ensures Cuttable(d) && Size(d) == e.stop - e.start
    ensures forall k: nat :: k < e.stop - e.start ==> CellAt(d, k) == cells[e.start - above + k]
  {
    var x := e.val.items[0];
    assert x in e.val.items && ItemFits(e.val.kind, x, e.stop - e.start) && (e.val.kind == KScalar ==> CanCut(x));
    assert Cuttable(CNull) && Size(CNull) == POINTER_SIZE;
    forall k: nat | k < e.stop - e.start ensures CellAt(d, k) == cells[e.start - above + k] {
      ExtentCell(e, cells, above, d, k);
    }
  }

  lemma ExtentCell(e: Extent<Val>, cells: seq<Cell>, above: nat, d: Const, k: nat)
    requires Faithful(e, cells, above) && BaseConst(e.val.items[0].v) == Some(d) && k < e.stop - e.start
    ensures CellAt(d, k) == cells[e.start - above + k]
  {
    var x := e.val.items[0];
    assert x in e.val.items && ItemFits(e.val.kind, x, e.stop - e.start);
    PatternIn(e.val, x, k);
    assert PatternAt(e.val.kind, x, k) == OfCell(cells[e.start - above + k]);
    OfCellInjective(CellAt(d, k), cells[e.start - above + k]);
  }

  /** The bytes are the cells from `from` on, undef as 0. */
  ghost predicate Spelled(bytes: seq<nat>, cells: seq<Cell>, from: int)
  {
    && (bytes != [] ==> 0 <= from && from + |bytes| <= |cells|)
    && forall k: nat :: k < |bytes| ==> bytes[k] < 256 && ResolvesAt(Known(bytes[k]), cells[from + k])
  }

  lemma SpelledConcat(a: seq<nat>, b: seq<nat>, cells: seq<Cell>, from: int)
    requires Spelled(a, cells, from) && Spelled(b, cells, from + |a|) && a != []
    ensures Spelled(a + b, cells, from)
  {
  }

  lemma GatherOne(e: Extent<Val>, cells: seq<Cell>, above: nat, c: Const)
    requires Faithful(e, cells, above) && BaseConst(e.val.items[0].v) == Some(c)
    requires forall k :: 0 <= k < e.stop - e.start ==> !R.Refused(c, k)
    ensures Spelled(BytesFrom(c, 0, e.stop - e.start), cells, e.start - above)
  {
    var bytes := BytesFrom(c, 0, e.stop - e.start);
    ExtentConst(e, cells, above, c);
    forall k: nat | k < e.stop - e.start
      ensures bytes[k] < 256 && ResolvesAt(Known(bytes[k]), cells[e.start - above + k])
    {
      R.ReadableCell(c, k);
    }
  }

  /** Bytes gathered from pieces that show some cells are those cells, undef as 0. */
  lemma {:induction false} GatherShows(pieces: Pieces, lo: nat, hi: nat, cells: seq<Cell>, above: nat)
    requires Shows(pieces, lo, hi, cells, above) && Gather(pieces).Some?
    ensures |Gather(pieces).value| == hi - lo && Spelled(Gather(pieces).value, cells, lo - above)
    decreases pieces
  {
    if pieces != [] {
      var e, rest := pieces[0], pieces[1..];
      var c, n := BaseConst(e.val.items[0].v).value, e.stop - e.start;
      assert Faithful(e, cells, above);
      GatherShows(rest, e.stop, hi, cells, above);
      GatherOne(e, cells, above, c);
      SpelledConcat(BytesFrom(c, 0, n), Gather(rest).value, cells, lo - above);
    }
  }

  /** A constant spelled by bytes resolves the cells the bytes are. */
  lemma SpelledConst(bytes: seq<nat>, cells: seq<Cell>, from: nat)
    requires bytes != [] && Spelled(bytes, cells, from)
    ensures var d := FromBytes(bytes); Cuttable(d) && Size(d) == |bytes| && Resolves(d, cells, from, |bytes|)
  {
    var d := FromBytes(bytes);
    FromBytesByte(bytes, 0);
    FromBytesCuttable(bytes);
    forall k: nat | k < |bytes| ensures ResolvesAt(CellAt(d, k), cells[from + k]) {
      FromBytesByte(bytes, k);
    }
  }

  /** The constant `valsToConst` makes of pieces that show some cells. */
  lemma ValsToConstSound(pieces: Pieces, lo: nat, hi: nat, cells: seq<Cell>, d: Const)
    requires Shows(pieces, lo, hi, cells, 0) && lo < hi && ValsToConst(pieces) == Some(d)
    ensures hi <= |cells| && Cuttable(d) && Size(d) == hi - lo && Resolves(d, cells, lo, hi - lo)
  {
    if |pieces| == 1 {
      var e := pieces[0];
      assert Faithful(e, cells, 0);
      TilesSorted(pieces, lo, hi);
      ExtentConst(e, cells, 0, d);
    } else {
      GatherShows(pieces, lo, hi, cells, 0);
      SpelledConst(Gather(pieces).value, cells, lo);
    }
  }

  // ----- cuts that are not clean

  /** The extent is unknown, or is of `torn` kind: it holds a constant of some other size. */
  predicate Spoilt(e: Extent<Val>, torn: bool)
  {
    if torn then |e.val.items| == 1 && e.val.kind == KScalar && e.val.items[0].v.K? && Size(e.val.items[0].v.c) != e.stop - e.start
    else e.val == OVERDEF
  }

  ghost predicate AnySpoilt(pieces: Pieces, torn: bool)
  {
    exists i :: 0 <= i < |pieces| && Spoilt(pieces[i], torn)
  }

  lemma SpoiltPart(p: Pieces, q: Pieces, torn: bool)
    ensures AnySpoilt(p, torn) || AnySpoilt(q, torn) ==> AnySpoilt(p + q, torn)
  {
    if i :| 0 <= i < |p| && Spoilt(p[i], torn) {
      assert (p + q)[i] == p[i];
    } else if j :| 0 <= j < |q| && Spoilt(q[j], torn) {
      assert (p + q)[|p| + j] == q[j];
    }
  }

  lemma SpoiltThree(p: Pieces, q: Pieces, r: Pieces, torn: bool)
    ensures AnySpoilt(p, torn) || AnySpoilt(q, torn) || AnySpoilt(r, torn) ==> AnySpoilt(p + q + r, torn)
  {
    SpoiltPart(p, q, torn);
    SpoiltPart(p + q, r, torn);
  }

  /** An end of the range cuts an unreadable leaf. */
  predicate Dirty(c: CutConst, off: nat, n: nat)
  {
    !(CleanAt(c, off) && CleanAt(c, off + n))
  }

  /** `getConstSubVals` then reports an unknown extent. */
  lemma {:induction false} DirtyCut(c: CutConst, off: nat, n: nat, above: nat)
    requires n > 0 && off + n <= Size(c) && Dirty(c, off, n)
    ensures AnySpoilt(ConstSubVals(c, off, n, above), false)
    decreases c, 1
  {
    CleanAtStart(c);
    CleanAtEnd(c);
    if c.CArray? {
      ArrayDirty(c, off, n, above);
    } else if c.CStruct? {
      StructDirty(c, off, n, above);
    } else {
      LeafDirty(c, off, n, above);
    }
  }

  lemma {:induction false} ArrayDirty(c: CutConst, off: nat, n: nat, above: nat)
    requires c.CArray? && n > 0 && off + n <= Size(c) && Dirty(c, off, n)
    ensures var spoilt := AnySpoilt(ArraySubVals(c, off, n, above), false); spoilt
    decreases c, 0, 4
  {
    ArrayCutFacts(off, n, AllocSize(c.elemTy), |c.elems|);
    ArrayPiecesDirty(c, ArrayCut(off, n, AllocSize(c.elemTy)), n, above);
  }

  lemma LeafDirty(c: CutConst, off: nat, n: nat, above: nat)
    requires n > 0 && off + n <= Size(c) && Dirty(c, off, n) && !c.CArray? && !c.CStruct? && CleanAt(c, 0) && CleanAt(c, Size(c))
    ensures AnySpoilt(ConstSubVals(c, off, n, above), false)
  {
    assert ConstSubVals(c, off, n, above) == [Extent(off, n, OVERDEF)] by {
      assert R.Refused(c, off);
    }
    assert Spoilt(ConstSubVals(c, off, n, above)[0], false);
  }

  /** A range that is not the whole array leaves an element out. */
  lemma NotAllElements(cut: Cut, off: nat, n: nat, esize: nat, count: nat)
    requires esize > 0 && n > 0 && off + n <= count * esize && cut == ArrayCut(off, n, esize) && !(off == 0 && n == count * esize)
    ensures cut.startE > 0 || cut.startOff > 0 || cut.endE < count
  {
    ArrayCutFacts(off, n, esize, count);
  }

  lemma ElementPieces(c: CutConst, i: nat, off: nat, n: nat, above: nat)
    requires c.CArray? && i < |c.elems| && n > 0 && off + n <= AllocSize(c.elemTy) && Cuttable(c.elems[i]) && off + n <= Size(c.elems[i])
    ensures off > 0 ==> ArrayLeft(c, i, off, n, above) == ConstSubVals(c.elems[i], off, n, above + Place(c, i))
    ensures off == 0 && n < AllocSize(c.elemTy) ==> ArrayRight(c, i, n, above) == ConstSubVals(c.elems[i], off, n, above + Place(c, i))
  {
  }

  lemma {:induction false} ArrayPiecesDirty(c: CutConst, cut: Cut, n: nat, above: nat)
    requires InArray(c, cut, n) && !CleanEnds(c, cut)
    ensures AnySpoilt(ArrayPieces(c, cut, n, above), false)
    decreases c, 0, 3
  {
    var Cut(startE, startOff, endE, endOff) := cut;
    if startOff > 0 && startE == endE {
      ElementClean(c, startE);
      DirtyElement(c, startE, startOff, n, above);
    } else {
      ArrayAcrossDirty(c, cut, n, above);
    }
  }

  predicate CleanElement(c: CutConst, i: nat, off: nat)
    requires c.CArray? && i < |c.elems|
  {
    CleanAt(c.elems[i], off)
  }

  lemma {:induction false} DirtyElement(c: CutConst, i: nat, off: nat, n: nat, above: nat)
    requires c.CArray? && i < |c.elems| && n > 0 && off + n <= AllocSize(c.elemTy)
    requires !(CleanElement(c, i, off) && CleanElement(c, i, off + n))
    ensures off > 0 ==> AnySpoilt(ArrayLeft(c, i, off, n, above), false)
    ensures off == 0 && n < AllocSize(c.elemTy) ==> AnySpoilt(ArrayRight(c, i, n, above), false)
    decreases c, 0, 1
  {
    CuttableElement(c, i);
    ElementPieces(c, i, off, n, above);
    DirtyCut(c.elems[i], off, n, above + Place(c, i));
  }

  lemma {:induction false} ArrayAcrossDirty(c: CutConst, cut: Cut, n: nat, above: nat)
    requires InArray(c, cut, n) && !CleanEnds(c, cut) && !(cut.startOff > 0 && cut.startE == cut.endE)
    ensures AnySpoilt(ArrayPieces(c, cut, n, above), false)
    decreases c, 0, 2
  {
    var Cut(startE, startOff, endE, endOff) := cut;
    var rest := AllocSize(c.elemTy) - startOff;
    ElementClean(c, startE);
    if endE < |c.elems| {
      ElementClean(c, endE);
    }
    if !CleanElement(c, startE, startOff) {
      DirtyElement(c, startE, startOff, rest, above);
    } else {
      DirtyElement(c, endE, 0, endOff, above);
    }
    SpoiltThree(ArrayLeft(c, startE, startOff, rest, above),
                WholeElements(c, if startOff == 0 then startE else startE + 1, endE, above),
                ArrayRight(c, endE, endOff, above), false);
  }

  lemma {:induction false} MemberDirty(c: CutConst, i: nat, off: nat, n: nat, above: nat)
    requires c.CStruct? && i < |c.members| && n > 0 && off + n <= Size(c.members[i])
    requires Cuttable(c.members[i]) && Dirty(c.members[i], off, n)
    ensures off > 0 ==> AnySpoilt(StructLeft(c, i, off, n, above), false)
    ensures off == 0 ==> AnySpoilt(StructRight(c, i, n, above), false)
    decreases c, 0, 0
  {
    if off > 0 {
      LeftPieces(c, i, off, n, above);
    } else {
      RightPieces(c, i, n, above);
    }
    DirtyCut(c.members[i], off, n, above + c.structTy.offsets[i]);
  }

  lemma LeftPieces(c: CutConst, i: nat, off: nat, n: nat, above: nat)
    requires c.CStruct? && i < |c.members| && n > 0 && off + n <= Size(c.members[i]) && Cuttable(c.members[i])
    ensures off > 0 ==> StructLeft(c, i, off, n, above) == ConstSubVals(c.members[i], off, n, above + c.structTy.offsets[i])
  {
  }

  lemma RightPieces(c: CutConst, i: nat, n: nat, above: nat)
    requires c.CStruct? && i < |c.members| && 0 < n <= Size(c.members[i]) && Cuttable(c.members[i])
    ensures StructRight(c, i, n, above) == ConstSubVals(c.members[i], 0, n, above + c.structTy.offsets[i])
  {
  }

  lemma {:induction false} StructDirty(c: CutConst, off: nat, n: nat, above: nat)
    requires c.CStruct? && n > 0 && off + n <= Size(c) && Dirty(c, off, n)
    ensures AnySpoilt(StructSubVals(c, off, n, above), false)
    decreases c, 0, 3
  {
    if EndsInMembers(c, off, n) {
      MembersDirty(c, off, n, above);
    } else {
      PaddingSpoilt(c, off, n, above);
    }
  }

  /** A range with an end in padding has an unknown extent. */
  lemma PaddingSpoilt(c: CutConst, off: nat, n: nat, above: nat)
    requires c.CStruct? && n > 0 && off + n <= Size(c) && !EndsInMembers(c, off, n)
    ensures AnySpoilt(StructSubVals(c, off, n, above), false)
  {
    StructCutEnds(c, off, n);
    var Cut(startE, startOff, endE, endOff) := StructCut(c, off, n);
    var size := Size(c.members[startE]);
    assert StructSubVals(c, off, n, above) == PaddingSubVals(c, off, n, above);
    if startOff >= size {
      assert PaddingSubVals(c, off, n, above) == [Extent(off, n, OVERDEF)];
      assert Spoilt(StructSubVals(c, off, n, above)[0], false);
    } else if startOff > 0 && startE == endE {
      PastSpoilt(c, startE, startOff, endOff, above);
    } else {
      PastSpoilt(c, endE, 0, endOff, above);
      SpoiltThree(StructLeft(c, startE, startOff, size - startOff, above), WholeMembers(c, if startOff == 0 then startE else startE + 1, endE, above),
                  PastMember(c, endE, 0, endOff, above), false);
    }
  }

  lemma PastSpoilt(c: CutConst, i: nat, from: nat, to: nat, above: nat)
    requires c.CStruct? && i < |c.members| && from < Size(c.members[i]) < to
    ensures AnySpoilt(PastMember(c, i, from, to, above), false)
  {
    var pieces := PastMember(c, i, from, to, above);
    assert Spoilt(pieces[|pieces| - 1], false);
  }

  lemma {:induction false} MembersDirty(c: CutConst, off: nat, n: nat, above: nat)
    requires c.CStruct? && n > 0 && off + n <= Size(c) && Dirty(c, off, n) && EndsInMembers(c, off, n)
    ensures AnySpoilt(StructSubVals(c, off, n, above), false)
    decreases c, 0, 2
  {
    var cut := StructCut(c, off, n);
    if cut.startOff > 0 && cut.startE == cut.endE {
      InsideDirty(c, off, n, above);
    } else {
      AcrossDirty(c, off, n, above);
    }
  }

  lemma {:induction false} InsideDirty(c: CutConst, off: nat, n: nat, above: nat)
    requires c.CStruct? && n > 0 && off + n <= Size(c) && Dirty(c, off, n) && EndsInMembers(c, off, n)
    requires var cut := StructCut(c, off, n); cut.startOff > 0 && cut.startE == cut.endE
    ensures AnySpoilt(StructSubVals(c, off, n, above), false)
    decreases c, 0, 1, 1
  {
    var cut := StructCut(c, off, n);
    InsideIs(c, off, n, above);
    DirtyMember(c, off, n);
    MemberDirty(c, cut.startE, cut.startOff, n, above);
  }

  lemma {:induction false} AcrossDirty(c: CutConst, off: nat, n: nat, above: nat)
    requires c.CStruct? && n > 0 && off + n <= Size(c) && Dirty(c, off, n) && EndsInMembers(c, off, n)
    requires var cut := StructCut(c, off, n); !(cut.startOff > 0 && cut.startE == cut.endE)
    ensures AnySpoilt(StructSubVals(c, off, n, above), false)
    decreases c, 0, 1, 1
  {
    var Cut(startE, startOff, endE, endOff) := StructCut(c, off, n);
    AcrossIs(c, off, n, above);
    DirtyMember(c, off, n);
    PartsDirty(c, startE, startOff, Size(c.members[startE]) - startOff, if startOff == 0 then startE else startE + 1, endE, endOff, above);
  }

  /** What is wrong with either end of a cut struct is wrong with the whole. */
  lemma {:induction false} PartsDirty(c: CutConst, i: nat, off: nat, rest: nat, from: nat, j: nat, n: nat, above: nat)
    requires c.CStruct? && i < |c.members| && rest > 0 && off + rest == Size(c.members[i]) && from <= j < |c.members| && n <= Size(c.members[j])
    requires Cuttable(c.members[i]) && Cuttable(c.members[j])
    requires if !CleanAt(c.members[i], off) then off > 0 else n > 0 && !CleanAt(c.members[j], n)
    ensures AnySpoilt(StructLeft(c, i, off, rest, above) + WholeMembers(c, from, j, above) + StructRight(c, j, n, above), false)
    decreases c, 0, 1, 0
  {
    if !CleanAt(c.members[i], off) {
      MemberDirty(c, i, off, rest, above);
    } else {
      MemberDirty(c, j, 0, n, above);
    }
    SpoiltThree(StructLeft(c, i, off, rest, above), WholeMembers(c, from, j, above), StructRight(c, j, n, above), false);
  }

  /** An end that cuts an unreadable leaf cuts it inside the member that end falls in. */
  lemma DirtyMember(c: CutConst, off: nat, n: nat)
    requires c.CStruct? && n > 0 && off + n <= Size(c) && Dirty(c, off, n)
    ensures var Cut(startE, startOff, endE, endOff) := StructCut(c, off, n);
            && Cuttable(c.members[startE]) && Cuttable(c.members[endE])
            && if !CleanAt(c.members[startE], startOff) then startOff > 0 else !CleanAt(c.members[endE], endOff) && endOff > 0
  {
    var Cut(startE, startOff, endE, endOff) := StructCut(c, off, n);
    if !CleanAt(c, off) {
      DirtyPoint(c, off);
    } else {
      DirtyPoint(c, off + n);
      CleanMember(c, off);
    }
    CuttableMember(c, startE);
    CuttableMember(c, endE);
  }

  lemma DirtyPoint(c: CutConst, x: nat)
    requires c.CStruct? && !CleanAt(c, x)
    ensures var i := ElementContaining(c.structTy.offsets, x); !CleanAt(c.members[i], x - c.structTy.offsets[i]) && x > c.structTy.offsets[i]
  {
    MemberClean(c, ElementContaining(c.structTy.offsets, x));
  }

  /** Several elements, but not all, made into a constant of the type of the whole array. */
  lemma TornRun(c: CutConst, from: nat, to: nat, above: nat)
    requires c.CArray? && from <= to <= |c.elems| && !Runs(c, from, to) && (from > 0 || to < |c.elems|)
    ensures AnySpoilt(WholeElements(c, from, to, above), true)
  {
    var kept, esize := c.elems[from..to], AllocSize(c.elemTy);
    CuttableElement(c, from);
    assert TyOf(MakeArray(TyOf(c), kept)) == TyOf(c);
    PlaceIs(c, from);
    PlaceIs(c, to);
    WholeSpan(from, to, esize);
    ShorterRun(to - from, |c.elems|, esize);
    assert Spoilt(WholeElements(c, from, to, above)[0], true);
  }

  lemma ShorterRun(n: nat, count: nat, esize: nat)
    requires n < count && esize > 0
    ensures n * esize < count * esize
  {
    MulMonotone(n + 1, count, esize);
  }

  // ----- cuts that tear an array or leave padding out

  /** The extents start where the range does and do not go past it, unless one is spoilt. */
  ghost predicate Fair(p: Pieces, lo: nat, hi: nat)
  {
    AnySpoilt(p, false) || AnySpoilt(p, true) || Spans(p, lo, hi)
  }

  ghost predicate Spans(p: Pieces, lo: nat, hi: nat)
  {
    && (if p == [] then lo == hi else p[0].start == lo)
    && forall i :: 0 <= i < |p| ==> p[i].stop <= hi
  }

  /** Some extent is unknown or holds a constant of another size, or the extents do not lie end to end
      over the range. */
  ghost predicate Ruined(p: Pieces, lo: nat, hi: nat)
  {
    AnySpoilt(p, false) || AnySpoilt(p, true) || !Tiles(p, lo, hi)
  }

  lemma {:induction false} TilesSplit(p: Pieces, q: Pieces, lo: nat, hi: nat) returns (mid: nat)
    requires Tiles(p + q, lo, hi)
    ensures Tiles(p, lo, mid) && Tiles(q, mid, hi) && (if p == [] then mid == lo else mid == p[|p| - 1].stop)
    decreases p
  {
    if p == [] {
      assert p + q == q;
      mid := lo;
    } else {
      assert (p + q)[1..] == p[1..] + q;
      mid := TilesSplit(p[1..], q, p[0].stop, hi);
    }
  }

  /** The parts of a range that do not fit do not fit together. */
  lemma ThreeParts(p: Pieces, q: Pieces, r: Pieces, lo: nat, x: nat, z: nat, y: nat, hi: nat)
    requires (var fair := Fair(p, lo, x); fair) && (var fair := Fair(r, y, hi); fair) && var tiles := Tiles(q, z, y); tiles
    requires lo <= x <= z && y <= hi && (p == [] ==> x == z)
    ensures var fair := Fair(p + q + r, lo, hi); fair
    ensures Ruined(p, lo, x) || Ruined(r, y, hi) || x < z || AnySpoilt(q, true) ==> var ruined := Ruined(p + q + r, lo, hi); ruined
  {
    SpoiltThree(p, q, r, false);
    SpoiltThree(p, q, r, true);
    TilesSorted(q, z, y);
    if !AnySpoilt(p + q + r, false) && !AnySpoilt(p + q + r, true) {
      ThreeSpan(p, q, r, lo, x, z, y, hi);
      if Tiles(p + q + r, lo, hi) {
        ThreeTile(p, q, r, lo, x, z, y, hi);
      }
    }
  }

  lemma ThreeSpan(p: Pieces, q: Pieces, r: Pieces, lo: nat, x: nat, z: nat, y: nat, hi: nat)
    requires Spans(p, lo, x) && Tiles(q, z, y) && Spans(r, y, hi) && lo <= x <= z <= y <= hi && (p == [] ==> x == z) && Within(q, z, y)
    ensures Spans(p + q + r, lo, hi)
  {
    var all := p + q + r;
    forall i | 0 <= i < |all| ensures all[i].stop <= hi {
      assert all[i] == if i < |p| then p[i] else if i < |p| + |q| then q[i - |p|] else r[i - |p| - |q|];
    }
  }

  lemma ThreeTile(p: Pieces, q: Pieces, r: Pieces, lo: nat, x: nat, z: nat, y: nat, hi: nat)
    requires Spans(p, lo, x) && Tiles(q, z, y) && Spans(r, y, hi) && lo <= x <= z <= y <= hi && (p == [] ==> x == z)
    requires Tiles(p + q + r, lo, hi)
    ensures Tiles(p, lo, x) && Tiles(r, y, hi) && x == z
  {
    var v := TilesSplit(p + q, r, lo, hi);
    var u := TilesSplit(p, q, lo, v);
    TilesSorted(p, lo, u);
    TilesSorted(q, u, v);
    TilesSorted(q, z, y);
    TilesSorted(r, v, hi);
  }

  /** Where an array is torn or padding is left out, the extents are ruined. */
  lemma {:induction false} TornCut(c: CutConst, off: nat, n: nat, above: nat, lo: nat, hi: nat)
    requires n > 0 && off + n <= Size(c) && lo == above + off && hi == lo + n
    ensures var fair := Fair(ConstSubVals(c, off, n, above), lo, hi); fair
    ensures !NoTear(c, off, n) ==> var ruined := Ruined(ConstSubVals(c, off, n, above), lo, hi); ruined
    decreases c, 1
  {
    var pieces := ConstSubVals(c, off, n, above);
    if off == 0 && n == Size(c) {
      assert Spans(pieces, lo, hi);
    } else if c.CArray? {
      ArrayTorn(c, off, n, above, lo, hi);
    } else if c.CStruct? {
      StructTorn(c, off, n, above, lo, hi);
    } else if pieces[0].val == OVERDEF {
      assert Spoilt(pieces[0], false);
    } else {
      assert Spans(pieces, lo, hi);
    }
  }

  lemma {:induction false} ArrayTorn(c: CutConst, off: nat, n: nat, above: nat, lo: nat, hi: nat)
    requires c.CArray? && n > 0 && off + n <= Size(c) && lo == above + off && hi == lo + n && !(off == 0 && n == Size(c))
    ensures var fair := Fair(ArraySubVals(c, off, n, above), lo, hi); fair
    ensures !NoTear(c, off, n) ==> var ruined := Ruined(ArraySubVals(c, off, n, above), lo, hi); ruined
    decreases c, 0, 3
  {
    var esize := AllocSize(c.elemTy);
    ArrayCutFacts(off, n, esize, |c.elems|);
    var cut := ArrayCut(off, n, esize);
    NotAllElements(cut, off, n, esize, |c.elems|);
    assert NoTear(c, off, n) <==> ArrayNoTear(c, cut, n);
    assert ArraySubVals(c, off, n, above) == ArrayPieces(c, cut, n, above);
    PlaceIs(c, cut.startE);
    PlaceIs(c, cut.endE);
    if cut.startOff > 0 && cut.startE == cut.endE {
      ElementTorn(c, cut.startE, cut.startOff, n, above, lo);
    } else {
      ArrayAcrossNoTear(c, cut, n);
      ArrayAcrossTorn(c, cut, n, above, lo, hi);
    }
  }

  lemma {:induction false} ElementTorn(c: CutConst, i: nat, off: nat, n: nat, above: nat, lo: nat)
    requires c.CArray? && i < |c.elems| && n > 0 && off + n <= AllocSize(c.elemTy) && lo == above + Place(c, i) + off
    ensures off > 0 ==> var fair := Fair(ArrayLeft(c, i, off, n, above), lo, lo + n); fair
    ensures off > 0 && !ElementNoTear(c, i, off, n) ==> var ruined := Ruined(ArrayLeft(c, i, off, n, above), lo, lo + n); ruined
    ensures off == 0 && n < AllocSize(c.elemTy) ==> var fair := Fair(ArrayRight(c, i, n, above), lo, lo + n); fair
    ensures off == 0 && n < AllocSize(c.elemTy) && !ElementNoTear(c, i, off, n) ==>
              var ruined := Ruined(ArrayRight(c, i, n, above), lo, lo + n); ruined
    decreases c, 0, 0
  {
    CuttableElement(c, i);
    ElementPieces(c, i, off, n, above);
    TornCut(c.elems[i], off, n, above + Place(c, i), lo, lo + n);
  }

  lemma WholeElementsTile(c: CutConst, from: nat, to: nat, above: nat)
    requires c.CArray? && from <= to <= |c.elems|
    ensures Tiles(WholeElements(c, from, to, above), above + Place(c, from), above + Place(c, to))
  {
    if from < to {
      PlaceIs(c, from);
      PlaceIs(c, to);
      CuttableElement(c, from);
      ShorterRun(from, to, AllocSize(c.elemTy));
      TilesOne(WholeElements(c, from, to, above)[0]);
    }
  }

  lemma ArrayAcrossIs(c: CutConst, cut: Cut, n: nat, above: nat)
    requires InArray(c, cut, n) && !(cut.startOff > 0 && cut.startE == cut.endE)
    ensures var Cut(startE, startOff, endE, endOff) := cut;
            ArrayPieces(c, cut, n, above) ==
              ArrayLeft(c, startE, startOff, AllocSize(c.elemTy) - startOff, above)
              + WholeElements(c, if startOff == 0 then startE else startE + 1, endE, above)
              + ArrayRight(c, endE, endOff, above)
  {
  }

  lemma {:induction false} ElementLeftTorn(c: CutConst, i: nat, off: nat, rest: nat, above: nat, lo: nat, x: nat)
    requires c.CArray? && i < |c.elems| && rest > 0 && off + rest == AllocSize(c.elemTy)
    requires lo == above + Place(c, i) + off && x == if off == 0 then lo else lo + rest
    ensures var fair := Fair(ArrayLeft(c, i, off, rest, above), lo, x); fair
    ensures off > 0 && !ElementNoTear(c, i, off, rest) ==> var ruined := Ruined(ArrayLeft(c, i, off, rest, above), lo, x); ruined
    decreases c, 0, 1, 0
  {
    if off > 0 {
      ElementTorn(c, i, off, rest, above, lo);
    }
  }

  lemma {:induction false} ElementRightTorn(c: CutConst, i: nat, n: nat, above: nat, y: nat)
    requires c.CArray? && (n > 0 ==> i < |c.elems| && n < AllocSize(c.elemTy)) && y == above + Place(c, i)
    ensures var fair := Fair(ArrayRight(c, i, n, above), y, y + n); fair
    ensures n > 0 && !ElementNoTear(c, i, 0, n) ==> var ruined := Ruined(ArrayRight(c, i, n, above), y, y + n); ruined
    decreases c, 0, 1, 0
  {
    if n > 0 {
      ElementTorn(c, i, 0, n, above, y);
    }
  }

  lemma WholeElementsTorn(c: CutConst, from: nat, to: nat, above: nat)
    requires c.CArray? && from <= to <= |c.elems| && (from > 0 || to < |c.elems|)
    ensures var tiles := Tiles(WholeElements(c, from, to, above), above + Place(c, from), above + Place(c, to)); tiles
    ensures !Runs(c, from, to) ==> var spoilt := AnySpoilt(WholeElements(c, from, to, above), true); spoilt
  {
    WholeElementsTile(c, from, to, above);
    if !Runs(c, from, to) {
      TornRun(c, from, to, above);
    }
  }

  /** Something is torn in the elements the ends lie in, or between them. */
  predicate TornElements(c: CutConst, cut: Cut)
    requires c.CArray? && cut.startE < |c.elems| && cut.startE <= cut.endE <= |c.elems| && !(cut.startOff > 0 && cut.startE == cut.endE)
    requires cut.startOff < AllocSize(c.elemTy) && cut.endOff < AllocSize(c.elemTy) && (cut.endOff > 0 ==> cut.endE < |c.elems|)
  {
    || (cut.startOff > 0 && !ElementNoTear(c, cut.startE, cut.startOff, AllocSize(c.elemTy) - cut.startOff))
    || !Runs(c, if cut.startOff == 0 then cut.startE else cut.startE + 1, cut.endE)
    || (cut.endOff > 0 && !ElementNoTear(c, cut.endE, 0, cut.endOff))
  }

  lemma ArrayAcrossNoTear(c: CutConst, cut: Cut, n: nat)
    requires InArray(c, cut, n) && !(cut.startOff > 0 && cut.startE == cut.endE)
    ensures ArrayNoTear(c, cut, n) <==> !TornElements(c, cut)
  {
  }

  lemma {:induction false} ArrayAcrossTorn(c: CutConst, cut: Cut, n: nat, above: nat, lo: nat, hi: nat)
    requires InArray(c, cut, n) && (cut.startE > 0 || cut.startOff > 0 || cut.endE < |c.elems|) && !(cut.startOff > 0 && cut.startE == cut.endE)
    requires lo == above + Place(c, cut.startE) + cut.startOff && hi == above + Place(c, cut.endE) + cut.endOff
    ensures var fair := Fair(ArrayPieces(c, cut, n, above), lo, hi); fair
    ensures TornElements(c, cut) ==> var ruined := Ruined(ArrayPieces(c, cut, n, above), lo, hi); ruined
    decreases c, 0, 2
  {
    ArrayAcrossIs(c, cut, n, above);
    ElementsTorn(c, cut, AllocSize(c.elemTy) - cut.startOff, if cut.startOff == 0 then cut.startE else cut.startE + 1, above, lo, hi);
  }

  lemma {:induction false} ElementsTorn(c: CutConst, cut: Cut, rest: nat, from: nat, above: nat, lo: nat, hi: nat)
    requires c.CArray? && cut.startE < |c.elems| && cut.startE <= cut.endE <= |c.elems| && !(cut.startOff > 0 && cut.startE == cut.endE)
    requires rest > 0 && cut.startOff + rest == AllocSize(c.elemTy) && from == if cut.startOff == 0 then cut.startE else cut.startE + 1
    requires cut.endOff < AllocSize(c.elemTy) && (cut.endOff > 0 ==> cut.endE < |c.elems|) && (from > 0 || cut.endE < |c.elems|)
    requires lo == above + Place(c, cut.startE) + cut.startOff && hi == above + Place(c, cut.endE) + cut.endOff
    ensures var left, mid, right := ArrayLeft(c, cut.startE, cut.startOff, rest, above), WholeElements(c, from, cut.endE, above), ArrayRight(c, cut.endE, cut.endOff, above);
            && (var fair := Fair(left + mid + right, lo, hi); fair)
            && (TornElements(c, cut) ==> var ruined := Ruined(left + mid + right, lo, hi); ruined)
    decreases c, 0, 2, 0
  {
    ElementsFair(c, cut, rest, from, above, lo, hi);
    var Cut(startE, startOff, endE, endOff) := cut;
    var x, y := if startOff == 0 then lo else lo + rest, above + Place(c, endE);
    var left, mid, right := ArrayLeft(c, startE, startOff, rest, above), WholeElements(c, from, endE, above), ArrayRight(c, endE, endOff, above);
    if startOff > 0 && !ElementNoTear(c, startE, startOff, rest) {
      ElementLeftTorn(c, startE, startOff, rest, above, lo, x);
      ThreeParts(left, mid, right, lo, x, x, y, hi);
    } else if !Runs(c, from, endE) {
      WholeElementsTorn(c, from, endE, above);
      ThreeParts(left, mid, right, lo, x, x, y, hi);
    } else if endOff > 0 && !ElementNoTear(c, endE, 0, endOff) {
      ElementRightTorn(c, endE, endOff, above, y);
      ThreeParts(left, mid, right, lo, x, x, y, hi);
    }
  }

  lemma {:induction false} ElementsFair(c: CutConst, cut: Cut, rest: nat, from: nat, above: nat, lo: nat, hi: nat)
    requires c.CArray? && cut.startE < |c.elems| && cut.startE <= cut.endE <= |c.elems| && !(cut.startOff > 0 && cut.startE == cut.endE)
    requires rest > 0 && cut.startOff + rest == AllocSize(c.elemTy) && from == if cut.startOff == 0 then cut.startE else cut.startE + 1
    requires cut.endOff < AllocSize(c.elemTy) && (cut.endOff > 0 ==> cut.endE < |c.elems|)
    requires lo == above + Place(c, cut.startE) + cut.startOff && hi == above + Place(c, cut.endE) + cut.endOff
    ensures var left, mid, right := ArrayLeft(c, cut.startE, cut.startOff, rest, above), WholeElements(c, from, cut.endE, above), ArrayRight(c, cut.endE, cut.endOff, above);
            var x, y := if cut.startOff == 0 then lo else lo + rest, above + Place(c, cut.endE);
            && x == above + Place(c, from) && (left == [] ==> x == lo)
            && (var fair := Fair(left, lo, x); fair) && (var fair := Fair(right, y, hi); fair) && (var tiles := Tiles(mid, x, y); tiles)
            && (var fair := Fair(left + mid + right, lo, hi); fair)
    decreases c, 0, 1, 1
  {
    var Cut(startE, startOff, endE, endOff) := cut;
    var x, y := if startOff == 0 then lo else lo + rest, above + Place(c, endE);
    AcrossStart(c, startE, startOff, above, from, lo, x);
    ElementLeftTorn(c, startE, startOff, rest, above, lo, x);
    ElementRightTorn(c, endE, endOff, above, y);
    WholeElementsTile(c, from, endE, above);
    ThreeParts(ArrayLeft(c, startE, startOff, rest, above), WholeElements(c, from, endE, above), ArrayRight(c, endE, endOff, above), lo, x, x, y, hi);
  }

  lemma {:induction false} StructTorn(c: CutConst, off: nat, n: nat, above: nat, lo: nat, hi: nat)
    requires c.CStruct? && n > 0 && off + n <= Size(c) && lo == above + off && hi == lo + n
    ensures var fair := Fair(StructSubVals(c, off, n, above), lo, hi); fair
    ensures !StructNoTear(c, off, n) ==> var ruined := Ruined(StructSubVals(c, off, n, above), lo, hi); ruined
    decreases c, 0, 3
  {
    if EndsInMembers(c, off, n) {
      StructCutFacts(c, off, n);
      var cut := StructCut(c, off, n);
      if cut.startOff > 0 && cut.startE == cut.endE {
        InsideIs(c, off, n, above);
        MemberTorn(c, cut.startE, cut.startOff, n, above, lo);
      } else {
        AcrossNoTear(c, off, n);
        MembersTorn(c, cut, off, n, above, lo, hi);
      }
    } else {
      PaddingSpoilt(c, off, n, above);
    }
  }

  lemma {:induction false} MemberTorn(c: CutConst, i: nat, off: nat, n: nat, above: nat, lo: nat)
    requires c.CStruct? && i < |c.members| && n > 0 && off + n <= Size(c.members[i]) && lo == above + Offset(c, i) + off
    ensures off > 0 ==> var fair := Fair(StructLeft(c, i, off, n, above), lo, lo + n); fair
    ensures off > 0 && !MemberNoTear(c, i, off, n) ==> var ruined := Ruined(StructLeft(c, i, off, n, above), lo, lo + n); ruined
    ensures off == 0 ==> var fair := Fair(StructRight(c, i, n, above), lo, lo + n); fair
    ensures off == 0 && !MemberNoTear(c, i, off, n) ==> var ruined := Ruined(StructRight(c, i, n, above), lo, lo + n); ruined
    decreases c, 0, 0
  {
    CuttableMember(c, i);
    LeftPieces(c, i, off, n, above);
    RightPieces(c, i, n, above);
    TornCut(c.members[i], off, n, above + Offset(c, i), lo, lo + n);
  }

  lemma {:induction false} WholeMembersTile(c: CutConst, from: nat, to: nat, above: nat)
    requires c.CStruct? && from <= to < |c.members|
    ensures Tiles(WholeMembers(c, from, to, above), above + Offset(c, from), above + Offset(c, to))
    decreases |c.members| - from
  {
    if from < to {
      var at, mid, next := above + Offset(c, from), above + Offset(c, from) + Size(c.members[from]), above + Offset(c, from + 1);
      CuttableMember(c, from);
      var one, pad := Extent(at, mid, ValueOf(c.members[from])), Padding(c, from, above);
      TilesOne(one);
      if pad != [] {
        TilesOne(pad[0]);
      }
      assert mid + PadBehind(c, from) == next;
      TilesConcat([one], pad, at, mid, next);
      WholeMembersTile(c, from + 1, to, above);
      TilesConcat([one] + pad, WholeMembers(c, from + 1, to, above), at, next, above + Offset(c, to));
    }
  }

  lemma {:induction false} LeftTorn(c: CutConst, i: nat, off: nat, rest: nat, above: nat, lo: nat, x: nat)
    requires c.CStruct? && i < |c.members| && rest > 0 && off + rest == Size(c.members[i])
    requires lo == above + Offset(c, i) + off && x == if off == 0 then lo else lo + rest
    ensures var fair := Fair(StructLeft(c, i, off, rest, above), lo, x); fair
    ensures StructLeft(c, i, off, rest, above) == [] ==> off == 0
    ensures off > 0 && !MemberNoTear(c, i, off, rest) ==> var ruined := Ruined(StructLeft(c, i, off, rest, above), lo, x); ruined
    decreases c, 0, 1, 0
  {
    if off > 0 {
      MemberTorn(c, i, off, rest, above, lo);
    }
  }

  lemma {:induction false} RightTorn(c: CutConst, i: nat, n: nat, above: nat, y: nat)
    requires c.CStruct? && i < |c.members| && n <= Size(c.members[i]) && y == above + Offset(c, i)
    ensures var fair := Fair(StructRight(c, i, n, above), y, y + n); fair
    ensures n > 0 && !MemberNoTear(c, i, 0, n) ==> var ruined := Ruined(StructRight(c, i, n, above), y, y + n); ruined
    decreases c, 0, 1, 0
  {
    if n > 0 {
      MemberTorn(c, i, 0, n, above, y);
    }
  }

  lemma {:induction false} MembersTorn(c: CutConst, cut: Cut, off: nat, n: nat, above: nat, lo: nat, hi: nat)
    requires c.CStruct? && n > 0 && off + n <= Size(c) && lo == above + off && hi == lo + n && EndsInMembers(c, off, n)
    requires cut == StructCut(c, off, n) && !(cut.startOff > 0 && cut.startE == cut.endE)
    requires cut.startE <= cut.endE < |c.members| && cut.startOff < Size(c.members[cut.startE]) && cut.endOff <= Size(c.members[cut.endE])
    ensures var fair := Fair(StructSubVals(c, off, n, above), lo, hi); fair
    ensures TornAcross(c, cut) ==> var ruined := Ruined(StructSubVals(c, off, n, above), lo, hi); ruined
    decreases c, 0, 2
  {
    AcrossIs(c, off, n, above);
    PartsTorn(c, cut, Size(c.members[cut.startE]) - cut.startOff, if cut.startOff == 0 then cut.startE else cut.startE + 1, above, lo, hi);
  }

  lemma {:induction false} PartsTorn(c: CutConst, cut: Cut, rest: nat, from: nat, above: nat, lo: nat, hi: nat)
    requires c.CStruct? && cut.startE <= cut.endE < |c.members| && cut.endOff <= Size(c.members[cut.endE]) && !(cut.startOff > 0 && cut.startE == cut.endE)
    requires rest > 0 && cut.startOff + rest == Size(c.members[cut.startE]) && from == if cut.startOff == 0 then cut.startE else cut.startE + 1
    requires lo == above + Offset(c, cut.startE) + cut.startOff && hi == above + Offset(c, cut.endE) + cut.endOff
    ensures var left, mid, right := StructLeft(c, cut.startE, cut.startOff, rest, above), WholeMembers(c, from, cut.endE, above), StructRight(c, cut.endE, cut.endOff, above);
            && (var fair := Fair(left + mid + right, lo, hi); fair)
            && (TornAcross(c, cut) ==> var ruined := Ruined(left + mid + right, lo, hi); ruined)
    decreases c, 0, 2, 0
  {
    PartsFair(c, cut, rest, from, above, lo, hi);
    var Cut(startE, startOff, endE, endOff) := cut;
    var x, z, y := if startOff == 0 then lo else lo + rest, above + Offset(c, from), above + Offset(c, endE);
    var left, mid, right := StructLeft(c, startE, startOff, rest, above), WholeMembers(c, from, endE, above), StructRight(c, endE, endOff, above);
    if startOff > 0 && !MemberNoTear(c, startE, startOff, rest) {
      LeftTorn(c, startE, startOff, rest, above, lo, x);
      ThreeParts(left, mid, right, lo, x, z, y, hi);
    } else if endOff > 0 && !MemberNoTear(c, endE, 0, endOff) {
      RightTorn(c, endE, endOff, above, y);
      ThreeParts(left, mid, right, lo, x, z, y, hi);
    } else if x < z {
      ThreeParts(left, mid, right, lo, x, z, y, hi);
    }
  }

  lemma {:induction false} PartsFair(c: CutConst, cut: Cut, rest: nat, from: nat, above: nat, lo: nat, hi: nat)
    requires c.CStruct? && cut.startE <= cut.endE < |c.members| && cut.endOff <= Size(c.members[cut.endE]) && !(cut.startOff > 0 && cut.startE == cut.endE)
    requires rest > 0 && cut.startOff + rest == Size(c.members[cut.startE]) && from == if cut.startOff == 0 then cut.startE else cut.startE + 1
    requires lo == above + Offset(c, cut.startE) + cut.startOff && hi == above + Offset(c, cut.endE) + cut.endOff
    ensures var left, mid, right := StructLeft(c, cut.startE, cut.startOff, rest, above), WholeMembers(c, from, cut.endE, above), StructRight(c, cut.endE, cut.endOff, above);
            var x, z, y := if cut.startOff == 0 then lo else lo + rest, above + Offset(c, from), above + Offset(c, cut.endE);
            && lo <= x <= z && (x < z <==> cut.startOff > 0 && PadBehind(c, cut.startE) > 0) && (left == [] ==> x == z)
            && (var fair := Fair(left, lo, x); fair) && (var fair := Fair(right, y, hi); fair) && (var tiles := Tiles(mid, z, y); tiles)
            && (var fair := Fair(left + mid + right, lo, hi); fair)
    decreases c, 0, 1, 1
  {
    var Cut(startE, startOff, endE, endOff) := cut;
    var x, z, y := if startOff == 0 then lo else lo + rest, above + Offset(c, from), above + Offset(c, endE);
    CuttableMember(c, startE);
    LeftTorn(c, startE, startOff, rest, above, lo, x);
    RightTorn(c, endE, endOff, above, y);
    WholeMembersTile(c, from, endE, above);
    ThreeParts(StructLeft(c, startE, startOff, rest, above), WholeMembers(c, from, endE, above), StructRight(c, endE, endOff, above), lo, x, z, y, hi);
  }

  /** A cut that is not clean: an unknown extent where an end cuts an unreadable leaf; in any case some
      extent is unknown or holds a constant of another size than its own, or the extents do not lie end
      to end over the range. */
  lemma BadCut(c: CutConst, off: nat, n: nat, above: nat)
    requires n > 0 && off + n <= Size(c) && !CleanCut(c, off, n)
    ensures Dirty(c, off, n) ==> AnySpoilt(ConstSubVals(c, off, n, above), false)
    ensures Ruined(ConstSubVals(c, off, n, above), above + off, above + off + n)
  {
    if Dirty(c, off, n) {
      DirtyCut(c, off, n, above);
    } else {
      TornCut(c, off, n, above, above + off, above + off + n);
    }
  }

  /** `d` has the bytes of `c` from `off` on, undef perhaps as 0. */
  ghost predicate SubOf(d: Const, c: Const, off: nat, n: nat)
  {
    && ValidConst(d) && Size(d) == n && (Cuttable(c) ==> Cuttable(d))
    && forall k: nat :: k < n ==> ResolvesAt(CellAt(d, k), CellAt(c, off + k))
  }

  /** A constant that `getSubConst` finds has the bytes of the range asked for, undef perhaps as 0,
      unless an array was torn. */
  lemma SubConstSound(c: Const, off: nat, n: nat)
    requires Untorn(c, off, n) && SubConst(c, off, n).Some?
    ensures var found := SubOf(SubConst(c, off, n).value, c, off, n); found
  {
    if off == 0 && n == Size(c) {
      assert PartVals(c, off, n, 0)[0] == Extent(0, n, ScalarOf(c));
    } else {
      CutConstSound(c, off, n, SubConst(c, off, n).value);
    }
  }

  lemma {:induction false} CutConstSound(c: CutConst, off: nat, n: nat, d: Const)
    requires n > 0 && off + n <= Size(c) && NoTear(c, off, n) && ValsToConst(ConstSubVals(c, off, n, 0)) == Some(d)
    ensures var found := SubOf(d, c, off, n); found
  {
    if Dirty(c, off, n) {
      DirtyCut(c, off, n, 0);
      assert false;
    }
    SubValsShow(c, off, n, 0, off, off + n);
    ShownConst(ConstSubVals(c, off, n, 0), c, off, n, d);
  }

  lemma {:induction false} ShownConst(pieces: Pieces, c: Const, off: nat, n: nat, d: Const)
    requires n > 0 && ValsToConst(pieces) == Some(d) && var shown := Shows(pieces, off, off + n, Image(c), 0); shown
    ensures var found := SubOf(d, c, off, n); found
  {
    ValsToConstSound(pieces, off, off + n, Image(c), d);
    ResolvesImage(c, off, n, d);
  }

  lemma ResolvesImage(c: Const, off: nat, n: nat, d: Const)
    requires off + n <= |Image(c)| && Resolves(d, Image(c), off, n)
    ensures forall k: nat :: k < n ==> ResolvesAt(CellAt(d, k), CellAt(c, off + k))
  {
    ImageIs(c);
    forall k: nat | k < n ensures ResolvesAt(CellAt(d, k), CellAt(c, off + k)) {
      assert ResolvesAt(CellAt(d, k), Image(c)[off + k]);
    }
  }

  /** `getConstSubVals` describes the range asked for, byte by byte, exactly when neither end cuts a leaf
      that cannot be read, no array is torn and no padding is cut or passed over. */
  lemma ShownIffClean(c: CutConst, off: nat, n: nat, above: nat)
    requires n > 0 && off + n <= Size(c)
    ensures Shows(ConstSubVals(c, off, n, above), above + off, above + off + n, Image(c), above) <==> CleanCut(c, off, n)
  {
    var pieces := ConstSubVals(c, off, n, above);
    if CleanCut(c, off, n) {
      SubValsShow(c, off, n, above, above + off, above + off + n);
    } else {
      BadCut(c, off, n, above);
      if torn, i :| 0 <= i < |pieces| && Spoilt(pieces[i], torn) {
        SpoiltNotFaithful(pieces[i], torn, Image(c), above);
        assert pieces[i] in pieces;
      }
    }
  }

  lemma SpoiltNotFaithful(e: Extent<Val>, torn: bool, cells: seq<Cell>, above: int)
    requires Spoilt(e, torn)
    ensures !Faithful(e, cells, above)
  {
    if torn && e.start <= e.stop {
      assert e.val.items[0] in e.val.items && !ItemFits(KScalar, e.val.items[0], e.stop - e.start);
    }
  }

  /** A 16-bit and a 32-bit integer, with two bytes of padding between them. */
  const GAPPED: Ty := StructTy([IntTy(16, 2), IntTy(32, 4)], [0, 4], 8)

  function Gapped(x: nat, y: nat): Const
  {
    CStruct(GAPPED, [CInt(16, 2, x), CInt(32, 4, y)])
  }

  lemma GappedValid()
    ensures ValidTy(GAPPED) && ValidTy(IntTy(16, 2)) && ValidTy(IntTy(32, 4))
  {
    var fields, offsets := GAPPED.fields, GAPPED.offsets;
    assert ValidTy(IntTy(16, 2)) && ValidTy(IntTy(32, 4)) && fields[0] == IntTy(16, 2) && fields[1] == IntTy(32, 4);
    assert EndsBy(fields, offsets, 0, offsets[1]) && EndsBy(fields, offsets, 0, 8) && EndsBy(fields, offsets, 1, 8);
    assert ValidOffsets(fields, offsets, 8);
  }

  lemma GappedCuttable(x: nat, y: nat)
    ensures Cuttable(Gapped(x, y)) && Size(Gapped(x, y)) == 8
  {
    var g := Gapped(x, y);
    GappedValid();
    assert g.members[0] == CInt(16, 2, x) && g.members[1] == CInt(32, 4, y);
    assert ValidConst(g.members[0]) && ValidConst(g.members[1]) && Laid(g.members[0]) && Laid(g.members[1]);
  }

  /** All of it but the first byte: the padding is left out. */
  lemma PaddingSkipped(x: nat, y: nat)
    ensures var c := Gapped(x, y);
            && Cuttable(c) && Size(c) == 8
            && ConstSubVals(c, 1, 7, 0) == [Extent(1, 2, ScalarOf(FromBytes(BytesFrom(CInt(16, 2, x), 1, 1)))), Extent(4, 8, ScalarOf(CInt(32, 4, y)))]
            && !Tiles(ConstSubVals(c, 1, 7, 0), 1, 8)
  {
    var c := Gapped(x, y);
    GappedCuttable(x, y);
    assert StructCut(c, 1, 7) == Cut(0, 1, 1, 4) && EndsInMembers(c, 1, 7);
    AcrossIs(c, 1, 7, 0);
    var left, right := Extent(1, 2, ScalarOf(FromBytes(BytesFrom(CInt(16, 2, x), 1, 1)))), Extent(4, 8, ScalarOf(CInt(32, 4, y)));
    GappedParts(x, y, left, right);
    assert ConstSubVals(c, 1, 7, 0) == StructSubVals(c, 1, 7, 0) == [left] + [] + [right];
    assert [left] + [] + [right] == [left, right];
    NotTiled(left, right, 1, 8);
  }

  lemma NotTiled(l: Extent<Val>, r: Extent<Val>, lo: nat, hi: nat)
    requires l.stop != r.start
    ensures !Tiles([l, r], lo, hi)
  {
    assert [l, r][1..] == [r] && [l, r][1..][0] == r;
  }

  lemma GappedParts(x: nat, y: nat, left: Extent<Val>, right: Extent<Val>)
    requires Cuttable(Gapped(x, y)) && left == Extent(1, 2, ScalarOf(FromBytes(BytesFrom(CInt(16, 2, x), 1, 1)))) && right == Extent(4, 8, ScalarOf(CInt(32, 4, y)))
    ensures StructLeft(Gapped(x, y), 0, 1, 1, 0) == [left] && WholeMembers(Gapped(x, y), 1, 1, 0) == [] && StructRight(Gapped(x, y), 1, 4, 0) == [right]
  {
    assert Gapped(x, y).members[0] == CInt(16, 2, x) && Gapped(x, y).members[1] == CInt(32, 4, y);
  }

  lemma PastGapped(x: nat, y: nat, one: Extent<Val>, two: Extent<Val>)
    requires Cuttable(Gapped(x, y)) && one == Extent(0, 2, ScalarOf(CInt(16, 2, x))) && two == Extent(2, 1, OVERDEF)
    ensures Size(Gapped(x, y).members[0]) == 2 && PastMember(Gapped(x, y), 0, 0, 3, 0) == [one, two]
    ensures StructLeft(Gapped(x, y), 0, 0, 2, 0) == [] && WholeMembers(Gapped(x, y), 0, 0, 0) == []
  {
    assert Gapped(x, y).members[0] == CInt(16, 2, x);
    assert ConstSubVals(CInt(16, 2, x), 0, 2, 0) == [one];
    assert [one] + [two] == [one, two];
  }

  /** Its first three bytes: the end lies in the padding, and an unknown extent ends before it starts. */
  lemma PaddingCut(x: nat, y: nat)
    ensures var c := Gapped(x, y);
            && Cuttable(c) && Size(c) == 8 && ConstSubVals(c, 0, 3, 0) == [Extent(0, 2, ScalarOf(CInt(16, 2, x))), Extent(2, 1, OVERDEF)]
  {
    var c := Gapped(x, y);
    GappedCuttable(x, y);
    assert StructCut(c, 0, 3) == Cut(0, 0, 0, 3) && !EndsInMembers(c, 0, 3);
    StructCutEnds(c, 0, 3);
    var one, two := Extent(0, 2, ScalarOf(CInt(16, 2, x))), Extent(2, 1, OVERDEF);
    PastGapped(x, y, one, two);
    assert StructSubVals(c, 0, 3, 0) == PaddingSubVals(c, 0, 3, 0);
    assert PaddingSubVals(c, 0, 3, 0) == [] + [] + [one, two];
    assert ConstSubVals(c, 0, 3, 0) == StructSubVals(c, 0, 3, 0);
  }

  const PAIR: Ty := StructTy([IntTy(32, 4), IntTy(32, 4)], [0, 4], 8)

  function Pair(x: nat, y: nat): Const
  {
    CStruct(PAIR, [CInt(32, 4, x), CInt(32, 4, y)])
  }

  lemma PairCuttable(x: nat, y: nat)
    ensures Cuttable(Pair(x, y)) && Size(Pair(x, y)) == 8
  {
    var p := Pair(x, y);
    assert ValidTy(IntTy(32, 4)) && StoreSize(IntTy(32, 4)) == 4;
    assert p.members[0] == CInt(32, 4, x) && p.members[1] == CInt(32, 4, y);
    assert PAIR.fields[0] == PAIR.fields[1] == IntTy(32, 4) && ValidOffsets(PAIR.fields, PAIR.offsets, PAIR.size);
    assert ValidTy(PAIR) && Laid(p.members[0]) && Laid(p.members[1]);
  }

  function Pairs(a: nat, b: nat, c: nat): Const
  {
    CArray(PAIR, [Pair(a, a), Pair(b, b), Pair(c, c)])
  }

  lemma PairsCuttable(a: nat, b: nat, c: nat)
    ensures Cuttable(Pairs(a, b, c)) && Size(Pairs(a, b, c)) == 24
  {
    PairCuttable(a, a);
    PairCuttable(b, b);
    PairCuttable(c, c);
  }

  /** The first `k` elements of an array, cut off between elements. */
  lemma FrontPieces(c: CutConst, k: nat, n: nat)
    requires c.CArray? && 0 < k < |c.elems| && n == Place(c, k)
    ensures 0 < n < Size(c) && ArrayCut(0, n, AllocSize(c.elemTy)) == Cut(0, 0, k, 0)
    ensures ConstSubVals(c, 0, n, 0) == WholeElements(c, 0, k, 0) && (NoTear(c, 0, n) <==> Runs(c, 0, k))
  {
    var esize := AllocSize(c.elemTy);
    CuttableElement(c, 0);
    PlaceIs(c, k);
    MulMonotone(1, k, esize);
    ShorterRun(k, |c.elems|, esize);
    R.DivMod2(n, k, esize, 0);
    assert 0 / esize == 0 && 0 % esize == 0;
    EvenPieces(c, 0, k, n, 0);
  }

  /** A cut between elements takes whole elements only. */
  lemma EvenPieces(c: CutConst, from: nat, to: nat, n: nat, above: nat)
    requires InArray(c, Cut(from, 0, to, 0), n)
    ensures ArrayPieces(c, Cut(from, 0, to, 0), n, above) == WholeElements(c, from, to, above)
  {
  }

  /** Three pairs of 32-bit integers, and what is kept of them when the last pair is overwritten: a
      constant of two pairs that has the type, and so the size, of three. */
  lemma TornPairs(a: nat, b: nat, c: nat)
    ensures Cuttable(Pairs(a, b, c)) && Size(Pairs(a, b, c)) == 24 && !NoTear(Pairs(a, b, c), 0, 16)
    ensures ConstSubVals(Pairs(a, b, c), 0, 16, 0) == [Extent(0, 16, ScalarOf(CTorn(ArrayTy(PAIR, 3), [Pair(a, a), Pair(b, b)])))]
    ensures !Fits(ScalarOf(CTorn(ArrayTy(PAIR, 3), [Pair(a, a), Pair(b, b)])), 16)
  {
    PairsCuttable(a, b, c);
    PairsMade(a, b, c);
    PlaceIs(Pairs(a, b, c), 2);
    PlaceIs(Pairs(a, b, c), 0);
    FrontPieces(Pairs(a, b, c), 2, 16);
    var torn := CTorn(ArrayTy(PAIR, 3), [Pair(a, a), Pair(b, b)]);
    assert ScalarOf(torn).items[0] == Item(K(torn), None) && !ItemFits(KScalar, Item(K(torn), None), 16);
  }

  lemma PairsMade(a: nat, b: nat, c: nat)
    ensures var kept := Pairs(a, b, c).elems[0..2];
            kept == [Pair(a, a), Pair(b, b)] && !DataRun(kept) && MakeArray(ArrayTy(PAIR, 3), kept) == CTorn(ArrayTy(PAIR, 3), kept)
  {
    var kept := Pairs(a, b, c).elems[0..2];
    assert kept[0] == Pair(a, a) && !DataInt(kept[0]);
  }

  /** The extent reported for an unreadable leaf is misplaced: it gives a size where an end belongs and
      ignores where the leaf lies. A function's address at byte 16, cut in half, shows it. */
  lemma MisplacedFallback()
    ensures var c := CAddr(7, true);
            && Cuttable(c) && Size(c) == 8 && !CleanAt(c, 4)
            && ConstSubVals(c, 4, 4, 16) == [Extent(4, 4, OVERDEF)]
            && !Tiles(ConstSubVals(c, 4, 4, 16), 20, 24)
  {
    var c := CAddr(7, true);
    assert R.Refused(c, 4);
    assert ConstSubVals(c, 4, 4, 16)[0].start == 4;
  }

  // ----- parts of values

  /** Every constant of the items has `len` bytes, and can be cut unless it is to be taken whole. */
  predicate Consts(items: seq<Item>, len: nat, whole: bool)
  {
    forall x {:trigger ConstItem(x, len, whole)} :: x in items ==> ConstItem(x, len, whole)
  }

  predicate ConstItem(x: Item, len: nat, whole: bool)
  {
    x.v.K? && ValidConst(x.v.c) && Size(x.v.c) == len && (whole || Laid(x.v.c))
  }

  /** Bytes off..off + n of a value of `len` bytes may be asked for here. */
  predicate CanTake(v: Val, len: nat, off: nat, n: nat)
  {
    n > 0 && off + n <= len && Fits(v, len) && (Tidy(v) || (off == 0 && n == len))
  }

  lemma ScalarConsts(v: Val, len: nat, off: nat, n: nat)
    requires CanTake(v, len, off, n) && v.kind == KScalar
    ensures Consts(v.items, len, off == 0 && n == len) && (|v.items| == 1 ==> ConstItem(v.items[0], len, off == 0 && n == len))
  {
    forall x | x in v.items ensures ConstItem(x, len, off == 0 && n == len) {
      assert ItemFits(KScalar, x, len);
      assert Tidy(v) ==> CanCut(x);
    }
  }

  lemma LastConst(items: seq<Item>, len: nat, whole: bool)
    requires Consts(items, len, whole) && items != []
    ensures ConstItem(items[|items| - 1], len, whole) && Consts(items[..|items| - 1], len, whole)
  {
    assert items[|items| - 1] in items;
  }

  predicate UntornItems(items: seq<Item>, off: nat, n: nat)
  {
    forall x {:trigger UntornItem(x, off, n)} :: x in items ==> UntornItem(x, off, n)
  }

  predicate UntornItem(x: Item, off: nat, n: nat)
  {
    x.v.K? && Untorn(x.v.c, off, n)
  }

  lemma LastUntorn(items: seq<Item>, off: nat, n: nat)
    requires UntornItems(items, off, n) && items != []
    ensures UntornItem(items[|items| - 1], off, n) && UntornItems(items[..|items| - 1], off, n)
  {
    assert items[|items| - 1] in items;
  }

  /** The sub-constants of several constants, merged; unknown as soon as one has none. */
  function MergeSubs(items: seq<Item>, len: nat, off: nat, n: nat): Val
    requires Consts(items, len, off == 0 && n == len) && n > 0 && off + n <= len
  {
    if items == [] then Val(KUnknown, [], false)
    else
      LastConst(items, len, off == 0 && n == len);
      var last := items[|items| - 1];
      var r, d := MergeSubs(items[..|items| - 1], len, off, n), SubConst(last.v.c, off, n);
      if r.overdef then r
      else if d.None? then r.SetOverdef()
      else Merge(r, ValueOf(d.value))
  }

  /** `getIVSSubVals`: bytes off..off + n of a value as extents, each `above` higher. */
  function IvsSubVals(v: Val, len: nat, off: nat, n: nat, above: nat): Pieces
    requires var ready := CanTake(v, len, off, n); ready
  {
    if v.WhollyUnknown() || v.kind == KSplat || v.kind == KVarArg then [Extent(above + off, above + off + n, v)]
    else if v.kind == KScalar then
      ScalarConsts(v, len, off, n);
      if |v.items| == 1 then PartVals(v.items[0].v.c, off, n, above)
      else [Extent(above + off, above + off + n, MergeSubs(v.items, len, off, n))]
    else [Extent(above + off, above + off + n, if off == 0 && n == len then v else OVERDEF)]
  }

  /** `getIVSSubVal`: the part as one value, unknown if it takes several. */
  function IvsSubVal(v: Val, len: nat, off: nat, n: nat): Val
    requires var ready := CanTake(v, len, off, n); ready
  {
    var pieces := IvsSubVals(v, len, off, n, 0);
    if |pieces| == 1 then pieces[0].val else OVERDEF
  }

  // ----- parts stand for the whole

  /** Both values hold the same at the bytes the extent shares with `v`, or the extent allows more. */
  ghost predicate Stands(e: Extent<Val>, v: Val, start: int, exact: bool)
  {
    && start <= e.start < e.stop && Fits(e.val, e.stop - e.start)
    && forall k: nat :: k < e.stop - e.start ==> StandsAt(ByteAt(e.val, k), ByteAt(v, e.start - start + k), exact)
  }

  ghost predicate StandsAt(now: Abs, was: Abs, exact: bool)
  {
    Covers(now, was) && Stems(now, was) && (exact ==> now == was)
  }

  lemma StandsSelf(a: Abs)
    ensures var stands := StandsAt(a, a, true); stands
  {
    CoversRefl(a);
    StemsRefl(a);
  }

  ghost predicate Keeps(pieces: Pieces, lo: nat, hi: nat, v: Val, start: int, exact: bool)
  {
    Tiles(pieces, lo, hi) && forall e {:trigger Stands(e, v, start, exact)} :: e in pieces ==> Stands(e, v, start, exact)
  }

  lemma StandsIntro(w: Val, lo: nat, hi: nat, v: Val, start: int, off: nat, exact: bool)
    requires lo == start + off && lo < hi && Fits(w, hi - lo)
    requires forall k: nat :: k < hi - lo ==> StandsAt(ByteAt(w, k), ByteAt(v, off + k), exact)
    ensures Stands(Extent(lo, hi, w), v, start, exact)
  {
    forall k: nat | k < hi - lo ensures StandsAt(ByteAt(w, k), ByteAt(v, lo - start + k), exact) {
      assert lo - start + k == off + k;
    }
  }

  lemma KeepsOne(e: Extent<Val>, v: Val, start: int, exact: bool)
    requires var stands := Stands(e, v, start, exact); stands
    ensures var keeps := Keeps([e], e.start, e.stop, v, start, exact); keeps
  {
    TilesOne(e);
  }

  lemma UnknownStands(lo: nat, hi: nat, v: Val, start: int)
    requires start <= lo < hi
    ensures Stands(Extent(lo, hi, OVERDEF), v, start, false)
  {
  }

  /** The item's pattern comes from the value the merge was made of. */
  lemma ValueCovers(d: Const, k: nat, p: Pattern, cell: Cell)
    requires ValidConst(d) && k < Size(d) && ResolvesAt(CellAt(d, k), cell) && p == OfCell(cell)
    ensures Covers(ByteAt(ValueOf(d), k), OneOf({p}))
  {
    ValueByte(d, k);
    assert PatternLeq(p, OfCell(CellAt(d, k)));
    assert OfCell(CellAt(d, k)) in ByteAt(ValueOf(d), k).ps;
  }

  lemma ValueOfFits(d: Const, n: nat)
    requires ValidConst(d) && Size(d) == n > 0
    ensures Fits(ValueOf(d), n) && Constant(ValueOf(d))
  {
    ValueByte(d, 0);
  }

  /** Merging into nothing gives the value itself. */
  lemma MergeFirst(b: Val)
    requires Constant(b)
    ensures Merge(Val(KUnknown, [], false), b).kind == b.kind && Merge(Val(KUnknown, [], false), b).items == b.items
    ensures !Merge(Val(KUnknown, [], false), b).overdef
  {
    assert b.items[..0] == [] && b.items == [b.items[0]];
    assert InsertAll(Val(b.kind, [], false), b.items) == Insert(InsertAll(Val(b.kind, [], false), []), b.items[0]);
  }

  /** What merged sub-constants are: a value for `n` bytes, once there is at least one. */
  lemma {:induction false} MergeSubsFits(items: seq<Item>, len: nat, off: nat, n: nat)
    requires Consts(items, len, off == 0 && n == len) && n > 0 && off + n <= len && UntornItems(items, off, n)
    ensures var r := MergeSubs(items, len, off, n);
            if items == [] then r == Val(KUnknown, [], false) else Fits(r, n)
  {
    if items != [] {
      var rest, last := items[..|items| - 1], items[|items| - 1];
      LastConst(items, len, off == 0 && n == len);
      LastUntorn(items, off, n);
      MergeSubsFits(rest, len, off, n);
      var r, d := MergeSubs(rest, len, off, n), SubConst(last.v.c, off, n);
      if !r.overdef && d.Some? {
        SubConstSound(last.v.c, off, n);
        ValueOfFits(d.value, n);
        if rest == [] {
          MergeFirst(ValueOf(d.value));
        } else {
          MergeFits(r, ValueOf(d.value), n);
        }
      }
    }
  }

  /** Merged sub-constants cover each constant they were made of. */
  lemma {:induction false} MergeSubsCovers(items: seq<Item>, len: nat, off: nat, n: nat, i: nat, k: nat)
    requires Consts(items, len, off == 0 && n == len) && n > 0 && off + n <= len && UntornItems(items, off, n) && i < |items| && k < n
    ensures Covers(ByteAt(MergeSubs(items, len, off, n), k), OneOf({PatternAt(KScalar, items[i], off + k)}))
  {
    var rest, last := items[..|items| - 1], items[|items| - 1];
    LastConst(items, len, off == 0 && n == len);
    LastUntorn(items, off, n);
    var r, d := MergeSubs(rest, len, off, n), SubConst(last.v.c, off, n);
    var p := PatternAt(KScalar, items[i], off + k);
    if !r.overdef && d.Some? {
      MergeSubsFits(rest, len, off, n);
      SubConstSound(last.v.c, off, n);
      ValueOfFits(d.value, n);
      if i == |rest| {
        ValueCovers(d.value, k, p, CellAt(last.v.c, off + k));
      } else {
        MergeSubsCovers(rest, len, off, n, i, k);
      }
      MergedCovers(r, ValueOf(d.value), n, k, p, rest == [], i == |rest|);
    }
  }

  /** Merging one more value covers what either covered. */
  lemma MergedCovers(r: Val, b: Val, n: nat, k: nat, p: Pattern, first: bool, last: bool)
    requires Fits(b, n) && Constant(b) && (if first then r == Val(KUnknown, [], false) && last else Fits(r, n))
    requires if last then Covers(ByteAt(b, k), OneOf({p})) else Covers(ByteAt(r, k), OneOf({p}))
    ensures Covers(ByteAt(Merge(r, b), k), OneOf({p}))
  {
    if first {
      MergeFirst(b);
    } else {
      MergeCovers(r, b, k);
      if last {
        CoversTrans(ByteAt(Merge(r, b), k), ByteAt(b, k), OneOf({p}));
      } else {
        CoversTrans(ByteAt(Merge(r, b), k), ByteAt(r, k), OneOf({p}));
      }
    }
  }

  /** What merged sub-constants allow comes from the constants they were made of. */
  lemma {:induction false} MergeSubsStems(items: seq<Item>, len: nat, off: nat, n: nat, k: nat, was: Abs)
    requires Consts(items, len, off == 0 && n == len) && n > 0 && off + n <= len && UntornItems(items, off, n) && items != [] && k < n
    requires was.OneOf? && forall i :: 0 <= i < |items| ==> PatternAt(KScalar, items[i], off + k) in was.ps
    ensures var stems := Stems(ByteAt(MergeSubs(items, len, off, n), k), was); stems
  {
    var rest, last := items[..|items| - 1], items[|items| - 1];
    LastConst(items, len, off == 0 && n == len);
    LastUntorn(items, off, n);
    var r, d := MergeSubs(rest, len, off, n), SubConst(last.v.c, off, n);
    if !r.overdef && d.Some? {
      MergeSubsFits(rest, len, off, n);
      SubStems(last, len, off, n, k, was);
      if rest != [] {
        MergeSubsStems(rest, len, off, n, k, was);
      }
      MergedStems(r, ValueOf(d.value), n, k, was, rest == []);
    }
  }

  lemma {:induction false} SubStems(x: Item, len: nat, off: nat, n: nat, k: nat, was: Abs)
    requires ConstItem(x, len, off == 0 && n == len) && n > 0 && off + n <= len && UntornItem(x, off, n) && k < n && SubConst(x.v.c, off, n).Some?
    requires was.OneOf? && PatternAt(KScalar, x, off + k) in was.ps
    ensures var d := ValueOf(SubConst(x.v.c, off, n).value); Fits(d, n) && Constant(d) && var stems := Stems(ByteAt(d, k), was); stems
  {
    SubConstSound(x.v.c, off, n);
    ValueOfFits(SubConst(x.v.c, off, n).value, n);
    ValueStems(SubConst(x.v.c, off, n).value, k, CellAt(x.v.c, off + k), was);
  }

  /** One more value merged, which stems from the same. */
  lemma {:induction false} MergedStems(r: Val, b: Val, n: nat, k: nat, was: Abs, first: bool)
    requires Fits(b, n) && (if first then r == Val(KUnknown, [], false) && Constant(b) else Fits(r, n))
    requires var stems := Stems(ByteAt(b, k), was); stems
    requires !first ==> var stems := Stems(ByteAt(r, k), was); stems
    ensures var stems := Stems(ByteAt(Merge(r, b), k), was); stems
  {
    if first {
      MergeFirst(b);
    } else {
      MergeBytes(r, b, k);
      StemsEither(ByteAt(Merge(r, b), k), ByteAt(r, k), ByteAt(b, k), was);
    }
  }

  lemma {:induction false} ValueStems(d: Const, k: nat, cell: Cell, was: Abs)
    requires ValidConst(d) && k < Size(d) && ResolvesAt(CellAt(d, k), cell) && was.OneOf? && OfCell(cell) in was.ps
    ensures var stems := Stems(ByteAt(ValueOf(d), k), was); stems
  {
    ValueByte(d, k);
    assert FromOne(OfCell(CellAt(d, k)), was.ps);
  }

  /** The value covers, at byte `k`, each constant at byte off + k. */
  ghost predicate CoversEach(r: Val, items: seq<Item>, off: nat, k: nat)
  {
    forall i :: 0 <= i < |items| ==> Covers(ByteAt(r, k), OneOf({PatternAt(KScalar, items[i], off + k)}))
  }

  lemma MergeSubsEach(items: seq<Item>, len: nat, off: nat, n: nat, k: nat)
    requires Consts(items, len, off == 0 && n == len) && n > 0 && off + n <= len && UntornItems(items, off, n) && k < n
    ensures var covers := CoversEach(MergeSubs(items, len, off, n), items, off, k); covers
  {
    forall i | 0 <= i < |items|
      ensures var covers := Covers(ByteAt(MergeSubs(items, len, off, n), k), OneOf({PatternAt(KScalar, items[i], off + k)})); covers
    {
      MergeSubsCovers(items, len, off, n, i, k);
    }
  }

  /** To cover a set of constants it is enough to cover each. */
  lemma EachCovers(r: Val, v: Val, off: nat, k: nat)
    requires !v.WhollyUnknown() && v.kind == KScalar && CoversEach(r, v.items, off, k)
    ensures Covers(ByteAt(r, k), ByteAt(v, off + k))
  {
    CoversItems(ByteAt(r, k), v, off + k);
  }

  lemma EachStands(r: Val, v: Val, off: nat, n: nat, above: nat)
    requires n > 0 && Fits(r, n) && !v.WhollyUnknown() && v.kind == KScalar && forall k: nat :: k < n ==> CoversEach(r, v.items, off, k)
    requires forall k: nat :: k < n ==> Stems(ByteAt(r, k), ByteAt(v, off + k))
    ensures var stands := Stands(Extent(above + off, above + off + n, r), v, above, false); stands
  {
    forall k: nat | k < n ensures StandsAt(ByteAt(r, k), ByteAt(v, off + k), false) {
      EachCovers(r, v, off, k);
    }
    StandsIntro(r, above + off, above + off + n, v, above, off, false);
  }

  lemma ItemPatterns(v: Val, k: nat)
    requires !v.WhollyUnknown()
    ensures forall i :: 0 <= i < |v.items| ==> PatternAt(v.kind, v.items[i], k) in ByteAt(v, k).ps
  {
    forall i | 0 <= i < |v.items| ensures PatternAt(v.kind, v.items[i], k) in ByteAt(v, k).ps {
      PatternIn(v, v.items[i], k);
    }
  }

  lemma MergeSubsStands(v: Val, len: nat, off: nat, n: nat, above: nat)
    requires Consts(v.items, len, off == 0 && n == len) && n > 0 && off + n <= len && UntornItems(v.items, off, n)
    requires !v.WhollyUnknown() && v.kind == KScalar
    ensures var stands := Stands(Extent(above + off, above + off + n, MergeSubs(v.items, len, off, n)), v, above, false); stands
  {
    MergeSubsFits(v.items, len, off, n);
    forall k: nat | k < n ensures CoversEach(MergeSubs(v.items, len, off, n), v.items, off, k) {
      MergeSubsEach(v.items, len, off, n, k);
    }
    forall k: nat | k < n ensures Stems(ByteAt(MergeSubs(v.items, len, off, n), k), ByteAt(v, off + k)) {
      ItemPatterns(v, off + k);
      MergeSubsStems(v.items, len, off, n, k, ByteAt(v, off + k));
    }
    EachStands(MergeSubs(v.items, len, off, n), v, off, n, above);
  }

  /** The value is taken whole; or its constants can be cut, one alone cleanly, several without tearing
      an array. Other values are not cut into several extents. */
  predicate CleanPart(v: Val, len: nat, off: nat, n: nat)
  {
    || (off == 0 && n == len)
    || (Tidy(v) && (v.kind == KScalar ==> if |v.items| == 1 then CleanItem(v.items[0], off, n) else UntornItems(v.items, off, n)))
  }

  predicate CleanItem(x: Item, off: nat, n: nat)
  {
    x.v.K? && CleanCut(x.v.c, off, n)
  }

  /** No array of the value is torn. */
  predicate NoTears(v: Val, len: nat, off: nat, n: nat)
  {
    (off == 0 && n == len) || (v.kind == KScalar ==> UntornItems(v.items, off, n))
  }

  lemma WholeUntorn(v: Val, len: nat)
    requires CanTake(v, len, 0, len) && v.kind == KScalar
    ensures UntornItems(v.items, 0, len)
  {
    forall x | x in v.items ensures UntornItem(x, 0, len) {
      assert ItemFits(KScalar, x, len);
    }
  }

  /** Parts of the value that lose nothing. */
  predicate LosesNothing(v: Val, len: nat, off: nat, n: nat)
  {
    v.WhollyUnknown() || v.kind == KSplat || v.kind == KVarArg || (v.kind == KScalar && |v.items| == 1)
    || (v.kind != KScalar && off == 0 && n == len)
  }

  /** What one faithful piece of a constant says stands for what the value says. */
  lemma FaithfulStands(e: Extent<Val>, c: Const, v: Val, above: nat)
    requires Faithful(e, Image(c), above) && v.kind == KScalar && !v.overdef && |v.items| == 1 && v.items[0].v == K(c)
    ensures Stands(e, v, above, true)
  {
    forall k: nat | k < e.stop - e.start ensures StandsAt(ByteAt(e.val, k), ByteAt(v, e.start - above + k), true) {
      FaithfulByte(e, c, v, above, k);
    }
  }

  lemma FaithfulByte(e: Extent<Val>, c: Const, v: Val, above: nat, k: nat)
    requires Faithful(e, Image(c), above) && v.kind == KScalar && !v.overdef && |v.items| == 1 && v.items[0].v == K(c)
    requires k < e.stop - e.start
    ensures ByteAt(e.val, k) == ByteAt(v, e.start - above + k)
  {
    var j := e.start - above + k;
    ImageIs(c);
    SingleByte(v, c, j);
    assert ByteAt(e.val, k) == OneOf({OfCell(Image(c)[j])});
  }

  lemma SingleByte(v: Val, c: Const, j: nat)
    requires v.kind == KScalar && !v.overdef && |v.items| == 1 && v.items[0].v == K(c)
    ensures ByteAt(v, j) == ConstByte(c, j)
  {
    assert v.items[0] in v.items && v.items == [v.items[0]];
    PatternIn(v, v.items[0], j);
  }

  lemma {:induction false} ConstKeeps(v: Val, c: CutConst, off: nat, n: nat, above: nat)
    requires v.kind == KScalar && !v.overdef && |v.items| == 1 && v.items[0].v == K(c)
    requires CleanCut(c, off, n)
    ensures var keeps := Keeps(ConstSubVals(c, off, n, above), above + off, above + off + n, v, above, true); keeps
  {
    SubValsShow(c, off, n, above, above + off, above + off + n);
    forall e | e in ConstSubVals(c, off, n, above) ensures Stands(e, v, above, true) {
      FaithfulStands(e, c, v, above);
    }
  }

  /** A constant taken whole. */
  lemma WholeConstKeeps(v: Val, c: Const, above: nat)
    requires v.kind == KScalar && !v.overdef && |v.items| == 1 && v.items[0].v == K(c) && ValidConst(c) && Size(c) > 0
    ensures Keeps([Extent(above, above + Size(c), ScalarOf(c))], above, above + Size(c), v, above, true)
  {
    var n, w := Size(c), ScalarOf(c);
    assert ItemFits(KScalar, Item(K(c), None), n);
    forall k: nat | k < n ensures StandsAt(ByteAt(w, k), ByteAt(v, 0 + k), true) {
      ScalarByte(c, k);
      SingleByte(v, c, k);
    }
    StandsIntro(w, above, above + n, v, above, 0, true);
    KeepsOne(Extent(above, above + n, w), v, above, true);
  }

  /** A value that is the same at every byte stands for any part of itself. */
  lemma UniformStands(v: Val, len: nat, off: nat, n: nat, above: nat)
    requires Fits(v, len) && n > 0 && (v.WhollyUnknown() || v.kind == KSplat || v.kind == KVarArg)
    ensures Stands(Extent(above + off, above + off + n, v), v, above, true)
  {
    assert Fits(v, n) by {
      forall x | x in v.items ensures ItemFits(v.kind, x, n) {
        assert ItemFits(v.kind, x, len);
      }
    }
    forall k: nat | k < n ensures StandsAt(ByteAt(v, k), ByteAt(v, off + k), true) {
      UniformByte(v, len, k, off + k);
    }
    StandsIntro(v, above + off, above + off + n, v, above, off, true);
  }

  lemma UniformByte(v: Val, len: nat, j: nat, k: nat)
    requires Fits(v, len) && (v.WhollyUnknown() || v.kind == KSplat || v.kind == KVarArg)
    ensures ByteAt(v, j) == ByteAt(v, k)
  {
    if !v.WhollyUnknown() {
      forall x | x in v.items ensures PatternAt(v.kind, x, j) == PatternAt(v.kind, x, k) {
        assert ItemFits(v.kind, x, len);
      }
      assert ByteAt(v, j).ps == ByteAt(v, k).ps;
    }
  }

  /** `getIVSSubVals` lays extents end to end over the range asked for, each allowing at every byte
      what the value allowed there, and exactly that unless a pointer or descriptor was cut or a set
      of constants had to be cut one by one. */
  lemma SubValsKeep(v: Val, len: nat, off: nat, n: nat, above: nat)
    requires (var ready := CanTake(v, len, off, n); ready) && CleanPart(v, len, off, n)
    ensures var keeps := Keeps(IvsSubVals(v, len, off, n, above), above + off, above + off + n, v, above, LosesNothing(v, len, off, n));
            keeps
  {
    if v.kind == KScalar && |v.items| == 1 {
      ScalarConsts(v, len, off, n);
      if off == 0 && n == len {
        WholeConstKeeps(v, v.items[0].v.c, above);
      } else {
        ConstKeeps(v, v.items[0].v.c, off, n, above);
      }
    } else {
      var e := IvsSubVals(v, len, off, n, above)[0];
      OnePart(v, len, off, n, above);
      KeepsOne(e, v, above, LosesNothing(v, len, off, n));
    }
  }

  lemma WholeStands(v: Val, lo: nat, hi: nat)
    requires lo < hi && Fits(v, hi - lo)
    ensures var stands := Stands(Extent(lo, hi, v), v, lo, true); stands
  {
    forall k: nat | k < hi - lo ensures StandsAt(ByteAt(v, k), ByteAt(v, 0 + k), true) {
      StandsSelf(ByteAt(v, k));
    }
    StandsIntro(v, lo, hi, v, lo, 0, true);
  }

  lemma OnePart(v: Val, len: nat, off: nat, n: nat, above: nat)
    requires (var ready := CanTake(v, len, off, n); ready) && CleanPart(v, len, off, n) && !(v.kind == KScalar && |v.items| == 1)
    ensures var e := IvsSubVals(v, len, off, n, above)[0];
            e.start == above + off && e.stop == above + off + n && var stands := Stands(e, v, above, LosesNothing(v, len, off, n)); stands
  {
    if v.WhollyUnknown() || v.kind == KSplat || v.kind == KVarArg {
      UniformStands(v, len, off, n, above);
    } else if v.kind == KScalar {
      ScalarConsts(v, len, off, n);
      if off == 0 && n == len {
        WholeUntorn(v, len);
      }
      MergeSubsStands(v, len, off, n, above);
    } else if off == 0 && n == len {
      WholeStands(v, above, above + n);
    } else {
      UnknownStands(above + off, above + off + n, v, above);
    }
  }

  /** `w` can stand for bytes off..off + n of `v`. */
  ghost predicate StandsPart(w: Val, v: Val, off: nat, n: nat)
  {
    Fits(w, n) && forall k: nat :: k < n ==> StandsAt(ByteAt(w, k), ByteAt(v, off + k), false)
  }

  lemma StandsCovers(w: Val, v: Val, off: nat, n: nat, exact: bool)
    requires n > 0 && var stands := Stands(Extent(off, off + n, w), v, 0, exact); stands
    ensures var covers := StandsPart(w, v, off, n); covers
  {
    forall k: nat | k < n ensures StandsAt(ByteAt(w, k), ByteAt(v, off + k), false) {
      assert StandsAt(ByteAt(w, k), ByteAt(v, off - 0 + k), exact);
    }
  }

  lemma KeepsAlone(pieces: Pieces, off: nat, n: nat, v: Val, exact: bool)
    requires |pieces| == 1 && n > 0 && var keeps := Keeps(pieces, off, off + n, v, 0, exact); keeps
    ensures var covers := StandsPart(pieces[0].val, v, off, n); covers
  {
    TilesSorted(pieces, off, off + n);
    assert Stands(pieces[0], v, 0, exact) && pieces[0] == Extent(off, off + n, pieces[0].val);
    StandsCovers(pieces[0].val, v, off, n, exact);
  }

  /** `getIVSSubVal` gives one value that allows, at every byte, what the value allowed there, whether or
      not an unreadable leaf is cut. */
  lemma SubValSound(v: Val, len: nat, off: nat, n: nat)
    requires (var ready := CanTake(v, len, off, n); ready) && NoTears(v, len, off, n)
    ensures var covers := StandsPart(IvsSubVal(v, len, off, n), v, off, n); covers
  {
    if |IvsSubVals(v, len, off, n, 0)| == 1 && CleanPart(v, len, off, n) {
      SubValsKeep(v, len, off, n, 0);
      KeepsAlone(IvsSubVals(v, len, off, n, 0), off, n, v, LosesNothing(v, len, off, n));
    } else {
      LostPart(v, len, off, n);
      UnknownStands(off, off + n, v, 0);
      StandsCovers(OVERDEF, v, off, n, false);
    }
  }

  lemma LostPart(v: Val, len: nat, off: nat, n: nat)
    requires (var ready := CanTake(v, len, off, n); ready) && NoTears(v, len, off, n)
    requires |IvsSubVals(v, len, off, n, 0)| != 1 || !CleanPart(v, len, off, n)
    ensures IvsSubVal(v, len, off, n) == OVERDEF
  {
    if |IvsSubVals(v, len, off, n, 0)| == 1 {
      ScalarConsts(v, len, off, n);
      assert UntornItem(v.items[0], off, n);
      DirtyCut(v.items[0].v.c, off, n, 0);
    }
  }

  // ----- truncation

  /** `canTruncate`. */
  predicate CanTruncate(v: Val)
  {
    v.WhollyUnknown() || v.kind == KScalar || v.kind == KSplat
  }

  /** Each constant replaced by its sub-constant, or None if one has none. */
  function SubItems(items: seq<Item>, len: nat, off: nat, n: nat): Option<seq<Item>>
    requires Consts(items, len, false) && n > 0 && off + n <= len
  {
    if items == [] then Some([])
    else
      LastConst(items, len, false);
      var last := items[|items| - 1];
      var rest, d := SubItems(items[..|items| - 1], len, off, n), SubConst(last.v.c, off, n);
      if rest.Some? && d.Some? then Some(rest.value + [Item(K(d.value), last.off)]) else None
  }

  /** Bytes off..off + n of a value of `len` bytes are to remain, and the value can be truncated. */
  predicate CanCutTo(v: Val, len: nat, off: nat, n: nat)
  {
    n > 0 && off + n <= len && CanTruncate(v) && (v.kind == KSplat ==> |v.items| <= 1) && Fits(v, len) && Tidy(v)
  }

  lemma CutConsts(v: Val, len: nat, off: nat, n: nat)
    requires CanCutTo(v, len, off, n) && v.kind == KScalar
    ensures Consts(v.items, len, false) && (|v.items| == 1 ==> ConstItem(v.items[0], len, false))
  {
    forall x | x in v.items ensures ConstItem(x, len, false) {
      assert ItemFits(KScalar, x, len) && CanCut(x);
    }
  }

  /** `truncateLeft`, `truncateRight` and `truncateConstVal`: what replaces a value of `len` bytes at
      `start` when only its bytes off..off + n are to remain. One sub-value takes the place of the
      old extent wherever it claims to lie; several are inserted where they say. */
  function Truncated(v: Val, len: nat, off: nat, n: nat, start: nat): Pieces
    requires var ready := CanCutTo(v, len, off, n); ready
  {
    var lo := start + off;
    if v.WhollyUnknown() then [Extent(lo, lo + n, v)]
    else if v.kind == KSplat then [Extent(lo, lo + n, v.(items := [v.items[0].(off := Some(n))]))]
    else
      CutConsts(v, len, off, n);
      if |v.items| == 1 then
        var subs := ConstSubVals(v.items[0].v.c, off, n, start);
        if |subs| == 1 then [Extent(lo, lo + n, subs[0].val)] else subs
      else
        var items := SubItems(v.items, len, off, n);
        [Extent(lo, lo + n, if items.Some? then v.(items := items.value) else v.SetOverdef())]
  }

  /** No array is torn, and the truncation gives one extent or cuts cleanly. */
  predicate SafeCut(v: Val, len: nat, off: nat, n: nat, start: nat)
    requires var ready := CanCutTo(v, len, off, n); ready
  {
    v.kind == KScalar ==>
      if |v.items| == 1 then (CutConsts(v, len, off, n); SafeConst(v.items[0].v.c, off, n, start)) else UntornItems(v.items, off, n)
  }

  predicate SafeConst(c: CutConst, off: nat, n: nat, start: nat)
    requires n > 0 && off + n <= Size(c)
  {
    NoTear(c, off, n) && ((CleanAt(c, off) && CleanAt(c, off + n)) || |ConstSubVals(c, off, n, start)| == 1)
  }

  /** Truncations that lose nothing. */
  predicate KeepsAll(v: Val, off: nat, n: nat)
  {
    v.WhollyUnknown() || v.kind == KSplat || (v.kind == KScalar && |v.items| == 1 && CleanItem(v.items[0], off, n))
  }

  ghost predicate ItemSub(y: Item, x: Item, off: nat, n: nat)
  {
    y.v.K? && x.v.K? && SubOf(y.v.c, x.v.c, off, n)
  }

  lemma {:induction false} SubItemsFit(items: seq<Item>, len: nat, off: nat, n: nat)
    requires Consts(items, len, false) && n > 0 && off + n <= len && UntornItems(items, off, n) && SubItems(items, len, off, n).Some?
    ensures var r := SubItems(items, len, off, n).value;
            |r| == |items| && forall i :: 0 <= i < |items| ==> ItemSub(r[i], items[i], off, n)
  {
    if items != [] {
      LastConst(items, len, false);
      LastUntorn(items, off, n);
      var last := items[|items| - 1];
      SubItemsFit(items[..|items| - 1], len, off, n);
      SubConstSound(last.v.c, off, n);
      assert ItemSub(Item(K(SubConst(last.v.c, off, n).value), last.off), last, off, n);
    }
  }

  lemma ItemSubCovers(w: Val, y: Item, x: Item, off: nat, n: nat, k: nat)
    requires w.kind == KScalar && !w.WhollyUnknown() && y in w.items && ItemSub(y, x, off, n) && k < n
    ensures Covers(ByteAt(w, k), OneOf({PatternAt(KScalar, x, off + k)}))
  {
    CoversItem(w, y, PatternAt(KScalar, x, off + k), k);
  }

  lemma SubItemsCover(w: Val, v: Val, off: nat, n: nat, k: nat)
    requires v.kind == KScalar == w.kind && !v.overdef && !w.overdef && 0 < |v.items| == |w.items| && k < n
    requires forall i :: 0 <= i < |v.items| ==> ItemSub(w.items[i], v.items[i], off, n)
    ensures Covers(ByteAt(w, k), ByteAt(v, off + k))
  {
    forall i | 0 <= i < |v.items| ensures Covers(ByteAt(w, k), OneOf({PatternAt(v.kind, v.items[i], off + k)})) {
      ItemSubCovers(w, w.items[i], v.items[i], off, n, k);
    }
    CoversItems(ByteAt(w, k), v, off + k);
  }

  lemma {:induction false} SubItemsStem(w: Val, v: Val, off: nat, n: nat, k: nat)
    requires v.kind == KScalar == w.kind && !v.overdef && !w.overdef && 0 < |v.items| == |w.items| && k < n
    requires forall i :: 0 <= i < |v.items| ==> ItemSub(w.items[i], v.items[i], off, n)
    ensures Stems(ByteAt(w, k), ByteAt(v, off + k))
  {
    forall q | q in ByteAt(w, k).ps ensures FromOne(q, ByteAt(v, off + k).ps) {
      var i := FromItem(w, q, k);
      assert ItemSub(w.items[i], v.items[i], off, n);
      PatternIn(v, v.items[i], off + k);
    }
  }

  /** A value whose items are the sub-constants of another's stands for that part of it. */
  lemma SubItemsStand(w: Val, v: Val, off: nat, n: nat, start: nat)
    requires v.kind == KScalar == w.kind && !v.overdef && !w.overdef && 0 < |v.items| == |w.items| <= PBMAX && n > 0
    requires forall i :: 0 <= i < |v.items| ==> ItemSub(w.items[i], v.items[i], off, n)
    ensures Stands(Extent(start + off, start + off + n, w), v, start, false)
  {
    forall x | x in w.items ensures ItemFits(KScalar, x, n) {
      var i :| 0 <= i < |w.items| && w.items[i] == x;
      assert ItemSub(w.items[i], v.items[i], off, n);
    }
    forall k: nat | k < n ensures StandsAt(ByteAt(w, k), ByteAt(v, off + k), false) {
      SubItemsCover(w, v, off, n, k);
      SubItemsStem(w, v, off, n, k);
    }
    StandsIntro(w, start + off, start + off + n, v, start, off, false);
  }

  lemma ManyTruncated(v: Val, len: nat, off: nat, n: nat, start: nat)
    requires (var ready := CanCutTo(v, len, off, n); ready) && v.kind == KScalar && !v.WhollyUnknown() && |v.items| != 1 && UntornItems(v.items, off, n)
    ensures var e := Truncated(v, len, off, n, start)[0];
            e.start == start + off && e.stop == start + off + n && var stands := Stands(e, v, start, false); stands
  {
    CutConsts(v, len, off, n);
    var items := SubItems(v.items, len, off, n);
    if items.Some? {
      SubItemsFit(v.items, len, off, n);
      SubItemsStand(v.(items := items.value), v, off, n, start);
    } else {
      StandsIntro(v.SetOverdef(), start + off, start + off + n, v, start, off, false);
    }
  }

  lemma SplatByte(v: Val, w: Val, n: nat, j: nat, k: nat)
    requires v.kind == KSplat && |v.items| == 1 && !v.overdef && v.items[0].v.K? && w == v.(items := [v.items[0].(off := Some(n))])
    ensures var stands := StandsAt(ByteAt(w, k), ByteAt(v, j), true); stands
  {
    PatternIn(v, v.items[0], j);
    PatternIn(w, w.items[0], k);
    assert v.items == [v.items[0]];
    assert ByteAt(w, k).ps == {PatternAt(KSplat, v.items[0], j)} == ByteAt(v, j).ps;
    StandsSelf(ByteAt(v, j));
  }

  lemma SplatTruncated(v: Val, len: nat, off: nat, n: nat, start: nat)
    requires Fits(v, len) && v.kind == KSplat && |v.items| == 1 && n > 0 && off + n <= len
    ensures Stands(Extent(start + off, start + off + n, v.(items := [v.items[0].(off := Some(n))])), v, start, true)
  {
    var w := v.(items := [v.items[0].(off := Some(n))]);
    assert v.items[0] in v.items && ItemFits(KSplat, v.items[0], len) && v.items == [v.items[0]];
    forall k: nat | k < n ensures StandsAt(ByteAt(w, k), ByteAt(v, off + k), true) {
      SplatByte(v, w, n, off + k, k);
    }
    StandsIntro(w, start + off, start + off + n, v, start, off, true);
  }

  lemma {:induction false} OneForgotten(v: Val, c: CutConst, off: nat, n: nat, start: nat)
    requires n > 0 && off + n <= Size(c) && |ConstSubVals(c, off, n, start)| == 1 && !(CleanAt(c, off) && CleanAt(c, off + n))
    ensures var stands := Stands(Extent(start + off, start + off + n, ConstSubVals(c, off, n, start)[0].val), v, start, false); stands
  {
    OneLost(c, off, n, start);
    UnknownStands(start + off, start + off + n, v, start);
  }

  lemma {:induction false} OneLost(c: CutConst, off: nat, n: nat, start: nat)
    requires n > 0 && off + n <= Size(c) && |ConstSubVals(c, off, n, start)| == 1 && !(CleanAt(c, off) && CleanAt(c, off + n))
    ensures ConstSubVals(c, off, n, start)[0].val == OVERDEF
  {
    DirtyCut(c, off, n, start);
  }

  lemma OnlyStands(pieces: Pieces, lo: nat, hi: nat, v: Val, start: nat)
    requires |pieces| == 1 && var keeps := Keeps(pieces, lo, hi, v, start, true); keeps
    ensures var stands := Stands(Extent(lo, hi, pieces[0].val), v, start, true); stands
  {
    TilesSorted(pieces, lo, hi);
    assert Stands(pieces[0], v, start, true) && pieces[0] == Extent(lo, hi, pieces[0].val);
  }

  /** A truncated value lies end to end over the bytes that remain and allows at each what the value
      allowed there; exactly that, unless it was a set of constants or the cut was not clean. */
  lemma TruncatedKeeps(v: Val, len: nat, off: nat, n: nat, start: nat)
    requires (var ready := CanCutTo(v, len, off, n); ready) && SafeCut(v, len, off, n, start)
    ensures var keeps := Keeps(Truncated(v, len, off, n, start), start + off, start + off + n, v, start, KeepsAll(v, off, n)); keeps
  {
    if v.WhollyUnknown() {
      UniformStands(v, len, off, n, start);
      KeepsOne(Extent(start + off, start + off + n, v), v, start, true);
    } else if v.kind == KSplat {
      SplatTruncated(v, len, off, n, start);
      KeepsOne(Truncated(v, len, off, n, start)[0], v, start, true);
    } else if |v.items| != 1 {
      ManyTruncated(v, len, off, n, start);
      KeepsOne(Truncated(v, len, off, n, start)[0], v, start, false);
    } else {
      CutConsts(v, len, off, n);
      var c := v.items[0].v.c;
      if |ConstSubVals(c, off, n, start)| == 1 {
        if CleanCut(c, off, n) {
          ConstKeeps(v, c, off, n, start);
          OnlyStands(ConstSubVals(c, off, n, start), start + off, start + off + n, v, start);
        } else {
          OneForgotten(v, c, off, n, start);
        }
        KeepsOne(Truncated(v, len, off, n, start)[0], v, start, CleanCut(c, off, n));
      } else {
        ConstKeeps(v, c, off, n, start);
      }
    }
  }
}
