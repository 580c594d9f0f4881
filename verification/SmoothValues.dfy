/** Values that can be cut anywhere, and that stay such values when they are: no byte of their constants
    is unreadable, and no run of array elements is longer than can be had as a constant of its own. */
module SmoothValues {
  import opened Options
  import opened Extents
  import opened Constants
  import opened SymbolicValues
  import opened SubValues
  import opened ValueCuts
  import R = ConstReader

  /** Constants every byte of which can be read, with no array of more than two parts and no padding. */
  predicate Smooth(c: Const)
  {
    match c
    case CInt(bits, _, _) => ByteInt(bits)
    case CArray(_, elems) => |elems| <= 2 && forall i :: 0 <= i < |elems| ==> Smooth(elems[i])
    case CStruct(ty, members) =>
      && (forall i :: 0 <= i < |members| ==> Smooth(members[i]))
      && (ty.StructTy? && |ty.offsets| == |members| ==> forall i: nat :: i < |members| ==> Filled(ty, members, i))
    case CZero(_) => true
    case CUndef(_) => true
    case CData(_, _, _) => true
    case _ => false
  }

  /** Member `i` ends where the next one starts or the struct ends. */
  predicate Filled(ty: Ty, members: seq<Const>, i: nat)
    requires ty.StructTy? && i < |members| == |ty.offsets|
  {
    ty.offsets[i] + Size(members[i]) == if i + 1 < |members| then ty.offsets[i + 1] else ty.size
  }

  predicate SmoothItem(x: Item)
  {
    x.v.K? && Cuttable(x.v.c) && Smooth(x.v.c)
  }

  /** If the value is a set of constants, all are smooth. */
  predicate SmoothVal(v: Val)
  {
    v.kind == KScalar ==> forall x {:trigger SmoothItem(x)} :: x in v.items ==> SmoothItem(x)
  }

  /** One smooth constant. */
  predicate SmoothOne(v: Val)
  {
    v.kind == KScalar && |v.items| == 1 && !v.overdef && SmoothItem(v.items[0])
  }

  // ----- smooth constants are cut cleanly

  lemma {:induction false} SmoothClean(c: Const, x: nat)
    requires Smooth(c)
    ensures CleanAt(c, x)
    decreases c
  {
    match c
    case CArray(elemTy, elems) =>
      if AllocSize(elemTy) > 0 && x / AllocSize(elemTy) < |elems| {
        SmoothClean(elems[x / AllocSize(elemTy)], x % AllocSize(elemTy));
      }
    case CStruct(ty, members) =>
      if ty.StructTy? && 0 < |ty.offsets| == |members| && ty.offsets[0] == 0 {
        var i := ElementContaining(ty.offsets, x);
        SmoothClean(members[i], x - ty.offsets[i]);
      }
    case _ =>
  }

  lemma {:induction false} SmoothNoTear(c: CutConst, off: nat, n: nat)
    requires Smooth(c) && n > 0 && off + n <= Size(c)
    ensures NoTear(c, off, n)
    decreases c, 1
  {
    if !(off == 0 && n == Size(c)) {
      if c.CArray? {
        ArrayCutFacts(off, n, AllocSize(c.elemTy), |c.elems|);
        NotAllElements(ArrayCut(off, n, AllocSize(c.elemTy)), off, n, AllocSize(c.elemTy), |c.elems|);
        SmoothArray(c, ArrayCut(off, n, AllocSize(c.elemTy)), n);
      } else if c.CStruct? {
        SmoothStruct(c, off, n);
      }
    }
  }

  lemma {:induction false} SmoothArray(c: CutConst, cut: Cut, n: nat)
    requires Smooth(c) && InArray(c, cut, n) && (cut.startE > 0 || cut.startOff > 0 || cut.endE < |c.elems|)
    ensures ArrayNoTear(c, cut, n)
    decreases c, 0, 1
  {
    if cut.startOff > 0 && cut.startE == cut.endE {
      SmoothElement(c, cut.startE, cut.startOff, n);
    } else {
      if cut.startOff > 0 {
        SmoothElement(c, cut.startE, cut.startOff, AllocSize(c.elemTy) - cut.startOff);
      }
      if cut.endOff > 0 {
        SmoothElement(c, cut.endE, 0, cut.endOff);
      }
    }
  }

  lemma {:induction false} SmoothElement(c: CutConst, i: nat, off: nat, n: nat)
    requires Smooth(c) && c.CArray? && i < |c.elems| && off + n <= AllocSize(c.elemTy) && n > 0
    ensures ElementNoTear(c, i, off, n)
    decreases c, 0, 0
  {
    CuttableElement(c, i);
    SmoothNoTear(c.elems[i], off, n);
  }

  lemma {:induction false} SmoothStruct(c: CutConst, off: nat, n: nat)
    requires Smooth(c) && c.CStruct? && n > 0 && off + n <= Size(c)
    ensures StructNoTear(c, off, n)
    decreases c, 0, 1
  {
    SmoothEnds(c, off, n);
    StructCutFacts(c, off, n);
    var Cut(startE, startOff, endE, endOff) := StructCut(c, off, n);
    if startOff > 0 && startE == endE {
      SmoothMember(c, startE, startOff, n);
    } else {
      if startOff > 0 {
        SmoothMember(c, startE, startOff, Size(c.members[startE]) - startOff);
      }
      if endOff > 0 {
        SmoothMember(c, endE, 0, endOff);
      }
    }
  }

  /** Without padding the ends of a range lie in members. */
  lemma SmoothEnds(c: CutConst, off: nat, n: nat)
    requires Smooth(c) && c.CStruct? && n > 0 && off + n <= Size(c)
    ensures EndsInMembers(c, off, n) && PadBehind(c, StructCut(c, off, n).startE) == 0
  {
    StructCutEnds(c, off, n);
    var cut := StructCut(c, off, n);
    assert Filled(c.structTy, c.members, cut.startE) && Filled(c.structTy, c.members, cut.endE);
  }

  lemma {:induction false} SmoothMember(c: CutConst, i: nat, off: nat, n: nat)
    requires Smooth(c) && c.CStruct? && i < |c.members| && off + n <= Size(c.members[i]) && n > 0
    ensures MemberNoTear(c, i, off, n)
    decreases c, 0, 0
  {
    CuttableMember(c, i);
    SmoothNoTear(c.members[i], off, n);
  }

  lemma SmoothCut(c: CutConst, off: nat, n: nat)
    requires Smooth(c) && n > 0 && off + n <= Size(c)
    ensures CleanCut(c, off, n) && Untorn(c, off, n)
  {
    SmoothClean(c, off);
    SmoothClean(c, off + n);
    SmoothNoTear(c, off, n);
  }

  // ----- and into smooth constants

  predicate AllSmooth(pieces: Pieces)
  {
    forall e {:trigger SmoothOne(e.val)} :: e in pieces ==> SmoothOne(e.val)
  }

  lemma ScalarSmooth(c: CutConst)
    requires Smooth(c)
    ensures SmoothOne(ScalarOf(c)) && ValueOf(c) == ScalarOf(c)
  {
    assert ScalarOf(c).items[0] == Item(K(c), None);
  }

  /** A constant cut out of a smooth one is smooth. */
  lemma {:induction false} SmoothPieces(c: CutConst, off: nat, n: nat, above: nat)
    requires Smooth(c) && n > 0 && off + n <= Size(c)
    ensures AllSmooth(ConstSubVals(c, off, n, above))
    decreases c, 1
  {
    if off == 0 && n == Size(c) {
      ScalarSmooth(c);
    } else if c.CArray? {
      ArrayCutFacts(off, n, AllocSize(c.elemTy), |c.elems|);
      NotAllElements(ArrayCut(off, n, AllocSize(c.elemTy)), off, n, AllocSize(c.elemTy), |c.elems|);
      SmoothArrayPieces(c, ArrayCut(off, n, AllocSize(c.elemTy)), n, above);
    } else if c.CStruct? {
      SmoothStructPieces(c, off, n, above);
    } else {
      SmoothLeafPieces(c, off, n, above);
    }
  }

  lemma SmoothLeafPieces(c: CutConst, off: nat, n: nat, above: nat)
    requires Smooth(c) && n > 0 && off + n <= Size(c) && !(off == 0 && n == Size(c)) && !c.CArray? && !c.CStruct?
    ensures AllSmooth(ConstSubVals(c, off, n, above))
  {
    if c.CUndef? {
      ScalarSmooth(CUndef(IntTy(8 * n, n)));
    } else {
      SmoothClean(c, off);
      SmoothClean(c, off + n);
      LeafReadable(c, off, n);
      LeafBytes(c, off, n);
      BytesSmooth(BytesFrom(c, off, n));
      LeafIs(c, off, n, above);
    }
  }

  lemma LeafIs(c: CutConst, off: nat, n: nat, above: nat)
    requires n > 0 && off + n <= Size(c) && !(off == 0 && n == Size(c)) && !c.CArray? && !c.CStruct? && !c.CUndef?
    requires forall k :: off <= k < off + n ==> !R.Refused(c, k)
    ensures ConstSubVals(c, off, n, above) == [Extent(above + off, above + off + n, ScalarOf(FromBytes(BytesFrom(c, off, n))))]
  {
  }

  lemma LeafBytes(c: CutConst, off: nat, n: nat)
    requires forall k :: off <= k < off + n ==> CellAt(c, k).Known?
    ensures forall i :: 0 <= i < n ==> BytesFrom(c, off, n)[i] < 256
  {
  }

  lemma BytesSmooth(bytes: seq<nat>)
    requires bytes != [] && forall i :: 0 <= i < |bytes| ==> bytes[i] < 256
    ensures Cuttable(FromBytes(bytes)) && Smooth(FromBytes(bytes)) && SmoothOne(ScalarOf(FromBytes(bytes)))
  {
    FromBytesByte(bytes, 0);
    FromBytesCuttable(bytes);
    ScalarSmooth(FromBytes(bytes));
  }

  lemma {:induction false} SmoothArrayPieces(c: CutConst, cut: Cut, n: nat, above: nat)
    requires Smooth(c) && InArray(c, cut, n) && (cut.startE > 0 || cut.startOff > 0 || cut.endE < |c.elems|)
    ensures AllSmooth(ArrayPieces(c, cut, n, above))
    decreases c, 0, 1
  {
    if cut.startOff > 0 && cut.startE == cut.endE {
      SmoothElementPieces(c, cut.startE, cut.startOff, n, above);
    } else {
      if cut.startOff > 0 {
        SmoothElementPieces(c, cut.startE, cut.startOff, AllocSize(c.elemTy) - cut.startOff, above);
      }
      if cut.endOff > 0 {
        SmoothElementPieces(c, cut.endE, 0, cut.endOff, above);
      }
      SmoothWhole(c, if cut.startOff == 0 then cut.startE else cut.startE + 1, cut.endE, above);
    }
  }

  lemma SmoothWhole(c: CutConst, from: nat, to: nat, above: nat)
    requires Smooth(c) && c.CArray? && from <= to <= |c.elems| && to <= from + 1
    ensures AllSmooth(WholeElements(c, from, to, above))
  {
    if from < to {
      CuttableElement(c, from);
      ScalarSmooth(c.elems[from]);
    }
  }

  lemma {:induction false} SmoothElementPieces(c: CutConst, i: nat, off: nat, n: nat, above: nat)
    requires Smooth(c) && c.CArray? && i < |c.elems| && off + n <= AllocSize(c.elemTy) && n > 0
    ensures off > 0 ==> AllSmooth(ArrayLeft(c, i, off, n, above))
    ensures off == 0 && n < AllocSize(c.elemTy) ==> AllSmooth(ArrayRight(c, i, n, above))
    decreases c, 0, 0
  {
    CuttableElement(c, i);
    SmoothPieces(c.elems[i], off, n, above + Place(c, i));
  }

  lemma {:induction false} SmoothStructPieces(c: CutConst, off: nat, n: nat, above: nat)
    requires Smooth(c) && c.CStruct? && n > 0 && off + n <= Size(c)
    ensures var smooth := AllSmooth(StructSubVals(c, off, n, above)); smooth
    decreases c, 0, 2
  {
    SmoothEnds(c, off, n);
    var cut := StructCut(c, off, n);
    if cut.startOff > 0 && cut.startE == cut.endE {
      SmoothInside(c, off, n, above);
    } else {
      SmoothTwo(c, off, n, above);
    }
  }

  lemma {:induction false} SmoothInside(c: CutConst, off: nat, n: nat, above: nat)
    requires Smooth(c) && c.CStruct? && n > 0 && off + n <= Size(c) && EndsInMembers(c, off, n)
    requires var cut := StructCut(c, off, n); cut.startOff > 0 && cut.startE == cut.endE
    ensures var smooth := AllSmooth(StructSubVals(c, off, n, above)); smooth
    decreases c, 0, 1, 1
  {
    var cut := StructCut(c, off, n);
    InsideIs(c, off, n, above);
    SmoothMemberPieces(c, cut.startE, cut.startOff, n, above);
  }

  lemma {:induction false} SmoothTwo(c: CutConst, off: nat, n: nat, above: nat)
    requires Smooth(c) && c.CStruct? && n > 0 && off + n <= Size(c) && EndsInMembers(c, off, n)
    requires var cut := StructCut(c, off, n); !(cut.startOff > 0 && cut.startE == cut.endE)
    ensures var smooth := AllSmooth(StructSubVals(c, off, n, above)); smooth
    decreases c, 0, 1, 1
  {
    var cut := StructCut(c, off, n);
    AcrossIs(c, off, n, above);
    SmoothAcross(c, cut, Size(c.members[cut.startE]) - cut.startOff, if cut.startOff == 0 then cut.startE else cut.startE + 1, above);
  }

  lemma {:induction false} SmoothAcross(c: CutConst, cut: Cut, rest: nat, from: nat, above: nat)
    requires Smooth(c) && c.CStruct? && cut.startE < |c.members| && rest > 0 && cut.startOff + rest == Size(c.members[cut.startE])
    requires from <= cut.endE < |c.members| && cut.endOff <= Size(c.members[cut.endE])
    ensures var smooth := AllSmooth(StructLeft(c, cut.startE, cut.startOff, rest, above) + WholeMembers(c, from, cut.endE, above) + StructRight(c, cut.endE, cut.endOff, above)); smooth
    decreases c, 0, 1, 0
  {
    if cut.startOff > 0 {
      SmoothMemberPieces(c, cut.startE, cut.startOff, rest, above);
    }
    if cut.endOff > 0 {
      SmoothMemberPieces(c, cut.endE, 0, cut.endOff, above);
    }
    SmoothMembers(c, from, cut.endE, above);
    AllSmoothThree(StructLeft(c, cut.startE, cut.startOff, rest, above), WholeMembers(c, from, cut.endE, above), StructRight(c, cut.endE, cut.endOff, above));
  }

  lemma AllSmoothThree(p: Pieces, q: Pieces, r: Pieces)
    requires AllSmooth(p) && AllSmooth(q) && AllSmooth(r)
    ensures AllSmooth(p + q + r)
  {
  }

  lemma {:induction false} SmoothMemberPieces(c: CutConst, i: nat, off: nat, n: nat, above: nat)
    requires Smooth(c) && c.CStruct? && i < |c.members| && off + n <= Size(c.members[i]) && n > 0
    ensures off > 0 ==> var smooth := AllSmooth(StructLeft(c, i, off, n, above)); smooth
    ensures off == 0 ==> var smooth := AllSmooth(StructRight(c, i, n, above)); smooth
    decreases c, 0, 0
  {
    CuttableMember(c, i);
    SmoothPieces(c.members[i], off, n, above + c.structTy.offsets[i]);
  }

  lemma {:induction false} SmoothMembers(c: CutConst, from: nat, to: nat, above: nat)
    requires Smooth(c) && c.CStruct? && from <= to <= |c.members|
    ensures var smooth := AllSmooth(WholeMembers(c, from, to, above)); smooth
    decreases |c.members| - from
  {
    if from < to {
      CuttableMember(c, from);
      assert Filled(c.structTy, c.members, from);
      ScalarSmooth(c.members[from]);
      SmoothMembers(c, from + 1, to, above);
    }
  }

  lemma SmoothPartVals(c: CutConst, off: nat, n: nat)
    requires Smooth(c) && n > 0 && off + n <= Size(c)
    ensures AllSmooth(PartVals(c, off, n, 0))
  {
    if off == 0 && n == Size(c) {
      ScalarSmooth(c);
    } else {
      SmoothPieces(c, off, n, 0);
    }
  }

  /** The one constant found for a range of a smooth one is smooth. */
  lemma SmoothSubConst(c: CutConst, off: nat, n: nat)
    requires Smooth(c) && n > 0 && off + n <= Size(c) && SubConst(c, off, n).Some?
    ensures var d := SubConst(c, off, n).value; Cuttable(d) && Smooth(d)
  {
    SmoothCut(c, off, n);
    SubConstSound(c, off, n);
    SmoothPartVals(c, off, n);
    SmoothConst(PartVals(c, off, n, 0));
  }

  /** No byte of a smooth constant is refused. */
  lemma {:induction false} SmoothReadable(c: CutConst, k: nat)
    requires Smooth(c)
    ensures !R.Refused(c, k)
    decreases c
  {
    match c
    case CArray(elemTy, elems) =>
      if AllocSize(elemTy) > 0 && k / AllocSize(elemTy) < |elems| {
        CuttableElement(c, k / AllocSize(elemTy));
        SmoothReadable(elems[k / AllocSize(elemTy)], k % AllocSize(elemTy));
      }
    case CStruct(ty, members) =>
      if ty.StructTy? && 0 < |ty.offsets| == |members| && ty.offsets[0] == 0 {
        var i := ElementContaining(ty.offsets, k);
        CuttableMember(c, i);
        SmoothReadable(members[i], k - ty.offsets[i]);
      }
    case _ =>
  }

  /** The bytes of smooth constants laid end to end can be had. */
  lemma {:induction false} SmoothGather(pieces: Pieces)
    requires AllSmooth(pieces) && forall i :: 0 <= i < |pieces| ==> pieces[i].start <= pieces[i].stop
    ensures Gather(pieces).Some?
  {
    if pieces != [] {
      var e := pieces[0];
      assert SmoothOne(e.val) && SmoothItem(e.val.items[0]);
      forall k | 0 <= k < e.stop - e.start ensures !R.Refused(e.val.items[0].v.c, k) {
        SmoothReadable(e.val.items[0].v.c, k);
      }
      SmoothGather(pieces[1..]);
    }
  }

  /** For any range of a smooth constant one constant is found. */
  lemma SmoothFound(c: CutConst, off: nat, n: nat)
    requires Smooth(c) && n > 0 && off + n <= Size(c)
    ensures Takes(c, off, n) && SubConst(c, off, n).Some?
  {
    if !(off == 0 && n == Size(c)) {
      SmoothShown(c, off, n);
      SmoothPieces(c, off, n, 0);
      FoundInPieces(c, off, n, ConstSubVals(c, off, n, 0));
    }
  }

  lemma FoundInPieces(c: CutConst, off: nat, n: nat, pieces: Pieces)
    requires n > 0 && off + n <= Size(c) && !(off == 0 && n == Size(c)) && pieces == ConstSubVals(c, off, n, 0) && AllSmooth(pieces)
    requires var shown := Shows(pieces, off, off + n, Image(c), 0); shown
    ensures SubConst(c, off, n).Some?
  {
    ShownEach(pieces, off, off + n, Image(c), 0);
    SmoothMade(pieces);
    MadeOf(c, off, n, pieces);
  }

  lemma MadeOf(c: CutConst, off: nat, n: nat, pieces: Pieces)
    requires n > 0 && off + n <= Size(c) && !(off == 0 && n == Size(c)) && pieces == ConstSubVals(c, off, n, 0)
    ensures SubConst(c, off, n) == ValsToConst(pieces)
  {
  }

  lemma SmoothShown(c: CutConst, off: nat, n: nat)
    requires Smooth(c) && n > 0 && off + n <= Size(c)
    ensures var shown := Shows(ConstSubVals(c, off, n, 0), off, off + n, Image(c), 0); shown
  {
    SmoothCut(c, off, n);
    SubValsShow(c, off, n, 0, off, off + n);
  }

  lemma ShownEach(pieces: Pieces, lo: nat, hi: nat, cells: seq<Cell>, above: int)
    requires lo < hi && var shown := Shows(pieces, lo, hi, cells, above); shown
    ensures pieces != [] && forall i :: 0 <= i < |pieces| ==> pieces[i].start <= pieces[i].stop
  {
    TilesEach(pieces, lo, hi);
  }

  lemma SmoothMade(pieces: Pieces)
    requires AllSmooth(pieces) && pieces != [] && forall i :: 0 <= i < |pieces| ==> pieces[i].start <= pieces[i].stop
    ensures var made := ValsToConst(pieces).Some?; made
  {
    SmoothGather(pieces);
    SmoothKnown(pieces);
  }

  lemma SmoothKnown(pieces: Pieces)
    requires AllSmooth(pieces)
    ensures !AnyUnknown(pieces) && forall i :: 0 <= i < |pieces| ==> pieces[i].val.items[0].v.K?
  {
    forall i | 0 <= i < |pieces| ensures SmoothOne(pieces[i].val) {
      assert pieces[i] in pieces;
    }
  }

  lemma {:induction false} TilesEach(pieces: Pieces, lo: nat, hi: nat)
    requires Tiles(pieces, lo, hi) && lo < hi
    ensures pieces != [] && forall i :: 0 <= i < |pieces| ==> pieces[i].start <= pieces[i].stop
  {
    TilesSorted(pieces, lo, hi);
  }

  /** The constant that smooth ones make together. */
  lemma SmoothConst(pieces: Pieces)
    requires AllSmooth(pieces) && ValsToConst(pieces).Some?
    ensures Smooth(ValsToConst(pieces).value)
  {
    if |pieces| == 1 {
      assert SmoothOne(pieces[0].val);
    }
  }

  // ----- smooth values

  lemma SmoothTidy(v: Val)
    requires SmoothVal(v)
    ensures Tidy(v)
  {
    forall x | x in v.items && v.kind == KScalar ensures CanCut(x) {
      assert SmoothItem(x);
    }
  }

  lemma SmoothItems(v: Val, len: nat, off: nat, n: nat)
    requires SmoothVal(v) && Fits(v, len) && v.kind == KScalar && n > 0 && off + n <= len
    ensures UntornItems(v.items, off, n) && (|v.items| == 1 ==> CleanItem(v.items[0], off, n))
  {
    forall x | x in v.items ensures UntornItem(x, off, n) && CleanItem(x, off, n) {
      assert SmoothItem(x) && ItemFits(KScalar, x, len);
      SmoothCut(x.v.c, off, n);
    }
  }

  /** Any part of a smooth value can be had, exactly as far as the value can be divided at all. */
  lemma SmoothTakes(v: Val, len: nat, off: nat, n: nat)
    requires SmoothVal(v) && Fits(v, len) && n > 0 && off + n <= len
    ensures CanTake(v, len, off, n) && CleanPart(v, len, off, n) && NoTears(v, len, off, n)
  {
    SmoothTidy(v);
    if v.kind == KScalar {
      SmoothItems(v, len, off, n);
    }
  }

  lemma InsertSmooth(s: Val, x: Item)
    requires SmoothVal(s) && (s.kind == KScalar ==> SmoothItem(x))
    ensures SmoothVal(Insert(s, x)) && Insert(s, x).kind == s.kind
  {
  }

  /** The parts of smooth constants, merged, are known, and are not more than there were constants. */
  lemma {:induction false} MergeSubsSmooth(items: seq<Item>, len: nat, off: nat, n: nat)
    requires Consts(items, len, off == 0 && n == len) && n > 0 && off + n <= len && |items| <= PBMAX
    requires forall x :: x in items ==> SmoothItem(x)
    ensures var r := MergeSubs(items, len, off, n);
            SmoothVal(r) && !r.overdef && |r.items| <= |items| && if items == [] then r == Val(KUnknown, [], false) else r.kind == KScalar && r.items != []
  {
    if items != [] {
      var rest, last := items[..|items| - 1], items[|items| - 1];
      LastConst(items, len, off == 0 && n == len);
      assert last in items;
      MergeSubsSmooth(rest, len, off, n);
      SmoothFound(last.v.c, off, n);
      SmoothSubConst(last.v.c, off, n);
      MergeSmooth(MergeSubs(rest, len, off, n), SubConst(last.v.c, off, n).value);
    }
  }

  /** Merging one more smooth constant. */
  lemma MergeSmooth(r: Val, d: CutConst)
    requires SmoothVal(r) && Smooth(d) && !r.overdef && |r.items| < PBMAX && (r.kind == KScalar || r == Val(KUnknown, [], false))
    ensures var m := Merge(r, ValueOf(d)); SmoothVal(m) && m.kind == KScalar && !m.overdef && m.items != [] && |m.items| <= |r.items| + 1
  {
    ScalarSmooth(d);
    var b, x := ScalarOf(d), Item(K(d), None);
    assert b.items == [x] && b.items[..0] == [];
    var s := r.(kind := KScalar);
    assert InsertAll(s, b.items) == Insert(InsertAll(s, []), x) == Insert(s, x);
    InsertSmooth(s, x);
  }

  ghost predicate SmoothParts(pieces: Pieces)
  {
    forall e {:trigger SmoothVal(e.val)} :: e in pieces ==> SmoothVal(e.val)
  }

  ghost predicate AllKnown(pieces: Pieces)
  {
    forall i {:trigger pieces[i]} :: 0 <= i < |pieces| ==> !pieces[i].val.WhollyUnknown()
  }

  /** A value any part of which is known. */
  predicate Sure(v: Val)
  {
    !v.WhollyUnknown() && SmoothVal(v) && (v.kind == KScalar || v.kind == KSplat || v.kind == KVarArg)
  }

  /** Whatever a smooth value is cut into is smooth, and known if the value was. */
  lemma SubValsSmooth(v: Val, len: nat, off: nat, n: nat, above: nat)
    requires SmoothVal(v) && CanTake(v, len, off, n)
    ensures SmoothParts(IvsSubVals(v, len, off, n, above)) && (Sure(v) ==> AllKnown(IvsSubVals(v, len, off, n, above)))
  {
    if !v.WhollyUnknown() && v.kind == KScalar {
      ScalarConsts(v, len, off, n);
      if |v.items| == 1 {
        assert SmoothItem(v.items[0]);
        PartValsSmooth(v.items[0].v.c, off, n, above);
      } else {
        MergeSubsSmooth(v.items, len, off, n);
      }
    }
  }

  lemma PartValsSmooth(c: CutConst, off: nat, n: nat, above: nat)
    requires Smooth(c) && n > 0 && off + n <= Size(c)
    ensures Takes(c, off, n) && SmoothParts(PartVals(c, off, n, above)) && AllKnown(PartVals(c, off, n, above))
  {
    PartValsKnown(c, off, n, above);
    SmoothPieces(c, off, n, above);
    ScalarSmooth(c);
    forall e | e in PartVals(c, off, n, above) ensures SmoothVal(e.val) {
      assert SmoothOne(e.val);
    }
  }

  /** What a part of such a value is: known, and of no more items. */
  predicate AnyPart(w: Val, v: Val)
  {
    Sure(v) && Bits(v) ==> !w.WhollyUnknown() && Bits(w) && |w.items| <= |v.items|
  }

  ghost predicate AllParts(pieces: Pieces, v: Val)
  {
    forall e {:trigger AnyPart(e.val, v)} :: e in pieces ==> AnyPart(e.val, v)
  }

  lemma PartsSmall(v: Val, len: nat, off: nat, n: nat, above: nat)
    requires var ready := CanTake(v, len, off, n); ready
    ensures AllParts(IvsSubVals(v, len, off, n, above), v)
  {
    if Sure(v) && v.kind == KScalar {
      ScalarConsts(v, len, off, n);
      if |v.items| == 1 {
        assert SmoothItem(v.items[0]);
        OnePartSmall(v, v.items[0].v.c, off, n, above);
      } else {
        MergeSubsSmooth(v.items, len, off, n);
      }
    }
  }

  lemma OnePartSmall(v: Val, c: CutConst, off: nat, n: nat, above: nat)
    requires Smooth(c) && n > 0 && off + n <= Size(c) && |v.items| == 1
    ensures Takes(c, off, n) && AllParts(PartVals(c, off, n, above), v)
  {
    SmoothPieces(c, off, n, above);
    ScalarSmooth(c);
    forall e | e in PartVals(c, off, n, above) ensures AnyPart(e.val, v) {
      assert SmoothOne(e.val);
    }
  }

  lemma PartValsKnown(c: CutConst, off: nat, n: nat, above: nat)
    requires Smooth(c) && n > 0 && off + n <= Size(c)
    ensures Takes(c, off, n) && AllKnown(PartVals(c, off, n, above))
  {
    if !(off == 0 && n == Size(c)) {
      SmoothPieces(c, off, n, above);
      SmoothKnown(ConstSubVals(c, off, n, above));
      var pieces := ConstSubVals(c, off, n, above);
      forall i | 0 <= i < |pieces| ensures !pieces[i].val.WhollyUnknown() {
        assert pieces[i] in pieces && SmoothOne(pieces[i].val);
      }
    }
  }

  // ----- truncation

  /** Values that range writes may cut: smooth ones, and of splats only single ones. */
  predicate Easy(v: Val)
  {
    SmoothVal(v) && (v.kind == KSplat ==> |v.items| <= 1)
  }

  /** Values that lose nothing when they are cut. */
  predicate Lossless(v: Val)
  {
    v.WhollyUnknown() || v.kind == KSplat || (v.kind == KScalar && |v.items| == 1)
  }

  lemma EasyCut(v: Val, len: nat, off: nat, n: nat, start: nat)
    requires Easy(v) && CanTruncate(v) && Fits(v, len) && n > 0 && off + n <= len
    ensures CanCutTo(v, len, off, n) && SafeCut(v, len, off, n, start) && (Lossless(v) ==> KeepsAll(v, off, n))
  {
    SmoothTidy(v);
    if v.kind == KScalar {
      SmoothItems(v, len, off, n);
      if |v.items| == 1 {
        CutConsts(v, len, off, n);
      }
    }
  }

  /** What values are to be like: such as lose nothing when they are cut; and such as are known and stay so. */
  datatype Grade = Grade(lossless: bool, known: bool)

  const LOSSLESS: Grade := Grade(true, false)
  const KNOWN: Grade := Grade(false, true)

  predicate Graded(v: Val, g: Grade)
  {
    (g.lossless ==> Lossless(v)) && (g.known ==> CanTruncate(v) && !v.WhollyUnknown())
  }

  /** What is left of a truncated value: it can be truncated again, and is what the value was. */
  predicate Rest(w: Val, g: Grade)
  {
    Easy(w) && CanTruncate(w) && Graded(w, g)
  }

  ghost predicate AllRest(pieces: Pieces, g: Grade)
  {
    forall e {:trigger Rest(e.val, g)} :: e in pieces ==> Rest(e.val, g)
  }

  lemma TruncatedEasy(v: Val, len: nat, off: nat, n: nat, start: nat)
    requires Easy(v) && CanCutTo(v, len, off, n)
    ensures AllRest(Truncated(v, len, off, n, start), Grade(Lossless(v), !v.WhollyUnknown()))
  {
    if !v.WhollyUnknown() && v.kind == KScalar {
      CutConsts(v, len, off, n);
      if |v.items| == 1 {
        assert SmoothItem(v.items[0]);
        OneTruncatedEasy(v.items[0].v.c, off, n, start);
      } else {
        ManyTruncatedEasy(v, len, off, n);
      }
    }
  }

  lemma OneTruncatedEasy(c: CutConst, off: nat, n: nat, start: nat)
    requires Smooth(c) && n > 0 && off + n <= Size(c)
    ensures forall e :: e in ConstSubVals(c, off, n, start) ==> Rest(e.val, Grade(true, true))
  {
    SmoothPieces(c, off, n, start);
    forall e | e in ConstSubVals(c, off, n, start) ensures Rest(e.val, Grade(true, true)) {
      assert SmoothOne(e.val);
    }
  }

  lemma ManyTruncatedEasy(v: Val, len: nat, off: nat, n: nat)
    requires Easy(v) && CanCutTo(v, len, off, n) && v.kind == KScalar && |v.items| != 1 && Consts(v.items, len, false)
    ensures var items := SubItems(v.items, len, off, n);
            items.Some? && SmoothVal(v.(items := items.value)) && |items.value| == |v.items|
  {
    forall x | x in v.items ensures SmoothItem(x) {
    }
    SubItemsSmooth(v.items, len, off, n);
  }

  lemma {:induction false} SubItemsSmooth(items: seq<Item>, len: nat, off: nat, n: nat)
    requires Consts(items, len, false) && n > 0 && off + n <= len && forall x :: x in items ==> SmoothItem(x)
    ensures var r := SubItems(items, len, off, n);
            r.Some? && |r.value| == |items| && forall x :: x in r.value ==> SmoothItem(x)
  {
    if items != [] {
      LastConst(items, len, false);
      var last := items[|items| - 1];
      assert last in items;
      SubItemsSmooth(items[..|items| - 1], len, off, n);
      SmoothFound(last.v.c, off, n);
      SmoothSubConst(last.v.c, off, n);
    }
  }

  // ----- parts that stay known

  /** Whole or not, the value is read as it is: no constant of it would be called a pointer, and none is there
      twice. */
  predicate Steady(v: Val)
  {
    v.kind == KScalar && !v.WhollyUnknown() ==>
      !v.overdef && SteadyRow(v.items)
  }

  predicate Differ(items: seq<Item>, i: nat, j: nat)
    requires i < |items| && j < |items|
  {
    items[i] != items[j]
  }

  predicate SteadyItem(x: Item)
  {
    x.v.K? && x.off == None && !x.v.c.CNull? && !(x.v.c.CAddr? && !x.v.c.fn)
  }

  /** Any part of it can be had as one value: a splat, a constant that is read byte by byte, or a set of several
      smooth ones. */
  predicate Partible(v: Val)
  {
    && !v.WhollyUnknown()
    && (v.kind == KSplat || (v.kind == KScalar && if |v.items| == 1 then v.items[0].v.K? && Leaf(v.items[0].v.c) else SmoothVal(v)))
  }

  predicate Leaf(c: Const)
  {
    (c.CInt? && ByteInt(c.bits)) || c.CData? || c.CZero? || c.CUndef?
  }

  /** What a part of the value is known to be. */
  ghost predicate PartKept(w: Val, v: Val, len: nat, off: nat, n: nat)
  {
    (off == 0 && n == len ==> WholeKept(w, v)) && AnyKept(w, v)
  }

  ghost predicate WholeKept(w: Val, v: Val)
  {
    Steady(v) ==> w == v
  }

  ghost predicate AnyKept(w: Val, v: Val)
  {
    Partible(v) ==> !w.WhollyUnknown() && Bits(w) && |w.items| <= |v.items|
  }

  lemma {:induction false} SubValKept(v: Val, len: nat, off: nat, n: nat)
    requires var ready := CanTake(v, len, off, n); ready
    ensures var kept := PartKept(IvsSubVal(v, len, off, n), v, len, off, n); kept
  {
    if v.kind == KScalar && !v.WhollyUnknown() {
      ScalarConsts(v, len, off, n);
      if |v.items| == 1 {
        OneKept(v, len, off, n);
      } else {
        ManyKept(v, len, off, n);
      }
    }
  }

  lemma {:induction false} ManyKept(v: Val, len: nat, off: nat, n: nat)
    requires (var ready := CanTake(v, len, off, n); ready) && v.kind == KScalar && |v.items| > 1 && !v.WhollyUnknown()
    ensures var kept := PartKept(IvsSubVal(v, len, off, n), v, len, off, n); kept
  {
    ScalarConsts(v, len, off, n);
    if off == 0 && n == len && Steady(v) {
      SteadyMerged(v.items, len);
    }
    if SmoothVal(v) {
      MergeSubsSmooth(v.items, len, off, n);
    }
  }

  lemma {:induction false} OneKept(v: Val, len: nat, off: nat, n: nat)
    requires (var ready := CanTake(v, len, off, n); ready) && v.kind == KScalar && |v.items| == 1 && !v.WhollyUnknown()
    ensures var kept := PartKept(IvsSubVal(v, len, off, n), v, len, off, n); kept
  {
    ScalarConsts(v, len, off, n);
    var c := v.items[0].v.c;
    assert v.items == [v.items[0]];
    assert IvsSubVals(v, len, off, n, 0) == PartVals(c, off, n, 0);
    if Steady(v) {
      assert SteadyItem(v.items[0]) && v == ScalarOf(c);
    }
    if !(off == 0 && n == len) && Leaf(c) {
      LeafPart(c, off, n);
    }
  }

  lemma {:induction false} LeafPart(c: CutConst, off: nat, n: nat)
    requires n > 0 && off + n <= Size(c) && !(off == 0 && n == Size(c)) && Leaf(c)
    ensures |ConstSubVals(c, off, n, 0)| == 1 && ConstSubVals(c, off, n, 0)[0].val.kind == KScalar
    ensures |ConstSubVals(c, off, n, 0)[0].val.items| == 1 && !ConstSubVals(c, off, n, 0)[0].val.WhollyUnknown()
  {
    if !c.CUndef? {
      LeafReadable(c, off, n);
    }
  }

  /** Such constants, none of them twice. */
  predicate SteadyRow(items: seq<Item>)
  {
    (forall i {:trigger SteadyItem(items[i])} :: 0 <= i < |items| ==> SteadyItem(items[i])) && forall i, j :: 0 <= i < j < |items| ==> Differ(items, i, j)
  }

  function SetOf(items: seq<Item>): Val
  {
    if items == [] then Val(KUnknown, [], false) else Val(KScalar, items, false)
  }

  /** Merged one by one, they are themselves. */
  lemma {:induction false} SteadyMerged(items: seq<Item>, len: nat)
    requires Consts(items, len, true) && len > 0 && |items| <= PBMAX && var row := SteadyRow(items); row
    ensures var same := MergeSubs(items, len, 0, len) == SetOf(items); same
  {
    if items != [] {
      var front, x := items[..|items| - 1], items[|items| - 1];
      SteadyFront(items);
      LastConst(items, len, true);
      SteadyMerged(front, len);
      SteadyStep(front, x, len);
      assert front + [x] == items;
    }
  }

  lemma SteadyFront(items: seq<Item>)
    requires items != [] && SteadyRow(items)
    ensures var front, x := items[..|items| - 1], items[|items| - 1]; x !in front && SteadyItem(x) && var row := SteadyRow(front); row
  {
    var front, x := items[..|items| - 1], items[|items| - 1];
    assert SteadyItem(items[|items| - 1]);
    forall i | 0 <= i < |front| ensures front[i] != x {
      assert Differ(items, i, |items| - 1);
    }
    forall i | 0 <= i < |front| ensures SteadyItem(front[i]) {
      assert SteadyItem(items[i]);
    }
    forall i, j | 0 <= i < j < |front| ensures Differ(front, i, j) {
      assert Differ(items, i, j);
    }
  }

  lemma {:induction false} SteadyStep(front: seq<Item>, x: Item, len: nat)
    requires SteadyItem(x) && ConstItem(x, len, true) && x !in front && len > 0 && |front| < PBMAX && Consts(front, len, true)
    requires var same := MergeSubs(front, len, 0, len) == SetOf(front); same
    ensures Consts(front + [x], len, true) && var same := MergeSubs(front + [x], len, 0, len) == SetOf(front + [x]); same
  {
    var all := front + [x];
    assert all[..|all| - 1] == front;
    assert SubConst(x.v.c, 0, len) == Some(x.v.c);
    assert ValueOf(x.v.c) == Val(KScalar, [x], false);
    MergeOne(front, x);
  }

  lemma MergeOne(front: seq<Item>, x: Item)
    requires |front| < PBMAX && x !in front
    ensures Merge(SetOf(front), Val(KScalar, [x], false)) == SetOf(front + [x])
  {
    var s := Val(KScalar, front, false);
    assert [x][..0] == [];
    assert InsertAll(s, [x]) == Insert(InsertAll(s, []), x);
  }
}
