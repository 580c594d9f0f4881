/** Parts of values: `getConstSubVals`, `getIVSSubVals` and `getIVSSubVal`
    (llpe/main/LoadForward.cpp:1433-1698). */
module SubValues {
  import opened Options
  import opened Extents
  import opened Constants
  import opened SymbolicValues
  import R = ConstReader

  type Pieces = seq<Extent<Val>>

  function ScalarOf(c: Const): Val
  {
    Val(KScalar, [Item(K(c), None)], false)
  }

  /** `getValPB` of a constant: addresses of variables and null are pointers, the rest is scalar. */
  function ValueOf(c: Const): Val
  {
    match c
    case CAddr(id, fn) => if fn then ScalarOf(c) else Val(KPointer, [Item(Obj(id), Some(0))], false)
    case CNull => Val(KPointer, [Item(K(CNull), Some(0))], false)
    case _ => ScalarOf(c)
  }

  /** What byte `k` of a constant may hold. */
  function ConstByte(c: Const, k: nat): Abs
  {
    OneOf({OfCell(CellAt(c, k))})
  }

  lemma ScalarByte(c: Const, k: nat)
    ensures ByteAt(ScalarOf(c), k) == ConstByte(c, k)
  {
    PatternIn(ScalarOf(c), Item(K(c), None), k);
  }

  lemma ValueByte(c: Const, k: nat)
    requires ValidConst(c) && k < Size(c)
    ensures ByteAt(ValueOf(c), k) == ConstByte(c, k)
    ensures Fits(ValueOf(c), Size(c))
  {
    PatternIn(ValueOf(c), ValueOf(c).items[0], k);
  }

  /** No padding between array elements and no empty parts. Members of structs may have padding behind
      them. */
  predicate Laid(c: Const)
  {
    match c
    case CZero(ty) => ty.ArrayTy? || ty.StructTy?
    case CData(bits, alloc, _) => ByteInt(bits) && alloc == bits / 8
    case CArray(elemTy, elems) =>
      AllocSize(elemTy) == StoreSize(elemTy) && forall i :: 0 <= i < |elems| ==> Laid(elems[i])
    case CStruct(_, members) => members != [] && forall i :: 0 <= i < |members| ==> Laid(members[i]) && Size(members[i]) > 0
    case _ => true
  }

  /** Constants this model cuts. */
  predicate Cuttable(c: Const)
  {
    ValidConst(c) && Laid(c)
  }

  type CutConst = c: Const | Cuttable(c) witness CNull

  /** A value all of whose constants can be cut. */
  predicate Tidy(v: Val)
  {
    v.kind == KScalar ==> forall x {:trigger CanCut(x)} :: x in v.items ==> CanCut(x)
  }

  predicate CanCut(x: Item)
  {
    x.v.K? && Cuttable(x.v.c)
  }

  /** A value made of one constant or the address of one object. */
  predicate Constant(v: Val)
  {
    |v.items| == 1 && !v.overdef && (v.kind == KScalar || v.kind == KPointer) && !v.items[0].v.Token?
  }

  // ----- what a constant's bytes are

  /** The bytes of a constant. */
  function Image(c: Const): seq<Cell>
  {
    seq(Size(c), k requires 0 <= k => CellAt(c, k))
  }

  /** The extent says of its bytes what `cells`, placed at `above`, hold. */
  ghost predicate Faithful(e: Extent<Val>, cells: seq<Cell>, above: int)
  {
    && above <= e.start < e.stop <= above + |cells| && Fits(e.val, e.stop - e.start) && Tidy(e.val) && Constant(e.val)
    && forall k: nat :: k < e.stop - e.start ==> ByteAt(e.val, k) == OneOf({OfCell(cells[e.start - above + k])})
  }

  /** The pieces lie end to end over lo..hi and are faithful to `cells`. */
  ghost predicate Shows(pieces: Pieces, lo: nat, hi: nat, cells: seq<Cell>, above: int)
  {
    Tiles(pieces, lo, hi) && forall e {:trigger Faithful(e, cells, above)} :: e in pieces ==> Faithful(e, cells, above)
  }

  lemma ShowsConcat(p: Pieces, q: Pieces, lo: nat, mid: nat, hi: nat, cells: seq<Cell>, above: int)
    requires Shows(p, lo, mid, cells, above) && Shows(q, mid, hi, cells, above)
    ensures Shows(p + q, lo, hi, cells, above)
  {
    TilesConcat(p, q, lo, mid, hi);
  }

  lemma ShowsOne(e: Extent<Val>, cells: seq<Cell>, above: int)
    requires Faithful(e, cells, above)
    ensures Shows([e], e.start, e.stop, cells, above)
  {
    TilesOne(e);
  }

  lemma ShowsNone(lo: nat, cells: seq<Cell>, above: int)
    ensures Shows([], lo, lo, cells, above)
  {
  }

  /** Pieces of three stretches show the whole. */
  lemma ShowsThree(p: Pieces, q: Pieces, r: Pieces, lo: nat, x: nat, y: nat, hi: nat, cells: seq<Cell>, above: int)
    requires Shows(p, lo, x, cells, above) && Shows(q, x, y, cells, above) && Shows(r, y, hi, cells, above)
    ensures Shows(p + q + r, lo, hi, cells, above)
  {
    ShowsConcat(p, q, lo, x, y, cells, above);
    ShowsConcat(p + q, r, lo, y, hi, cells, above);
  }

  /** `part` makes up the cells from `base` on. */
  ghost predicate PartAt(cells: seq<Cell>, part: seq<Cell>, base: nat)
  {
    base + |part| <= |cells| && cells[base..base + |part|] == part
  }

  /** Extents of a part are extents of the whole. */
  lemma FaithfulPart(e: Extent<Val>, cells: seq<Cell>, part: seq<Cell>, base: nat, above: int)
    requires Faithful(e, part, above + base) && PartAt(cells, part, base)
    ensures Faithful(e, cells, above)
  {
    forall k: nat | k < e.stop - e.start ensures ByteAt(e.val, k) == OneOf({OfCell(cells[e.start - above + k])}) {
      var j := e.start - (above + base) + k;
      assert cells[base..base + |part|][j] == cells[base + j];
    }
  }

  lemma ShowsPart(pieces: Pieces, lo: nat, hi: nat, cells: seq<Cell>, part: seq<Cell>, base: nat, above: int)
    requires Shows(pieces, lo, hi, part, above + base) && PartAt(cells, part, base)
    ensures Shows(pieces, lo, hi, cells, above)
  {
    forall e | e in pieces ensures Faithful(e, cells, above) {
      FaithfulPart(e, cells, part, base, above);
    }
  }

  lemma ImageIs(c: Const)
    ensures |Image(c)| == Size(c) && forall k :: 0 <= k < Size(c) ==> Image(c)[k] == CellAt(c, k)
  {
  }

  /** A value that says at each byte what `c` holds from `off` on. */
  lemma ValueFaithful(v: Val, lo: nat, len: nat, c: Const, off: nat, above: nat)
    requires len > 0 && lo == above + off && off + len <= Size(c) && Fits(v, len) && Tidy(v) && Constant(v)
    requires forall k: nat :: k < len ==> ByteAt(v, k) == ConstByte(c, off + k)
    ensures Faithful(Extent(lo, lo + len, v), Image(c), above)
  {
    ImageIs(c);
    forall k: nat | k < len ensures ByteAt(v, k) == OneOf({OfCell(Image(c)[off + k])}) {
      assert ByteAt(v, k) == ConstByte(c, off + k);
    }
  }

  lemma WholeScalar(c: CutConst, above: nat)
    requires Size(c) > 0
    ensures Faithful(Extent(above, above + Size(c), ScalarOf(c)), Image(c), above)
  {
    forall k: nat | k < Size(c) ensures ByteAt(ScalarOf(c), k) == ConstByte(c, 0 + k) {
      ScalarByte(c, k);
    }
    ScalarFits(c, Size(c));
    ValueFaithful(ScalarOf(c), above, Size(c), c, 0, above);
  }

  lemma WholeValue(c: CutConst, above: nat)
    requires Size(c) > 0
    ensures Faithful(Extent(above, above + Size(c), ValueOf(c)), Image(c), above)
  {
    forall k: nat | k < Size(c) ensures ByteAt(ValueOf(c), k) == ConstByte(c, 0 + k) {
      ValueByte(c, k);
    }
    ValueByte(c, 0);
    ScalarFits(c, Size(c));
    ValueFaithful(ValueOf(c), above, Size(c), c, 0, above);
  }

  // ----- which constants can be cut where

  /** Position `x` is not strictly inside a leaf whose bytes cannot be read. */
  predicate CleanAt(c: Const, x: nat)
    decreases c
  {
    match c
    case CInt(bits, _, _) => ByteInt(bits) || x == 0 || Size(c) <= x
    case CNull => x == 0 || POINTER_SIZE <= x
    case CAddr(_, _) => x == 0 || POINTER_SIZE <= x
    case CZero(_) => true
    case CUndef(_) => true
    case CData(_, _, _) => true
    case CArray(elemTy, elems) =>
      var esize := AllocSize(elemTy);
      esize > 0 && x / esize < |elems| ==> CleanAt(elems[x / esize], x % esize)
    case CStruct(ty, members) =>
      ty.StructTy? && 0 < |ty.offsets| == |members| && ty.offsets[0] == 0 ==>
        var i := ElementContaining(ty.offsets, x);
        CleanAt(members[i], x - ty.offsets[i])
    case CTorn(_, _) => false
  }

  // ----- bytes as constants

  /** The `n` bytes of `c` from `off`, undef as 0. */
  function BytesFrom(c: Const, off: nat, n: nat): (r: seq<nat>)
    ensures |r| == n && forall i :: 0 <= i < n ==> r[i] == R.Flat(CellAt(c, off + i))
  {
    if n == 0 then [] else BytesFrom(c, off, n - 1) + [R.Flat(CellAt(c, off + (n - 1))) as nat]
  }

  /** The little-endian number a sequence of bytes spells. */
  function Spell(bytes: seq<nat>): nat
  {
    if bytes == [] then 0 else bytes[0] + 256 * Spell(bytes[1..])
  }

  lemma {:induction false} SpellByte(bytes: seq<nat>, k: nat)
    requires k < |bytes| && forall i :: 0 <= i < |bytes| ==> bytes[i] < 256
    ensures ByteOf(Spell(bytes), k) == bytes[k]
    decreases bytes
  {
    var v, rest := Spell(bytes), Spell(bytes[1..]);
    assert v == bytes[0] + 256 * rest;
    assert v / 256 == rest && v % 256 == bytes[0];
    if k == 0 {
      assert Pow256(0) == 1;
    } else {
      SpellByte(bytes[1..], k - 1);
      R.ByteShift(v, k - 1);
    }
  }

  /** The constant built from bytes: an integer up to 8 bytes, data beyond. */
  function FromBytes(bytes: seq<nat>): Const
  {
    if |bytes| <= 8 then CInt(8 * |bytes|, |bytes|, Spell(bytes)) else MakeData(bytes)
  }

  lemma FromBytesByte(bytes: seq<nat>, k: nat)
    requires k < |bytes| && forall i :: 0 <= i < |bytes| ==> bytes[i] < 256
    ensures CellAt(FromBytes(bytes), k) == Known(bytes[k])
    ensures ValidConst(FromBytes(bytes)) && Size(FromBytes(bytes)) == |bytes|
  {
    if |bytes| <= 8 {
      SpellByte(bytes, k);
      assert ByteInt(8 * |bytes|) && (8 * |bytes| + 7) / 8 == |bytes|;
    } else {
      DataByte(bytes, k);
    }
  }

  lemma FromBytesCuttable(bytes: seq<nat>)
    requires |bytes| > 0
    ensures Laid(FromBytes(bytes))
  {
    assert 8 % 8 == 0 && 8 / 8 == 1;
  }

  lemma BytesByte(c: Const, off: nat, n: nat, k: nat)
    requires k < n && CellAt(c, off + k).Known?
    ensures ByteAt(ScalarOf(FromBytes(BytesFrom(c, off, n))), k) == ConstByte(c, off + k)
    ensures Fits(ScalarOf(FromBytes(BytesFrom(c, off, n))), n) && Tidy(ScalarOf(FromBytes(BytesFrom(c, off, n))))
  {
    var bytes := BytesFrom(c, off, n);
    assert forall i :: 0 <= i < n ==> bytes[i] < 256;
    FromBytesByte(bytes, k);
    FromBytesCuttable(bytes);
    ScalarByte(FromBytes(bytes), k);
    ScalarFits(FromBytes(bytes), n);
  }

  lemma ScalarFits(c: Const, n: nat)
    requires Cuttable(c) && Size(c) == n
    ensures Fits(ScalarOf(c), n) && Tidy(ScalarOf(c))
  {
  }

  lemma BytesBytes(c: Const, off: nat, n: nat)
    requires n > 0 && forall k :: off <= k < off + n ==> CellAt(c, k).Known?
    ensures var v := ScalarOf(FromBytes(BytesFrom(c, off, n)));
            Fits(v, n) && Tidy(v) && forall k: nat :: k < n ==> ByteAt(v, k) == ConstByte(c, off + k)
  {
    var v := ScalarOf(FromBytes(BytesFrom(c, off, n)));
    forall k: nat | k < n ensures ByteAt(v, k) == ConstByte(c, off + k) {
      BytesByte(c, off, n, k);
    }
    BytesByte(c, off, n, 0);
  }

  lemma UndefFaithful(c: Const, off: nat, n: nat, above: nat)
    requires n > 0 && off + n <= Size(c) && c.CUndef?
    ensures Faithful(Extent(above + off, above + off + n, ScalarOf(CUndef(IntTy(8 * n, n)))), Image(c), above)
  {
    var u := CUndef(IntTy(8 * n, n));
    forall k: nat | k < n ensures ByteAt(ScalarOf(u), k) == ConstByte(c, off + k) {
      ScalarByte(u, k);
    }
    ScalarFits(u, n);
    ValueFaithful(ScalarOf(u), above + off, n, c, off, above);
  }

  // ----- getConstSubVals

  /** The numbers by which a range of a run of equal elements is cut. */
  datatype Cut = Cut(startE: nat, startOff: nat, endE: nat, endOff: nat)

  function ArrayCut(off: nat, n: nat, esize: nat): Cut
    requires esize > 0
  {
    Cut(off / esize, off % esize, (off + n) / esize, (off + n) % esize)
  }

  lemma ArrayCutFacts(off: nat, n: nat, esize: nat, count: nat)
    requires esize > 0 && n > 0 && off + n <= count * esize
    ensures var Cut(startE, startOff, endE, endOff) := ArrayCut(off, n, esize);
            && startE * esize + startOff == off && startOff < esize
            && endE * esize + endOff == off + n && endOff < esize
            && startE < count && startE <= endE <= count
            && (startE == endE ==> startOff + n == endOff)
            && (startE < endE ==> startE * esize + esize <= endE * esize)
            && (endOff > 0 ==> endE < count)
  {
    var Cut(startE, startOff, endE, endOff) := ArrayCut(off, n, esize);
    R.DivStart(off, count, esize);
    R.DivStart(off + n, count, esize);
    CutOrder(startE, startOff, endE, endOff, n, esize);
  }

  lemma CutOrder(startE: nat, startOff: nat, endE: nat, endOff: nat, n: nat, esize: nat)
    requires startE * esize + startOff + n == endE * esize + endOff && startOff < esize && endOff < esize && n > 0
    ensures startE <= endE && (startE == endE ==> startOff + n == endOff) && (startE < endE ==> startE * esize + esize <= endE * esize)
  {
    if endE < startE {
      MulMonotone(endE + 1, startE, esize);
      assert false;
    }
    if startE < endE {
      MulMonotone(startE + 1, endE, esize);
    }
  }

  /** Where element `i` of an array starts. */
  function Place(c: Const, i: nat): nat
    requires c.CArray?
  {
    R.ElementStart(AllocSize(c.elemTy), i)
  }

  lemma PlaceIs(c: Const, i: nat)
    requires c.CArray?
    ensures Place(c, i) == i * AllocSize(c.elemTy)
  {
    R.ElementStartIs(AllocSize(c.elemTy), i);
  }

  /** The whole elements from..to of an array as one extent: the element itself if there is one. Several
      are made into a constant of the type of the whole array, which is right only if they turn into
      data, whose type follows its contents. */
  function WholeElements(c: Const, from: nat, to: nat, above: nat): Pieces
    requires c.CArray? && from <= to <= |c.elems|
  {
    if from == to then []
    else
      var v := if to == from + 1 then ValueOf(c.elems[from]) else ScalarOf(MakeArray(TyOf(c), c.elems[from..to]));
      [Extent(above + Place(c, from), above + Place(c, to), v)]
  }

  /** Integers of standard widths, not all zero. */
  predicate DataRun(elems: seq<Const>)
  {
    elems != [] && AllDataInts(elems) && !(IsNullConst(elems[0]) && AllSame(elems))
  }

  /** The whole elements from..to come out with their own size. */
  predicate Runs(c: Const, from: nat, to: nat)
    requires c.CArray? && from <= to <= |c.elems|
  {
    to <= from + 1 || DataRun(c.elems[from..to])
  }

  /** Where member `i` of a struct starts. */
  function Offset(c: CutConst, i: nat): nat
    requires c.CStruct? && i < |c.members|
  {
    c.structTy.offsets[i]
  }

  /** How many bytes of padding are behind it. */
  function PadBehind(c: CutConst, i: nat): nat
    requires c.CStruct? && i < |c.members|
  {
    CuttableMember(c, i);
    (if i + 1 < |c.members| then Offset(c, i + 1) else Size(c)) - (Offset(c, i) + Size(c.members[i]))
  }

  /** The padding between a member and the next as an extent of undef. */
  function Padding(c: CutConst, i: nat, above: nat): Pieces
    requires c.CStruct? && i < |c.members|
  {
    var at, n := above + Offset(c, i) + Size(c.members[i]), PadBehind(c, i);
    if n == 0 || i + 1 == |c.members| then [] else [Extent(at, at + n, ScalarOf(CUndef(IntTy(8 * n, n))))]
  }

  /** The whole members from..to of a struct, an extent each, and the padding behind them. */
  function WholeMembers(c: CutConst, from: nat, to: nat, above: nat): Pieces
    requires c.CStruct? && from <= to <= |c.members|
    decreases |c.members| - from
  {
    if from == to then []
    else
      var at := above + Offset(c, from);
      [Extent(at, at + Size(c.members[from]), ValueOf(c.members[from]))] + Padding(c, from, above) + WholeMembers(c, from + 1, to, above)
  }

  lemma CuttableElement(c: CutConst, i: nat)
    requires c.CArray? && i < |c.elems|
    ensures Cuttable(c.elems[i]) && Size(c.elems[i]) == AllocSize(c.elemTy) > 0
  {
  }

  lemma CuttableMember(c: CutConst, i: nat)
    requires c.CStruct? && i < |c.members|
    ensures Cuttable(c.members[i]) && Size(c.members[i]) > 0
    ensures c.structTy.offsets[i] + Size(c.members[i]) <=
            if i + 1 < |c.members| then c.structTy.offsets[i + 1] else c.structTy.size
    ensures Size(c) == c.structTy.size
  {
    var ty := c.structTy;
    R.StoreWithinAlloc(ty.fields[i]);
    assert EndsBy(ty.fields, ty.offsets, i, if i + 1 < |c.members| then ty.offsets[i + 1] else ty.size);
  }

  /** `getConstSubVals`: bytes off..off + n of a constant as a list of extents, each `above` higher.
      Whole elements and members are taken whole; integers and data are taken as bytes. */
  function ConstSubVals(c: CutConst, off: nat, n: nat, above: nat): Pieces
    requires n > 0 && off + n <= Size(c)
    decreases c, 2
  {
    if off == 0 && n == Size(c) then [Extent(above, above + n, ScalarOf(c))]
    else match c
      case CArray(_, _) => ArraySubVals(c, off, n, above)
      case CStruct(_, _) => StructSubVals(c, off, n, above)
      case CUndef(_) => [Extent(above + off, above + off + n, ScalarOf(CUndef(IntTy(8 * n, n))))]
      case _ =>
        if forall k :: off <= k < off + n ==> !R.Refused(c, k)
        then [Extent(above + off, above + off + n, ScalarOf(FromBytes(BytesFrom(c, off, n))))]
        else [Extent(off, n, OVERDEF)]
  }

  function ArraySubVals(c: CutConst, off: nat, n: nat, above: nat): Pieces
    requires c.CArray? && n > 0 && off + n <= Size(c)
    decreases c, 1, 1
  {
    ArrayCutFacts(off, n, AllocSize(c.elemTy), |c.elems|);
    ArrayPieces(c, ArrayCut(off, n, AllocSize(c.elemTy)), n, above)
  }

  /** The cut starts and ends in the array. */
  predicate InArray(c: Const, cut: Cut, n: nat)
  {
    && c.CArray? && n > 0 && cut.startE < |c.elems| && cut.startE <= cut.endE <= |c.elems|
    && cut.startOff < AllocSize(c.elemTy) && cut.endOff < AllocSize(c.elemTy)
    && (cut.startE == cut.endE ==> cut.startOff + n == cut.endOff) && (cut.endOff > 0 ==> cut.endE < |c.elems|)
  }

  function ArrayPieces(c: CutConst, cut: Cut, n: nat, above: nat): Pieces
    requires InArray(c, cut, n)
    decreases c, 1, 0
  {
    var Cut(startE, startOff, endE, endOff) := cut;
    if startOff > 0 && startE == endE then ArrayLeft(c, startE, startOff, n, above)
    else
      ArrayLeft(c, startE, startOff, AllocSize(c.elemTy) - startOff, above)
      + WholeElements(c, if startOff == 0 then startE else startE + 1, endE, above)
      + ArrayRight(c, endE, endOff, above)
  }

  function ArrayLeft(c: CutConst, i: nat, off: nat, n: nat, above: nat): Pieces
    requires c.CArray? && i < |c.elems| && off + n <= AllocSize(c.elemTy) && n > 0
    decreases c, 0
  {
    CuttableElement(c, i);
    if off == 0 then [] else ConstSubVals(c.elems[i], off, n, above + Place(c, i))
  }

  function ArrayRight(c: CutConst, i: nat, n: nat, above: nat): Pieces
    requires c.CArray? && (n > 0 ==> i < |c.elems| && n < AllocSize(c.elemTy))
    decreases c, 0
  {
    if n == 0 then [] else (CuttableElement(c, i); ConstSubVals(c.elems[i], 0, n, above + Place(c, i)))
  }

  function StructSubVals(c: CutConst, off: nat, n: nat, above: nat): Pieces
    requires c.CStruct? && n > 0 && off + n <= Size(c)
    decreases c, 1, 1
  {
    if EndsInMembers(c, off, n) then MembersSubVals(c, off, n, above) else PaddingSubVals(c, off, n, above)
  }

  /** Neither does the range start in the padding behind a member nor end further into it. */
  predicate EndsInMembers(c: CutConst, off: nat, n: nat)
    requires c.CStruct?
  {
    var Cut(startE, startOff, endE, endOff) := StructCut(c, off, n);
    startOff < Size(c.members[startE]) && endOff <= Size(c.members[endE])
  }

  /** An end in the padding is taken for one past the end of the member before it: the part of the
      member, and an unknown extent that is misplaced. Where the range starts there, the member's size is
      less than the offset into it, and what comes of the difference is not followed further. */
  function PaddingSubVals(c: CutConst, off: nat, n: nat, above: nat): Pieces
    requires c.CStruct? && n > 0 && off + n <= Size(c) && !EndsInMembers(c, off, n)
    decreases c, 1, 0
  {
    StructCutEnds(c, off, n);
    var Cut(startE, startOff, endE, endOff) := StructCut(c, off, n);
    var size := Size(c.members[startE]);
    if startOff >= size then [Extent(off, n, OVERDEF)]
    else if startOff > 0 && startE == endE then PastMember(c, startE, startOff, endOff, above)
    else
      StructLeft(c, startE, startOff, size - startOff, above)
      + WholeMembers(c, if startOff == 0 then startE else startE + 1, endE, above)
      + PastMember(c, endE, 0, endOff, above)
  }

  function PastMember(c: CutConst, i: nat, from: nat, to: nat, above: nat): Pieces
    requires c.CStruct? && i < |c.members| && from < Size(c.members[i]) < to
    decreases c, 0
  {
    CuttableMember(c, i);
    var size := Size(c.members[i]);
    ConstSubVals(c.members[i], from, size - from, above + Offset(c, i)) + [Extent(size, to - size, OVERDEF)]
  }

  function MembersSubVals(c: CutConst, off: nat, n: nat, above: nat): Pieces
    requires c.CStruct? && n > 0 && off + n <= Size(c) && EndsInMembers(c, off, n)
    decreases c, 1, 0
  {
    StructCutFacts(c, off, n);
    var Cut(startE, startOff, endE, endOff) := StructCut(c, off, n);
    if startOff > 0 && startE == endE then StructLeft(c, startE, startOff, n, above)
    else
      StructLeft(c, startE, startOff, Size(c.members[startE]) - startOff, above)
      + WholeMembers(c, if startOff == 0 then startE else startE + 1, endE, above)
      + StructRight(c, endE, endOff, above)
  }

  function StructCut(c: CutConst, off: nat, n: nat): Cut
    requires c.CStruct?
  {
    var offsets := c.structTy.offsets;
    var startE, endE := ElementContaining(offsets, off), ElementContaining(offsets, off + n);
    Cut(startE, off - offsets[startE], endE, off + n - offsets[endE])
  }

  function StructLeft(c: CutConst, i: nat, off: nat, n: nat, above: nat): Pieces
    requires c.CStruct? && i < |c.members| && off + n <= Size(c.members[i]) && n > 0
    decreases c, 0
  {
    CuttableMember(c, i);
    if off == 0 then [] else ConstSubVals(c.members[i], off, n, above + c.structTy.offsets[i])
  }

  function StructRight(c: CutConst, i: nat, n: nat, above: nat): Pieces
    requires c.CStruct? && i < |c.members| && n <= Size(c.members[i])
    decreases c, 0
  {
    CuttableMember(c, i);
    if n == 0 then [] else ConstSubVals(c.members[i], 0, n, above + c.structTy.offsets[i])
  }

  lemma StructCutFacts(c: CutConst, off: nat, n: nat)
    requires c.CStruct? && n > 0 && off + n <= Size(c) && EndsInMembers(c, off, n)
    ensures var Cut(startE, startOff, endE, endOff) := StructCut(c, off, n);
            && startE <= endE < |c.members| && startOff < Size(c.members[startE]) && endOff <= Size(c.members[endE])
            && c.structTy.offsets[startE] + startOff == off && c.structTy.offsets[endE] + endOff == off + n
            && (startE < endE ==> c.structTy.offsets[startE] + Size(c.members[startE]) <= c.structTy.offsets[endE])
  {
    StructCutEnds(c, off, n);
  }

  /** The extents of a range whose ends lie in one member. */
  lemma InsideIs(c: CutConst, off: nat, n: nat, above: nat)
    requires c.CStruct? && n > 0 && off + n <= Size(c) && EndsInMembers(c, off, n)
    requires var cut := StructCut(c, off, n); cut.startOff > 0 && cut.startE == cut.endE
    ensures var cut := StructCut(c, off, n);
            && cut.startE < |c.members| && cut.startOff + n <= Size(c.members[cut.startE])
            && StructSubVals(c, off, n, above) == StructLeft(c, cut.startE, cut.startOff, n, above)
            && (StructNoTear(c, off, n) <==> MemberNoTear(c, cut.startE, cut.startOff, n))
  {
    StructCutFacts(c, off, n);
  }

  /** The extents of a range whose ends lie in two. */
  lemma AcrossIs(c: CutConst, off: nat, n: nat, above: nat)
    requires c.CStruct? && n > 0 && off + n <= Size(c) && EndsInMembers(c, off, n)
    requires var cut := StructCut(c, off, n); !(cut.startOff > 0 && cut.startE == cut.endE)
    ensures var Cut(startE, startOff, endE, endOff) := StructCut(c, off, n);
            && startE <= endE < |c.members| && startOff < Size(c.members[startE]) && endOff <= Size(c.members[endE])
            && StructSubVals(c, off, n, above) ==
               StructLeft(c, startE, startOff, Size(c.members[startE]) - startOff, above)
               + WholeMembers(c, if startOff == 0 then startE else startE + 1, endE, above)
               + StructRight(c, endE, endOff, above)
  {
    StructCutFacts(c, off, n);
  }

  /** Something is torn or left out in the two members the ends lie in. */
  predicate TornAcross(c: CutConst, cut: Cut)
    requires c.CStruct? && cut.startE < |c.members| && cut.startOff < Size(c.members[cut.startE])
    requires cut.endE < |c.members| && cut.endOff <= Size(c.members[cut.endE])
  {
    || (cut.startOff > 0 && (PadBehind(c, cut.startE) > 0 || !MemberNoTear(c, cut.startE, cut.startOff, Size(c.members[cut.startE]) - cut.startOff)))
    || (cut.endOff > 0 && !MemberNoTear(c, cut.endE, 0, cut.endOff))
  }

  lemma AcrossNoTear(c: CutConst, off: nat, n: nat)
    requires c.CStruct? && n > 0 && off + n <= Size(c) && EndsInMembers(c, off, n)
    requires var cut := StructCut(c, off, n); !(cut.startOff > 0 && cut.startE == cut.endE)
    ensures var cut := StructCut(c, off, n);
            && cut.startE <= cut.endE < |c.members| && cut.startOff < Size(c.members[cut.startE]) && cut.endOff <= Size(c.members[cut.endE])
            && (StructNoTear(c, off, n) <==> !TornAcross(c, cut))
  {
    StructCutFacts(c, off, n);
  }

  /** The members at the two ends of a range. */
  lemma StructCutEnds(c: CutConst, off: nat, n: nat)
    requires c.CStruct? && n > 0 && off + n <= Size(c)
    ensures var Cut(startE, startOff, endE, endOff) := StructCut(c, off, n);
            && startE <= endE < |c.members|
            && c.structTy.offsets[startE] + startOff == off && c.structTy.offsets[endE] + endOff == off + n
            && (startE < endE ==> c.structTy.offsets[startE] + Size(c.members[startE]) <= c.structTy.offsets[endE])
  {
    var offsets := c.structTy.offsets;
    var startE, endE := ElementContaining(offsets, off), ElementContaining(offsets, off + n);
    CuttableMember(c, startE);
    CuttableMember(c, endE);
    if startE < endE {
      R.OffsetsGrow(c.structTy, startE + 1, endE);
    } else if endE < startE {
      R.OffsetsGrow(c.structTy, endE + 1, startE);
      assert false;
    }
  }

  // ----- which cuts are right

  /** Where bytes off..off + n take several whole elements of an array, but not all, those are integers
      that become data; and neither end of the range lies in padding, nor is padding passed over behind a
      member of which only the end is taken. */
  predicate NoTear(c: CutConst, off: nat, n: nat)
    requires n > 0 && off + n <= Size(c)
    decreases c, 2
  {
    || (off == 0 && n == Size(c))
    || match c
       case CArray(elemTy, elems) =>
         ArrayCutFacts(off, n, AllocSize(elemTy), |elems|);
         ArrayNoTear(c, ArrayCut(off, n, AllocSize(elemTy)), n)
       case CStruct(_, _) => StructNoTear(c, off, n)
       case _ => true
  }

  predicate ArrayNoTear(c: CutConst, cut: Cut, n: nat)
    requires InArray(c, cut, n)
    decreases c, 1
  {
    if cut.startOff > 0 && cut.startE == cut.endE then ElementNoTear(c, cut.startE, cut.startOff, n)
    else
      && (cut.startOff > 0 ==> ElementNoTear(c, cut.startE, cut.startOff, AllocSize(c.elemTy) - cut.startOff))
      && Runs(c, if cut.startOff == 0 then cut.startE else cut.startE + 1, cut.endE)
      && (cut.endOff > 0 ==> ElementNoTear(c, cut.endE, 0, cut.endOff))
  }

  predicate ElementNoTear(c: CutConst, i: nat, off: nat, n: nat)
    requires c.CArray? && i < |c.elems| && off + n <= AllocSize(c.elemTy) && n > 0
    decreases c, 0
  {
    CuttableElement(c, i);
    NoTear(c.elems[i], off, n)
  }

  predicate StructNoTear(c: CutConst, off: nat, n: nat)
    requires c.CStruct? && n > 0 && off + n <= Size(c)
    decreases c, 1, 1
  {
    && EndsInMembers(c, off, n)
    && MembersNoTear(c, off, n)
  }

  predicate MembersNoTear(c: CutConst, off: nat, n: nat)
    requires c.CStruct? && n > 0 && off + n <= Size(c) && EndsInMembers(c, off, n)
    decreases c, 1, 0
  {
    StructCutFacts(c, off, n);
    var Cut(startE, startOff, endE, endOff) := StructCut(c, off, n);
    if startOff > 0 && startE == endE then MemberNoTear(c, startE, startOff, n)
    else
      && (startOff > 0 ==> PadBehind(c, startE) == 0 && MemberNoTear(c, startE, startOff, Size(c.members[startE]) - startOff))
      && (endOff > 0 ==> MemberNoTear(c, endE, 0, endOff))
  }

  predicate MemberNoTear(c: CutConst, i: nat, off: nat, n: nat)
    requires c.CStruct? && i < |c.members| && off + n <= Size(c.members[i]) && n > 0
    decreases c, 0
  {
    CuttableMember(c, i);
    NoTear(c.members[i], off, n)
  }

  /** Neither end of the range cuts a leaf that cannot be read, and no array is torn. */
  predicate CleanCut(c: Const, off: nat, n: nat)
  {
    && Cuttable(c) && n > 0 && off + n <= Size(c)
    && CleanAt(c, off) && CleanAt(c, off + n) && NoTear(c, off, n)
  }

  // ----- sub-values agree with the constant

  lemma {:induction false} CleanAtStart(c: Const)
    requires ValidConst(c)
    ensures CleanAt(c, 0)
    decreases c
  {
    match c
    case CArray(elemTy, elems) =>
      assert 0 / AllocSize(elemTy) == 0 && 0 % AllocSize(elemTy) == 0;
      if |elems| > 0 {
        CleanAtStart(elems[0]);
      }
    case CStruct(ty, members) =>
      CleanAtStart(members[ElementContaining(ty.offsets, 0)]);
    case _ =>
  }

  /** A position past the end cuts nothing. */
  lemma {:induction false} CleanPast(c: CutConst, x: nat)
    requires Size(c) <= x
    ensures CleanAt(c, x)
    decreases c
  {
    match c
    case CArray(elemTy, elems) =>
      DivPast(x, |elems|, AllocSize(elemTy));
    case CStruct(ty, members) =>
      var last := |members| - 1;
      CuttableMember(c, last);
      R.MemberIndex(ty, last, x);
      CleanPast(members[last], x - ty.offsets[last]);
    case _ =>
  }

  lemma CleanAtEnd(c: CutConst)
    ensures CleanAt(c, Size(c))
  {
    CleanPast(c, Size(c));
  }

  lemma ElementPart(c: CutConst, i: nat)
    requires c.CArray? && i < |c.elems|
    ensures PartAt(Image(c), Image(c.elems[i]), Place(c, i))
  {
    CuttableElement(c, i);
    R.ElementBytes(c, i);
    PlaceIs(c, i);
    ElementInside(i, |c.elems|, AllocSize(c.elemTy));
    PlacedPart(c, c.elems[i], Place(c, i));
  }

  lemma ElementInside(i: nat, count: nat, esize: nat)
    requires i < count
    ensures i * esize + esize <= count * esize
  {
    MulMonotone(i + 1, count, esize);
  }

  lemma MemberPart(c: CutConst, i: nat)
    requires c.CStruct? && i < |c.members|
    ensures PartAt(Image(c), Image(c.members[i]), c.structTy.offsets[i])
  {
    var m := c.members[i];
    CuttableMember(c, i);
    MemberInside(c, i);
    R.MemberBytes(c, i, 0, Size(m));
    assert R.Placed(c, m, c.structTy.offsets[i], 0, Size(m));
    PlacedPart(c, m, c.structTy.offsets[i]);
  }

  lemma MemberInside(c: CutConst, i: nat)
    requires c.CStruct? && i < |c.members|
    ensures c.structTy.offsets[i] + Size(c.members[i]) <= Size(c)
  {
    CuttableMember(c, i);
    if i + 1 < |c.members| {
      R.OffsetsGrow(c.structTy, i + 1, |c.members| - 1);
      CuttableMember(c, |c.members| - 1);
    }
  }

  lemma PlacedPart(c: Const, m: Const, base: nat)
    requires base + Size(m) <= Size(c) && R.Placed(c, m, base, 0, Size(m))
    ensures PartAt(Image(c), Image(m), base)
  {
    CellsPart(c, m, base);
  }

  /** A part of a constant, taken whole. */
  lemma PartWhole(cells: seq<Cell>, m: CutConst, base: nat, above: nat, lo: nat, hi: nat, v: Val)
    requires lo == above + base && hi == lo + Size(m) && Size(m) > 0 && (v == ValueOf(m) || v == ScalarOf(m))
    requires PartAt(cells, Image(m), base)
    ensures Shows([Extent(lo, hi, v)], lo, hi, cells, above)
  {
    WholeValue(m, lo);
    WholeScalar(m, lo);
    FaithfulPart(Extent(lo, hi, v), cells, Image(m), base, above);
    ShowsOne(Extent(lo, hi, v), cells, above);
  }

  /** Whole elements of an array show the array. */
  lemma WholeElementsShow(c: CutConst, from: nat, to: nat, above: nat, lo: nat, hi: nat)
    requires c.CArray? && from <= to <= |c.elems| && Runs(c, from, to)
    requires lo == above + Place(c, from) && hi == above + Place(c, to)
    ensures var shown := Shows(WholeElements(c, from, to, above), lo, hi, Image(c), above); shown
  {
    if from == to {
      ShowsNone(lo, Image(c), above);
    } else if to == from + 1 {
      OneElementShows(c, from, Place(c, from), above, lo, hi);
    } else {
      DataRunShows(c, from, to, Place(c, from), Place(c, to), above, lo, hi);
    }
  }

  lemma OneElementShows(c: CutConst, i: nat, base: nat, above: nat, lo: nat, hi: nat)
    requires c.CArray? && i < |c.elems| && base == Place(c, i)
    requires lo == above + base && hi == lo + AllocSize(c.elemTy)
    ensures var shown := Shows([Extent(lo, hi, ValueOf(c.elems[i]))], lo, hi, Image(c), above); shown
  {
    ElementPart(c, i);
    CuttableElement(c, i);
    PartWhole(Image(c), c.elems[i], base, above, lo, hi, ValueOf(c.elems[i]));
  }

  lemma DataRunShows(c: CutConst, from: nat, to: nat, base: nat, end: nat, above: nat, lo: nat, hi: nat)
    requires c.CArray? && from < to <= |c.elems| && base == Place(c, from) && end == Place(c, to)
    requires lo == above + base && hi == above + end && DataRun(c.elems[from..to])
    ensures var shown := Shows([Extent(lo, hi, ScalarOf(MakeArray(TyOf(c), c.elems[from..to])))], lo, hi, Image(c), above); shown
  {
    var sub := MakeArray(TyOf(c), c.elems[from..to]);
    DataRunSpan(c, from, to, base, end);
    PartWhole(Image(c), sub, base, above, lo, hi, ScalarOf(sub));
  }

  lemma WholeSpan(from: nat, to: nat, esize: nat)
    requires from <= to
    ensures from * esize + (to - from) * esize == to * esize
  {
  }

  lemma DataRunSpan(c: CutConst, from: nat, to: nat, base: nat, end: nat)
    requires c.CArray? && from < to <= |c.elems| && DataRun(c.elems[from..to]) && base == Place(c, from) && end == Place(c, to)
    ensures var sub := MakeArray(TyOf(c), c.elems[from..to]);
            Cuttable(sub) && 0 < Size(sub) == end - base && PartAt(Image(c), Image(sub), base)
  {
    PlaceIs(c, from);
    PlaceIs(c, to);
    WholeSpan(from, to, AllocSize(c.elemTy));
    DataRunPart(c, from, to, base);
  }

  /** A run of integers made into data. */
  lemma DataRunPart(c: CutConst, from: nat, to: nat, base: nat)
    requires c.CArray? && from < to <= |c.elems| && DataRun(c.elems[from..to]) && base == from * AllocSize(c.elemTy)
    ensures var sub := MakeArray(TyOf(c), c.elems[from..to]);
            && Cuttable(sub) && Size(sub) == (to - from) * AllocSize(c.elemTy) > 0 && PartAt(Image(c), Image(sub), base)
  {
    var esize, sub := AllocSize(c.elemTy), MakeArray(TyOf(c), c.elems[from..to]);
    DataRunValid(c, from, to);
    WholeSpan(from, to, esize);
    CuttableElement(c, from);
    MulMonotone(to, |c.elems|, esize);
    MulMonotone(1, to - from, esize);
    forall k: nat | k < Size(sub) ensures CellAt(c, base + k) == CellAt(sub, k) {
      DataRunCell(c, from, to, base, k);
    }
    CellsPart(c, sub, base);
  }

  lemma DataRunValid(c: CutConst, from: nat, to: nat)
    requires c.CArray? && from < to <= |c.elems| && DataRun(c.elems[from..to])
    ensures var sub := MakeArray(TyOf(c), c.elems[from..to]);
            && c.elemTy.IntTy? && sub == CData(c.elemTy.bits, c.elemTy.alloc, ValuesOf(c.elems[from..to]))
            && Cuttable(sub) && Size(sub) == (to - from) * AllocSize(c.elemTy)
  {
    var first := c.elems[from..to][0];
    assert first == c.elems[from] && DataInt(first) && TyOf(first) == c.elemTy;
    CuttableElement(c, from);
  }

  /** A byte of the array and the byte of the data that stands for it. */
  lemma DataRunCell(c: CutConst, from: nat, to: nat, base: nat, k: nat)
    requires c.CArray? && from < to <= |c.elems| && base == from * AllocSize(c.elemTy) && DataRun(c.elems[from..to])
    requires k < (to - from) * AllocSize(c.elemTy)
    ensures CellAt(c, base + k) == CellAt(MakeArray(TyOf(c), c.elems[from..to]), k)
  {
    var esize, kept := AllocSize(c.elemTy), c.elems[from..to];
    CuttableElement(c, from);
    DataRunValid(c, from, to);
    DivBound(k, to - from, esize);
    DivNonNeg(k, esize);
    ShiftDiv(from, base, k, esize);
    DataRunElem(c, from, kept, k / esize, k % esize);
  }

  lemma DataRunElem(c: CutConst, from: nat, kept: seq<Const>, i: nat, k: nat)
    requires c.CArray? && from + |kept| <= |c.elems| && kept == c.elems[from..from + |kept|] && i < |kept| && AllDataInts(kept)
    ensures c.elemTy.IntTy? && CellAt(c.elems[from + i], k) == IntCell(c.elemTy.bits, ValuesOf(kept)[i], k)
  {
    assert kept[i] == c.elems[from + i] && DataInt(kept[i]) && TyOf(c.elems[from + i]) == c.elemTy;
  }

  lemma CellsPart(c: Const, m: Const, base: nat)
    requires base + Size(m) <= Size(c) && forall k: nat :: k < Size(m) ==> CellAt(c, base + k) == CellAt(m, k)
    ensures PartAt(Image(c), Image(m), base)
  {
    ImageIs(c);
    ImageIs(m);
    forall k: nat | k < Size(m) ensures Image(c)[base..base + Size(m)][k] == Image(m)[k] {
      assert CellAt(c, base + k) == CellAt(m, k);
    }
  }

  lemma ShiftDiv(from: nat, base: nat, k: nat, esize: nat)
    requires esize > 0 && base == from * esize
    ensures (base + k) / esize == from + k / esize && (base + k) % esize == k % esize
  {
    var q, r := k / esize, k % esize;
    assert k == q * esize + r;
    assert (from + q) * esize == base + q * esize;
    R.DivMod2((from + q) * esize, from + q, esize, r);
  }

  lemma {:induction false} WholeMembersShow(c: CutConst, from: nat, to: nat, above: nat, lo: nat, hi: nat)
    requires c.CStruct? && from <= to < |c.members|
    requires lo == above + c.structTy.offsets[from] && hi == above + c.structTy.offsets[to]
    ensures var shown := Shows(WholeMembers(c, from, to, above), lo, hi, Image(c), above); shown
    decreases |c.members| - from
  {
    if from == to {
      ShowsNone(lo, Image(c), above);
    } else {
      var m := c.members[from];
      CuttableMember(c, from);
      var mid, next := lo + Size(m), above + Offset(c, from + 1);
      OneMemberShows(c, from, above, lo, mid);
      PaddingShows(c, from, above, mid, next);
      WholeMembersShow(c, from + 1, to, above, next, hi);
      ShowsThree([Extent(lo, mid, ValueOf(m))], Padding(c, from, above), WholeMembers(c, from + 1, to, above), lo, mid, next, hi, Image(c), above);
    }
  }

  lemma PaddingShows(c: CutConst, i: nat, above: nat, lo: nat, hi: nat)
    requires c.CStruct? && i + 1 < |c.members| && lo == above + Offset(c, i) + Size(c.members[i]) && hi == above + Offset(c, i + 1)
    ensures var shown := Shows(Padding(c, i, above), lo, hi, Image(c), above); shown
  {
    var n, off := PadBehind(c, i), Offset(c, i) + Size(c.members[i]);
    assert lo + n == hi;
    if n == 0 {
      ShowsNone(lo, Image(c), above);
    } else {
      PaddingBytes(c, i, off, n);
      MemberInside(c, i + 1);
      ScalarFits(CUndef(IntTy(8 * n, n)), n);
      OneShows(ScalarOf(CUndef(IntTy(8 * n, n))), c, off, n, above, lo, hi);
    }
  }

  /** A value that says what the bytes are shows them. */
  lemma OneShows(v: Val, c: CutConst, off: nat, n: nat, above: nat, lo: nat, hi: nat)
    requires n > 0 && lo == above + off && hi == lo + n && off + n <= Size(c) && Fits(v, n) && Tidy(v) && Constant(v)
    requires forall k: nat :: k < n ==> ByteAt(v, k) == ConstByte(c, off + k)
    ensures var shown := Shows([Extent(lo, hi, v)], lo, hi, Image(c), above); shown
  {
    ValueFaithful(v, lo, n, c, off, above);
    ShowsOne(Extent(lo, hi, v), Image(c), above);
  }

  /** Padding holds undef. */
  lemma PaddingBytes(c: CutConst, i: nat, off: nat, n: nat)
    requires c.CStruct? && i + 1 < |c.members| && n == PadBehind(c, i) > 0 && off == Offset(c, i) + Size(c.members[i])
    ensures forall k: nat :: k < n ==> ByteAt(ScalarOf(CUndef(IntTy(8 * n, n))), k) == ConstByte(c, off + k)
  {
    var u := CUndef(IntTy(8 * n, n));
    forall k: nat | k < n ensures ByteAt(ScalarOf(u), k) == ConstByte(c, off + k) {
      PaddingByte(c, i, Size(c.members[i]) + k);
      ScalarByte(u, k);
    }
  }

  lemma PaddingByte(c: CutConst, i: nat, k: nat)
    requires c.CStruct? && i + 1 < |c.members| && Size(c.members[i]) <= k && Offset(c, i) + k < Offset(c, i + 1)
    ensures CellAt(c, Offset(c, i) + k) == Any
  {
    CuttableMember(c, i);
    R.MemberByte(c, i, k);
    CellPast(c.members[i], k);
  }

  lemma {:induction false} CellPast(c: Const, k: nat)
    requires Cuttable(c) && Size(c) <= k
    ensures CellAt(c, k) == Any
  {
    if !c.CInt? && !c.CUndef? {
      CellPastEnd(c, k);
    }
  }

  lemma OneMemberShows(c: CutConst, i: nat, above: nat, lo: nat, hi: nat)
    requires c.CStruct? && i < |c.members| && lo == above + c.structTy.offsets[i] && hi == lo + Size(c.members[i])
    ensures var shown := Shows([Extent(lo, hi, ValueOf(c.members[i]))], lo, hi, Image(c), above); shown
  {
    CuttableMember(c, i);
    MemberPart(c, i);
    PartWhole(Image(c), c.members[i], c.structTy.offsets[i], above, lo, hi, ValueOf(c.members[i]));
  }

  /** A leaf cut cleanly, but not taken whole, can be read as bytes. */
  lemma LeafReadable(c: CutConst, off: nat, n: nat)
    requires n > 0 && off + n <= Size(c) && !(off == 0 && n == Size(c))
    requires CleanAt(c, off) && CleanAt(c, off + n) && !c.CArray? && !c.CStruct? && !c.CUndef?
    ensures forall k :: off <= k < off + n ==> !R.Refused(c, k) && CellAt(c, k).Known?
  {
    if c.CData? {
      forall k | off <= k < off + n ensures CellAt(c, k).Known? {
        DivBound(k, |c.vals|, c.alloc);
      }
    }
  }

  /** The extents `getConstSubVals` produces lie end to end over the range asked for and agree with
      the constant at every byte, provided neither end cuts a leaf that cannot be read. */
  lemma {:induction false} SubValsShow(c: CutConst, off: nat, n: nat, above: nat, lo: nat, hi: nat)
    requires n > 0 && off + n <= Size(c) && lo == above + off && hi == lo + n && CleanCut(c, off, n)
    ensures var shown := Shows(ConstSubVals(c, off, n, above), lo, hi, Image(c), above); shown
    decreases c, 6
  {
    if off == 0 && n == Size(c) {
      WholeScalar(c, above);
      ShowsOne(Extent(lo, hi, ScalarOf(c)), Image(c), above);
    } else if c.CArray? {
      ArraySubValsShow(c, off, n, above, lo, hi);
    } else if c.CStruct? {
      StructSubValsShow(c, off, n, above, lo, hi);
    } else {
      LeafSubValsShow(c, off, n, above, lo, hi);
    }
  }

  lemma LeafSubValsShow(c: CutConst, off: nat, n: nat, above: nat, lo: nat, hi: nat)
    requires n > 0 && off + n <= Size(c) && lo == above + off && hi == lo + n && CleanCut(c, off, n)
    requires !(off == 0 && n == Size(c)) && !c.CArray? && !c.CStruct?
    ensures var shown := Shows(ConstSubVals(c, off, n, above), lo, hi, Image(c), above); shown
  {
    if c.CUndef? {
      UndefFaithful(c, off, n, above);
      ShowsThis(lo, hi, ScalarOf(CUndef(IntTy(8 * n, n))), Image(c), above);
    } else {
      LeafReadable(c, off, n);
      BytesShow(c, off, n, above, lo, hi);
      LeafBytes(c, off, n, above);
    }
  }

  lemma LeafBytes(c: CutConst, off: nat, n: nat, above: nat)
    requires n > 0 && off + n <= Size(c) && !(off == 0 && n == Size(c)) && !c.CArray? && !c.CStruct? && !c.CUndef?
    requires forall k :: off <= k < off + n ==> !R.Refused(c, k)
    ensures ConstSubVals(c, off, n, above) == [Extent(above + off, above + off + n, ScalarOf(FromBytes(BytesFrom(c, off, n))))]
  {
  }

  lemma BytesShow(c: Const, off: nat, n: nat, above: nat, lo: nat, hi: nat)
    requires n > 0 && off + n <= Size(c) && lo == above + off && hi == lo + n
    requires forall k :: off <= k < off + n ==> CellAt(c, k).Known?
    ensures var shown := Shows([Extent(lo, hi, ScalarOf(FromBytes(BytesFrom(c, off, n))))], lo, hi, Image(c), above); shown
  {
    var v := ScalarOf(FromBytes(BytesFrom(c, off, n)));
    BytesBytes(c, off, n);
    TellsShow(v, c, off, n, above, lo, hi);
  }

  /** A value that tells each byte of the range shows the range. */
  lemma TellsShow(v: Val, c: Const, off: nat, n: nat, above: nat, lo: nat, hi: nat)
    requires n > 0 && off + n <= Size(c) && lo == above + off && hi == lo + n && Fits(v, n) && Tidy(v) && Constant(v)
    requires forall k: nat :: k < n ==> ByteAt(v, k) == ConstByte(c, off + k)
    ensures var shown := Shows([Extent(lo, hi, v)], lo, hi, Image(c), above); shown
  {
    ValueFaithful(v, lo, n, c, off, above);
    ShowsThis(lo, hi, v, Image(c), above);
  }

  lemma ShowsThis(lo: nat, hi: nat, v: Val, cells: seq<Cell>, above: int)
    requires var faithful := Faithful(Extent(lo, hi, v), cells, above); faithful
    ensures var shown := Shows([Extent(lo, hi, v)], lo, hi, cells, above); shown
  {
    ShowsOne(Extent(lo, hi, v), cells, above);
  }

  /** The sub-values of a part show the whole. */
  lemma {:induction false} PartSubVals(cells: seq<Cell>, m: CutConst, base: nat, above: nat, up: nat, off: nat, n: nat, lo: nat, hi: nat)
    requires n > 0 && off + n <= Size(m) && up == above + base && lo == up + off && hi == lo + n
    requires PartAt(cells, Image(m), base) && CleanCut(m, off, n)
    ensures Shows(ConstSubVals(m, off, n, up), lo, hi, cells, above)
    decreases m, 7
  {
    SubValsShow(m, off, n, up, lo, hi);
    ShowsPart(ConstSubVals(m, off, n, up), lo, hi, cells, Image(m), base, above);
  }

  // ----- arrays

  lemma ElementClean(c: CutConst, i: nat)
    requires c.CArray? && i < |c.elems|
    ensures CleanAt(c.elems[i], 0) && CleanAt(c.elems[i], AllocSize(c.elemTy))
  {
    CuttableElement(c, i);
    CleanAtStart(c.elems[i]);
    CleanAtEnd(c.elems[i]);
  }

  /** What is cut off the element the range starts in. */
  lemma {:induction false} ArrayLeftShows(c: CutConst, i: nat, base: nat, off: nat, n: nat, above: nat, lo: nat, hi: nat)
    requires c.CArray? && i < |c.elems| && n > 0 && off + n <= AllocSize(c.elemTy) && base == Place(c, i)
    requires lo == above + base + off && hi == (if off == 0 then lo else lo + n)
    requires off > 0 ==> CleanCut(c.elems[i], off, n)
    ensures var shown := Shows(ArrayLeft(c, i, off, n, above), lo, hi, Image(c), above); shown
    decreases c, 1
  {
    if off == 0 {
      ShowsNone(lo, Image(c), above);
    } else {
      ElementShows(c, i, base, off, n, above, lo, hi);
      assert ArrayLeft(c, i, off, n, above) == ConstSubVals(c.elems[i], off, n, above + base);
    }
  }

  /** A range of one element. */
  lemma {:induction false} ElementShows(c: CutConst, i: nat, base: nat, off: nat, n: nat, above: nat, lo: nat, hi: nat)
    requires c.CArray? && i < |c.elems| && n > 0 && off + n <= AllocSize(c.elemTy) && base == Place(c, i)
    requires lo == above + base + off && hi == lo + n && CleanCut(c.elems[i], off, n)
    ensures Cuttable(c.elems[i]) && off + n <= Size(c.elems[i])
    ensures var shown := Shows(ConstSubVals(c.elems[i], off, n, above + base), lo, hi, Image(c), above); shown
    decreases c, 0
  {
    CuttableElement(c, i);
    ElementPart(c, i);
    PartSubVals(Image(c), c.elems[i], base, above, above + base, off, n, lo, hi);
  }

  /** What is cut off the element the range ends in. */
  lemma {:induction false} ArrayRightShows(c: CutConst, i: nat, base: nat, n: nat, above: nat, lo: nat, hi: nat)
    requires c.CArray? && base == Place(c, i) && lo == above + base && hi == lo + n
    requires n > 0 ==> i < |c.elems| && n < AllocSize(c.elemTy) && CleanCut(c.elems[i], 0, n)
    ensures var shown := Shows(ArrayRight(c, i, n, above), lo, hi, Image(c), above); shown
    decreases c, 1
  {
    if n == 0 {
      ShowsNone(lo, Image(c), above);
    } else {
      ElementShows(c, i, base, 0, n, above, lo, hi);
      ArrayRightIs(c, i, base, n, above);
    }
  }

  lemma ArrayRightIs(c: CutConst, i: nat, base: nat, n: nat, above: nat)
    requires c.CArray? && i < |c.elems| && 0 < n < AllocSize(c.elemTy) && base == Place(c, i)
    ensures Cuttable(c.elems[i]) && n <= Size(c.elems[i]) && ArrayRight(c, i, n, above) == ConstSubVals(c.elems[i], 0, n, above + base)
  {
    CuttableElement(c, i);
  }

  /** The ends of the cut are clean in the elements they fall in. */
  ghost predicate CleanEnds(c: Const, cut: Cut)
  {
    && c.CArray? && (cut.startE < |c.elems| ==> CleanAt(c.elems[cut.startE], cut.startOff))
    && (cut.endE < |c.elems| ==> CleanAt(c.elems[cut.endE], cut.endOff))
  }

  lemma ElementCleanCut(c: CutConst, i: nat, off: nat, n: nat)
    requires c.CArray? && i < |c.elems| && n > 0 && off + n <= AllocSize(c.elemTy) && ElementNoTear(c, i, off, n)
    requires CleanAt(c.elems[i], off) && CleanAt(c.elems[i], off + n)
    ensures CleanCut(c.elems[i], off, n)
  {
    CuttableElement(c, i);
  }

  lemma {:induction false} ArrayLeftAcross(c: CutConst, i: nat, base: nat, off: nat, rest: nat, above: nat, lo: nat, x: nat)
    requires c.CArray? && i < |c.elems| && base == Place(c, i) && rest > 0 && off + rest == AllocSize(c.elemTy)
    requires CleanAt(c.elems[i], off) && (off > 0 ==> ElementNoTear(c, i, off, rest))
    requires lo == above + base + off && x == if off == 0 then lo else lo + rest
    ensures var shown := Shows(ArrayLeft(c, i, off, rest, above), lo, x, Image(c), above); shown
    decreases c, 2
  {
    ElementClean(c, i);
    if off > 0 {
      ElementCleanCut(c, i, off, rest);
    }
    ArrayLeftShows(c, i, base, off, rest, above, lo, x);
  }

  lemma {:induction false} ArrayRightAcross(c: CutConst, i: nat, base: nat, n: nat, above: nat, y: nat, hi: nat)
    requires c.CArray? && base == Place(c, i) && y == above + base && hi == y + n
    requires n > 0 ==> i < |c.elems| && n < AllocSize(c.elemTy) && CleanAt(c.elems[i], n) && ElementNoTear(c, i, 0, n)
    ensures var shown := Shows(ArrayRight(c, i, n, above), y, hi, Image(c), above); shown
    decreases c, 2
  {
    if n > 0 {
      ElementClean(c, i);
      ElementCleanCut(c, i, 0, n);
    }
    ArrayRightShows(c, i, base, n, above, y, hi);
  }

  /** The three parts of a cut array, put together. */
  lemma ArrayAssemble(c: CutConst, cut: Cut, n: nat, above: nat, lo: nat, x: nat, y: nat, hi: nat)
    requires InArray(c, cut, n) && (cut.startOff == 0 || cut.startE < cut.endE)
    ensures var from := if cut.startOff == 0 then cut.startE else cut.startE + 1;
            && Shows(ArrayLeft(c, cut.startE, cut.startOff, AllocSize(c.elemTy) - cut.startOff, above), lo, x, Image(c), above)
            && Shows(WholeElements(c, from, cut.endE, above), x, y, Image(c), above)
            && Shows(ArrayRight(c, cut.endE, cut.endOff, above), y, hi, Image(c), above) ==>
            var shown := Shows(ArrayPieces(c, cut, n, above), lo, hi, Image(c), above); shown
  {
    var from := if cut.startOff == 0 then cut.startE else cut.startE + 1;
    var left := ArrayLeft(c, cut.startE, cut.startOff, AllocSize(c.elemTy) - cut.startOff, above);
    var mid, right := WholeElements(c, from, cut.endE, above), ArrayRight(c, cut.endE, cut.endOff, above);
    if Shows(left, lo, x, Image(c), above) && Shows(mid, x, y, Image(c), above) && Shows(right, y, hi, Image(c), above) {
      ShowsThree(left, mid, right, lo, x, y, hi, Image(c), above);
      assert ArrayPieces(c, cut, n, above) == left + mid + right;
    }
  }

  lemma {:induction false} ArrayAcross(c: CutConst, cut: Cut, n: nat, above: nat, from: nat, lo: nat, x: nat, y: nat, hi: nat)
    requires InArray(c, cut, n) && CleanEnds(c, cut) && ArrayNoTear(c, cut, n) && (cut.startOff == 0 || cut.startE < cut.endE)
    requires from == if cut.startOff == 0 then cut.startE else cut.startE + 1
    requires lo == above + Place(c, cut.startE) + cut.startOff
    requires x == above + Place(c, from) == if cut.startOff == 0 then lo else lo + (AllocSize(c.elemTy) - cut.startOff)
    requires y == above + Place(c, cut.endE) && hi == y + cut.endOff
    ensures var shown := Shows(ArrayPieces(c, cut, n, above), lo, hi, Image(c), above); shown
    decreases c, 3, 0
  {
    ArrayLeftAcross(c, cut.startE, Place(c, cut.startE), cut.startOff, AllocSize(c.elemTy) - cut.startOff, above, lo, x);
    WholeElementsShow(c, from, cut.endE, above, x, y);
    ArrayRightAcross(c, cut.endE, Place(c, cut.endE), cut.endOff, above, y, hi);
    ArrayAssemble(c, cut, n, above, lo, x, y, hi);
  }

  lemma AcrossStart(c: Const, startE: nat, startOff: nat, above: nat, from: nat, lo: nat, x: nat)
    requires c.CArray? && lo == above + Place(c, startE) + startOff && startOff < AllocSize(c.elemTy)
    requires from == (if startOff == 0 then startE else startE + 1) && x == if startOff == 0 then lo else lo + (AllocSize(c.elemTy) - startOff)
    ensures x == above + Place(c, from)
  {
  }

  lemma {:induction false} ArraySpan(c: CutConst, cut: Cut, n: nat, above: nat, lo: nat, y: nat, hi: nat)
    requires InArray(c, cut, n) && CleanEnds(c, cut) && ArrayNoTear(c, cut, n) && (cut.startOff == 0 || cut.startE < cut.endE)
    requires lo == above + Place(c, cut.startE) + cut.startOff
    requires y == above + Place(c, cut.endE) && hi == y + cut.endOff
    ensures var shown := Shows(ArrayPieces(c, cut, n, above), lo, hi, Image(c), above); shown
    decreases c, 3, 1
  {
    var from := if cut.startOff == 0 then cut.startE else cut.startE + 1;
    var x := if cut.startOff == 0 then lo else lo + (AllocSize(c.elemTy) - cut.startOff);
    AcrossStart(c, cut.startE, cut.startOff, above, from, lo, x);
    ArrayAcross(c, cut, n, above, from, lo, x, y, hi);
  }

  lemma {:induction false} ArrayInside(c: CutConst, i: nat, base: nat, off: nat, n: nat, above: nat, lo: nat, hi: nat)
    requires c.CArray? && i < |c.elems| && base == Place(c, i) && n > 0 && 0 < off && off + n <= AllocSize(c.elemTy)
    requires CleanAt(c.elems[i], off) && CleanAt(c.elems[i], off + n) && ElementNoTear(c, i, off, n)
    requires lo == above + base + off && hi == lo + n
    ensures var shown := Shows(ArrayLeft(c, i, off, n, above), lo, hi, Image(c), above); shown
    decreases c, 2
  {
    ElementCleanCut(c, i, off, n);
    ArrayLeftShows(c, i, base, off, n, above, lo, hi);
  }

  lemma {:induction false} ArrayPiecesShow(c: CutConst, cut: Cut, n: nat, above: nat, lo: nat, hi: nat)
    requires InArray(c, cut, n) && CleanEnds(c, cut) && ArrayNoTear(c, cut, n)
    requires lo == above + Place(c, cut.startE) + cut.startOff
    requires hi == above + Place(c, cut.endE) + cut.endOff && hi == lo + n
    ensures var shown := Shows(ArrayPieces(c, cut, n, above), lo, hi, Image(c), above); shown
    decreases c, 4
  {
    if cut.startOff > 0 && cut.startE == cut.endE {
      ArrayInside(c, cut.startE, Place(c, cut.startE), cut.startOff, n, above, lo, hi);
    } else {
      ArraySpan(c, cut, n, above, lo, hi - cut.endOff, hi);
    }
  }

  lemma {:induction false} ArraySubValsShow(c: CutConst, off: nat, n: nat, above: nat, lo: nat, hi: nat)
    requires c.CArray? && n > 0 && off + n <= Size(c) && lo == above + off && hi == lo + n && !(off == 0 && n == Size(c))
    requires CleanCut(c, off, n)
    ensures var shown := Shows(ArraySubVals(c, off, n, above), lo, hi, Image(c), above); shown
    decreases c, 5
  {
    var cut := ArrayCut(off, n, AllocSize(c.elemTy));
    ArrayCutFacts(off, n, AllocSize(c.elemTy), |c.elems|);
    PlaceIs(c, cut.startE);
    PlaceIs(c, cut.endE);
    ArrayPiecesShow(c, cut, n, above, lo, hi);
  }

  // ----- structs

  lemma MemberClean(c: CutConst, i: nat)
    requires c.CStruct? && i < |c.members|
    ensures CleanAt(c.members[i], 0) && CleanAt(c.members[i], Size(c.members[i]))
  {
    CuttableMember(c, i);
    CleanAtStart(c.members[i]);
    CleanAtEnd(c.members[i]);
  }

  lemma CleanMember(c: CutConst, x: nat)
    requires c.CStruct? && CleanAt(c, x)
    ensures var i := ElementContaining(c.structTy.offsets, x); CleanAt(c.members[i], x - c.structTy.offsets[i])
  {
  }

  lemma MemberCleanCut(c: CutConst, i: nat, off: nat, n: nat)
    requires c.CStruct? && i < |c.members| && n > 0 && off + n <= Size(c.members[i]) && MemberNoTear(c, i, off, n)
    requires CleanAt(c.members[i], off) && CleanAt(c.members[i], off + n)
    ensures CleanCut(c.members[i], off, n)
  {
    CuttableMember(c, i);
  }

  lemma RestMemberClean(c: CutConst, x: nat, i: nat, off: nat, rest: nat)
    requires c.CStruct? && CleanAt(c, x) && i == ElementContaining(c.structTy.offsets, x)
    requires off == x - c.structTy.offsets[i] && off + rest == Size(c.members[i]) && rest > 0 && MemberNoTear(c, i, off, rest)
    ensures CleanCut(c.members[i], off, rest)
  {
    CleanMember(c, x);
    MemberClean(c, i);
    MemberCleanCut(c, i, off, rest);
  }

  lemma EndMemberClean(c: CutConst, x: nat, i: nat, n: nat)
    requires c.CStruct? && CleanAt(c, x) && i == ElementContaining(c.structTy.offsets, x)
    requires n == x - c.structTy.offsets[i] && 0 < n <= Size(c.members[i]) && var whole := MemberNoTear(c, i, 0, n); whole
    ensures CleanCut(c.members[i], 0, n)
  {
    CleanMember(c, x);
    MemberClean(c, i);
    MemberCleanCut(c, i, 0, n);
  }

  lemma {:induction false} StructLeftShows(c: CutConst, i: nat, off: nat, n: nat, above: nat, lo: nat, hi: nat)
    requires c.CStruct? && i < |c.members| && n > 0 && off + n <= Size(c.members[i])
    requires lo == above + c.structTy.offsets[i] + off && hi == (if off == 0 then lo else lo + n)
    requires off > 0 ==> CleanCut(c.members[i], off, n)
    ensures var shown := Shows(StructLeft(c, i, off, n, above), lo, hi, Image(c), above); shown
    decreases c, 1
  {
    if off == 0 {
      ShowsNone(lo, Image(c), above);
    } else {
      var base := c.structTy.offsets[i];
      CuttableMember(c, i);
      MemberPart(c, i);
      PartSubVals(Image(c), c.members[i], base, above, above + base, off, n, lo, hi);
    }
  }

  lemma {:induction false} StructRightShows(c: CutConst, i: nat, n: nat, above: nat, lo: nat, hi: nat)
    requires c.CStruct? && i < |c.members| && n <= Size(c.members[i]) && (n > 0 ==> CleanCut(c.members[i], 0, n))
    requires lo == above + c.structTy.offsets[i] && hi == lo + n
    ensures var shown := Shows(StructRight(c, i, n, above), lo, hi, Image(c), above); shown
    decreases c, 1
  {
    if n == 0 {
      ShowsNone(lo, Image(c), above);
    } else {
      var base := c.structTy.offsets[i];
      CuttableMember(c, i);
      MemberPart(c, i);
      PartSubVals(Image(c), c.members[i], base, above, above + base, 0, n, lo, hi);
    }
  }

  lemma {:induction false} StructInside(c: CutConst, cut: Cut, off: nat, n: nat, above: nat, lo: nat, hi: nat)
    requires c.CStruct? && n > 0 && off + n <= Size(c) && cut == StructCut(c, off, n)
    requires CleanAt(c, off) && CleanAt(c, off + n) && StructNoTear(c, off, n) && lo == above + off && hi == lo + n
    requires cut.startOff > 0 && cut.startE == cut.endE
    ensures var shown := Shows(StructSubVals(c, off, n, above), lo, hi, Image(c), above); shown
    decreases c, 2
  {
    StructCutFacts(c, off, n);
    CleanMember(c, off);
    CleanMember(c, off + n);
    MemberCleanCut(c, cut.startE, cut.startOff, n);
    StructLeftShows(c, cut.startE, cut.startOff, n, above, lo, hi);
  }

  /** Where the whole members of a range that goes past its first member start. */
  lemma StructFrom(c: CutConst, cut: Cut, off: nat, n: nat, from: nat)
    requires c.CStruct? && n > 0 && off + n <= Size(c) && cut == StructCut(c, off, n)
    requires cut.startOff == 0 || cut.startE < cut.endE
    requires from == if cut.startOff == 0 then cut.startE else cut.startE + 1
    requires EndsInMembers(c, off, n) && (cut.startOff > 0 ==> PadBehind(c, cut.startE) == 0)
    ensures from <= cut.endE < |c.members| && cut.startOff < Size(c.members[cut.startE])
    ensures c.structTy.offsets[from] == if cut.startOff == 0 then off else off + (Size(c.members[cut.startE]) - cut.startOff)
    ensures c.structTy.offsets[cut.endE] + cut.endOff == off + n && cut.endOff <= Size(c.members[cut.endE])
  {
    StructCutFacts(c, off, n);
    CuttableMember(c, cut.startE);
  }

  /** The ends of a right cut lie in members, and there is no padding behind the first if only its end
      is taken. */
  lemma StructWhole(c: CutConst, cut: Cut, off: nat, n: nat)
    requires c.CStruct? && n > 0 && off + n <= Size(c) && cut == StructCut(c, off, n)
    requires (cut.startOff == 0 || cut.startE < cut.endE) && StructNoTear(c, off, n)
    ensures EndsInMembers(c, off, n) && cut.startE < |c.members| && (cut.startOff > 0 ==> PadBehind(c, cut.startE) == 0)
  {
  }

  /** The cut's ends, and that no array is torn in the members they lie in. */
  lemma StructEnds(c: CutConst, cut: Cut, off: nat, n: nat, rest: nat)
    requires c.CStruct? && n > 0 && off + n <= Size(c) && cut == StructCut(c, off, n) && StructNoTear(c, off, n)
    requires (cut.startOff == 0 || cut.startE < cut.endE) && cut.startE < |c.members| && rest == Size(c.members[cut.startE]) - cut.startOff > 0
    requires cut.endE < |c.members| && cut.endOff <= Size(c.members[cut.endE])
    ensures cut.startE == ElementContaining(c.structTy.offsets, off) && cut.startOff == off - c.structTy.offsets[cut.startE]
    ensures cut.endE == ElementContaining(c.structTy.offsets, off + n) && cut.endOff == off + n - c.structTy.offsets[cut.endE]
    ensures cut.startOff > 0 ==> var whole := MemberNoTear(c, cut.startE, cut.startOff, rest); whole
    ensures cut.endOff > 0 ==> var whole := MemberNoTear(c, cut.endE, 0, cut.endOff); whole
  {
  }

  lemma {:induction false} StructLeftAcross(c: CutConst, i: nat, off: nat, startOff: nat, rest: nat, above: nat, lo: nat, x: nat)
    requires c.CStruct? && CleanAt(c, off) && i == ElementContaining(c.structTy.offsets, off) && startOff == off - c.structTy.offsets[i]
    requires rest > 0 && startOff + rest == Size(c.members[i]) && (startOff > 0 ==> MemberNoTear(c, i, startOff, rest))
    requires lo == above + off && x == if startOff == 0 then lo else lo + rest
    ensures var shown := Shows(StructLeft(c, i, startOff, rest, above), lo, x, Image(c), above); shown
    decreases c, 2
  {
    if startOff > 0 {
      RestMemberClean(c, off, i, startOff, rest);
    }
    StructLeftShows(c, i, startOff, rest, above, lo, x);
  }

  lemma {:induction false} StructRightAcross(c: CutConst, i: nat, end: nat, n: nat, above: nat, y: nat, hi: nat)
    requires c.CStruct? && CleanAt(c, end) && i == ElementContaining(c.structTy.offsets, end) && n == end - c.structTy.offsets[i]
    requires n <= Size(c.members[i]) && (n > 0 ==> MemberNoTear(c, i, 0, n)) && y == above + c.structTy.offsets[i] && hi == y + n
    ensures var shown := Shows(StructRight(c, i, n, above), y, hi, Image(c), above); shown
    decreases c, 2
  {
    if n > 0 {
      EndMemberClean(c, end, i, n);
    }
    StructRightShows(c, i, n, above, y, hi);
  }

  lemma {:induction false} StructAcross(c: CutConst, cut: Cut, off: nat, n: nat, above: nat, lo: nat, hi: nat)
    requires c.CStruct? && n > 0 && off + n <= Size(c) && cut == StructCut(c, off, n)
    requires CleanAt(c, off) && CleanAt(c, off + n) && lo == above + off && hi == lo + n && var whole := StructNoTear(c, off, n); whole
    requires cut.startOff == 0 || cut.startE < cut.endE
    ensures var shown := Shows(StructSubVals(c, off, n, above), lo, hi, Image(c), above); shown
    decreases c, 3
  {
    var from := if cut.startOff == 0 then cut.startE else cut.startE + 1;
    StructWhole(c, cut, off, n);
    StructFrom(c, cut, off, n, from);
    var rest := Size(c.members[cut.startE]) - cut.startOff;
    var x, y := above + c.structTy.offsets[from], above + c.structTy.offsets[cut.endE];
    StructEnds(c, cut, off, n, rest);
    StructParts(c, cut, off, off + n, above, from, rest, lo, x, y, hi);
    StructAssemble(c, cut, off, n, above, from, rest, lo, x, y, hi);
  }

  lemma {:induction false} StructParts(c: CutConst, cut: Cut, off: nat, end: nat, above: nat, from: nat, rest: nat, lo: nat, x: nat, y: nat, hi: nat)
    requires c.CStruct? && CleanAt(c, off) && CleanAt(c, end) && from <= cut.endE < |c.members|
    requires cut.startE == ElementContaining(c.structTy.offsets, off) && cut.startOff == off - c.structTy.offsets[cut.startE]
    requires cut.endE == ElementContaining(c.structTy.offsets, end) && cut.endOff == end - c.structTy.offsets[cut.endE]
    requires rest > 0 && cut.startOff + rest == Size(c.members[cut.startE]) && cut.endOff <= Size(c.members[cut.endE])
    requires cut.startOff > 0 ==> var whole := MemberNoTear(c, cut.startE, cut.startOff, rest); whole
    requires cut.endOff > 0 ==> var whole := MemberNoTear(c, cut.endE, 0, cut.endOff); whole
    requires lo == above + off && x == if cut.startOff == 0 then lo else lo + rest
    requires x == above + c.structTy.offsets[from] && y == above + c.structTy.offsets[cut.endE] && hi == y + cut.endOff
    ensures var shown := Shows(StructLeft(c, cut.startE, cut.startOff, rest, above), lo, x, Image(c), above); shown
    ensures var shown := Shows(WholeMembers(c, from, cut.endE, above), x, y, Image(c), above); shown
    ensures var shown := Shows(StructRight(c, cut.endE, cut.endOff, above), y, hi, Image(c), above); shown
    decreases c, 3, 0
  {
    StructLeftAcross(c, cut.startE, off, cut.startOff, rest, above, lo, x);
    WholeMembersShow(c, from, cut.endE, above, x, y);
    StructRightAcross(c, cut.endE, end, cut.endOff, above, y, hi);
  }

  /** The three parts of a cut struct, put together. */
  lemma StructAssemble(c: CutConst, cut: Cut, off: nat, n: nat, above: nat, from: nat, rest: nat, lo: nat, x: nat, y: nat, hi: nat)
    requires c.CStruct? && n > 0 && off + n <= Size(c) && cut == StructCut(c, off, n)
    requires cut.startE < |c.members| && cut.startOff < Size(c.members[cut.startE]) && cut.endOff <= Size(c.members[cut.endE])
    requires EndsInMembers(c, off, n) && (cut.startOff == 0 || cut.startE < cut.endE)
    requires from == (if cut.startOff == 0 then cut.startE else cut.startE + 1) <= cut.endE && rest == Size(c.members[cut.startE]) - cut.startOff
    requires var shown := Shows(StructLeft(c, cut.startE, cut.startOff, rest, above), lo, x, Image(c), above); shown
    requires var shown := Shows(WholeMembers(c, from, cut.endE, above), x, y, Image(c), above); shown
    requires var shown := Shows(StructRight(c, cut.endE, cut.endOff, above), y, hi, Image(c), above); shown
    ensures var shown := Shows(StructSubVals(c, off, n, above), lo, hi, Image(c), above); shown
  {
    var left, mid, right := StructLeft(c, cut.startE, cut.startOff, rest, above), WholeMembers(c, from, cut.endE, above), StructRight(c, cut.endE, cut.endOff, above);
    ShowsThree(left, mid, right, lo, x, y, hi, Image(c), above);
    assert StructSubVals(c, off, n, above) == left + mid + right;
  }

  lemma {:induction false} StructSubValsShow(c: CutConst, off: nat, n: nat, above: nat, lo: nat, hi: nat)
    requires c.CStruct? && n > 0 && off + n <= Size(c) && lo == above + off && hi == lo + n
    requires CleanAt(c, off) && CleanAt(c, off + n) && StructNoTear(c, off, n)
    ensures var shown := Shows(StructSubVals(c, off, n, above), lo, hi, Image(c), above); shown
    decreases c, 4
  {
    var cut := StructCut(c, off, n);
    StructCutFacts(c, off, n);
    if cut.startOff > 0 && cut.startE == cut.endE {
      StructInside(c, cut, off, n, above, lo, hi);
    } else {
      StructAcross(c, cut, off, n, above, lo, hi);
    }
  }
}
