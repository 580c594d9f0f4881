/** Sized types with their data layout, constants of those types, and what each byte of a constant
    holds in memory. The data layout is a parameter: integer types carry their allocation size and
    struct types their member offsets and total size. */
module Constants {

  datatype Ty =
    | IntTy(bits: nat, alloc: nat)
    | PtrTy
    | ArrayTy(elem: Ty, count: nat)
    | StructTy(fields: seq<Ty>, offsets: seq<nat>, size: nat)

  const POINTER_SIZE: nat := 8

  /** `getTypeAllocSize`. */
  function AllocSize(t: Ty): nat
  {
    match t
    case IntTy(_, alloc) => alloc
    case PtrTy => POINTER_SIZE
    case ArrayTy(elem, count) => count * AllocSize(elem)
    case StructTy(_, _, size) => size
  }

  /** `getTypeStoreSize`. Only integers can be smaller than their allocation. */
  function StoreSize(t: Ty): nat
  {
    match t
    case IntTy(bits, _) => (bits + 7) / 8
    case _ => AllocSize(t)
  }

  /** What `DataLayout` and `StructLayout` guarantee, and what their users divide or index by:
      array elements are not empty and structs have a first member. */
  predicate ValidTy(t: Ty)
  {
    match t
    case IntTy(bits, alloc) => bits > 0 && (bits + 7) / 8 <= alloc
    case PtrTy => true
    case ArrayTy(elem, _) => ValidTy(elem) && AllocSize(elem) > 0
    case StructTy(fields, offsets, size) =>
      (forall i :: 0 <= i < |fields| ==> ValidTy(fields[i])) && ValidOffsets(fields, offsets, size)
  }

  /** Members in order, each starting after the previous one ends, the first at 0. */
  predicate ValidOffsets(fields: seq<Ty>, offsets: seq<nat>, size: nat)
  {
    && |fields| == |offsets| > 0
    && offsets[0] == 0
    && (forall i: nat, j: nat :: i < j < |fields| ==> EndsBy(fields, offsets, i, offsets[j]))
    && (forall i: nat :: i < |fields| ==> EndsBy(fields, offsets, i, size))
  }

  /** Member `i` ends at or before `bound`. */
  predicate EndsBy(fields: seq<Ty>, offsets: seq<nat>, i: nat, bound: nat)
    requires i < |fields| && i < |offsets|
  {
    offsets[i] + AllocSize(fields[i]) <= bound
  }

  /** `StructLayout::getElementContainingOffset`: the last member starting at or before `off`. */
  function ElementContaining(offsets: seq<nat>, off: nat): (i: nat)
    requires |offsets| > 0 && offsets[0] == 0
    ensures i < |offsets| && offsets[i] <= off
    ensures i + 1 < |offsets| ==> off < offsets[i + 1]
  {
    ElementFrom(offsets, off, |offsets| - 1)
  }

  function ElementFrom(offsets: seq<nat>, off: nat, k: nat): (i: nat)
    requires k < |offsets| && offsets[0] == 0
    requires k + 1 < |offsets| ==> off < offsets[k + 1]
    ensures i <= k && offsets[i] <= off
    ensures i + 1 < |offsets| ==> off < offsets[i + 1]
    decreases k
  {
    if offsets[k] <= off then k else ElementFrom(offsets, off, k - 1)
  }

  datatype Const =
    | CInt(bits: nat, alloc: nat, value: nat)
    | CNull                                        // the null pointer
    | CAddr(id: nat, fn: bool)                     // address of a global variable or function
    | CZero(ty: Ty)                                // ConstantAggregateZero
    | CUndef(ty: Ty)
    | CData(bits: nat, alloc: nat, vals: seq<nat>) // ConstantDataSequential
    | CArray(elemTy: Ty, elems: seq<Const>)
    | CStruct(structTy: Ty, members: seq<Const>)
    | CTorn(arrayTy: Ty, kept: seq<Const>)         // an array constant with the wrong number of elements

  function TyOf(c: Const): Ty
  {
    match c
    case CInt(bits, alloc, _) => IntTy(bits, alloc)
    case CNull => PtrTy
    case CAddr(_, _) => PtrTy
    case CZero(ty) => ty
    case CUndef(ty) => ty
    case CData(bits, alloc, vals) => ArrayTy(IntTy(bits, alloc), |vals|)
    case CArray(elemTy, elems) => ArrayTy(elemTy, |elems|)
    case CStruct(structTy, _) => structTy
    case CTorn(arrayTy, _) => arrayTy
  }

  function Size(c: Const): nat
  {
    StoreSize(TyOf(c))
  }

  function Alloc(c: Const): nat
  {
    AllocSize(TyOf(c))
  }

  predicate ValidConst(c: Const)
  {
    && ValidTy(TyOf(c))
    && match c
       case CArray(elemTy, elems) => forall i :: 0 <= i < |elems| ==> ValidConst(elems[i]) && TyOf(elems[i]) == elemTy
       case CStruct(ty, members) =>
         && ty.StructTy? && |members| == |ty.fields|
         && forall i :: 0 <= i < |members| ==> ValidConst(members[i]) && TyOf(members[i]) == ty.fields[i]
       case CTorn(_, _) => false
       case _ => true
  }

  // ----- the constants LLVM keeps

  /** `isNullValue`. */
  predicate IsNullConst(c: Const)
  {
    (c.CInt? && c.value == 0) || c.CNull? || c.CZero?
  }

  /** `Constant::getNullValue`. */
  function NullOf(t: Ty): Const
  {
    match t
    case IntTy(bits, alloc) => CInt(bits, alloc, 0)
    case PtrTy => CNull
    case _ => CZero(t)
  }

  /** Integers whose sequences are kept as data. */
  predicate DataInt(c: Const)
  {
    c.CInt? && (c.bits == 8 || c.bits == 16 || c.bits == 32 || c.bits == 64)
  }

  predicate AllSame(elems: seq<Const>)
  {
    forall i :: 0 <= i < |elems| ==> elems[i] == elems[0]
  }

  predicate AllDataInts(elems: seq<Const>)
  {
    forall i :: 0 <= i < |elems| ==> DataInt(elems[i])
  }

  function ValuesOf(elems: seq<Const>): seq<nat>
    requires AllDataInts(elems)
  {
    seq(|elems|, i requires 0 <= i < |elems| => elems[i].value)
  }

  /** `ConstantArray::get`: no elements or all the same null make a zero, all undef an undef, and
      integers of standard widths data. Otherwise the elements must be as many as the type says. */
  function MakeArray(ty: Ty, elems: seq<Const>): Const
    requires ty.ArrayTy?
  {
    if elems == [] then CZero(ty)
    else if elems[0].CUndef? && AllSame(elems) then CUndef(ty)
    else if IsNullConst(elems[0]) && AllSame(elems) then CZero(ty)
    else if AllDataInts(elems) then CData(elems[0].bits, elems[0].alloc, ValuesOf(elems))
    else if |elems| == ty.count then CArray(ty.elem, elems)
    else CTorn(ty, elems)
  }

  /** `ConstantStruct::get`: all null make a zero and all undef an undef. */
  function MakeStruct(ty: Ty, members: seq<Const>): Const
  {
    if forall i :: 0 <= i < |members| ==> IsNullConst(members[i]) then CZero(ty)
    else if forall i :: 0 <= i < |members| ==> members[i].CUndef? then CUndef(ty)
    else CStruct(ty, members)
  }

  /** `ConstantDataArray::get` of bytes. */
  function MakeData(bytes: seq<nat>): Const
  {
    if AllZero(bytes) then CZero(ArrayTy(IntTy(8, 1), |bytes|)) else CData(8, 1, bytes)
  }

  predicate AllZero(bytes: seq<nat>)
  {
    bytes == [] || (bytes[|bytes| - 1] == 0 && AllZero(bytes[..|bytes| - 1]))
  }

  lemma {:induction false} ZeroByte(bytes: seq<nat>, k: nat)
    requires AllZero(bytes) && k < |bytes|
    ensures bytes[k] == 0
  {
    if k < |bytes| - 1 {
      ZeroByte(bytes[..|bytes| - 1], k);
    }
  }

  // ----- bytes

  type Byte = b: int | 0 <= b < 256

  function Pow256(n: nat): (p: nat)
    ensures p > 0
  {
    if n == 0 then 1 else 256 * Pow256(n - 1)
  }

  /** Byte `k` of an integer, least significant first. */
  function ByteOf(value: nat, k: nat): Byte
  {
    (value / Pow256(k)) % 256
  }

  /** What one byte of memory holds. `Odd` is a byte of an integer whose width the byte reader
      refuses; `PtrByte` is byte `k` of the address of object `base`. */
  datatype Cell =
    | Known(b: Byte)
    | Any                                          // undef, or padding
    | PtrByte(base: nat, k: nat)
    | Odd(bits: nat, value: nat, k: nat)

  /** Widths `XXXReadDataFromGlobal` can take apart. */
  predicate ByteInt(bits: nat)
  {
    bits % 8 == 0 && bits <= 64
  }

  function IntCell(bits: nat, value: nat, k: nat): Cell
  {
    if (bits + 7) / 8 <= k then Any
    else if ByteInt(bits) then Known(ByteOf(value, k))
    else if value == 0 then Known(0)
    else Odd(bits, value, k)
  }

  lemma DivNonNeg(k: nat, d: nat)
    requires d > 0
    ensures 0 <= k / d && 0 <= k % d < d
  {
  }

  /** The content of byte `k` of a constant; `Any` past its end. */
  function CellAt(c: Const, k: nat): Cell
    decreases c
  {
    match c
    case CInt(bits, _, value) => IntCell(bits, value, k)
    case CNull => if k < POINTER_SIZE then Known(0) else Any
    case CAddr(id, _) => if k < POINTER_SIZE then PtrByte(id, k) else Any
    case CZero(ty) => if k < AllocSize(ty) then Known(0) else Any
    case CUndef(_) => Any
    case CData(bits, alloc, vals) =>
      if alloc > 0 && k / alloc < |vals| then (DivNonNeg(k, alloc); IntCell(bits, vals[k / alloc], k % alloc)) else Any
    case CArray(elemTy, elems) =>
      var esize := AllocSize(elemTy);
      if esize > 0 && k / esize < |elems| then (DivNonNeg(k, esize); CellAt(elems[k / esize], k % esize)) else Any
    case CStruct(ty, members) =>
      if ty.StructTy? && 0 < |ty.offsets| == |members| && ty.offsets[0] == 0 then
        var i := ElementContaining(ty.offsets, k);
        CellAt(members[i], k - ty.offsets[i])
      else Any
    case CTorn(_, _) => Any
  }

  /** Data holds its bytes. */
  lemma DataByte(bytes: seq<nat>, k: nat)
    requires k < |bytes| && forall i :: 0 <= i < |bytes| ==> bytes[i] < 256
    ensures var c := MakeData(bytes); CellAt(c, k) == Known(bytes[k]) && ValidConst(c) && Size(c) == |bytes|
  {
    DataCell(bytes, k);
    if AllZero(bytes) {
      ZeroByte(bytes, k);
    }
    assert AllocSize(ArrayTy(IntTy(8, 1), |bytes|)) == |bytes|;
  }

  lemma DataCell(bytes: seq<nat>, k: nat)
    requires k < |bytes| && bytes[k] < 256
    ensures CellAt(CData(8, 1, bytes), k) == Known(bytes[k])
  {
    var q, r := k / 1, k % 1;
    assert q == k && r == 0 && Pow256(0) == 1;
  }

  /** A valid constant says nothing about bytes past its allocation. */
  lemma {:induction false} CellPastEnd(c: Const, k: nat)
    requires ValidConst(c) && Alloc(c) <= k
    ensures CellAt(c, k) == Any
    decreases c
  {
    match c
    case CArray(elemTy, elems) =>
      DivPast(k, |elems|, AllocSize(elemTy));
    case CData(_, alloc, vals) =>
      DivPast(k, |vals|, alloc);
    case CStruct(ty, members) =>
      var i := ElementContaining(ty.offsets, k);
      assert EndsBy(ty.fields, ty.offsets, i, ty.size);
      CellPastEnd(members[i], k - ty.offsets[i]);
    case _ =>
  }

  lemma DivPast(k: nat, n: nat, d: nat)
    requires d > 0 && n * d <= k
    ensures n <= k / d
  {
    if k / d < n {
      MulMonotone(k / d + 1, n, d);
      assert false;
    }
  }

  lemma MulMonotone(a: nat, b: nat, d: nat)
    requires a <= b
    ensures a * d <= b * d
  {
  }

  lemma DivBound(k: nat, n: nat, d: nat)
    requires d > 0 && k < n * d
    ensures k / d < n && k % d < d
    ensures k == (k / d) * d + k % d
  {
    if n <= k / d {
      MulMonotone(n, k / d, d);
      assert false;
    }
  }
}
