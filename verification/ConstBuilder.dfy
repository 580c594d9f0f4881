/** Constants from bytes: `constFromBytes` (llpe/main/Misc.cpp:279-383), and the trip from a constant
    through its bytes and back. */
module ConstBuilder {
  import opened Options
  import opened Constants
  import opened ConstReader

  /** Constants as LLVM keeps them, without undef: integers in range, and each array and struct in the
      one form its constructor gives it. */
  predicate Canonical(c: Const)
  {
    match c
    case CInt(bits, _, value) => value < Pow256(bits / 8)
    case CNull => true
    case CAddr(_, _) => true
    case CZero(ty) => ty.ArrayTy? || ty.StructTy?
    case CUndef(_) => false
    case CData(bits, alloc, vals) =>
      (forall i :: 0 <= i < |vals| ==> vals[i] < Pow256(bits / 8)) && MakeArray(TyOf(c), DataElems(bits, alloc, vals)) == c
    case CArray(_, elems) => (forall i :: 0 <= i < |elems| ==> Canonical(elems[i])) && MakeArray(TyOf(c), elems) == c
    case CStruct(ty, members) => (forall i :: 0 <= i < |members| ==> Canonical(members[i])) && MakeStruct(ty, members) == c
    case CTorn(_, _) => false
  }

  /** The integers of a data sequence. */
  function DataElems(bits: nat, alloc: nat, vals: seq<nat>): seq<Const>
  {
    seq(|vals|, i requires 0 <= i < |vals| => CInt(bits, alloc, vals[i]))
  }

  /** Integer widths are whole bytes, 64 bits at most. */
  predicate WholeBytes(t: Ty)
  {
    match t
    case IntTy(bits, _) => ByteInt(bits)
    case PtrTy => true
    case ArrayTy(elem, _) => WholeBytes(elem)
    case StructTy(fields, _, _) => forall i :: 0 <= i < |fields| ==> WholeBytes(fields[i])
  }

  // ----- which constants come back

  /** No array in the type is empty. */
  predicate NoEmpty(t: Ty)
  {
    match t
    case ArrayTy(elem, count) => count > 0 && NoEmpty(elem)
    case StructTy(fields, _, _) => forall i :: 0 <= i < |fields| ==> NoEmpty(fields[i])
    case _ => true
  }

  /** Elements lie further apart in memory than the builder takes them to. */
  predicate Spaced(elem: Ty)
  {
    StoreSize(elem) < AllocSize(elem)
  }

  /** Constants that can be built again from their bytes: no address, no empty array, and behind the
      first element of an array whose elements have tail padding nothing but zeroes. */
  predicate Rebuilds(c: Const)
  {
    match c
    case CInt(_, _, _) => true
    case CNull => true
    case CZero(ty) => NoEmpty(ty)
    case CData(bits, alloc, vals) =>
      Spaced(IntTy(bits, alloc)) ==> forall i :: 1 <= i < |vals| ==> vals[i] == 0
    case CArray(elemTy, elems) =>
      if Spaced(elemTy) then forall i :: 1 <= i < |elems| ==> IsNullConst(elems[i])
      else forall i :: 0 <= i < |elems| ==> Rebuilds(elems[i])
    case CStruct(_, members) => forall i :: 0 <= i < |members| ==> Rebuilds(members[i])
    case _ => false
  }

  // ----- parts of canonical constants

  /** Element `i` of an array constant. */
  function Elem(c: Const, i: nat): Const
    requires TyOf(c).ArrayTy? && i < TyOf(c).count && ValidConst(c)
  {
    match c
    case CArray(_, elems) => elems[i]
    case CData(bits, alloc, vals) => CInt(bits, alloc, vals[i])
    case _ => NullOf(TyOf(c).elem)
  }

  function Elems(c: Const): seq<Const>
    requires TyOf(c).ArrayTy? && ValidConst(c)
  {
    seq(TyOf(c).count, i requires 0 <= i < TyOf(c).count => Elem(c, i))
  }

  /** Member `i` of a struct constant. */
  function Member(c: Const, i: nat): Const
    requires TyOf(c).StructTy? && i < |TyOf(c).fields| && ValidConst(c)
  {
    if c.CStruct? then c.members[i] else NullOf(TyOf(c).fields[i])
  }

  function Members(c: Const): seq<Const>
    requires TyOf(c).StructTy? && ValidConst(c)
  {
    seq(|TyOf(c).fields|, i requires 0 <= i < |TyOf(c).fields| => Member(c, i))
  }

  lemma NullCanonical(t: Ty)
    requires ValidTy(t)
    ensures Canonical(NullOf(t)) && ValidConst(NullOf(t)) && TyOf(NullOf(t)) == t && IsNullConst(NullOf(t))
    ensures Rebuilds(NullOf(t)) <==> NoEmpty(t)
  {
  }

  /** A canonical null is the null of its type. */
  lemma NullUnique(c: Const)
    requires Canonical(c) && IsNullConst(c)
    ensures c == NullOf(TyOf(c))
  {
  }

  lemma ElemCanonical(c: Const, i: nat)
    requires ValidConst(c) && Canonical(c) && TyOf(c).ArrayTy? && i < TyOf(c).count
    ensures ValidConst(Elem(c, i)) && Canonical(Elem(c, i)) && TyOf(Elem(c, i)) == TyOf(c).elem
  {
    NullCanonical(TyOf(c).elem);
  }

  lemma MemberCanonical(c: Const, i: nat)
    requires ValidConst(c) && Canonical(c) && TyOf(c).StructTy? && i < |TyOf(c).fields|
    ensures ValidConst(Member(c, i)) && Canonical(Member(c, i)) && TyOf(Member(c, i)) == TyOf(c).fields[i]
  {
    NullCanonical(TyOf(c).fields[i]);
  }

  /** A canonical array is what the constructor makes of its elements. */
  lemma ArrayOfElems(c: Const)
    requires ValidConst(c) && Canonical(c) && TyOf(c).ArrayTy?
    ensures MakeArray(TyOf(c), Elems(c)) == c
  {
    match c
    case CArray(_, elems) => assert Elems(c) == elems;
    case CData(bits, alloc, vals) => assert Elems(c) == DataElems(bits, alloc, vals);
    case CZero(ty) =>
      NullCanonical(ty.elem);
      assert Elems(c) != [] ==> Elems(c)[0] == NullOf(ty.elem);
  }

  lemma StructOfMembers(c: Const)
    requires ValidConst(c) && Canonical(c) && TyOf(c).StructTy?
    ensures MakeStruct(TyOf(c), Members(c)) == c
  {
    if c.CStruct? {
      assert Members(c) == c.members;
    } else {
      forall i | 0 <= i < |Members(c)| ensures IsNullConst(Members(c)[i]) {
        NullCanonical(TyOf(c).fields[i]);
      }
    }
  }

  /** The constructor gives canonical constants, and its elements can be had back. */
  lemma MakeArrayCanonical(t: Ty, elems: seq<Const>)
    requires t.ArrayTy? && ValidTy(t) && |elems| == t.count > 0
    requires forall i :: 0 <= i < |elems| ==> ValidConst(elems[i]) && Canonical(elems[i]) && TyOf(elems[i]) == t.elem
    ensures var c := MakeArray(t, elems); ValidConst(c) && TyOf(c) == t && Canonical(c) && Elems(c) == elems
  {
    var c := MakeArray(t, elems);
    NullUnique0(elems);
    if c.CData? {
      forall i | 0 <= i < |elems| ensures elems[i] == CInt(c.bits, c.alloc, c.vals[i]) {
        assert TyOf(elems[i]) == TyOf(elems[0]);
      }
      assert DataElems(c.bits, c.alloc, c.vals) == elems;
    }
    assert Elems(c) == elems;
  }

  lemma NullUnique0(elems: seq<Const>)
    requires elems != [] && Canonical(elems[0])
    ensures IsNullConst(elems[0]) ==> elems[0] == NullOf(TyOf(elems[0]))
  {
  }

  lemma MakeStructCanonical(t: Ty, members: seq<Const>)
    requires t.StructTy? && ValidTy(t) && |members| == |t.fields|
    requires forall i :: 0 <= i < |members| ==> ValidConst(members[i]) && Canonical(members[i]) && TyOf(members[i]) == t.fields[i]
    ensures var c := MakeStruct(t, members); ValidConst(c) && TyOf(c) == t && Canonical(c) && Members(c) == members
  {
    var c := MakeStruct(t, members);
    assert Canonical(members[0]);
    forall i | 0 <= i < |members| && c.CZero? ensures members[i] == NullOf(t.fields[i]) {
      NullUnique(members[i]);
    }
    assert Members(c) == members;
  }

  lemma RebuildsElems(c: Const)
    requires ValidConst(c) && Canonical(c) && TyOf(c).ArrayTy? && TyOf(c).count > 0 && !Spaced(TyOf(c).elem)
    ensures Rebuilds(c) <==> forall i :: 0 <= i < TyOf(c).count ==> Rebuilds(Elem(c, i))
  {
    match c
    case CArray(elemTy, elems) =>
      assert forall i :: 0 <= i < |elems| ==> Elem(c, i) == elems[i];
    case CData(bits, alloc, vals) =>
      assert forall i :: 0 <= i < |vals| ==> Rebuilds(CInt(bits, alloc, vals[i]));
    case CZero(ty) =>
      NullCanonical(ty.elem);
      assert Elem(c, 0) == NullOf(ty.elem);
  }

  lemma RebuildsMembers(c: Const)
    requires ValidConst(c) && Canonical(c) && TyOf(c).StructTy?
    ensures Rebuilds(c) <==> forall i :: 0 <= i < |TyOf(c).fields| ==> Rebuilds(Member(c, i))
  {
    match c
    case CStruct(ty, members) =>
      assert forall i :: 0 <= i < |members| ==> Member(c, i) == members[i];
    case CZero(ty) =>
      forall i | 0 <= i < |ty.fields| ensures Rebuilds(Member(c, i)) <==> NoEmpty(ty.fields[i]) {
        NullCanonical(ty.fields[i]);
      }
      if forall i :: 0 <= i < |ty.fields| ==> Rebuilds(Member(c, i)) {
        forall i | 0 <= i < |ty.fields| ensures NoEmpty(ty.fields[i]) {
          assert Rebuilds(Member(c, i));
        }
      }
  }

  // ----- bytes

  /** `bytes` from `base` on are the bytes of `c`. */
  ghost predicate BytesOf(bytes: seq<Byte>, base: nat, c: Const)
    requires base + Size(c) <= |bytes|
  {
    forall p :: base <= p < base + Size(c) ==> bytes[p] == Flat(CellAt(c, p - base))
  }

  /** `c` is a canonical constant of type `t` whose bytes are those from `base` on. */
  ghost predicate Matches(c: Const, t: Ty, bytes: seq<Byte>, base: nat)
  {
    ValidConst(c) && TyOf(c) == t && Canonical(c) && base + Size(c) <= |bytes| && BytesOf(bytes, base, c)
  }

  /** `intFromBytes`: the little-endian number held by `n` bytes. */
  function Little(bytes: seq<Byte>, base: nat, n: nat): nat
    requires base + n <= |bytes|
    decreases n
  {
    if n == 0 then 0 else bytes[base] + 256 * Little(bytes, base + 1, n - 1)
  }

  lemma {:induction false} LittleInRange(bytes: seq<Byte>, base: nat, n: nat)
    requires base + n <= |bytes|
    ensures Little(bytes, base, n) < Pow256(n)
    decreases n
  {
    if n > 0 {
      LittleInRange(bytes, base + 1, n - 1);
    }
  }

  lemma {:induction false} LittleOf(bytes: seq<Byte>, base: nat, n: nat, value: nat)
    requires base + n <= |bytes| && value < Pow256(n)
    requires forall p :: base <= p < base + n ==> bytes[p] == ByteOf(value, p - base)
    ensures Little(bytes, base, n) == value
    decreases n
  {
    if n > 0 {
      forall p | base + 1 <= p < base + n ensures bytes[p] == ByteOf(value / 256, p - (base + 1)) {
        ByteShift(value, p - (base + 1));
      }
      assert bytes[base] == ByteOf(value, 0) && Pow256(0) == 1;
      LittleOf(bytes, base + 1, n - 1, value / 256);
    }
  }

  /** A number tells the bytes it was read from. */
  lemma {:induction false} LittleByte(bytes: seq<Byte>, base: nat, n: nat, k: nat)
    requires base + n <= |bytes| && k < n
    ensures ByteOf(Little(bytes, base, n), k) == bytes[base + k]
    decreases n
  {
    var v, rest := Little(bytes, base, n), Little(bytes, base + 1, n - 1);
    assert v / 256 == rest && v % 256 == bytes[base];
    if k == 0 {
      assert Pow256(0) == 1;
    } else {
      LittleByte(bytes, base + 1, n - 1, k - 1);
      ByteShift(v, k - 1);
    }
  }

  lemma PartBytesOf(bytes: seq<Byte>, base: nat, c: Const, m: Const, off: nat)
    requires base + Size(c) <= |bytes| && BytesOf(bytes, base, c) && off + Size(m) <= Size(c)
    requires forall k: nat :: k < Size(m) ==> Flat(CellAt(c, off + k)) == Flat(CellAt(m, k))
    ensures BytesOf(bytes, base + off, m)
  {
    forall p | base + off <= p < base + off + Size(m) ensures bytes[p] == Flat(CellAt(m, p - (base + off))) {
      var k := p - (base + off);
      assert Flat(CellAt(c, off + k)) == Flat(CellAt(m, k)) && off + k == p - base;
    }
  }

  /** The bytes of a null are zero. */
  lemma NullBytes(t: Ty, k: nat)
    ensures Flat(CellAt(NullOf(t), k)) == 0
  {
    if t.IntTy? && ByteInt(t.bits) {
      assert 0 / Pow256(k) == 0;
    }
  }

  // ----- members and elements of what matches

  lemma MemberFits(ty: Ty, i: nat)
    requires ty.StructTy? && ValidTy(ty) && i < |ty.fields|
    ensures ty.offsets[i] + StoreSize(ty.fields[i]) <= ty.offsets[i] + AllocSize(ty.fields[i]) <= ty.size
    ensures i + 1 < |ty.fields| ==> ty.offsets[i] + AllocSize(ty.fields[i]) <= ty.offsets[i + 1]
  {
    StoreWithinAlloc(ty.fields[i]);
    assert EndsBy(ty.fields, ty.offsets, i, ty.size);
    assert i + 1 < |ty.fields| ==> EndsBy(ty.fields, ty.offsets, i, ty.offsets[i + 1]);
  }

  lemma MemberMatches(c: Const, t: Ty, bytes: seq<Byte>, base: nat, i: nat)
    requires t.StructTy? && i < |t.fields| && Matches(c, t, bytes, base)
    ensures Matches(Member(c, i), t.fields[i], bytes, base + t.offsets[i])
  {
    MemberFits(t, i);
    MemberCanonical(c, i);
    MemberSame(c, i);
    PartBytesOf(bytes, base, c, Member(c, i), t.offsets[i]);
  }

  /** A member's bytes are the struct's at its offset. */
  lemma MemberSame(c: Const, i: nat)
    requires ValidConst(c) && Canonical(c) && TyOf(c).StructTy? && i < |TyOf(c).fields|
    ensures forall k: nat :: k < Size(Member(c, i)) ==> Flat(CellAt(c, TyOf(c).offsets[i] + k)) == Flat(CellAt(Member(c, i), k))
  {
    MemberFits(TyOf(c), i);
    MemberCanonical(c, i);
    if c.CStruct? {
      MemberBytes(c, i, 0, Size(c.members[i]));
    } else {
      forall k: nat | k < Size(Member(c, i)) ensures Flat(CellAt(c, TyOf(c).offsets[i] + k)) == Flat(CellAt(Member(c, i), k)) {
        NullMemberByte(c, i, k);
      }
    }
  }

  lemma NullMemberByte(c: Const, i: nat, k: nat)
    requires ValidConst(c) && Canonical(c) && TyOf(c).StructTy? && !c.CStruct? && i < |TyOf(c).fields| && k < Size(Member(c, i))
    ensures Flat(CellAt(c, TyOf(c).offsets[i] + k)) == Flat(CellAt(Member(c, i), k))
  {
    MemberFits(TyOf(c), i);
    NullBytes(TyOf(c).fields[i], k);
  }

  lemma ElementFits(esize: nat, i: nat, n: nat)
    requires i < n
    ensures ElementStart(esize, i) == i * esize
    ensures i * esize + esize <= n * esize
  {
    ElementStartIs(esize, i);
    MulMonotone(i + 1, n, esize);
  }

  /** The element at `i` holds the bytes from its place on. */
  lemma ElemByte(c: Const, i: nat, base: nat, k: nat)
    requires ValidConst(c) && Canonical(c) && TyOf(c).ArrayTy? && i < TyOf(c).count && base == i * AllocSize(TyOf(c).elem)
    requires k < AllocSize(TyOf(c).elem)
    ensures Flat(CellAt(c, base + k)) == Flat(CellAt(Elem(c, i), k))
  {
    if c.CZero? {
      NullBytes(TyOf(c).elem, k);
    } else {
      ElementPlaced(c, i, base);
    }
  }

  lemma ElemMatches(c: Const, t: Ty, bytes: seq<Byte>, base: nat, i: nat)
    requires t.ArrayTy? && i < t.count && Matches(c, t, bytes, base)
    ensures Matches(Elem(c, i), t.elem, bytes, base + ElementStart(AllocSize(t.elem), i))
  {
    var e, at := Elem(c, i), i * AllocSize(t.elem);
    ElementFits(AllocSize(t.elem), i, t.count);
    StoreWithinAlloc(t.elem);
    ElemCanonical(c, i);
    forall k: nat | k < Size(e) ensures Flat(CellAt(c, at + k)) == Flat(CellAt(e, k)) {
      ElemByte(c, i, at, k);
    }
    PartBytesOf(bytes, base, c, e, at);
  }

  // ----- arrays of integers with tail padding

  /** The elements of a canonical array of integers are integers. */
  lemma IntElem(c: Const, i: nat)
    requires ValidConst(c) && Canonical(c) && TyOf(c).ArrayTy? && TyOf(c).elem.IntTy? && i < TyOf(c).count
    ensures var e, t := Elem(c, i), TyOf(c).elem; e.CInt? && e == CInt(t.bits, t.alloc, e.value) && e.value < Pow256(t.bits / 8)
  {
    ElemCanonical(c, i);
  }

  /** What byte `j` of element `i` is: a byte of the integer, or padding. */
  lemma IntElemByte(c: Const, t: Ty, bytes: seq<Byte>, base: nat, i: nat, j: nat)
    requires t.ArrayTy? && t.elem.IntTy? && ByteInt(t.elem.bits) && Matches(c, t, bytes, base) && i < t.count && j < t.elem.alloc
    ensures Elem(c, i).CInt? && base + ElementStart(t.elem.alloc, i) + j < |bytes|
    ensures bytes[base + ElementStart(t.elem.alloc, i) + j] == if j < t.elem.bits / 8 then ByteOf(Elem(c, i).value, j) else 0
  {
    IntElem(c, i);
    var at := ElementStart(t.elem.alloc, i);
    ElementFits(t.elem.alloc, i, t.count);
    ElemByte(c, i, at, j);
    assert bytes[base + at + j] == Flat(CellAt(c, at + j));
  }

  /** The number built for element `i`, the elements taken to lie `s` bytes apart. */
  ghost predicate BuiltAs(c: Const, bytes: seq<Byte>, base: nat, s: nat, i: nat)
    requires ValidConst(c) && TyOf(c).ArrayTy? && i < TyOf(c).count
  {
    BuiltAt(Elem(c, i), bytes, base + ElementStart(s, i), s)
  }

  ghost predicate BuiltAt(e: Const, bytes: seq<Byte>, at: nat, s: nat)
  {
    e.CInt? && at + s <= |bytes| && Little(bytes, at, s) == e.value
  }

  /** `n` integers of `s` bytes each, `alloc` bytes apart. */
  ghost predicate Row(c: Const, t: Ty, bytes: seq<Byte>, base: nat, s: nat)
  {
    t.ArrayTy? && t.elem.IntTy? && ByteInt(t.elem.bits) && s == t.elem.bits / 8 && Spaced(t.elem) && Matches(c, t, bytes, base)
  }

  lemma RowFits(c: Const, t: Ty, bytes: seq<Byte>, base: nat, s: nat, i: nat)
    requires Row(c, t, bytes, base, s) && i < t.count
    ensures 0 < s < t.elem.alloc && base + ElementStart(s, i) + s <= base + t.count * t.elem.alloc <= |bytes|
  {
    assert ValidTy(t.elem) && t.elem.bits % 8 == 0;
    ElementStartIs(s, i);
    StrideFits(i, t.count, s, t.elem.alloc);
  }

  /** The byte at `p`: byte `k` of element `i`, or padding. */
  lemma RowByte(c: Const, t: Ty, bytes: seq<Byte>, base: nat, s: nat, p: nat) returns (i: nat, k: nat)
    requires Row(c, t, bytes, base, s) && p < t.count * t.elem.alloc
    ensures i < t.count && k < t.elem.alloc && p == ElementStart(t.elem.alloc, i) + k && Elem(c, i).CInt?
    ensures base + p < |bytes| && bytes[base + p] == if k < s then ByteOf(Elem(c, i).value, k) else 0
  {
    assert ValidTy(t.elem);
    i, k := RowIndex(p, t.count, t.elem.alloc);
    IntElemByte(c, t, bytes, base, i, k);
  }

  lemma RowIndex(p: nat, count: nat, esize: nat) returns (i: nat, k: nat)
    requires esize > 0 && p < count * esize
    ensures i < count && k < esize && p == ElementStart(esize, i) + k
  {
    i, k := p / esize, p % esize;
    DivBound(p, count, esize);
    ElementStartIs(esize, i);
  }

  /** If every element but the first is zero, so is every byte behind the first. */
  lemma RowZero(c: Const, t: Ty, bytes: seq<Byte>, base: nat, s: nat, p: nat)
    requires Row(c, t, bytes, base, s) && s <= p < t.count * t.elem.alloc
    requires forall j: nat :: 1 <= j < t.count ==> IsNullConst(Elem(c, j))
    ensures base + p < |bytes| && bytes[base + p] == 0
  {
    var i, k := RowByte(c, t, bytes, base, s, p);
    if i > 0 {
      NoByte(k);
    }
  }

  /** ... and every element is built as it was. */
  lemma ZeroRowBuilt(c: Const, t: Ty, bytes: seq<Byte>, base: nat, s: nat, i: nat, at: nat)
    requires Row(c, t, bytes, base, s) && i < t.count && at == ElementStart(s, i)
    requires forall j: nat :: 1 <= j < t.count ==> IsNullConst(Elem(c, j))
    ensures BuiltAt(Elem(c, i), bytes, base + at, s)
  {
    IntElem(c, i);
    ZeroRowBytes(c, t, bytes, base, s, i, at);
    LittleOf(bytes, base + at, s, Elem(c, i).value);
  }

  lemma ZeroRowBytes(c: Const, t: Ty, bytes: seq<Byte>, base: nat, s: nat, i: nat, at: nat)
    requires Row(c, t, bytes, base, s) && i < t.count && at == ElementStart(s, i)
    requires forall j: nat :: 1 <= j < t.count ==> IsNullConst(Elem(c, j))
    ensures Elem(c, i).CInt? && base + at + s <= |bytes|
    ensures forall p :: base + at <= p < base + at + s ==> bytes[p] == ByteOf(Elem(c, i).value, p - (base + at))
  {
    IntElem(c, i);
    RowFits(c, t, bytes, base, s, i);
    forall p | base + at <= p < base + at + s ensures bytes[p] == ByteOf(Elem(c, i).value, p - (base + at)) {
      ZeroRowByte(c, t, bytes, base, s, i, at, p - (base + at));
    }
  }

  lemma ZeroRowByte(c: Const, t: Ty, bytes: seq<Byte>, base: nat, s: nat, i: nat, at: nat, k: nat)
    requires Row(c, t, bytes, base, s) && i < t.count && at == ElementStart(s, i) && k < s
    requires forall j: nat :: 1 <= j < t.count ==> IsNullConst(Elem(c, j))
    ensures Elem(c, i).CInt? && base + at + k < |bytes| && bytes[base + at + k] == ByteOf(Elem(c, i).value, k)
  {
    if i == 0 {
      IntElemByte(c, t, bytes, base, 0, k);
    } else {
      IntElem(c, i);
      RowFits(c, t, bytes, base, s, i);
      RowShorter(i, s, t.elem.alloc);
      RowZero(c, t, bytes, base, s, at + k);
      NoByte(k);
    }
  }

  lemma NoByte(k: nat)
    ensures ByteOf(0, k) == 0
  {
  }

  /** If every element is built as it was, every byte behind the first element is zero: each is the
      same as one further left. */
  lemma {:induction false} BuiltRowZero(c: Const, t: Ty, bytes: seq<Byte>, base: nat, s: nat, p: nat)
    requires Row(c, t, bytes, base, s) && s <= p < t.count * t.elem.alloc
    requires forall i: nat :: i < t.count ==> BuiltAs(c, bytes, base, s, i)
    ensures base + p < |bytes| && bytes[base + p] == 0
    decreases p
  {
    var i, k := RowByte(c, t, bytes, base, s, p);
    if i > 0 && k < s {
      var left := FurtherLeft(c, t, bytes, base, s, p, i, k);
      BuiltRowZero(c, t, bytes, base, s, left);
    }
  }

  /** The byte that byte `k` of element `i` is built from. */
  lemma FurtherLeft(c: Const, t: Ty, bytes: seq<Byte>, base: nat, s: nat, p: nat, i: nat, k: nat) returns (left: nat)
    requires Row(c, t, bytes, base, s) && 0 < i < t.count && k < s && p == ElementStart(t.elem.alloc, i) + k && BuiltAs(c, bytes, base, s, i)
    ensures s <= left < p && base + left < |bytes| && bytes[base + left] == ByteOf(Elem(c, i).value, k)
  {
    var at := ElementStart(s, i);
    RowFits(c, t, bytes, base, s, i);
    RowShorter(i, s, t.elem.alloc);
    LittleByte(bytes, base + at, s, k);
    left := at + k;
  }

  lemma {:induction false} RowShorter(i: nat, s: nat, alloc: nat)
    requires 0 < i && s < alloc
    ensures s <= ElementStart(s, i) < ElementStart(alloc, i)
  {
    if i > 1 {
      RowShorter(i - 1, s, alloc);
    } else {
      assert ElementStart(s, 1) == ElementStart(s, 0) + s && ElementStart(alloc, 1) == ElementStart(alloc, 0) + alloc;
    }
  }

  lemma {:induction false} LittleZero(bytes: seq<Byte>, base: nat, n: nat)
    requires base + n <= |bytes| && forall p :: base <= p < base + n ==> bytes[p] == 0
    ensures Little(bytes, base, n) == 0
    decreases n
  {
    if n > 0 {
      LittleZero(bytes, base + 1, n - 1);
    }
  }

  lemma BuiltNull(c: Const, t: Ty, bytes: seq<Byte>, base: nat, s: nat, i: nat)
    requires Row(c, t, bytes, base, s) && 1 <= i < t.count
    requires forall i: nat :: i < t.count ==> BuiltAs(c, bytes, base, s, i)
    ensures IsNullConst(Elem(c, i))
  {
    assert BuiltAs(c, bytes, base, s, i);
    RowFits(c, t, bytes, base, s, i);
    forall p | base + ElementStart(s, i) <= p < base + ElementStart(s, i) + s ensures bytes[p] == 0 {
      RowShorter(i, s, t.elem.alloc);
      BuiltRowZero(c, t, bytes, base, s, p - base);
    }
    LittleZero(bytes, base + ElementStart(s, i), s);
  }

  lemma RebuildsRow(c: Const)
    requires ValidConst(c) && Canonical(c) && TyOf(c).ArrayTy? && TyOf(c).elem.IntTy? && TyOf(c).count > 0 && Spaced(TyOf(c).elem)
    ensures Rebuilds(c) <==> forall i: nat :: 1 <= i < TyOf(c).count ==> IsNullConst(Elem(c, i))
  {
    match c
    case CArray(elemTy, elems) =>
      assert forall i: nat :: i < |elems| ==> Elem(c, i) == elems[i];
    case CData(bits, alloc, vals) =>
      assert forall i: nat :: i < |vals| ==> Elem(c, i) == CInt(bits, alloc, vals[i]);
    case CZero(ty) =>
      NullCanonical(ty.elem);
  }

  /** An array of integers with tail padding is built as it was exactly when all its elements but the
      first are zero. */
  lemma RowBuilt(c: Const, t: Ty, bytes: seq<Byte>, base: nat, s: nat)
    requires Row(c, t, bytes, base, s) && t.count > 0
    ensures Rebuilds(c) <==> forall i: nat :: i < t.count ==> BuiltAs(c, bytes, base, s, i)
  {
    RebuildsRow(c);
    if Rebuilds(c) {
      forall i: nat | i < t.count ensures BuiltAs(c, bytes, base, s, i) {
        ZeroRowBuilt(c, t, bytes, base, s, i, ElementStart(s, i));
      }
    } else if forall i: nat :: i < t.count ==> BuiltAs(c, bytes, base, s, i) {
      forall i: nat | 1 <= i < t.count ensures IsNullConst(Elem(c, i)) {
        BuiltNull(c, t, bytes, base, s, i);
      }
    }
  }

  lemma StrideFits(i: nat, n: nat, store: nat, alloc: nat)
    requires i < n && store <= alloc
    ensures i * store + alloc <= n * alloc
  {
    MulMonotone(store, alloc, i);
    MulMonotone(i + 1, n, alloc);
  }

  // ----- constFromBytes

  /** `constFromBytes`: build a constant of type `t` from the bytes at `base`. Null is the only
      pointer that can be built, and an empty array cannot. Of a canonical constant `c` whose bytes
      these are, it gives back `c` exactly when `c` can be built again. */
  method ConstFromBytes(bytes: seq<Byte>, base: nat, t: Ty, ghost c: Const) returns (r: Option<Const>)
    requires ValidTy(t) && WholeBytes(t) && base + AllocSize(t) <= |bytes|
    ensures r.Some? ==> ValidConst(r.value) && TyOf(r.value) == t && Canonical(r.value)
    ensures t.PtrTy? ==> (r.Some? <==> forall k :: base <= k < base + POINTER_SIZE ==> bytes[k] == 0)
    ensures t.IntTy? ==> StoreSize(t) <= AllocSize(t) && r == Some(CInt(t.bits, t.alloc, Little(bytes, base, t.bits / 8)))
    ensures Matches(c, t, bytes, base) ==> (r == Some(c) <==> Rebuilds(c))
    decreases t, 2
  {
    match t {
      case IntTy(bits, alloc) =>
        StoreWithinAlloc(t);
        LittleInRange(bytes, base, bits / 8);
        r := Some(CInt(bits, alloc, Little(bytes, base, bits / 8)));
        if Matches(c, t, bytes, base) {
          LittleOf(bytes, base, bits / 8, c.value);
        }
      case PtrTy =>
        var i := 0;
        while i < POINTER_SIZE
          invariant 0 <= i <= POINTER_SIZE
          invariant forall k :: base <= k < base + i ==> bytes[k] == 0
        {
          if bytes[base + i] != 0 {
            return None;
          }
          i := i + 1;
        }
        r := Some(CNull);
      case ArrayTy(elem, count) =>
        r := ArrayFromBytes(bytes, base, t, c);
      case StructTy(_, _, _) =>
        r := StructFromBytes(bytes, base, t, c);
    }
  }

  /** The elements built so far are valid constants of the element type. */
  predicate BuiltElems(elems: seq<Const>, elem: Ty)
  {
    forall j :: 0 <= j < |elems| ==> ValidConst(elems[j]) && Canonical(elems[j]) && TyOf(elems[j]) == elem
  }

  /** The elements built so far are those of `c`, as far as those can be built again. */
  ghost predicate ElemsBack(elems: seq<Const>, c: Const, t: Ty, bytes: seq<Byte>, base: nat)
    requires t.ArrayTy? && |elems| <= t.count
  {
    Matches(c, t, bytes, base) && !Spaced(t.elem) ==>
      (elems == Elems(c)[..|elems|] <==> forall j :: 0 <= j < |elems| ==> Rebuilds(Elem(c, j)))
  }

  /** The elements built so far are the numbers found at their places. */
  ghost predicate ElemsFound(elems: seq<Const>, t: Ty, bytes: seq<Byte>, base: nat)
    requires t.ArrayTy?
  {
    t.elem.IntTy? ==>
      var s := t.elem.bits / 8;
      forall j: nat :: j < |elems| ==>
        base + ElementStart(s, j) + s <= |bytes| && elems[j] == CInt(t.elem.bits, t.elem.alloc, Little(bytes, base + ElementStart(s, j), s))
  }

  method ArrayFromBytes(bytes: seq<Byte>, base: nat, t: Ty, ghost c: Const) returns (r: Option<Const>)
    requires t.ArrayTy? && ValidTy(t) && WholeBytes(t) && base + AllocSize(t) <= |bytes|
    ensures r.Some? ==> ValidConst(r.value) && TyOf(r.value) == t && Canonical(r.value)
    ensures Matches(c, t, bytes, base) ==> (r == Some(c) <==> Rebuilds(c))
    decreases t, 1
  {
    if t.count == 0 {
      EmptyNotRebuilt(c, t);
      return None;
    }
    var esize := StoreSize(t.elem);
    var elems, offset, i := [], 0, 0;
    while i < t.count
      invariant 0 <= i <= t.count && |elems| == i && offset == ElementStart(esize, i)
      invariant BuiltElems(elems, t.elem) && ElemsFound(elems, t, bytes, base) && ElemsBack(elems, c, t, bytes, base)
    {
      var e := ElementFromBytes(bytes, base, offset, t, elems, c);
      if e.None? {
        return None;
      }
      elems := elems + [e.value];
      i, offset := i + 1, offset + esize;
    }
    MakeArrayCanonical(t, elems);
    r := Some(MakeArray(t, elems));
    if Matches(c, t, bytes, base) {
      ArrayBack(elems, c, t, bytes, base);
    }
  }

  /** Build the element behind those in `elems`. */
  method ElementFromBytes(bytes: seq<Byte>, base: nat, offset: nat, t: Ty, ghost elems: seq<Const>, ghost c: Const) returns (r: Option<Const>)
    requires t.ArrayTy? && ValidTy(t) && WholeBytes(t) && base + AllocSize(t) <= |bytes|
    requires |elems| < t.count && offset == ElementStart(StoreSize(t.elem), |elems|)
    requires BuiltElems(elems, t.elem) && ElemsFound(elems, t, bytes, base) && ElemsBack(elems, c, t, bytes, base)
    ensures r.None? && Matches(c, t, bytes, base) ==> !Rebuilds(c)
    ensures r.Some? ==>
              var now := elems + [r.value];
              BuiltElems(now, t.elem) && ElemsFound(now, t, bytes, base) && ElemsBack(now, c, t, bytes, base)
    decreases t, 0
  {
    StrideInside(t, |elems|);
    var at := base + offset;
    ElementWanted(c, t, bytes, base, |elems|, at);
    r := ConstFromBytes(bytes, at, t.elem, WantedElement(c, t, bytes, base, |elems|));
    ElementDone(r, elems, c, t, bytes, base, at);
  }

  /** The element that is to be built, if the array is. */
  ghost function WantedElement(c: Const, t: Ty, bytes: seq<Byte>, base: nat, i: nat): Const
    requires t.ArrayTy? && i < t.count
  {
    if Matches(c, t, bytes, base) then Elem(c, i) else c
  }

  lemma ElementWanted(c: Const, t: Ty, bytes: seq<Byte>, base: nat, i: nat, at: nat)
    requires t.ArrayTy? && ValidTy(t) && i < t.count && StoreSize(t.elem) <= AllocSize(t.elem) && at == base + ElementStart(StoreSize(t.elem), i)
    ensures Matches(c, t, bytes, base) && !Spaced(t.elem) ==>
              && WantedElement(c, t, bytes, base, i) == Elem(c, i)
              && var matches := Matches(Elem(c, i), t.elem, bytes, at); matches
  {
    if Matches(c, t, bytes, base) && !Spaced(t.elem) {
      ElemMatches(c, t, bytes, base, i);
    }
  }

  /** What building the element gives for the elements so far. */
  lemma ElementDone(r: Option<Const>, elems: seq<Const>, c: Const, t: Ty, bytes: seq<Byte>, base: nat, at: nat)
    requires t.ArrayTy? && |elems| < t.count && BuiltElems(elems, t.elem) && ElemsFound(elems, t, bytes, base) && ElemsBack(elems, c, t, bytes, base)
    requires WholeBytes(t) && at == base + ElementStart(StoreSize(t.elem), |elems|) && StoreSize(t.elem) <= AllocSize(t.elem) && at + AllocSize(t.elem) <= |bytes|
    requires r.Some? ==> ValidConst(r.value) && TyOf(r.value) == t.elem && Canonical(r.value)
    requires t.elem.IntTy? ==> at + t.elem.bits / 8 <= |bytes| && r == Some(CInt(t.elem.bits, t.elem.alloc, Little(bytes, at, t.elem.bits / 8)))
    requires Matches(c, t, bytes, base) && !Spaced(t.elem) ==> (r == Some(Elem(c, |elems|)) <==> Rebuilds(Elem(c, |elems|)))
    ensures r.None? && Matches(c, t, bytes, base) ==> !Rebuilds(c)
    ensures r.Some? ==>
              var now := elems + [r.value];
              BuiltElems(now, t.elem) && ElemsFound(now, t, bytes, base) && ElemsBack(now, c, t, bytes, base)
  {
    if r.Some? {
      ElemsNext(elems, r.value, c, t, bytes, base);
      ElementFound(r.value, elems, t, bytes, base, at);
    } else if Matches(c, t, bytes, base) {
      ElementLost(c, t, |elems|);
    }
  }

  lemma ElementFound(e: Const, elems: seq<Const>, t: Ty, bytes: seq<Byte>, base: nat, at: nat)
    requires t.ArrayTy? && |elems| < t.count && ElemsFound(elems, t, bytes, base)
    requires WholeBytes(t) && at == base + ElementStart(StoreSize(t.elem), |elems|) && StoreSize(t.elem) <= AllocSize(t.elem)
    requires t.elem.IntTy? ==> at + t.elem.bits / 8 <= |bytes| && e == CInt(t.elem.bits, t.elem.alloc, Little(bytes, at, t.elem.bits / 8))
    ensures ElemsFound(elems + [e], t, bytes, base)
  {
    if t.elem.IntTy? {
      assert ByteInt(t.elem.bits) && StoreSize(t.elem) == t.elem.bits / 8;
      FoundNext(elems, e, t, bytes, base, t.elem.bits / 8);
    }
  }

  /** An element read at its stride lies inside the array. */
  lemma StrideInside(t: Ty, i: nat)
    requires t.ArrayTy? && ValidTy(t) && i < t.count
    ensures StoreSize(t.elem) <= AllocSize(t.elem) && ElementStart(StoreSize(t.elem), i) + AllocSize(t.elem) <= AllocSize(t)
  {
    StoreWithinAlloc(t.elem);
    ElementStartIs(StoreSize(t.elem), i);
    StrideFits(i, t.count, StoreSize(t.elem), AllocSize(t.elem));
  }

  lemma FoundNext(elems: seq<Const>, e: Const, t: Ty, bytes: seq<Byte>, base: nat, s: nat)
    requires t.ArrayTy? && ElemsFound(elems, t, bytes, base)
    requires t.elem.IntTy? ==>
               && s == t.elem.bits / 8 && base + ElementStart(s, |elems|) + s <= |bytes|
               && e == CInt(t.elem.bits, t.elem.alloc, Little(bytes, base + ElementStart(s, |elems|), s))
    ensures ElemsFound(elems + [e], t, bytes, base)
  {
  }

  lemma EmptyNotRebuilt(c: Const, t: Ty)
    requires t.ArrayTy? && t.count == 0
    ensures ValidConst(c) && Canonical(c) && TyOf(c) == t ==> !Rebuilds(c)
  {
  }

  lemma ElementLost(c: Const, t: Ty, i: nat)
    requires ValidConst(c) && Canonical(c) && TyOf(c) == t && t.ArrayTy? && i < t.count && !Spaced(t.elem) && !Rebuilds(Elem(c, i))
    ensures !Rebuilds(c)
  {
    RebuildsElems(c);
  }

  lemma ElemsNext(elems: seq<Const>, e: Const, c: Const, t: Ty, bytes: seq<Byte>, base: nat)
    requires t.ArrayTy? && |elems| < t.count && ElemsBack(elems, c, t, bytes, base)
    requires Matches(c, t, bytes, base) && !Spaced(t.elem) ==> (e == Elem(c, |elems|) <==> Rebuilds(Elem(c, |elems|)))
    ensures ElemsBack(elems + [e], c, t, bytes, base)
  {
    if Matches(c, t, bytes, base) && !Spaced(t.elem) {
      var n, all := |elems|, Elems(c);
      assert all[..n + 1] == all[..n] + [all[n]] && all[n] == Elem(c, n);
      assert (elems + [e])[..n] == elems && (elems + [e])[n] == e;
    }
  }

  /** With all elements built, the array is `c` exactly when `c` can be built again. */
  lemma ArrayBack(elems: seq<Const>, c: Const, t: Ty, bytes: seq<Byte>, base: nat)
    requires t.ArrayTy? && |elems| == t.count > 0 && Matches(c, t, bytes, base) && BuiltElems(elems, t.elem) && WholeBytes(t)
    requires ElemsFound(elems, t, bytes, base) && ElemsBack(elems, c, t, bytes, base)
    ensures MakeArray(t, elems) == c <==> Rebuilds(c)
  {
    MakeArrayCanonical(t, elems);
    ArrayOfElems(c);
    assert MakeArray(t, elems) == c <==> elems == Elems(c);
    if Spaced(t.elem) {
      RowBuilt(c, t, bytes, base, t.elem.bits / 8);
      RowBack(elems, c, t, bytes, base, t.elem.bits / 8);
    } else {
      assert Elems(c)[..t.count] == Elems(c);
      RebuildsElems(c);
    }
  }

  lemma RowBack(elems: seq<Const>, c: Const, t: Ty, bytes: seq<Byte>, base: nat, s: nat)
    requires Row(c, t, bytes, base, s) && |elems| == t.count && ElemsFound(elems, t, bytes, base)
    ensures elems == Elems(c) <==> forall i: nat :: i < t.count ==> BuiltAs(c, bytes, base, s, i)
  {
    forall i: nat | i < t.count ensures elems[i] == Elems(c)[i] <==> BuiltAs(c, bytes, base, s, i) {
      IntElem(c, i);
    }
    if elems == Elems(c) {
      forall i: nat | i < t.count ensures BuiltAs(c, bytes, base, s, i) {
        assert elems[i] == Elems(c)[i];
      }
    }
  }

  /** Build the member at `i`, behind those in `members`. */
  method MemberFromBytes(bytes: seq<Byte>, base: nat, t: Ty, i: nat, ghost members: seq<Const>, ghost c: Const) returns (r: Option<Const>)
    requires t.StructTy? && ValidTy(t) && WholeBytes(t) && base + AllocSize(t) <= |bytes| && i == |members| < |t.fields|
    requires BuiltMembers(members, t) && MembersBack(members, c, t, bytes, base)
    ensures r.None? && Matches(c, t, bytes, base) ==> !Rebuilds(c)
    ensures r.Some? ==> BuiltMembers(members + [r.value], t) && MembersBack(members + [r.value], c, t, bytes, base)
    decreases t, 0
  {
    MemberFits(t, i);
    MemberWanted(c, t, bytes, base, i);
    r := ConstFromBytes(bytes, base + t.offsets[i], t.fields[i], WantedMember(c, t, bytes, base, i));
    MemberDone(r, members, c, t, bytes, base, i);
  }

  /** The member that is to be built, if the struct is. */
  ghost function WantedMember(c: Const, t: Ty, bytes: seq<Byte>, base: nat, i: nat): Const
    requires t.StructTy? && i < |t.fields|
  {
    if Matches(c, t, bytes, base) then Member(c, i) else c
  }

  lemma MemberWanted(c: Const, t: Ty, bytes: seq<Byte>, base: nat, i: nat)
    requires t.StructTy? && ValidTy(t) && i < |t.fields|
    ensures Matches(c, t, bytes, base) ==>
              WantedMember(c, t, bytes, base, i) == Member(c, i) && var matches := Matches(Member(c, i), t.fields[i], bytes, base + t.offsets[i]); matches
  {
    if Matches(c, t, bytes, base) {
      MemberMatches(c, t, bytes, base, i);
    }
  }

  /** What building the member gives for the members so far. */
  lemma MemberDone(r: Option<Const>, members: seq<Const>, c: Const, t: Ty, bytes: seq<Byte>, base: nat, i: nat)
    requires t.StructTy? && i == |members| < |t.fields| && BuiltMembers(members, t) && MembersBack(members, c, t, bytes, base)
    requires r.Some? ==> ValidConst(r.value) && TyOf(r.value) == t.fields[i] && Canonical(r.value)
    requires Matches(c, t, bytes, base) ==> (r == Some(Member(c, i)) <==> Rebuilds(Member(c, i)))
    ensures r.None? && Matches(c, t, bytes, base) ==> !Rebuilds(c)
    ensures r.Some? ==> BuiltMembers(members + [r.value], t) && MembersBack(members + [r.value], c, t, bytes, base)
  {
    if r.Some? {
      MembersNext(members, r.value, c, t, bytes, base);
    } else if Matches(c, t, bytes, base) {
      MemberLost(c, t, i);
    }
  }

  lemma MemberLost(c: Const, t: Ty, i: nat)
    requires ValidConst(c) && Canonical(c) && TyOf(c) == t && t.StructTy? && i < |t.fields| && !Rebuilds(Member(c, i))
    ensures !Rebuilds(c)
  {
    RebuildsMembers(c);
  }

  ghost predicate MembersBack(members: seq<Const>, c: Const, t: Ty, bytes: seq<Byte>, base: nat)
    requires t.StructTy? && |members| <= |t.fields|
  {
    Matches(c, t, bytes, base) ==>
      (members == Members(c)[..|members|] <==> forall j :: 0 <= j < |members| ==> Rebuilds(Member(c, j)))
  }

  lemma MembersNext(members: seq<Const>, m: Const, c: Const, t: Ty, bytes: seq<Byte>, base: nat)
    requires t.StructTy? && |members| < |t.fields| && MembersBack(members, c, t, bytes, base)
    requires Matches(c, t, bytes, base) ==> (m == Member(c, |members|) <==> Rebuilds(Member(c, |members|)))
    ensures MembersBack(members + [m], c, t, bytes, base)
  {
    if Matches(c, t, bytes, base) {
      var n, all := |members|, Members(c);
      assert all[..n + 1] == all[..n] + [all[n]] && all[n] == Member(c, n);
      assert (members + [m])[..n] == members && (members + [m])[n] == m;
    }
  }

  predicate BuiltMembers(members: seq<Const>, t: Ty)
    requires t.StructTy? && |members| <= |t.fields|
  {
    forall j :: 0 <= j < |members| ==> ValidConst(members[j]) && Canonical(members[j]) && TyOf(members[j]) == t.fields[j]
  }

  method StructFromBytes(bytes: seq<Byte>, base: nat, t: Ty, ghost c: Const) returns (r: Option<Const>)
    requires t.StructTy? && ValidTy(t) && WholeBytes(t) && base + AllocSize(t) <= |bytes|
    ensures r.Some? ==> ValidConst(r.value) && TyOf(r.value) == t && Canonical(r.value)
    ensures Matches(c, t, bytes, base) ==> (r == Some(c) <==> Rebuilds(c))
    decreases t, 1
  {
    var members := [];
    var i := 0;
    while i < |t.fields|
      invariant 0 <= i <= |t.fields| && |members| == i
      invariant BuiltMembers(members, t) && MembersBack(members, c, t, bytes, base)
    {
      var m := MemberFromBytes(bytes, base, t, i, members, c);
      if m.None? {
        return None;
      }
      members := members + [m.value];
      i := i + 1;
    }
    MakeStructCanonical(t, members);
    r := Some(MakeStruct(t, members));
    if Matches(c, t, bytes, base) {
      StructBack(members, c, t, bytes, base);
    }
  }

  lemma StructBack(members: seq<Const>, c: Const, t: Ty, bytes: seq<Byte>, base: nat)
    requires t.StructTy? && |members| == |t.fields| && Matches(c, t, bytes, base) && BuiltMembers(members, t)
    requires MembersBack(members, c, t, bytes, base)
    ensures MakeStruct(t, members) == c <==> Rebuilds(c)
  {
    MakeStructCanonical(t, members);
    StructOfMembers(c);
    assert Members(c)[..|t.fields|] == Members(c);
    RebuildsMembers(c);
  }

  // ----- there and back

  /** Constants through bytes and back: reading any canonical constant into a zeroed buffer and building
      a constant of its type from that gives it back exactly when it can be read at all and can be
      built again. */
  method RoundTrip(c: Const) returns (r: Option<Const>)
    requires ValidConst(c) && Canonical(c) && WholeBytes(TyOf(c))
    ensures r == Some(c) <==> Readable(c, 0, Alloc(c)) && Rebuilds(c)
  {
    var buf := new Byte[Alloc(c)](_ => 0);
    StartTail(c);
    StoreWithinAlloc(TyOf(c));
    var ok := ReadData(c, 0, buf, 0, buf.Length);
    if Rebuilds(c) {
      RebuildsSized(c);
    }
    if !ok {
      return None;
    }
    r := ConstFromBytes(buf[..], 0, TyOf(c), c);
  }

  /** Two 24-bit integers four bytes apart do not come back: the second is read one byte early. */
  lemma SpacedLost(a: nat, b: nat)
    requires a < Pow256(3) && 0 < b < Pow256(3)
    ensures var c := CArray(IntTy(24, 4), [CInt(24, 4, a), CInt(24, 4, b)]);
            ValidConst(c) && Canonical(c) && WholeBytes(TyOf(c)) && Readable(c, 0, Alloc(c)) && !Rebuilds(c)
  {
    var c := CArray(IntTy(24, 4), [CInt(24, 4, a), CInt(24, 4, b)]);
    TwoSpaced(a, b);
    forall k: nat | k < Alloc(c) ensures !Refused(c, k) {
      DivBound(k, 2, 4);
      assert c.elems[k / 4].CInt? && c.elems[k / 4].bits == 24;
    }
  }

  lemma TwoSpaced(a: nat, b: nat)
    requires a < Pow256(3) && 0 < b < Pow256(3)
    ensures var c := CArray(IntTy(24, 4), [CInt(24, 4, a), CInt(24, 4, b)]);
            (var ok := ValidConst(c) && Canonical(c) && WholeBytes(TyOf(c)); ok) && !Rebuilds(c)
  {
    var elems := [CInt(24, 4, a), CInt(24, 4, b)];
    var c := CArray(IntTy(24, 4), elems);
    assert ByteInt(24) && ValidTy(IntTy(24, 4)) && ValidTy(TyOf(c)) && elems[1] == CInt(24, 4, b) && !DataInt(elems[1]);
    assert MakeArray(TyOf(c), elems) == c;
    assert Spaced(IntTy(24, 4)) && !IsNullConst(elems[1]);
  }

  /** A constant that can be built again is not empty. */
  lemma {:induction false} RebuildsSized(c: Const)
    requires ValidConst(c) && Canonical(c) && Rebuilds(c)
    ensures Alloc(c) > 0
    decreases c
  {
    match c
    case CZero(ty) => SizedType(ty);
    case CStruct(ty, members) =>
      RebuildsSized(members[0]);
      assert EndsBy(ty.fields, ty.offsets, 0, ty.size);
    case _ =>
  }

  lemma {:induction false} SizedType(t: Ty)
    requires ValidTy(t) && NoEmpty(t)
    ensures AllocSize(t) > 0
    decreases t
  {
    if t.StructTy? {
      SizedType(t.fields[0]);
      assert EndsBy(t.fields, t.offsets, 0, t.size);
    }
  }
}
