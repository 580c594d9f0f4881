/** The bytes of constants: `XXXReadDataFromGlobal` (llpe/main/CopyPaste.cpp:202-318). */
module ConstReader {
  import opened Constants

  /** Byte `k` lies in a leaf the reader refuses: a pointer, or an integer of an awkward width. */
  predicate Refused(c: Const, k: nat)
    decreases c
  {
    match c
    case CInt(bits, alloc, _) => !ByteInt(bits) && k < alloc
    case CNull => k < POINTER_SIZE
    case CAddr(_, _) => k < POINTER_SIZE
    case CZero(_) => false
    case CUndef(_) => false
    case CData(bits, alloc, vals) => !ByteInt(bits) && alloc > 0 && k / alloc < |vals|
    case CArray(elemTy, elems) =>
      var esize := AllocSize(elemTy);
      esize > 0 && k / esize < |elems| && Refused(elems[k / esize], k % esize)
    case CStruct(ty, members) =>
      && ty.StructTy? && 0 < |ty.offsets| == |members| && ty.offsets[0] == 0
      && (var i := ElementContaining(ty.offsets, k); Refused(members[i], k - ty.offsets[i]))
    case CTorn(_, _) => true
  }

  /** `off` does not start inside the tail padding of an integer, where the source's loop would
      count past the integer without stopping. */
  predicate NotInTail(c: Const, off: nat)
    decreases c
  {
    match c
    case CInt(bits, _, _) => off <= (bits + 7) / 8
    case CData(bits, alloc, vals) =>
      alloc > 0 && off / alloc < |vals| ==> off % alloc <= (bits + 7) / 8
    case CArray(elemTy, elems) =>
      var esize := AllocSize(elemTy);
      esize > 0 && off / esize < |elems| ==> NotInTail(elems[off / esize], off % esize)
    case CStruct(ty, members) =>
      ty.StructTy? && 0 < |ty.offsets| == |members| && ty.offsets[0] == 0 ==>
        var i := ElementContaining(ty.offsets, off);
        off - ty.offsets[i] < Alloc(members[i]) ==> NotInTail(members[i], off - ty.offsets[i])
    case _ => true
  }

  /** The byte the reader stores for a cell: undef and padding read as 0. */
  function Flat(cell: Cell): Byte
  {
    if cell.Known? then cell.b else 0
  }

  /** A byte that can be read is a known byte or undef. */
  lemma {:induction false} ReadableCell(c: Const, k: nat)
    requires ValidConst(c) && !Refused(c, k)
    ensures CellAt(c, k).Known? || CellAt(c, k).Any?
    decreases c
  {
    if c.CArray? {
      ReadableElement(c.elemTy, c.elems, k);
    } else if c.CStruct? {
      var i := ElementContaining(c.structTy.offsets, k);
      ReadableCell(c.members[i], k - c.structTy.offsets[i]);
    }
  }

  lemma {:induction false} ReadableElement(elemTy: Ty, elems: seq<Const>, k: nat)
    requires AllocSize(elemTy) > 0 && (forall i :: 0 <= i < |elems| ==> ValidConst(elems[i])) && !Refused(CArray(elemTy, elems), k)
    ensures CellAt(CArray(elemTy, elems), k).Known? || CellAt(CArray(elemTy, elems), k).Any?
    decreases elems
  {
    var esize := AllocSize(elemTy);
    DivNonNeg(k, esize);
    if k / esize < |elems| {
      ReadableCell(elems[k / esize], k % esize);
    }
  }

  ghost predicate Readable(c: Const, off: nat, n: nat)
  {
    forall k :: off <= k < off + n ==> !Refused(c, k)
  }

  /** buf[cur..cur + n] holds the bytes off..off + n of `c`. */
  ghost predicate Holds(buf: array<Byte>, cur: nat, n: nat, c: Const, off: nat)
    requires cur + n <= buf.Length
    reads buf
  {
    forall p :: cur <= p < cur + n ==> buf[p] == Flat(CellAt(c, off + (p - cur)))
  }

  ghost predicate Zeroed(buf: array<Byte>, lo: nat, hi: nat)
    requires hi <= buf.Length
    reads buf
  {
    forall i :: lo <= i < hi ==> buf[i] == 0
  }

  /** The integer case: copy bytes out of the value until it or the buffer ends. */
  method ReadInt(bits: nat, alloc: nat, value: nat, off: nat, buf: array<Byte>, cur: nat, left: nat) returns (ok: bool)
    requires bits > 0 && off <= (bits + 7) / 8
    requires cur + left <= buf.Length && Zeroed(buf, cur, cur + left)
    modifies buf
    ensures ok <==> ByteInt(bits)
    ensures forall i :: 0 <= i < buf.Length && !(cur <= i < cur + left) ==> buf[i] == old(buf[i])
    ensures ok ==> Holds(buf, cur, left, CInt(bits, alloc, value), off)
  {
    if bits > 64 || bits % 8 != 0 {
      return false;
    }
    var intBytes, at, i := bits / 8, off, 0;
    while i != left && at != intBytes
      invariant 0 <= i <= left && at == off + i <= intBytes
      invariant forall j :: 0 <= j < buf.Length && !(cur <= j < cur + i) ==> buf[j] == old(buf[j])
      invariant Holds(buf, cur, i, CInt(bits, alloc, value), off)
      decreases left - i
    {
      buf[cur + i] := ByteOf(value, at);
      at := at + 1;
      i := i + 1;
    }
    ok := true;
  }

  /** Element `index` of an array or data sequence. */
  function Element(c: Const, index: nat): Const
    requires (c.CArray? && index < |c.elems|) || (c.CData? && index < |c.vals|)
  {
    if c.CArray? then c.elems[index] else CInt(c.bits, c.alloc, c.vals[index])
  }

  /** Bytes lo..hi of part `m` are the bytes of `c` from `base` on. */
  ghost predicate Placed(c: Const, m: Const, base: nat, lo: nat, hi: nat)
  {
    forall k: nat :: lo <= k < hi ==>
      CellAt(c, base + k) == CellAt(m, k) && (Refused(c, base + k) <==> Refused(m, k))
  }

  /** The bytes of an array are the bytes of its elements. */
  lemma ElementBytes(c: Const, index: nat)
    requires ValidConst(c) && (c.CArray? || c.CData?) && index < TyOf(c).count
    ensures var e, esize := Element(c, index), AllocSize(TyOf(c).elem);
            ValidConst(e) && Alloc(e) == esize && Placed(c, e, index * esize, 0, esize)
  {
    var esize := AllocSize(TyOf(c).elem);
    ElementValid(c, index);
    ElementPlaced(c, index, index * esize);
  }

  lemma ElementValid(c: Const, index: nat)
    requires ValidConst(c) && (c.CArray? || c.CData?) && index < TyOf(c).count
    ensures ValidConst(Element(c, index)) && Alloc(Element(c, index)) == AllocSize(TyOf(c).elem)
  {
  }

  lemma ElementPlaced(c: Const, index: nat, base: nat)
    requires ValidConst(c) && (c.CArray? || c.CData?) && index < TyOf(c).count
    requires base == index * AllocSize(TyOf(c).elem)
    ensures Placed(c, Element(c, index), base, 0, AllocSize(TyOf(c).elem))
  {
    forall k: nat | k < AllocSize(TyOf(c).elem)
      ensures CellAt(c, base + k) == CellAt(Element(c, index), k)
      ensures Refused(c, base + k) <==> Refused(Element(c, index), k)
    {
      DivMod2(base, index, AllocSize(TyOf(c).elem), k);
      ElementByte(c, index, base + k, k);
    }
  }

  lemma DivMod2(base: nat, q: nat, d: nat, k: nat)
    requires k < d && base == q * d
    ensures (base + k) / d == q && (base + k) % d == k
  {
    DivMod(base + k, d, q);
  }

  lemma ElementByte(c: Const, index: nat, at: nat, k: nat)
    requires (c.CArray? || c.CData?) && index < TyOf(c).count && k < AllocSize(TyOf(c).elem)
    requires at / AllocSize(TyOf(c).elem) == index && at % AllocSize(TyOf(c).elem) == k
    ensures CellAt(c, at) == CellAt(Element(c, index), k)
    ensures Refused(c, at) <==> Refused(Element(c, index), k)
  {
  }

  lemma {:induction false} RefusedPastEnd(c: Const, k: nat)
    requires ValidConst(c) && Alloc(c) <= k
    ensures !Refused(c, k)
    decreases c
  {
    match c
    case CArray(elemTy, elems) => DivPast(k, |elems|, AllocSize(elemTy));
    case CData(_, alloc, vals) => DivPast(k, |vals|, alloc);
    case CStruct(ty, members) =>
      var i := ElementContaining(ty.offsets, k);
      assert EndsBy(ty.fields, ty.offsets, i, ty.size);
      RefusedPastEnd(members[i], k - ty.offsets[i]);
    case _ =>
  }

  /** Past its end a constant holds no bytes. */
  lemma PastEnd(c: Const)
    requires ValidConst(c)
    ensures forall k: nat :: Alloc(c) <= k ==> Flat(CellAt(c, k)) == 0 && !Refused(c, k)
  {
    forall k: nat | Alloc(c) <= k ensures Flat(CellAt(c, k)) == 0 && !Refused(c, k) {
      CellPastEnd(c, k);
      RefusedPastEnd(c, k);
    }
  }

  lemma DivMod(k: nat, d: nat, q: nat)
    requires d > 0 && q * d <= k < (q + 1) * d
    ensures k / d == q && k % d == k - q * d
  {
    if k / d < q {
      MulMonotone(k / d + 1, q, d);
      assert false;
    } else if q < k / d {
      MulMonotone(q + 1, k / d, d);
      assert false;
    }
  }

  /** `index * esize`, by repeated addition. */
  function ElementStart(esize: nat, index: nat): nat
  {
    if index == 0 then 0 else ElementStart(esize, index - 1) + esize
  }

  lemma {:induction false} ElementStartIs(esize: nat, index: nat)
    ensures ElementStart(esize, index) == index * esize
  {
    if index > 0 {
      ElementStartIs(esize, index - 1);
    }
  }

  /** Where an array read starts: the element holding `off`, and the offset into it. */
  method Locate(c: Const, off: nat) returns (index: nat, eoff: nat)
    requires ValidConst(c) && (c.CArray? || c.CData?) && off <= Alloc(c) && NotInTail(c, off)
    ensures index <= TyOf(c).count && eoff < AllocSize(TyOf(c).elem)
    ensures off == ElementStart(AllocSize(TyOf(c).elem), index) + eoff
    ensures index < TyOf(c).count ==>
              Alloc(Element(c, index)) == AllocSize(TyOf(c).elem) && NotInTail(Element(c, index), eoff)
  {
    var esize := AllocSize(TyOf(c).elem);
    DivStart(off, TyOf(c).count, esize);
    index := off / esize;
    eoff := off - index * esize;
    ElementStartIs(esize, index);
  }

  lemma DivStart(off: nat, count: nat, d: nat)
    requires d > 0 && off <= count * d
    ensures off / d <= count && off % d == off - (off / d) * d && off % d < d
  {
    if count < off / d {
      MulMonotone(count + 1, off / d, d);
      assert false;
    }
  }

  lemma {:induction false} StartTail(c: Const)
    requires ValidConst(c)
    ensures NotInTail(c, 0)
    decreases c
  {
    match c
    case CArray(elemTy, elems) =>
      if |elems| > 0 {
        StartTail(elems[0]);
        assert 0 / AllocSize(elemTy) == 0 && 0 % AllocSize(elemTy) == 0;
      }
    case CStruct(ty, members) =>
      StartTail(members[ElementContaining(ty.offsets, 0)]);
    case _ =>
  }

  /** A part that refuses a byte of the slice makes the whole refuse one. */
  lemma RefusedPart(c: Const, m: Const, base: nat, eoff: nat, n: nat)
    requires ValidConst(m) && Placed(c, m, base, eoff, Alloc(m)) && !Readable(m, eoff, n)
    ensures !Readable(c, base + eoff, n)
  {
    PastEnd(m);
    var k :| eoff <= k < eoff + n && Refused(m, k);
    assert Refused(c, base + k);
  }

  /** Having filled buf[at..] from part `m`, the first `w` of those bytes extend what the buffer
      holds of `c`, and the rest is still zero if the part has ended. */
  lemma AdvanceBytes(buf: array<Byte>, cur: nat, at: nat, rest: nat, c: Const, off: nat, m: Const, base: nat, eoff: nat, w: nat)
    requires cur <= at && at + rest <= buf.Length && w <= rest && off + (at - cur) == base + eoff
    requires Holds(buf, at, rest, m, eoff) && Placed(c, m, base, eoff, eoff + w)
    ensures forall p :: at <= p < at + w ==> buf[p] == Flat(CellAt(c, off + (p - cur)))
  {
    forall p | at <= p < at + w ensures buf[p] == Flat(CellAt(c, off + (p - cur))) {
      var k := eoff + (p - at);
      assert CellAt(c, base + k) == CellAt(m, k);
    }
  }

  lemma Advance(buf: array<Byte>, cur: nat, at: nat, rest: nat, c: Const, off: nat, m: Const, base: nat, eoff: nat, w: nat)
    requires cur <= at && at + rest <= buf.Length && w <= rest && ValidConst(m)
    requires off + (at - cur) == base + eoff
    requires Holds(buf, cur, at - cur, c, off) && Readable(c, off, at - cur)
    requires Holds(buf, at, rest, m, eoff) && Readable(m, eoff, rest)
    requires Placed(c, m, base, eoff, eoff + w)
    ensures Holds(buf, cur, at - cur + w, c, off) && Readable(c, off, at - cur + w)
    ensures Alloc(m) <= eoff + w ==> Zeroed(buf, at + w, at + rest)
  {
    PastEnd(m);
    AdvanceBytes(buf, cur, at, rest, c, off, m, base, eoff, w);
    forall k | off + (at - cur) <= k < off + (at - cur) + w ensures !Refused(c, k) {
      assert !Refused(m, k - base);
      assert CellAt(m, k - base) == CellAt(c, base + (k - base));
    }
  }

  /** `XXXReadDataFromGlobal`: copy bytes of `c` from `off` into buf[cur..cur + left], which is zero
      on entry. On success the buffer holds the matching slice of the constant, padding and undef
      as 0; nothing outside the buffer range is written. It succeeds exactly when the slice meets
      no pointer and no integer of an awkward width. */
  method ReadData(c: Const, off: nat, buf: array<Byte>, cur: nat, left: nat) returns (ok: bool)
    requires ValidConst(c) && off <= Alloc(c) && NotInTail(c, off)
    requires cur + left <= buf.Length && Zeroed(buf, cur, cur + left)
    modifies buf
    ensures forall i :: 0 <= i < buf.Length && !(cur <= i < cur + left) ==> buf[i] == old(buf[i])
    ensures ok ==> Holds(buf, cur, left, c, off)
    ensures off < Alloc(c) && left > 0 ==> (ok <==> Readable(c, off, left))
    decreases c, 3
  {
    match c {
      case CZero(_) =>
        ok := true;
      case CUndef(_) =>
        ok := true;
      case CInt(bits, alloc, value) =>
        ok := ReadInt(bits, alloc, value, off, buf, cur, left);
        assert ok && left > 0 ==> Readable(c, off, left);
        assert !ok && off < alloc ==> Refused(c, off);
      case CStruct(_, _) =>
        ok := ReadStruct(c, off, buf, cur, left);
      case CArray(_, _) =>
        ok := ReadElements(c, off, buf, cur, left);
      case CData(_, _, _) =>
        ok := ReadElements(c, off, buf, cur, left);
      case CNull =>
        ok := false;
        assert off < Alloc(c) ==> Refused(c, off);
      case CAddr(_, _) =>
        ok := false;
        assert off < Alloc(c) ==> Refused(c, off);
    }
  }

  /** The loop over the members of a struct. */
  method ReadStruct(c: Const, off: nat, buf: array<Byte>, cur: nat, left: nat) returns (ok: bool)
    requires ValidConst(c) && c.CStruct? && off <= Alloc(c) && NotInTail(c, off)
    requires cur + left <= buf.Length && Zeroed(buf, cur, cur + left)
    modifies buf
    ensures forall i :: 0 <= i < buf.Length && !(cur <= i < cur + left) ==> buf[i] == old(buf[i])
    ensures ok ==> Holds(buf, cur, left, c, off)
    ensures off < Alloc(c) && left > 0 ==> (ok <==> Readable(c, off, left))
    decreases c, 1
  {
    var ty, members := c.structTy, c.members;
    var index := EnterFirst(c, off);
    var eoff: nat := off - ty.offsets[index];
    var at, rest := cur, left;
    while true
      invariant Enter(c, index, eoff) && off + (at - cur) == ty.offsets[index] + eoff
      invariant cur <= at <= at + rest == cur + left
      invariant at > cur ==> rest > 0
      invariant forall i :: 0 <= i < buf.Length && !(cur <= i < cur + left) ==> buf[i] == old(buf[i])
      invariant Progress(buf, cur, at, rest, c, off)
      decreases |members| - index
    {
      ok := ReadMember(c, index, eoff, buf, cur, at, rest, off);
      if !ok {
        return false;
      }
      if index + 1 == |members| {
        return true;
      }
      var gap := ty.offsets[index + 1] - ty.offsets[index] - eoff;
      if rest <= gap {
        return true;
      }
      EnterNext(c, index);
      at, rest, eoff, index := at + gap, rest - gap, 0, index + 1;
    }
  }

  /** A read may go on at offset `eoff` into the member at `index`. */
  ghost predicate Enter(c: Const, index: nat, eoff: nat)
    requires ValidConst(c) && c.CStruct?
  {
    && index < |c.members|
    && (index + 1 < |c.members| ==> c.structTy.offsets[index] + eoff <= c.structTy.offsets[index + 1])
    && (eoff < Alloc(c.members[index]) ==> NotInTail(c.members[index], eoff))
  }

  lemma EnterNext(c: Const, index: nat)
    requires ValidConst(c) && c.CStruct? && index + 1 < |c.members|
    ensures Enter(c, index + 1, 0)
  {
    StartTail(c.members[index + 1]);
    MemberEnds(c.structTy, index + 1);
  }

  method EnterFirst(c: Const, off: nat) returns (index: nat)
    requires ValidConst(c) && c.CStruct? && NotInTail(c, off)
    ensures index < |c.members| && c.structTy.offsets[index] <= off
    ensures Enter(c, index, off - c.structTy.offsets[index])
  {
    index := ElementContaining(c.structTy.offsets, off);
  }

  /** How much of the remaining buffer the member at `index`, entered at `eoff`, accounts for. */
  function Window(c: Const, index: nat, eoff: nat, rest: nat): nat
    requires ValidConst(c) && c.CStruct? && index < |c.members|
    requires index + 1 < |c.members| ==> c.structTy.offsets[index] + eoff <= c.structTy.offsets[index + 1]
  {
    if index + 1 == |c.members| then rest
    else
      var gap := c.structTy.offsets[index + 1] - c.structTy.offsets[index] - eoff;
      if rest <= gap then rest else gap
  }

  /** buf[cur..at] holds bytes of `c` from `off`, and the `rest` bytes after that are still zero. */
  ghost predicate Progress(buf: array<Byte>, cur: nat, at: nat, rest: nat, c: Const, off: nat)
    requires cur <= at && at + rest <= buf.Length
    reads buf
  {
    Holds(buf, cur, at - cur, c, off) && Readable(c, off, at - cur) && Zeroed(buf, at, at + rest)
  }

  /** The body of the member loop. */
  method ReadMember(c: Const, index: nat, eoff: nat, buf: array<Byte>, cur: nat, at: nat, rest: nat, ghost off: nat)
    returns (ok: bool)
    requires ValidConst(c) && c.CStruct? && Enter(c, index, eoff)
    requires cur <= at && at + rest <= buf.Length && off + (at - cur) == c.structTy.offsets[index] + eoff
    requires Progress(buf, cur, at, rest, c, off)
    modifies buf
    ensures forall i :: 0 <= i < buf.Length && !(at <= i < at + rest) ==> buf[i] == old(buf[i])
    ensures !ok && rest > 0 ==> !Readable(c, off, at - cur + rest)
    ensures ok ==> var w := Window(c, index, eoff, rest); Progress(buf, cur, at + w, rest - w, c, off)
    decreases c, 0
  {
    var m := c.members[index];
    ghost var base, w := c.structTy.offsets[index], Window(c, index, eoff, rest);
    MemberBytes(c, index, eoff, eoff + w);
    MemberEnds(c.structTy, index);
    PastEnd(m);
    if eoff < Alloc(m) {
      ok := ReadData(m, eoff, buf, at, rest);
      if !ok {
        if rest > 0 {
          MemberRefused(c, index, eoff, rest);
        }
        return false;
      }
    }
    ok := true;
    assert Holds(buf, cur, at - cur, c, off);
    Advance(buf, cur, at, rest, c, off, m, base, eoff, w);
  }

  lemma MemberEnds(ty: Ty, i: nat)
    requires ty.StructTy? && ValidTy(ty) && i < |ty.fields|
    ensures i + 1 < |ty.fields| ==> ty.offsets[i] + AllocSize(ty.fields[i]) <= ty.offsets[i + 1]
  {
    assert i + 1 < |ty.fields| ==> EndsBy(ty.fields, ty.offsets, i, ty.offsets[i + 1]);
  }

  lemma MemberIndex(ty: Ty, index: nat, k: nat)
    requires ty.StructTy? && ValidTy(ty) && index < |ty.fields| && ty.offsets[index] <= k
    requires index + 1 < |ty.fields| ==> k < ty.offsets[index + 1]
    ensures ElementContaining(ty.offsets, k) == index
  {
    var i := ElementContaining(ty.offsets, k);
    if index < i {
      OffsetsGrow(ty, index + 1, i);
      assert false;
    } else if i < index {
      OffsetsGrow(ty, i + 1, index);
      assert false;
    }
  }

  lemma OffsetsGrow(ty: Ty, i: nat, j: nat)
    requires ty.StructTy? && ValidTy(ty) && i <= j < |ty.fields|
    ensures ty.offsets[i] <= ty.offsets[j]
  {
    assert i < j ==> EndsBy(ty.fields, ty.offsets, i, ty.offsets[j]);
  }

  /** Between the start of a member and the start of the next, a struct holds that member's bytes
      and then padding. */
  lemma MemberBytes(c: Const, index: nat, lo: nat, hi: nat)
    requires ValidConst(c) && c.CStruct? && index < |c.members|
    requires index + 1 < |c.members| ==> c.structTy.offsets[index] + hi <= c.structTy.offsets[index + 1]
    ensures ValidConst(c.members[index]) && Placed(c, c.members[index], c.structTy.offsets[index], lo, hi)
  {
    forall k: nat | lo <= k < hi
      ensures CellAt(c, c.structTy.offsets[index] + k) == CellAt(c.members[index], k)
      ensures Refused(c, c.structTy.offsets[index] + k) <==> Refused(c.members[index], k)
    {
      MemberByte(c, index, k);
    }
  }

  lemma MemberByte(c: Const, index: nat, k: nat)
    requires ValidConst(c) && c.CStruct? && index < |c.members|
    requires index + 1 < |c.members| ==> c.structTy.offsets[index] + k < c.structTy.offsets[index + 1]
    ensures CellAt(c, c.structTy.offsets[index] + k) == CellAt(c.members[index], k)
    ensures Refused(c, c.structTy.offsets[index] + k) <==> Refused(c.members[index], k)
  {
    MemberIndex(c.structTy, index, c.structTy.offsets[index] + k);
  }

  lemma MemberRefused(c: Const, index: nat, eoff: nat, n: nat)
    requires ValidConst(c) && c.CStruct? && index < |c.members|
    requires !Readable(c.members[index], eoff, n)
    ensures !Readable(c, c.structTy.offsets[index] + eoff, n)
  {
    MemberEnds(c.structTy, index);
    MemberBytes(c, index, eoff, Alloc(c.members[index]));
    RefusedPart(c, c.members[index], c.structTy.offsets[index], eoff, n);
  }

  method ReadElement(c: Const, index: nat, off: nat, buf: array<Byte>, cur: nat, left: nat) returns (ok: bool)
    requires ValidConst(c) && (c.CArray? || c.CData?) && index < TyOf(c).count
    requires off < Alloc(Element(c, index)) && NotInTail(Element(c, index), off)
    requires cur + left <= buf.Length && Zeroed(buf, cur, cur + left)
    modifies buf
    ensures forall i :: 0 <= i < buf.Length && !(cur <= i < cur + left) ==> buf[i] == old(buf[i])
    ensures ok ==> Holds(buf, cur, left, Element(c, index), off)
    ensures left > 0 ==> (ok <==> Readable(Element(c, index), off, left))
    decreases c, 0
  {
    if c.CArray? {
      ok := ReadData(c.elems[index], off, buf, cur, left);
    } else {
      assert ValidTy(IntTy(c.bits, c.alloc));
      ok := ReadInt(c.bits, c.alloc, c.vals[index], off, buf, cur, left);
      assert !ok ==> Refused(Element(c, index), off);
    }
  }

  /** The body of the element loop. */
  method ReadOne(c: Const, index: nat, eoff: nat, buf: array<Byte>, cur: nat, at: nat, rest: nat, ghost off: nat)
    returns (ok: bool)
    requires ValidConst(c) && (c.CArray? || c.CData?) && index < TyOf(c).count
    requires eoff < Alloc(Element(c, index)) && NotInTail(Element(c, index), eoff)
    requires cur <= at && at + rest <= buf.Length && off + (at - cur) == ElementStart(AllocSize(TyOf(c).elem), index) + eoff
    requires Progress(buf, cur, at, rest, c, off)
    modifies buf
    ensures forall i :: 0 <= i < buf.Length && !(at <= i < at + rest) ==> buf[i] == old(buf[i])
    ensures !ok && rest > 0 ==> !Readable(c, off, at - cur + rest)
    ensures ok ==> var written := Alloc(Element(c, index)) - eoff;
                   var w := if written < rest then written else rest;
                   Progress(buf, cur, at + w, rest - w, c, off)
    decreases c, 1
  {
    ghost var e, base := Element(c, index), index * AllocSize(TyOf(c).elem);
    ElementStartIs(AllocSize(TyOf(c).elem), index);
    ElementBytes(c, index);
    ok := ReadElement(c, index, eoff, buf, at, rest);
    if !ok {
      if rest > 0 {
        RefusedPart(c, e, base, eoff, rest);
      }
      return false;
    }
    assert Holds(buf, cur, at - cur, c, off);
    Advance(buf, cur, at, rest, c, off, e, base, eoff, if Alloc(e) - eoff < rest then Alloc(e) - eoff else rest);
  }

  /** The loop over the elements of an array. */
  method ReadElements(c: Const, off: nat, buf: array<Byte>, cur: nat, left: nat) returns (ok: bool)
    requires ValidConst(c) && (c.CArray? || c.CData?) && off <= Alloc(c) && NotInTail(c, off)
    requires cur + left <= buf.Length && Zeroed(buf, cur, cur + left)
    modifies buf
    ensures forall i :: 0 <= i < buf.Length && !(cur <= i < cur + left) ==> buf[i] == old(buf[i])
    ensures ok ==> Holds(buf, cur, left, c, off)
    ensures off < Alloc(c) && left > 0 ==> (ok <==> Readable(c, off, left))
    decreases c, 2
  {
    var esize, count := AllocSize(TyOf(c).elem), TyOf(c).count;
    var index, eoff := Locate(c, off);
    var at, rest := cur, left;
    while index != count
      invariant 0 <= index <= count && 0 <= eoff < esize
      invariant cur <= at <= at + rest == cur + left
      invariant off + (at - cur) == ElementStart(esize, index) + eoff
      invariant at > cur ==> eoff == 0 && rest > 0
      invariant index < count ==> Alloc(Element(c, index)) == esize && NotInTail(Element(c, index), eoff)
      invariant forall i :: 0 <= i < buf.Length && !(cur <= i < cur + left) ==> buf[i] == old(buf[i])
      invariant Progress(buf, cur, at, rest, c, off)
      decreases count - index
    {
      ok := ReadOne(c, index, eoff, buf, cur, at, rest, off);
      if !ok {
        return false;
      }
      var written := esize - eoff;
      if written >= rest {
        return true;
      }
      eoff, rest, at, index := 0, rest - written, at + written, index + 1;
      if index < count {
        ElementBytes(c, index);
        StartTail(Element(c, index));
      }
    }
    ElementStartIs(esize, count);
    PastEnd(c);
    ok := true;
  }

  // ----- numbers

  lemma ByteShift(value: nat, k: nat)
    ensures ByteOf(value, k + 1) == ByteOf(value / 256, k)
  {
    DivDiv(value, 256, Pow256(k));
  }

  lemma DivDiv(v: nat, a: nat, b: nat)
    requires a > 0 && b > 0
    ensures a * b > 0 && v / (a * b) == (v / a) / b
  {
    var q, r := (v / a) / b, (v / a) % b;
    assert v / a == q * b + r;
    assert v == (q * b + r) * a + v % a;
    assert (q * b + r) * a == q * (a * b) + r * a;
    MulMonotone(r, b - 1, a);
    assert (b - 1) * a == a * b - a;
    assert 0 <= r * a + v % a < a * b;
    assert (q + 1) * (a * b) == q * (a * b) + a * b;
    DivMod(v, a * b, q);
  }

  lemma {:induction false} StoreWithinAlloc(t: Ty)
    requires ValidTy(t)
    ensures StoreSize(t) <= AllocSize(t)
  {
  }
}
