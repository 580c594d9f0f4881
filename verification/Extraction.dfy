/** Nested elements of constants: `extractAggregateMemberAt`, and what a read of part of a set of constants
    makes of it (llpe/main/LoadForward.cpp:612-700, 749-778). */
module Extraction {
  import opened Options
  import opened Constants
  import opened SymbolicValues
  import opened SubValues
  import opened ValueCuts
  import R = ConstReader

  // ----- extractAggregateMemberAt

  /** The sub-constant at `off` of `n` bytes, if some nested element is exactly it; parts of zero and
      undef are made up. Array elements are taken to lie store sizes apart. */
  function Extract(c: Const, off: nat, n: nat): Option<Const>
  {
    if off == 0 && n == Size(c) then Some(c)
    else if off + n > Size(c) then None
    else match c
      case CZero(_) => Some(CInt(8 * n, n, 0))
      case CUndef(_) => Some(CUndef(IntTy(8 * n, n)))
      case CArray(elemTy, elems) =>
        var esize := StoreSize(elemTy);
        if esize == 0 then None
        else
          var cut := ArrayCut(off, n, esize);
          if cut.startE < |elems| && (cut.startE == cut.endE || (cut.startE + 1 == cut.endE && cut.endOff == 0))
          then Extract(elems[cut.startE], cut.startOff, n) else None
      case CStruct(ty, members) =>
        if !ty.StructTy? || |ty.offsets| != |members| || |members| == 0 || ty.offsets[0] != 0 then None
        else
          var i, j := ElementContaining(ty.offsets, off), ElementContaining(ty.offsets, off + n);
          if i == j || (i + 1 == j && off + n == ty.offsets[j]) then Extract(members[i], off - ty.offsets[i], n) else None
      case _ => None
  }

  /** The extracted constant has the bytes of the range. */
  ghost predicate Extracted(d: Const, c: Const, off: nat, n: nat)
  {
    Cuttable(d) && Size(d) == n && forall k: nat :: k < n ==> CellAt(d, k) == CellAt(c, off + k)
  }

  lemma {:induction false} ExtractSound(c: CutConst, off: nat, n: nat)
    requires n > 0 && Extract(c, off, n).Some?
    ensures var ok := Extracted(Extract(c, off, n).value, c, off, n); ok
    decreases c, 1
  {
    var d := Extract(c, off, n).value;
    if !(off == 0 && n == Size(c)) {
      if c.CArray? {
        ExtractElement(c, off, n, d);
      } else if c.CStruct? {
        ExtractMember(c, off, n, d);
      } else if c.CZero? {
        forall k: nat | k < n ensures CellAt(d, k) == CellAt(c, off + k) {
          ZeroBytesOf(n, k);
        }
      }
    }
  }

  lemma {:induction false} ExtractElement(c: CutConst, off: nat, n: nat, d: Const)
    requires n > 0 && c.CArray? && !(off == 0 && n == Size(c)) && Extract(c, off, n) == Some(d)
    ensures var ok := Extracted(d, c, off, n); ok
    decreases c, 0, 1
  {
    var esize := AllocSize(c.elemTy);
    var cut := ArrayCut(off, n, esize);
    ArrayCutFacts(off, n, esize, |c.elems|);
    PlaceIs(c, cut.startE);
    ExtractAt(c, cut.startE, Place(c, cut.startE), cut.startOff, off, n, d);
  }

  lemma {:induction false} ExtractAt(c: CutConst, i: nat, base: nat, moff: nat, off: nat, n: nat, d: Const)
    requires c.CArray? && i < |c.elems| && base == Place(c, i) && off == base + moff && n > 0
    requires Extract(c.elems[i], moff, n) == Some(d)
    ensures var ok := Extracted(d, c, off, n); ok
    decreases c, 0, 0
  {
    CuttableElement(c, i);
    ExtractSound(c.elems[i], moff, n);
    ExtractInside(c.elems[i], moff, n);
    ElementPart(c, i);
    ExtractPart(c, c.elems[i], base, moff, off, n, d);
  }

  lemma {:induction false} ExtractMember(c: CutConst, off: nat, n: nat, d: Const)
    requires n > 0 && c.CStruct? && !(off == 0 && n == Size(c)) && Extract(c, off, n) == Some(d)
    ensures var ok := Extracted(d, c, off, n); ok
    decreases c, 0, 1
  {
    var i := ElementContaining(c.structTy.offsets, off);
    var base := c.structTy.offsets[i];
    ExtractMemberAt(c, i, base, off - base, off, n, d);
  }

  lemma {:induction false} ExtractMemberAt(c: CutConst, i: nat, base: nat, moff: nat, off: nat, n: nat, d: Const)
    requires c.CStruct? && i < |c.members| && base == c.structTy.offsets[i] && off == base + moff && n > 0
    requires Extract(c.members[i], moff, n) == Some(d)
    ensures var ok := Extracted(d, c, off, n); ok
    decreases c, 0, 0
  {
    CuttableMember(c, i);
    ExtractSound(c.members[i], moff, n);
    ExtractInside(c.members[i], moff, n);
    MemberPart(c, i);
    ExtractPart(c, c.members[i], base, moff, off, n, d);
  }

  lemma ExtractInside(c: Const, off: nat, n: nat)
    requires Extract(c, off, n).Some?
    ensures off + n <= Size(c)
  {
  }

  lemma ZeroBytesOf(n: nat, k: nat)
    requires k < n
    ensures CellAt(CInt(8 * n, n, 0), k) == Known(0)
  {
    NullCell(CInt(8 * n, n, 0), k);
  }

  /** What is extracted from a part is extracted from the whole. */
  lemma ExtractPart(c: Const, m: Const, base: nat, moff: nat, off: nat, n: nat, d: Const)
    requires PartAt(Image(c), Image(m), base) && Extracted(d, m, moff, n) && moff + n <= Size(m) && off == base + moff
    ensures var ok := Extracted(d, c, off, n); ok
  {
    forall k: nat | k < n ensures CellAt(d, k) == CellAt(c, off + k) {
      PartCell(c, m, base, moff + k);
    }
  }

  /** A byte of a part is a byte of the whole. */
  lemma PartCell(c: Const, m: Const, base: nat, j: nat)
    requires PartAt(Image(c), Image(m), base) && j < Size(m)
    ensures CellAt(m, j) == CellAt(c, base + j)
  {
    ImageIs(c);
    ImageIs(m);
    assert Image(c)[base..base + |Image(m)|][j] == Image(c)[base + j];
  }

  // ----- which element is found

  /** The element at the end of a path of element and member numbers. */
  function Nested(c: Const, path: seq<nat>): Option<Const>
    decreases path
  {
    if path == [] then Some(c)
    else match c
      case CArray(_, elems) => if path[0] < |elems| then Nested(elems[path[0]], path[1..]) else None
      case CStruct(_, members) => if path[0] < |members| then Nested(members[path[0]], path[1..]) else None
      case _ => None
  }

  /** Where part `i` of a constant lies; array elements are taken to lie store sizes apart. */
  function StartOf(c: Const, i: nat): nat
  {
    match c
    case CArray(elemTy, _) => R.ElementStart(StoreSize(elemTy), i)
    case CStruct(ty, _) => if ty.StructTy? && i < |ty.offsets| then ty.offsets[i] else 0
    case _ => 0
  }

  /** Where the element at the end of the path lies. */
  function NestedAt(c: Const, path: seq<nat>): nat
    requires Nested(c, path).Some?
    decreases path
  {
    if path == [] then 0
    else
      var m := if c.CArray? then c.elems[path[0]] else c.members[path[0]];
      StartOf(c, path[0]) + NestedAt(m, path[1..])
  }

  /** What the element at the end of the path gives for `n` bytes at `off`: itself if it is just these, and a
      part of it if it is a zero or undef around them. */
  function Given(c: Const, path: seq<nat>, off: nat, n: nat): Option<Const>
  {
    if Nested(c, path).None? then None
    else
      var d, at := Nested(c, path).value, NestedAt(c, path);
      if off == at && n == Size(d) then Some(d)
      else if off < at || at + Size(d) < off + n then None
      else match d
        case CZero(_) => Some(CInt(8 * n, n, 0))
        case CUndef(_) => Some(CUndef(IntTy(8 * n, n)))
        case _ => None
  }

  /** No element on the way to the end of the path gives anything. */
  predicate Outermost(c: Const, path: seq<nat>, off: nat, n: nat)
  {
    forall k :: 0 <= k < |path| ==> Given(c, path[..k], off, n) == None
  }

  /** Behind the member, right where the range ends, comes an empty member. */
  predicate Crowds(c: Const, i: nat, end: int)
  {
    c.CStruct? && c.structTy.StructTy? && i + 2 < |c.structTy.offsets| && end == c.structTy.offsets[i + 1] == c.structTy.offsets[i + 2]
  }

  /** That happens somewhere along the path: the end of the range is then taken to lie past that empty member. */
  predicate Blocked(c: Const, path: seq<nat>, end: int)
    requires Nested(c, path).Some?
    decreases path
  {
    path != [] && (Crowds(c, path[0], end) || Blocked(PartOf(c, path[0]), path[1..], end - StartOf(c, path[0])))
  }

  /** The path leads to the outermost element that gives the range. */
  predicate Holder(c: Const, path: seq<nat>, off: nat, n: nat)
  {
    Given(c, path, off, n).Some? && Outermost(c, path, off, n)
  }

  function PartOf(c: Const, i: nat): Const
    requires (c.CArray? && i < |c.elems|) || (c.CStruct? && i < |c.members|)
  {
    if c.CArray? then c.elems[i] else c.members[i]
  }

  lemma NestedStep(c: Const, i: nat, rest: seq<nat>)
    requires Nested(c, [i] + rest).Some?
    ensures (c.CArray? && i < |c.elems|) || (c.CStruct? && i < |c.members|)
    ensures Nested(c, [i] + rest) == Nested(PartOf(c, i), rest) && NestedAt(c, [i] + rest) == StartOf(c, i) + NestedAt(PartOf(c, i), rest)
  {
    assert ([i] + rest)[1..] == rest;
  }

  /** What a path into a part gives is what it gives in the part. */
  lemma GivenStep(c: Const, i: nat, rest: seq<nat>, off: nat, n: nat)
    requires (c.CArray? && i < |c.elems|) || (c.CStruct? && i < |c.members|)
    requires StartOf(c, i) <= off
    ensures Given(c, [i] + rest, off, n) == Given(PartOf(c, i), rest, off - StartOf(c, i), n)
  {
    assert ([i] + rest)[1..] == rest;
  }

  /** A nested element lies inside. */
  lemma {:induction false} NestedInside(c: Const, path: seq<nat>)
    requires ValidConst(c) && Nested(c, path).Some?
    ensures NestedAt(c, path) + Size(Nested(c, path).value) <= Size(c)
    decreases path
  {
    if path != [] {
      var i, rest := path[0], path[1..];
      assert path == [i] + rest;
      NestedStep(c, i, rest);
      PartInside(c, i);
      NestedInside(PartOf(c, i), rest);
    }
  }

  lemma PartInside(c: Const, i: nat)
    requires ValidConst(c) && ((c.CArray? && i < |c.elems|) || (c.CStruct? && i < |c.members|))
    ensures ValidConst(PartOf(c, i)) && StartOf(c, i) + Size(PartOf(c, i)) <= Size(c)
  {
    if c.CArray? {
      var esize, asize := StoreSize(c.elemTy), AllocSize(c.elemTy);
      R.ElementStartIs(esize, i);
      assert TyOf(c) == ArrayTy(c.elemTy, |c.elems|) && ValidTy(c.elemTy);
      MulMonotone(i + 1, |c.elems|, asize);
      Smaller(i + 1, esize, asize);
      assert (i + 1) * esize == i * esize + esize;
    } else {
      assert EndsBy(c.structTy.fields, c.structTy.offsets, i, c.structTy.size);
    }
  }

  lemma Smaller(i: nat, a: nat, b: nat)
    requires a <= b
    ensures i * a <= i * b
  {
  }

  /** The range lies in part `i`, and that is where it is looked for, unless an empty member is in the way. */
  lemma {:induction false} FoundIn(c: Const, i: nat, off: nat, n: nat)
    requires ValidConst(c) && n > 0 && ((c.CArray? && i < |c.elems|) || (c.CStruct? && i < |c.members|))
    requires StartOf(c, i) <= off && off + n <= StartOf(c, i) + Size(PartOf(c, i)) && !(off == 0 && n == Size(c))
    ensures Extract(c, off, n) == if Crowds(c, i, off + n) then None else Extract(PartOf(c, i), off - StartOf(c, i), n)
  {
    if c.CArray? {
      FoundInArray(c, i, off, n);
    } else {
      FoundInStruct(c, i, off, n);
    }
  }

  lemma {:induction false} FoundInArray(c: Const, i: nat, off: nat, n: nat)
    requires ValidConst(c) && n > 0 && c.CArray? && i < |c.elems|
    requires StartOf(c, i) <= off && off + n <= StartOf(c, i) + Size(c.elems[i]) && !(off == 0 && n == Size(c))
    ensures Extract(c, off, n) == Extract(c.elems[i], off - StartOf(c, i), n)
  {
    PartInside(c, i);
    R.ElementStartIs(StoreSize(c.elemTy), i);
    CutInside(off, n, StoreSize(c.elemTy), i);
  }

  lemma {:induction false} FoundInStruct(c: Const, i: nat, off: nat, n: nat)
    requires ValidConst(c) && n > 0 && c.CStruct? && i < |c.members|
    requires StartOf(c, i) <= off && off + n <= StartOf(c, i) + Size(c.members[i]) && !(off == 0 && n == Size(c))
    ensures Extract(c, off, n) == if Crowds(c, i, off + n) then None else Extract(c.members[i], off - StartOf(c, i), n)
  {
    PartInside(c, i);
    R.MemberEnds(c.structTy, i);
    R.MemberIndex(c.structTy, i, off);
    EndIndex(c, i, off + n);
    MemberTried(c, i, off, n);
  }

  lemma {:induction false} MemberTried(c: Const, i: nat, off: nat, n: nat)
    requires ValidConst(c) && c.CStruct? && i < |c.members| && !(off == 0 && n == Size(c)) && off + n <= Size(c) && ElementContaining(c.structTy.offsets, off) == i
    ensures var j := ElementContaining(c.structTy.offsets, off + n);
            Extract(c, off, n) == if i == j || (i + 1 == j && off + n == c.structTy.offsets[j]) then Extract(c.members[i], off - c.structTy.offsets[i], n) else None
  {
  }

  lemma EndIndex(c: Const, i: nat, end: nat)
    requires ValidConst(c) && c.CStruct? && i < |c.members| && c.structTy.offsets[i] < end && (i + 1 < |c.members| ==> end <= c.structTy.offsets[i + 1])
    ensures var j := ElementContaining(c.structTy.offsets, end);
            (j == i || (i + 1 == j && end == c.structTy.offsets[j])) <==> !Crowds(c, i, end)
  {
    var t, j := c.structTy, ElementContaining(c.structTy.offsets, end);
    if i + 1 == |c.members| || end < t.offsets[i + 1] {
      R.MemberIndex(t, i, end);
    } else if i + 2 == |c.members| || end < t.offsets[i + 2] {
      R.MemberIndex(t, i + 1, end);
    } else {
      R.OffsetsGrow(t, i + 1, i + 2);
      if j < i + 2 {
        R.OffsetsGrow(t, j + 1, i + 2);
      }
    }
  }

  /** A range inside one of a row of elements. */
  lemma CutInside(off: nat, n: nat, esize: nat, i: nat)
    requires n > 0 && i * esize <= off && off + n <= i * esize + esize
    ensures var cut := ArrayCut(off, n, esize);
            cut.startE == i && cut.startOff == off - i * esize && (cut.endE == i || (cut.endE == i + 1 && cut.endOff == 0))
  {
    R.DivMod2(i * esize, i, esize, off - i * esize);
    if off + n < i * esize + esize {
      R.DivMod2(i * esize, i, esize, off + n - i * esize);
    } else {
      assert (i + 1) * esize == i * esize + esize;
      R.DivMod2((i + 1) * esize, i + 1, esize, 0);
    }
  }

  /** What the constant itself gives. */
  lemma {:induction false} GivenHere(c: Const, off: nat, n: nat)
    requires ValidConst(c) && n > 0
    ensures Given(c, [], off, n).Some? ==> Extract(c, off, n) == Given(c, [], off, n)
    ensures Extract(c, off, n).Some? && Given(c, [], off, n) == None ==> !(off == 0 && n == Size(c)) && (c.CArray? || c.CStruct?)
  {
  }

  /** Whenever some path leads to an element that gives the range, the extraction finds it, unless an empty member
      is in the way: it returns what the outermost such element gives. */
  lemma {:induction false} ExtractFinds(c: Const, path: seq<nat>, off: nat, n: nat)
    requires ValidConst(c) && n > 0 && var holds := Holder(c, path, off, n); holds
    ensures var found := Finds(c, path, off, n); found
    decreases path
  {
    if path == [] {
      GivenHere(c, off, n);
    } else {
      var i, rest := path[0], path[1..];
      assert path == [i] + rest;
      IntoPart(c, i, rest, off, n);
      ExtractFinds(PartOf(c, i), rest, off - StartOf(c, i), n);
      FindsInto(c, i, rest, off, n);
    }
  }

  lemma {:induction false} FindsInto(c: Const, i: nat, rest: seq<nat>, off: nat, n: nat)
    requires ValidConst(c) && n > 0 && ((c.CArray? && i < |c.elems|) || (c.CStruct? && i < |c.members|))
    requires StartOf(c, i) <= off && off + n <= StartOf(c, i) + Size(PartOf(c, i)) && !(off == 0 && n == Size(c))
    requires var holds := Holder(c, [i] + rest, off, n); holds
    requires var holds := Holder(PartOf(c, i), rest, off - StartOf(c, i), n); holds
    requires var found := Finds(PartOf(c, i), rest, off - StartOf(c, i), n); found
    ensures var found := Finds(c, [i] + rest, off, n); found
  {
    NestedStep(c, i, rest);
    GivenStep(c, i, rest, off, n);
    FoundIn(c, i, off, n);
    BlockedStep(c, i, rest, off + n);
  }

  /** It is found, unless an empty member is in the way. */
  predicate Finds(c: Const, path: seq<nat>, off: nat, n: nat)
    requires Holder(c, path, off, n)
  {
    Extract(c, off, n) == if Blocked(c, path, off + n) then None else Given(c, path, off, n)
  }

  lemma BlockedStep(c: Const, i: nat, rest: seq<nat>, end: int)
    requires Nested(c, [i] + rest).Some?
    ensures Nested(PartOf(c, i), rest).Some?
    ensures Blocked(c, [i] + rest, end) <==> Crowds(c, i, end) || Blocked(PartOf(c, i), rest, end - StartOf(c, i))
  {
    assert ([i] + rest)[1..] == rest;
  }

  lemma {:induction false} IntoPart(c: Const, i: nat, rest: seq<nat>, off: nat, n: nat)
    requires ValidConst(c) && n > 0 && Holder(c, [i] + rest, off, n)
    ensures (c.CArray? && i < |c.elems|) || (c.CStruct? && i < |c.members|)
    ensures StartOf(c, i) <= off && off + n <= StartOf(c, i) + Size(PartOf(c, i)) && !(off == 0 && n == Size(c)) && ValidConst(PartOf(c, i))
    ensures Given(PartOf(c, i), rest, off - StartOf(c, i), n) == Given(c, [i] + rest, off, n) && var holds := Holder(PartOf(c, i), rest, off - StartOf(c, i), n); holds
  {
    NestedStep(c, i, rest);
    PartInside(c, i);
    NestedInside(PartOf(c, i), rest);
    GivenStep(c, i, rest, off, n);
    assert ([i] + rest)[..0] == [] && Given(c, ([i] + rest)[..0], off, n) == None;
    forall k | 0 <= k < |rest| ensures Given(PartOf(c, i), rest[..k], off - StartOf(c, i), n) == None {
      assert ([i] + rest)[..k + 1] == [i] + rest[..k];
      GivenStep(c, i, rest[..k], off, n);
    }
  }

  lemma {:induction false} OutOfPart(c: Const, i: nat, rest: seq<nat>, off: nat, n: nat)
    requires ((c.CArray? && i < |c.elems|) || (c.CStruct? && i < |c.members|)) && StartOf(c, i) <= off && Given(c, [], off, n) == None
    requires Holder(PartOf(c, i), rest, off - StartOf(c, i), n)
    ensures Given(c, [i] + rest, off, n) == Given(PartOf(c, i), rest, off - StartOf(c, i), n) && var holds := Holder(c, [i] + rest, off, n); holds
  {
    GivenStep(c, i, rest, off, n);
    forall k | 0 <= k < |[i] + rest| ensures Given(c, ([i] + rest)[..k], off, n) == None {
      if k > 0 {
        assert ([i] + rest)[..k] == [i] + rest[..k - 1];
        GivenStep(c, i, rest[..k - 1], off, n);
      }
    }
  }

  /** What the extraction returns is given by the element at the end of the path. */
  predicate FoundAt(c: Const, path: seq<nat>, off: nat, n: nat)
  {
    Holder(c, path, off, n) && Given(c, path, off, n) == Extract(c, off, n) && !Blocked(c, path, off + n)
  }

  /** What the extraction returns is given by some element. */
  lemma {:induction false} ExtractFound(c: Const, off: nat, n: nat) returns (path: seq<nat>)
    requires ValidConst(c) && n > 0 && Extract(c, off, n).Some?
    ensures var found := FoundAt(c, path, off, n); found
    decreases c
  {
    GivenHere(c, off, n);
    if Given(c, [], off, n).Some? {
      path := [];
    } else {
      var i := if c.CArray? then (if StoreSize(c.elemTy) == 0 then 0 else off / StoreSize(c.elemTy)) else ElementContaining(c.structTy.offsets, off);
      FoundPart(c, off, n, i);
      var rest := ExtractFound(PartOf(c, i), off - StartOf(c, i), n);
      path := [i] + rest;
      FoundOut(c, i, rest, off, n);
    }
  }

  lemma {:induction false} FoundOut(c: Const, i: nat, rest: seq<nat>, off: nat, n: nat)
    requires ((c.CArray? && i < |c.elems|) || (c.CStruct? && i < |c.members|)) && StartOf(c, i) <= off && Given(c, [], off, n) == None
    requires Extract(c, off, n) == Extract(PartOf(c, i), off - StartOf(c, i), n) && !Crowds(c, i, off + n)
    requires var found := FoundAt(PartOf(c, i), rest, off - StartOf(c, i), n); found
    ensures var found := FoundAt(c, [i] + rest, off, n); found
  {
    OutOfPart(c, i, rest, off, n);
    BlockedStep(c, i, rest, off + n);
  }

  lemma {:induction false} FoundPart(c: Const, off: nat, n: nat, i: nat)
    requires ValidConst(c) && n > 0 && Extract(c, off, n).Some? && !(off == 0 && n == Size(c)) && (c.CArray? || c.CStruct?)
    requires i == if c.CArray? then (if StoreSize(c.elemTy) == 0 then 0 else off / StoreSize(c.elemTy)) else ElementContaining(c.structTy.offsets, off)
    ensures ((c.CArray? && i < |c.elems|) || (c.CStruct? && i < |c.members|)) && StartOf(c, i) <= off && ValidConst(PartOf(c, i))
    ensures Extract(c, off, n) == Extract(PartOf(c, i), off - StartOf(c, i), n) && !Crowds(c, i, off + n)
  {
    if c.CArray? {
      FoundElement(c, off, n, i);
    } else {
      FoundMember(c, off, n, i);
    }
  }

  lemma {:induction false} FoundElement(c: Const, off: nat, n: nat, i: nat)
    requires ValidConst(c) && n > 0 && Extract(c, off, n).Some? && !(off == 0 && n == Size(c)) && c.CArray?
    requires i == if StoreSize(c.elemTy) == 0 then 0 else off / StoreSize(c.elemTy)
    ensures i < |c.elems| && StartOf(c, i) <= off && Extract(c, off, n) == Extract(c.elems[i], off - StartOf(c, i), n)
  {
    var esize := StoreSize(c.elemTy);
    ElementTried(c, off, n);
    R.ElementStartIs(esize, i);
    DivSplit(off, esize);
  }

  lemma {:induction false} ElementTried(c: Const, off: nat, n: nat)
    requires n > 0 && Extract(c, off, n).Some? && !(off == 0 && n == Size(c)) && c.CArray?
    ensures var esize := StoreSize(c.elemTy); esize > 0 && off / esize < |c.elems| && Extract(c, off, n) == Extract(c.elems[off / esize], off % esize, n)
  {
  }

  lemma DivSplit(x: nat, d: nat)
    requires d > 0
    ensures x == x / d * d + x % d
  {
  }

  lemma {:induction false} FoundMember(c: Const, off: nat, n: nat, i: nat)
    requires ValidConst(c) && n > 0 && Extract(c, off, n).Some? && !(off == 0 && n == Size(c)) && c.CStruct?
    requires i == ElementContaining(c.structTy.offsets, off)
    ensures i < |c.members| && StartOf(c, i) <= off && !Crowds(c, i, off + n)
    ensures Extract(c, off, n) == Extract(c.members[i], off - StartOf(c, i), n)
  {
    ExtractInside(c.members[i], off - c.structTy.offsets[i], n);
    PartInside(c, i);
    R.MemberEnds(c.structTy, i);
    EndIndex(c, i, off + n);
  }

  /** Some element gives the range, and no empty member is in the way. */
  ghost predicate Gives(c: Const, off: nat, n: nat)
  {
    exists path :: Holder(c, path, off, n) && !Blocked(c, path, off + n)
  }

  /** The range can be extracted exactly then. */
  lemma ExtractIff(c: Const, off: nat, n: nat)
    requires ValidConst(c) && n > 0
    ensures Extract(c, off, n).Some? <==> Gives(c, off, n)
  {
    if Extract(c, off, n).Some? {
      var path := ExtractFound(c, off, n);
    }
    if path :| Holder(c, path, off, n) && !Blocked(c, path, off + n) {
      ExtractFinds(c, path, off, n);
    }
  }

  /** Where structs have no empty members none is in the way. */
  lemma {:induction false} NeverBlocked(c: CutConst, path: seq<nat>, end: int)
    requires Nested(c, path).Some?
    ensures !Blocked(c, path, end)
    decreases path
  {
    if path != [] {
      var i, rest := path[0], path[1..];
      if c.CArray? {
        CuttableElement(c, i);
      } else {
        CuttableMember(c, i);
        if i + 1 < |c.members| {
          CuttableMember(c, i + 1);
        }
      }
      NeverBlocked(PartOf(c, i), rest, end - StartOf(c, i));
    }
  }

  /** So for constants without empty members: the extraction succeeds exactly when some element gives the range. */
  lemma ExtractSolid(c: CutConst, off: nat, n: nat)
    requires n > 0
    ensures Extract(c, off, n).Some? <==> exists path :: Given(c, path, off, n).Some?
  {
    if Extract(c, off, n).Some? {
      var path := ExtractFound(c, off, n);
    }
    if path :| Given(c, path, off, n).Some? {
      var k := FirstGiven(c, path, off, n, 0);
      assert forall j :: 0 <= j < k ==> path[..k][..j] == path[..j];
      NeverBlocked(c, path[..k], off + n);
      ExtractFinds(c, path[..k], off, n);
    }
  }

  /** An integer, no bytes, and an integer: the first is not found, since the empty array begins where it ends. */
  lemma EmptyInTheWay(x: nat, y: nat)
    ensures var t := StructTy([IntTy(32, 4), ArrayTy(IntTy(8, 1), 0), IntTy(32, 4)], [0, 4, 4], 8);
            var c := CStruct(t, [CInt(32, 4, x), CArray(IntTy(8, 1), []), CInt(32, 4, y)]);
            && ValidConst(c) && Given(c, [0], 0, 4) == Some(CInt(32, 4, x)) && Extract(c, 0, 4) == None && Extract(c, 4, 4) == Some(CInt(32, 4, y))
  {
    var t := StructTy([IntTy(32, 4), ArrayTy(IntTy(8, 1), 0), IntTy(32, 4)], [0, 4, 4], 8);
    var c := CStruct(t, [CInt(32, 4, x), CArray(IntTy(8, 1), []), CInt(32, 4, y)]);
    assert AllocSize(ArrayTy(IntTy(8, 1), 0)) == 0 && ValidTy(IntTy(32, 4)) && ValidTy(ArrayTy(IntTy(8, 1), 0));
    assert TyOf(c.members[0]) == t.fields[0] && TyOf(c.members[1]) == t.fields[1] && TyOf(c.members[2]) == t.fields[2];
    assert ValidOffsets(t.fields, t.offsets, t.size);
    R.MemberIndex(t, 0, 0);
    R.MemberIndex(t, 2, 4);
    R.MemberIndex(t, 2, 8);
    assert [0][1..] == [];
    assert c.members[0] == CInt(32, 4, x);
  }

  lemma FirstGiven(c: Const, path: seq<nat>, off: nat, n: nat, from: nat) returns (k: nat)
    requires from <= |path| && Given(c, path, off, n).Some? && forall j :: 0 <= j < from ==> Given(c, path[..j], off, n) == None
    ensures k <= |path| && Given(c, path[..k], off, n).Some? && forall j :: 0 <= j < k ==> Given(c, path[..j], off, n) == None
    decreases |path| - from
  {
    if from == |path| {
      assert path[..from] == path;
      k := from;
    } else if Given(c, path[..from], off, n).Some? {
      k := from;
    } else {
      k := FirstGiven(c, path, off, n, from + 1);
    }
  }

  // ----- extracting from every constant of a set

  /** Every constant that has the sub-constant contributes it. */
  function ExtractMerge(items: seq<Item>, off: nat, n: nat): Val
  {
    if items == [] then Val(KUnknown, [], false)
    else
      var r, last := ExtractMerge(items[..|items| - 1], off, n), items[|items| - 1];
      var d := if last.v.K? then Extract(last.v.c, off, n) else None;
      if d.Some? then Merge(r, ValueOf(d.value)) else r
  }

  predicate AllExtract(items: seq<Item>, off: nat, n: nat)
  {
    forall x :: x in items ==> x.v.K? && Extract(x.v.c, off, n).Some?
  }

  ghost predicate AllGive(items: seq<Item>, off: nat, n: nat)
  {
    forall x {:trigger GivesItem(x, off, n)} :: x in items ==> GivesItem(x, off, n)
  }

  ghost predicate GivesItem(x: Item, off: nat, n: nat)
  {
    x.v.K? && Gives(x.v.c, off, n)
  }

  lemma AllExtractIff(items: seq<Item>, off: nat, n: nat)
    requires n > 0 && forall x :: x in items && x.v.K? ==> ValidConst(x.v.c)
    ensures AllExtract(items, off, n) <==> AllGive(items, off, n)
  {
    forall x | x in items ensures x.v.K? && Extract(x.v.c, off, n).Some? <==> GivesItem(x, off, n) {
      if x.v.K? {
        ExtractIff(x.v.c, off, n);
      }
    }
  }

  lemma {:induction false} ExtractMergeFits(items: seq<Item>, len: nat, off: nat, n: nat)
    requires Consts(items, len, false) && n > 0 && AllExtract(items, off, n)
    ensures var r := ExtractMerge(items, off, n);
            if items == [] then r == Val(KUnknown, [], false) else Fits(r, n)
  {
    if items != [] {
      var rest, last := items[..|items| - 1], items[|items| - 1];
      LastConst(items, len, false);
      ExtractMergeFits(rest, len, off, n);
      var r, d := ExtractMerge(rest, off, n), Extract(last.v.c, off, n).value;
      ExtractSound(last.v.c, off, n);
      ValueOfFits(d, n);
      if rest == [] {
        MergeFirst(ValueOf(d));
      } else {
        MergeFits(r, ValueOf(d), n);
      }
    }
  }

  lemma {:induction false} ExtractMergeCovers(items: seq<Item>, len: nat, off: nat, n: nat, i: nat, k: nat)
    requires Consts(items, len, false) && n > 0 && AllExtract(items, off, n) && i < |items| && k < n
    ensures Covers(ByteAt(ExtractMerge(items, off, n), k), OneOf({PatternAt(KScalar, items[i], off + k)}))
  {
    var rest, last := items[..|items| - 1], items[|items| - 1];
    LastConst(items, len, false);
    var r, d := ExtractMerge(rest, off, n), Extract(last.v.c, off, n).value;
    var b, p := ValueOf(d), PatternAt(KScalar, items[i], off + k);
    ExtractMergeFits(rest, len, off, n);
    ExtractSound(last.v.c, off, n);
    ValueOfFits(d, n);
    if i == |rest| {
      ValueCovers(d, k, p, CellAt(last.v.c, off + k));
    } else {
      ExtractMergeCovers(rest, len, off, n, i, k);
    }
    MergedCovers(r, b, n, k, p, rest == [], i == |rest|);
  }

  /** What the merged extracts allow at a byte comes from what the constants hold there. */
  lemma {:induction false} ExtractMergeStems(items: seq<Item>, len: nat, off: nat, n: nat, k: nat, was: Abs)
    requires Consts(items, len, false) && n > 0 && AllExtract(items, off, n) && items != [] && k < n
    requires was.OneOf? && forall i :: 0 <= i < |items| ==> PatternAt(KScalar, items[i], off + k) in was.ps
    ensures var stems := Stems(ByteAt(ExtractMerge(items, off, n), k), was); stems
  {
    var rest, last := items[..|items| - 1], items[|items| - 1];
    LastConst(items, len, false);
    var r, d := ExtractMerge(rest, off, n), Extract(last.v.c, off, n).value;
    ExtractMergeFits(rest, len, off, n);
    ExtractSound(last.v.c, off, n);
    ValueOfFits(d, n);
    ValueStems(d, k, CellAt(last.v.c, off + k), was);
    if rest != [] {
      ExtractMergeStems(rest, len, off, n, k, was);
    }
    MergedStems(r, ValueOf(d), n, k, was, rest == []);
  }

  /** Extracts of one kind merge to a known value of that kind. */
  lemma {:induction false} ExtractMergeKnown(items: seq<Item>, len: nat, off: nat, n: nat, kind: Kind)
    requires Consts(items, len, false) && n > 0 && AllExtract(items, off, n) && items != [] && |items| <= PBMAX
    requires forall x :: x in items ==> ValueOf(Extract(x.v.c, off, n).value).kind == kind
    ensures var r := ExtractMerge(items, off, n); !r.WhollyUnknown() && r.kind == kind && |r.items| <= |items|
  {
    var rest, last := items[..|items| - 1], items[|items| - 1];
    LastConst(items, len, false);
    assert last in items;
    var r, d := ExtractMerge(rest, off, n), Extract(last.v.c, off, n).value;
    ExtractMergeFits(rest, len, off, n);
    ExtractSound(last.v.c, off, n);
    ValueOfFits(d, n);
    if rest == [] {
      MergeFirst(ValueOf(d));
    } else {
      ExtractMergeKnown(rest, len, off, n, kind);
      FreshFew(kind, r.items, ValueOf(d).items);
      MergeExactly(r, ValueOf(d));
    }
  }

  lemma TidyConsts(v: Val, len: nat)
    requires Fits(v, len) && Tidy(v) && v.kind == KScalar
    ensures Consts(v.items, len, false)
  {
    forall x | x in v.items ensures ConstItem(x, len, false) {
      assert ItemFits(KScalar, x, len) && CanCut(x);
    }
  }

  /** Merged extracts allow at each byte what the value allows there, and if known nothing else. */
  lemma ExtractStands(v: Val, len: nat, off: nat, n: nat, k: nat)
    requires Fits(v, len) && Tidy(v) && v.kind == KScalar && !v.WhollyUnknown() && n > 0 && AllExtract(v.items, off, n) && k < n
    ensures StandsAt(ByteAt(ExtractMerge(v.items, off, n), k), ByteAt(v, off + k), false)
  {
    TidyConsts(v, len);
    ExtractEach(v.items, len, off, n, k);
    EachCovers(ExtractMerge(v.items, off, n), v, off, k);
    ItemPatterns(v, off + k);
    ExtractMergeStems(v.items, len, off, n, k, ByteAt(v, off + k));
  }

  lemma ExtractEach(items: seq<Item>, len: nat, off: nat, n: nat, k: nat)
    requires Consts(items, len, false) && n > 0 && AllExtract(items, off, n) && k < n
    ensures var covers := CoversEach(ExtractMerge(items, off, n), items, off, k); covers
  {
    forall i | 0 <= i < |items|
      ensures var covers := Covers(ByteAt(ExtractMerge(items, off, n), k), OneOf({PatternAt(KScalar, items[i], off + k)})); covers
    {
      ExtractMergeCovers(items, len, off, n, i, k);
    }
  }

  lemma {:induction false} StaysOverdef(items: seq<Item>, off: nat, n: nat, i: nat)
    requires i <= |items| && ExtractMerge(items[..i], off, n).overdef
    ensures ExtractMerge(items, off, n).overdef
    decreases |items|
  {
    if i < |items| {
      assert items[..|items| - 1][..i] == items[..i];
      StaysOverdef(items[..|items| - 1], off, n, i);
      var r, last := ExtractMerge(items[..|items| - 1], off, n), items[|items| - 1];
      if last.v.K? && Extract(last.v.c, off, n).Some? {
        ExtractKind(items[..|items| - 1], off, n);
        MergeOverdef(r, ValueOf(Extract(last.v.c, off, n).value));
      }
    } else {
      assert items[..i] == items;
    }
  }

  lemma {:induction false} ExtractKind(items: seq<Item>, off: nat, n: nat)
    ensures ExtractMerge(items, off, n).kind in {KUnknown, KScalar, KPointer}
  {
    if items != [] {
      ExtractKind(items[..|items| - 1], off, n);
      var r, last := ExtractMerge(items[..|items| - 1], off, n), items[|items| - 1];
      if last.v.K? && Extract(last.v.c, off, n).Some? {
        MergeKind(r, ValueOf(Extract(last.v.c, off, n).value));
      }
    }
  }

  lemma MergeKind(a: Val, b: Val)
    requires a.kind in {KUnknown, KScalar, KPointer} && (b.kind == KScalar || b.kind == KPointer)
    ensures Merge(a, b).kind in {KUnknown, KScalar, KPointer}
  {
    if a.Initialised() && b.kind != a.kind {
      if !b.overdef && !(OnlyFunctions(a) && OnlyNulls(b)) && OnlyNulls(a) && OnlyFunctions(b) {
        InsertAllShape(a.(kind := KScalar), b.items);
      }
    } else {
      InsertAllShape(a.(kind := b.kind), b.items);
    }
  }

  lemma MergeOverdef(a: Val, b: Val)
    requires a.overdef && b.Initialised() && b.kind != KDeallocated && a.kind != KDeallocated
    ensures Merge(a, b).overdef
  {
    if !b.overdef {
      InsertAllShape(a.(kind := b.kind), b.items);
      InsertAllShape(a.(kind := KScalar), b.items);
    }
  }

  lemma ExtractNext(items: seq<Item>, i: nat, off: nat, n: nat)
    requires i < |items| && items[i].v.K?
    ensures var r, d := ExtractMerge(items[..i], off, n), Extract(items[i].v.c, off, n);
            && ExtractMerge(items[..i + 1], off, n) == (if d.Some? then Merge(r, ValueOf(d.value)) else r)
            && (AllExtract(items[..i], off, n) && d.Some? <==> AllExtract(items[..i + 1], off, n))
  {
    assert items[..i + 1] == items[..i] + [items[i]];
    ExtractSnoc(items[..i], items[i], off, n);
  }

  lemma ExtractSnoc(items: seq<Item>, last: Item, off: nat, n: nat)
    requires last.v.K?
    ensures var r, d := ExtractMerge(items, off, n), Extract(last.v.c, off, n);
            && ExtractMerge(items + [last], off, n) == (if d.Some? then Merge(r, ValueOf(d.value)) else r)
            && (AllExtract(items, off, n) && d.Some? <==> AllExtract(items + [last], off, n))
  {
    assert (items + [last])[..|items|] == items;
  }
}
