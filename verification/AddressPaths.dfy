/** Byte offsets and getelementptr index paths: `XXXFindElementAtOffset` (llpe/main/CopyPaste.cpp)
    against the rule by which evaluation adds indices up (llpe/main/Eval.cpp,
    llpe/main/IntegratorShared.cpp). */
module AddressPaths {
  import opened Options
  import opened Constants

  /** `getTypeSizeInBits`. */
  function BitSize(t: Ty): nat
  {
    match t
    case IntTy(bits, _) => bits
    case _ => AllocSize(t) * 8
  }

  /** Where an in-range path of member and element numbers leads: how many bytes in, and to what type. */
  function Walk(t: Ty, path: seq<nat>): Option<(nat, Ty)>
    decreases path
  {
    if path == [] then Some((0, t))
    else match t
      case StructTy(fields, offsets, _) =>
        if path[0] < |fields| == |offsets| then
          var rest := Walk(fields[path[0]], path[1..]);
          if rest.Some? then Some((offsets[path[0]] + rest.value.0, rest.value.1)) else None
        else None
      case ArrayTy(elem, count) =>
        if path[0] < count then
          var rest := Walk(elem, path[1..]);
          if rest.Some? then Some((path[0] * AllocSize(elem) + rest.value.0, rest.value.1)) else None
        else None
      case _ => None
  }

  /** The getelementptr rule: the first index steps over whole objects of type `t`, the others
      select within it. */
  function GepOffset(t: Ty, first: int, path: seq<nat>): Option<int>
  {
    var w := Walk(t, path);
    if w.Some? then Some(first * AllocSize(t) + w.value.0) else None
  }

  /** The indices before the first that is not known. */
  function KnownIndices(path: seq<Option<nat>>): (r: seq<nat>)
    ensures |r| <= |path| && forall i :: 0 <= i < |r| ==> path[i] == Some(r[i])
    ensures |r| < |path| ==> path[|r|].None?
  {
    if path == [] || path[0].None? then [] else [path[0].value] + KnownIndices(path[1..])
  }

  /** With the offset of what the remaining indices select, the offset comes to `total`. */
  ghost predicate OnPath(off: int, ty: Ty, rest: seq<nat>, total: int)
  {
    ValidTy(ty) && Walk(ty, rest).Some? && off + Walk(ty, rest).value.0 == total
  }

  /** One index of the loop: its share of the offset and the type it selects. */
  method AddIndex(off: int, ty: Ty, index: nat, ghost rest: seq<nat>, ghost total: int) returns (now: int, part: Ty)
    requires var on := OnPath(off, ty, [index] + rest, total); on
    ensures var on := OnPath(now, part, rest, total); on
  {
    assert ([index] + rest)[1..] == rest;
    now := off;
    if ty.StructTy? {
      if index != 0 {
        now := now + ty.offsets[index];
      }
      part := ty.fields[index];
    } else {
      if index != 0 {
        now := now + index * AllocSize(ty.elem);
      }
      part := ty.elem;
    }
  }

  /** The loop of the GetElementPtr cases: add each index's share to the base offset, skipping zero
      indices; an index that is not known makes the offset unknown. */
  method EvaluateGep(base: Option<int>, t: Ty, first: Option<int>, path: seq<Option<nat>>) returns (r: Option<int>)
    requires ValidTy(t) && Walk(t, KnownIndices(path)).Some?
    ensures r == if base.Some? && first.Some? && |KnownIndices(path)| == |path|
                 then Some(base.value + GepOffset(t, first.value, KnownIndices(path)).value) else None
  {
    if base.None? || first.None? {
      return None;
    }
    var off := base.value;
    if first.value != 0 {
      off := off + first.value * AllocSize(t);
    }
    ghost var known := KnownIndices(path);
    ghost var total := off + Walk(t, known).value.0;
    var ty, i := t, 0;
    assert known[0..] == known;
    while i < |path|
      invariant 0 <= i <= |known| && var on := OnPath(off, ty, known[i..], total); on
    {
      if path[i].None? {
        return None;
      }
      var index := path[i].value;
      assert known[i..] == [index] + known[i + 1..];
      off, ty := AddIndex(off, ty, index, known[i + 1..], total);
      i := i + 1;
    }
    r := Some(off);
  }

  /** No part of the type is empty. */
  predicate Solid(t: Ty)
  {
    && AllocSize(t) > 0
    && match t
       case ArrayTy(elem, _) => Solid(elem)
       case StructTy(fields, _, _) => forall i :: 0 <= i < |fields| ==> Solid(fields[i])
       case _ => true
  }

  /** In-range paths stay inside the object. */
  lemma {:induction false} WalkInside(t: Ty, path: seq<nat>)
    requires ValidTy(t) && Solid(t) && Walk(t, path).Some?
    ensures Walk(t, path).value.0 < AllocSize(t)
    decreases path
  {
    if path != [] {
      if t.StructTy? {
        WalkInside(t.fields[path[0]], path[1..]);
        StructEnd(t, path[0]);
      } else {
        WalkInside(t.elem, path[1..]);
        StepUp(path[0], t.count, AllocSize(t.elem));
      }
    }
  }

  lemma StructEnd(t: Ty, i: nat)
    requires t.StructTy? && ValidTy(t) && i < |t.fields|
    ensures t.offsets[i] + AllocSize(t.fields[i]) <= t.size
    ensures i + 1 < |t.fields| ==> t.offsets[i] + AllocSize(t.fields[i]) <= t.offsets[i + 1]
  {
    assert EndsBy(t.fields, t.offsets, i, t.size);
    assert i + 1 < |t.fields| ==> EndsBy(t.fields, t.offsets, i, t.offsets[i + 1]);
  }

  /** C++ division of a signed number by a positive one: toward zero. */
  function TruncatedDiv(a: int, b: int): int
    requires b > 0
  {
    if a >= 0 then a / b else -((-a) / b)
  }

  /** The first index: whole objects below the offset, and what is left of it. */
  method FirstIndex(size: nat, offset: int) returns (first: int, rest: nat)
    requires size > 0
    ensures offset == first * size + rest && rest < size
  {
    first := TruncatedDiv(offset, size);
    var left := offset - first * size;
    if left < 0 {
      first := first - 1;
      left := left + size;
    }
    rest := left;
  }

  /** `XXXFindElementAtOffset`: an index path to the element at a signed byte offset from an object
      of type `ty`. When one comes back, adding its indices up by the getelementptr rule gives
      exactly the offset, it leads to the returned type, and it goes no further down than it must. If no part
      of the type is empty, one comes back whenever there is any in-range path to that offset. */
  method FindElementAtOffset(ty: Ty, offset: int) returns (r: Option<(int, seq<nat>, Ty)>)
    requires ValidTy(ty)
    ensures r.Some? ==>
              var (first, path, to) := r.value;
              && Walk(ty, path).Some? && Walk(ty, path).value.1 == to && GepOffset(ty, first, path) == Some(offset)
              && forall k :: 0 <= k < |path| ==> GepOffset(ty, first, path[..k]) != Some(offset)
    ensures Solid(ty) ==>
              (r.Some? <==> exists first: int, path: seq<nat> :: GepOffset(ty, first, path) == Some(offset))
  {
    var first, rest := 0, 0;
    if AllocSize(ty) == 0 {
      // An empty type: the offset is left as it is.
      if offset == 0 {
        return Some((0, [], ty));
      }
      return None;
    }
    first, rest := FirstIndex(AllocSize(ty), offset);
    var path, to := Descend(ty, rest);
    if Solid(ty) && to.None? {
      forall f: int, p: seq<nat> ensures GepOffset(ty, f, p) != Some(offset) {
        if GepOffset(ty, f, p) == Some(offset) {
          WalkInside(ty, p);
          assert !Reaches(ty, p, rest);
          FloorUnique(f, Walk(ty, p).value.0, first, rest, AllocSize(ty));
          assert false;
        }
      }
    }
    if to.None? {
      return None;
    }
    assert GepOffset(ty, first, path) == Some(offset);
    forall k | 0 <= k < |path| ensures GepOffset(ty, first, path[..k]) != Some(offset) {
      assert !Reaches(ty, path[..k], rest);
    }
    r := Some((first, path, to.value));
  }

  lemma FloorUnique(q: int, r: nat, q': int, r': nat, d: nat)
    requires r < d && r' < d && q * d + r == q' * d + r'
    ensures q == q' && r == r'
  {
    if q < q' {
      StepUp(q, q', d);
      assert false;
    } else if q' < q {
      StepUp(q', q, d);
      assert false;
    }
  }

  lemma StepUp(a: int, b: int, d: nat)
    requires a < b
    ensures a * d + d <= b * d
  {
    assert (b - a - 1) * d >= 0;
  }

  /** `p` is an in-range path to the byte `off` of a `t`. */
  ghost predicate Reaches(t: Ty, p: seq<nat>, off: nat)
  {
    Walk(t, p).Some? && Walk(t, p).value.0 == off
  }

  lemma {:induction false} WalkConcat(t: Ty, p: seq<nat>, q: seq<nat>)
    requires Walk(t, p).Some?
    ensures var (n, ty) := Walk(t, p).value;
            Walk(t, p + q) == if Walk(ty, q).Some? then Some((n + Walk(ty, q).value.0, Walk(ty, q).value.1)) else None
    decreases p
  {
    if p == [] {
      assert p + q == q;
    } else {
      assert (p + q)[1..] == p[1..] + q && (p + q)[0] == p[0];
      WalkConcat(if t.StructTy? then t.fields[p[0]] else t.elem, p[1..], q);
    }
  }

  lemma WalkOne(t: Ty, x: nat)
    ensures t.StructTy? && x < |t.fields| == |t.offsets| ==> Walk(t, [x]) == Some((t.offsets[x], t.fields[x]))
    ensures t.ArrayTy? && x < t.count ==> Walk(t, [x]) == Some((x * AllocSize(t.elem), t.elem))
  {
    assert [x][1..] == [];
  }

  /** Nothing is reached at or past the end of a type, nor inside a scalar. */
  lemma NothingThere(t: Ty, p: seq<nat>, off: nat)
    requires ValidTy(t) && Solid(t) && off > 0 && (AllocSize(t) <= off || !(t.StructTy? || t.ArrayTy?))
    ensures !Reaches(t, p, off)
  {
    if Walk(t, p).Some? {
      WalkInside(t, p);
    }
  }

  /** The member that holds a byte is the one every path to that byte goes through. */
  lemma ThroughMember(t: Ty, p: seq<nat>, off: nat)
    requires t.StructTy? && ValidTy(t) && Solid(t) && off > 0 && Reaches(t, p, off)
    ensures var elt := ElementContaining(t.offsets, off);
            Reaches(t.fields[elt], p[1..], off - t.offsets[elt])
  {
    var i, elt := p[0], ElementContaining(t.offsets, off);
    WalkInside(t.fields[i], p[1..]);
    StructEnd(t, i);
    MemberOrder(t, i, elt);
    if elt + 1 < i {
      MemberOrder(t, elt + 1, i);
    }
    assert i == elt;
  }

  lemma MemberOrder(t: Ty, i: nat, j: nat)
    requires t.StructTy? && ValidTy(t) && i < |t.fields| && j < |t.fields|
    ensures i < j ==> t.offsets[i] + AllocSize(t.fields[i]) <= t.offsets[j]
  {
    assert i < j ==> EndsBy(t.fields, t.offsets, i, t.offsets[j]);
  }

  lemma ThroughElement(t: Ty, p: seq<nat>, off: nat)
    requires t.ArrayTy? && ValidTy(t) && Solid(t) && off > 0 && Reaches(t, p, off)
    ensures Reaches(t.elem, p[1..], off % AllocSize(t.elem))
  {
    var esize := AllocSize(t.elem);
    WalkInside(t.elem, p[1..]);
    DivIs(off, esize);
    FloorUnique(p[0], Walk(t.elem, p[1..]).value.0, off / esize, off % esize, esize);
  }

  lemma DivIs(k: nat, d: nat)
    requires d > 0
    ensures k == (k / d) * d + k % d && k % d < d
  {
  }

  /** One level down: the index to push, what is left of the offset, and the type indexed. */
  method StepInto(t: Ty, off: nat) returns (index: nat, rest: nat, to: Ty)
    requires ValidTy(t) && (t.StructTy? || t.ArrayTy?) && 0 < off < AllocSize(t)
    ensures ValidTy(to) && (t.StructTy? ==> to in t.fields) && (t.ArrayTy? ==> to == t.elem)
    ensures rest <= off && Walk(t, [index]) == Some((off - rest, to))
    ensures Solid(t) ==> Solid(to) && forall p :: Reaches(t, p, off) ==> Reaches(to, p[1..], rest)
  {
    if t.StructTy? {
      index := ElementContaining(t.offsets, off);
      rest, to := off - t.offsets[index], t.fields[index];
      if Solid(t) {
        forall p | Reaches(t, p, off) ensures Reaches(to, p[1..], rest) {
          ThroughMember(t, p, off);
        }
      }
    } else {
      var esize := AllocSize(t.elem);
      DivBound(off, t.count, esize);
      index, rest, to := off / esize, off % esize, t.elem;
      if Solid(t) {
        forall p | Reaches(t, p, off) ensures Reaches(to, p[1..], rest) {
          ThroughElement(t, p, off);
        }
      }
    }
    WalkOne(t, index);
  }

  lemma NotYet(t: Ty, path: seq<nat>, index: nat, offset: nat)
    requires !Reaches(t, path, offset) && forall k :: 0 <= k < |path| ==> !Reaches(t, path[..k], offset)
    ensures forall k :: 0 <= k < |path + [index]| ==> !Reaches(t, (path + [index])[..k], offset)
  {
    forall k | 0 <= k < |path + [index]| ensures !Reaches(t, (path + [index])[..k], offset) {
      assert (path + [index])[..k] == path[..k];
      assert path[..|path|] == path;
    }
  }

  /** The loop that indexes into the types; it goes one level down the type at each turn. */
  method Descend(t: Ty, offset: nat) returns (path: seq<nat>, to: Option<Ty>)
    requires ValidTy(t)
    ensures to.Some? ==> Walk(t, path) == Some((offset, to.value)) && forall k :: 0 <= k < |path| ==> !Reaches(t, path[..k], offset)
    ensures to.None? && Solid(t) ==> forall p :: !Reaches(t, p, offset)
  {
    path := [];
    var ty, off: nat := t, offset;
    while off != 0
      invariant ValidTy(ty) && (Solid(t) ==> Solid(ty))
      invariant off <= offset && Walk(t, path) == Some((offset - off, ty))
      invariant forall k :: 0 <= k < |path| ==> !Reaches(t, path[..k], offset)
      invariant Solid(t) ==> forall p :: Reaches(t, p, offset) ==> exists q :: Reaches(ty, q, off)
      decreases ty
    {
      if off * 8 >= BitSize(ty) || !(ty.StructTy? || ty.ArrayTy?) {
        if Solid(t) {
          forall q ensures !Reaches(ty, q, off) {
            NothingThere(ty, q, off);
          }
        }
        return path, None;
      }
      var index, rest, next := StepInto(ty, off);
      WalkConcat(t, path, [index]);
      NotYet(t, path, index, offset);
      path, off, ty := path + [index], rest, next;
    }
    to := Some(ty);
  }
}
