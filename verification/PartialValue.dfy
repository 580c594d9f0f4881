/** Values put together byte by byte: `PartialVal` (llpe/main/BytewiseReinterpret.cpp:29-205). */
module PartialValue {
  import opened Constants
  import opened SymbolicValues
  import R = ConstReader

  /** A byte that is known to hold `b`, or undef read as 0. */
  ghost predicate Tells(a: Abs, b: Byte)
  {
    a == OneOf({Holds(b)}) || (a == OneOf({Anything}) && b == 0)
  }

  /** Values `addIVSToPartialVal` accepts: one constant or one splatted byte. */
  predicate Expressible(v: Val)
  {
    !v.WhollyUnknown() && |v.items| == 1 && (v.kind == KScalar || v.kind == KSplat)
  }

  /** The source's reader may start at `off` of the value's constant. */
  predicate StartsWell(v: Val, off: nat)
  {
    v.kind == KScalar && |v.items| == 1 && v.items[0].v.K? ==> R.NotInTail(v.items[0].v.c, off)
  }

  /** Bytes off..off + n of the value can be had as bytes. */
  ghost predicate HasBytes(v: Val, off: nat, n: nat)
  {
    Expressible(v) && (v.kind == KScalar && v.items[0].v.K? ==> R.Readable(v.items[0].v.c, off, n))
  }

  /** The bytes off..off + n of a constant, undef as 0. */
  ghost function FlatBytes(c: Const, off: nat, n: nat): (r: seq<Byte>)
    ensures |r| == n && forall k :: 0 <= k < n ==> r[k] == R.Flat(CellAt(c, off + k))
  {
    if n == 0 then [] else FlatBytes(c, off, n - 1) + [R.Flat(CellAt(c, off + (n - 1)))]
  }

  lemma OneItem(v: Val, k: nat)
    requires |v.items| == 1 && !v.WhollyUnknown()
    ensures ByteAt(v, k) == OneOf({PatternAt(v.kind, v.items[0], k)})
  {
    assert v.items == [v.items[0]];
    PatternIn(v, v.items[0], k);
  }

  /** A readable byte of a constant is told by its flat byte. */
  lemma ConstTells(v: Val, c: Const, k: nat)
    requires |v.items| == 1 && !v.WhollyUnknown() && v.kind == KScalar && v.items[0].v == K(c)
    requires ValidConst(c) && !R.Refused(c, k)
    ensures Tells(ByteAt(v, k), R.Flat(CellAt(c, k)))
  {
    OneItem(v, k);
    R.ReadableCell(c, k);
  }

  lemma {:induction false} FlatTells(v: Val, c: Const, off: nat, n: nat)
    requires |v.items| == 1 && !v.WhollyUnknown() && v.kind == KScalar && v.items[0].v == K(c)
    requires ValidConst(c) && R.Readable(c, off, n)
    ensures forall k: nat :: k < n ==> Tells(ByteAt(v, off + k), FlatBytes(c, off, n)[k])
  {
    var bytes := FlatBytes(c, off, n);
    forall k: nat | k < n ensures Tells(ByteAt(v, off + k), bytes[k]) {
      FlatTell(v, c, off + k, bytes[k]);
    }
  }

  lemma FlatTell(v: Val, c: Const, k: nat, b: Byte)
    requires |v.items| == 1 && !v.WhollyUnknown() && v.kind == KScalar && v.items[0].v == K(c)
    requires ValidConst(c) && !R.Refused(c, k) && b == R.Flat(CellAt(c, k))
    ensures var tells := Tells(ByteAt(v, k), b); tells
  {
    ConstTells(v, c, k);
  }

  class PartialVal {
    const buf: array<Byte>
    const valid: array<bool>
    var finished: bool

    /** `loadFinished` holds exactly when every byte is valid. */
    ghost predicate Valid()
      reads this, valid
    {
      buf.Length == valid.Length && (finished <==> forall i :: 0 <= i < valid.Length ==> valid[i])
    }

    constructor (n: nat)
      requires n > 0
      ensures Valid() && fresh(buf) && fresh(valid) && buf.Length == n
      ensures forall i :: 0 <= i < n ==> !valid[i]
    {
      buf := new Byte[n];
      valid := new bool[n];
      finished := false;
      new;
      for i := 0 to n
        modifies valid
        invariant forall k :: 0 <= k < i ==> !valid[k]
      {
        valid[i] := false;
      }
      assert !valid[0];
    }

    /** The bytes first..last are now defined: those that were valid keep their value, the others
        come from `other`. */
    ghost predicate Filled(other: seq<Byte>, first: nat, last: nat, oldBuf: seq<Byte>, oldValid: seq<bool>)
      requires first <= last <= buf.Length == valid.Length && |other| >= last - first
      requires |oldBuf| == |oldValid| == buf.Length
      reads this, buf, valid
    {
      && (forall i :: 0 <= i < buf.Length ==>
            buf[i] == if first <= i < last && !oldValid[i] then other[i - first] else oldBuf[i])
      && (forall i :: 0 <= i < valid.Length ==> (valid[i] <==> oldValid[i] || first <= i < last))
    }

    /** `combineWith` on raw bytes: a valid byte is never overwritten. */
    method CombineBytes(other: array<Byte>, first: nat, last: nat)
      requires Valid() && first <= last <= buf.Length && first < buf.Length && other.Length >= last - first && other != buf
      modifies this, buf, valid
      ensures Valid() && Filled(other[..], first, last, old(buf[..]), old(valid[..]))
    {
      for i := 0 to last - first
        modifies buf
        invariant forall k :: 0 <= k < valid.Length ==> valid[k] == old(valid[k])
        invariant forall k :: 0 <= k < buf.Length ==>
          buf[k] == if first <= k < first + i && !old(valid[k]) then other[k - first] else old(buf[k])
      {
        if !valid[first + i] {
          buf[first + i] := other[i];
        }
      }
      finished := true;
      var i := 0;
      ghost var gap: nat := 0;
      while i < valid.Length && (finished || i < last)
        modifies valid, this
        invariant 0 <= i <= valid.Length
        invariant finished ==> forall k :: 0 <= k < i ==> valid[k]
        invariant !finished ==> gap < i && !valid[gap]
        invariant forall k :: 0 <= k < valid.Length ==>
          valid[k] == (old(valid[k]) || (first <= k < last && k < i))
      {
        if first <= i < last {
          valid[i] := true;
        } else if !valid[i] {
          finished := false;
          gap := i;
        }
        i := i + 1;
      }
    }

    /** `combineWith` on a constant: its bytes from `off`, if they can be read. */
    method CombineConst(c: Const, off: nat, first: nat, last: nat) returns (ok: bool)
      requires Valid() && first < last <= buf.Length
      requires ValidConst(c) && off < Alloc(c) && R.NotInTail(c, off)
      modifies this, buf, valid
      ensures Valid()
      ensures ok <==> R.Readable(c, off, last - first)
      ensures !ok ==> buf[..] == old(buf[..]) && valid[..] == old(valid[..])
      ensures ok ==> Filled(FlatBytes(c, off, last - first), first, last, old(buf[..]), old(valid[..]))
    {
      var n := last - first;
      var temp := new Byte[n](_ => 0);
      ok := R.ReadData(c, off, temp, 0, n);
      if ok {
        CombineBytes(temp, first, last);
        assert temp[..] == FlatBytes(c, off, n);
      }
    }

    /** Where the value was added, bytes not yet valid now tell what the value holds there. */
    ghost predicate Added(v: Val, off: nat, first: nat, n: nat, oldBuf: seq<Byte>, oldValid: seq<bool>)
      requires buf.Length == valid.Length == |oldBuf| == |oldValid|
      reads this, buf, valid
    {
      && (forall i :: 0 <= i < valid.Length ==> (valid[i] <==> oldValid[i] || first <= i < first + n))
      && (forall i :: 0 <= i < buf.Length && (oldValid[i] || !(first <= i < first + n)) ==> buf[i] == oldBuf[i])
      && (forall i :: first <= i < first + n && i < buf.Length && !oldValid[i] ==> Tells(ByteAt(v, off + (i - first)), buf[i]))
    }

    /** `addIVToPartialVal` on a splat: the byte, repeated. */
    method CombineSplat(b: Byte, first: nat, n: nat)
      requires Valid() && n > 0 && first + n <= buf.Length
      modifies this, buf, valid
      ensures Valid() && Filled(seq(n, _ => b), first, first + n, old(buf[..]), old(valid[..]))
    {
      var temp := new PartialVal(n);
      for i := 0 to n
        modifies temp.buf, temp.valid
        invariant forall k :: 0 <= k < i ==> temp.buf[k] == b
      {
        temp.buf[i] := b;
        temp.valid[i] := true;
      }
      CombineBytes(temp.buf, first, first + n);
      assert temp.buf[..] == seq(n, _ => b);
    }

    /** `addIVSToPartialVal`: add bytes off..off + n of a value at `first`. It works exactly when the
        value is a single constant readable there or a single splatted byte. */
    method AddValue(v: Val, len: nat, off: nat, first: nat, n: nat) returns (ok: bool)
      requires Valid() && Fits(v, len) && n > 0 && off + n <= len && first + n <= buf.Length && StartsWell(v, off)
      modifies this, buf, valid
      ensures Valid()
      ensures ok <==> HasBytes(v, off, n)
      ensures !ok ==> buf[..] == old(buf[..]) && valid[..] == old(valid[..])
      ensures ok ==> Added(v, off, first, n, old(buf[..]), old(valid[..]))
    {
      if v.WhollyUnknown() || |v.items| != 1 || (v.kind != KScalar && v.kind != KSplat) {
        return false;
      }
      var x := v.items[0];
      assert x in v.items && ItemFits(v.kind, x, len);
      if v.kind == KScalar {
        ok := AddConst(v, x.v.c, off, first, n);
      } else {
        AddSplat(v, x.v.c.value % 256, off, first, n);
        ok := true;
      }
    }

    method AddConst(v: Val, c: Const, off: nat, first: nat, n: nat) returns (ok: bool)
      requires Valid() && n > 0 && first + n <= buf.Length && ValidConst(c) && off + n <= Size(c) && R.NotInTail(c, off)
      requires !v.overdef && v.kind == KScalar && |v.items| == 1 && v.items[0].v == K(c)
      modifies this, buf, valid
      ensures Valid() && (ok <==> R.Readable(c, off, n))
      ensures !ok ==> buf[..] == old(buf[..]) && valid[..] == old(valid[..])
      ensures ok ==> var added := Added(v, off, first, n, old(buf[..]), old(valid[..])); added
    {
      assert off < Alloc(c) by {
        R.StoreWithinAlloc(TyOf(c));
      }
      ok := CombineConst(c, off, first, first + n);
      if ok {
        FlatTells(v, c, off, n);
        FilledAdded(v, FlatBytes(c, off, n), off, first, n, old(buf[..]), old(valid[..]));
      }
    }

    /** Bytes that tell what a value holds, filled in, add the value. */
    lemma FilledAdded(v: Val, other: seq<Byte>, off: nat, first: nat, n: nat, oldBuf: seq<Byte>, oldValid: seq<bool>)
      requires buf.Length == valid.Length == |oldBuf| == |oldValid| && first + n <= buf.Length && |other| == n
      requires Filled(other, first, first + n, oldBuf, oldValid)
      requires forall k: nat :: k < n ==> Tells(ByteAt(v, off + k), other[k])
      ensures var added := Added(v, off, first, n, oldBuf, oldValid); added
    {
    }

    method AddSplat(v: Val, b: Byte, off: nat, first: nat, n: nat)
      requires Valid() && n > 0 && first + n <= buf.Length && !v.WhollyUnknown() && |v.items| == 1
      requires forall k: nat :: PatternAt(v.kind, v.items[0], k) == Holds(b)
      modifies this, buf, valid
      ensures Valid() && Added(v, off, first, n, old(buf[..]), old(valid[..]))
    {
      CombineSplat(b, first, n);
      forall k: nat ensures ByteAt(v, k) == OneOf({Holds(b)}) {
        OneItem(v, k);
      }
    }
  }
}
