/** Joins of particular stores: what a caller gets from `LocStore::mergeStores`, and where its coverage
    counter falls behind (llpe/main/LoadForward.cpp:3736-3973). */
module JoinExamples {
  import opened Options
  import opened Extents
  import opened Constants
  import opened SymbolicValues
  import opened SubValues
  import opened ValueCuts
  import opened RangeClears
  import opened LayeredStore
  import opened Stacks
  import opened StoreMerge
  import opened StoreJoins
  import A = AncestorSearch
  import opened SmoothValues
  import opened SmoothStores

  /** Two maps laid over one store are joined: a byte in neither of them reads as it did below them. */
  method JoinOverBase(loc: LocStore, a: Multi, c: Multi, base: Multi, size: nat, ghost bms: seq<Multi>, ghost cuts: iset<nat>)
    returns (ghost now: seq<Multi>)
    requires loc.store == Layer(a) && a != c && a.under == c.under == Some(Layer(base)) && Chain(Some(Layer(base)), bms)
    requires 0 < size < U64 && 0 in cuts && size in cuts && a.Shaped() && a.Counted() && (a.refCount == 1 ==> a.allocSize == size)
    requires Chain(Some(Layer(a)), [a] + bms) && Chain(Some(Layer(c)), [c] + bms) && a !in bms && c !in bms
    requires StackSlices(StackOf(Some(Layer(a)), [a] + bms, None), size, cuts) && StackSlices(StackOf(Some(Layer(c)), [c] + bms, None), size, cuts)
    modifies loc, a
    ensures Chain(Some(loc.store), now)
    ensures forall b: nat :: b < size && old(Peek(a.extents, b).None? && Peek(c.extents, b).None?) ==>
              Look(Some(loc.store), now, b) == old(Look(Some(Layer(base)), bms, b))
  {
    ghost var tms, fms := [a] + bms, [c] + bms;
    forall b: nat | Peek(a.extents, b).None? && Peek(c.extents, b).None?
      ensures Untouched(Layer(a), tms, Layer(c), fms, b) && Look(Some(Layer(a)), tms, b) == Look(Some(Layer(base)), bms, b)
    {
      OverBase(a, c, base, bms, b);
    }
    ghost var la, ra;
    now, la, ra := loc.MergeStores(Layer(c), size, tms, fms, cuts);
  }

  lemma {:induction false} OverBase(a: Multi, c: Multi, base: Multi, bms: seq<Multi>, b: nat)
    requires a != c && a.under == c.under == Some(Layer(base)) && Chain(Some(Layer(base)), bms)
    requires Chain(Some(Layer(a)), [a] + bms) && Chain(Some(Layer(c)), [c] + bms)
    requires Peek(a.extents, b).None? && Peek(c.extents, b).None?
    ensures Untouched(Layer(a), [a] + bms, Layer(c), [c] + bms, b)
    ensures Look(Some(Layer(a)), [a] + bms, b) == Look(Some(Layer(base)), bms, b)
  {
    assert base in [a] + bms && base in [c] + bms;
    assert ([a] + bms)[1..] == bms;
  }

  predicate Position(n: nat)
  {
    true
  }

  /** Every position. */
  ghost function Everywhere(): (cuts: iset<nat>)
    ensures forall n: nat :: n in cuts
  {
    iset n: nat | Position(n)
  }

  /** One byte. */
  function ByteVal(b: Byte): Val
  {
    ScalarOf(CInt(8, 1, b))
  }

  lemma ByteValFits(b: Byte)
    ensures Fits(ByteVal(b), 1) && SmoothVal(ByteVal(b))
  {
    var c := CInt(8, 1, b);
    assert ValidTy(IntTy(8, 1)) && ByteInt(8) && Size(c) == 1;
    assert ItemFits(KScalar, Item(K(c), None), 1) && SmoothItem(Item(K(c), None));
  }

  /** A single byte is joined with a map that overrides it: the new map covers one byte, and its counter
      says none. */
  method CounterLeftBehind(x: Byte, y: Byte) returns (loc: LocStore)
    ensures loc.store.Layer? && loc.store.m.covered == 0 && Total(loc.store.m.extents) == 1
  {
    ByteValFits(x);
    ByteValFits(y);
    var m := new Multi(1);
    m.under, m.extents, m.covered := Some(Single(ByteVal(x))), [Extent(0, 1, ByteVal(y))], 1;
    loc := new LocStore(Single(ByteVal(x)));
    ghost var cuts := Everywhere();
    assert [m][1..] == [];
    assert Chain(Some(Layer(m)), [m]) && Chain(Some(loc.store), []);
    OneOver(m, x, y);
    SmoothStackSlices(StackOf(Some(loc.store), [], None), 1, cuts);
    SmoothStackSlices(StackOf(Some(Layer(m)), [m], None), 1, cuts);
    OneOverridden(loc.store, m, x, y);
    ghost var now, la, ra := loc.MergeStores(Layer(m), 1, [], [m], cuts);
  }

  lemma {:induction false} OneOver(m: Multi, x: Byte, y: Byte)
    requires m.under == Some(Single(ByteVal(x))) && m.extents == [Extent(0, 1, ByteVal(y))] && Chain(Some(Layer(m)), [m])
    ensures SmoothStack(StackOf(Some(Layer(m)), [m], None), 1) && SmoothStack(StackOf(Some(Single(ByteVal(x))), [], None), 1)
  {
    ByteValFits(x);
    ByteValFits(y);
    assert [m][1..] == [];
    StackUnder(Some(Layer(m)), [m], None);
  }

  lemma {:induction false} OneOverridden(to: Store, m: Multi, x: Byte, y: Byte)
    requires to == Single(ByteVal(x)) && m.extents == [Extent(0, 1, ByteVal(y))] && Chain(Some(Layer(m)), [m]) && Chain(Some(to), [])
    ensures Overridden(to, [], Layer(m), [m], 1) == 1
  {
    AtHit(m.extents, 0, 0);
    assert m in [m] && Peek(m.extents, 0).Some? && !Bare([m], [], 0);
  }

  /** An integer, in a map of its own over nothing. */
  predicate IntMap(m: Multi, c: Const)
    reads m
  {
    c.CInt? && ValidConst(c) && ByteInt(c.bits) && 0 < Size(c) == m.allocSize < U64 && m.under == None && m.extents == [Extent(0, Size(c), ScalarOf(c))]
  }

  /** Two integers in two maps are joined: each byte is known, and is the byte of the one or of the other. */
  method JoinInts(loc: LocStore, a: Multi, c: Multi, x: Const, y: Const) returns (ghost now: seq<Multi>)
    requires a != c && IntMap(a, x) && IntMap(c, y) && Size(x) == Size(y) && loc.store == Layer(a) && a.Counted()
    modifies loc, a
    ensures Chain(Some(loc.store), now)
    ensures forall b: nat :: b < Size(x) ==> Look(Some(loc.store), now, b) == OneOf({OfCell(CellAt(x, b)), OfCell(CellAt(y, b))})
  {
    ghost var cuts, size := Everywhere(), Size(x);
    assert [a][1..] == [] && [c][1..] == [];
    IntStack(a, x);
    IntStack(c, y);
    SmoothStackSlices(StackOf(Some(Layer(a)), [a], None), size, cuts);
    SmoothStackSlices(StackOf(Some(Layer(c)), [c], None), size, cuts);
    assert !A.Related(Layer(a), [a], Layer(c), [c]);
    ghost var la, ra;
    now, la, ra := loc.MergeStores(Layer(c), a.allocSize, [a], [c], cuts);
    forall b: nat | b < size ensures Look(Some(loc.store), now, b) == OneOf({OfCell(CellAt(x, b)), OfCell(CellAt(y, b))}) {
      IntsKnown(x, y, b, !At(loc.store.m.extents, b).value.val.WhollyUnknown());
      LookTop(Some(loc.store), now, b);
      EitherInt(x, y, b, Look(Some(loc.store), now, b));
    }
  }

  /** What the map holds. */
  lemma {:induction false} IntStack(m: Multi, c: Const)
    requires IntMap(m, c) && Chain(Some(Layer(m)), [m])
    ensures m.Shaped() && SmoothStack(StackOf(Some(Layer(m)), [m], None), Size(c))
    ensures StackOf(Some(Layer(m)), [m], None) == Over([Extent(0, Size(c), ScalarOf(c))], Nothing)
    ensures forall b: nat :: b < Size(c) ==> Look(Some(Layer(m)), [m], b) == OneOf({OfCell(CellAt(c, b))})
  {
    assert [m][1..] == [];
    StackUnder(Some(Layer(m)), [m], None);
    assert ItemFits(KScalar, Item(K(c), None), Size(c)) && SmoothItem(Item(K(c), None));
    forall b: nat | b < Size(c) ensures Look(Some(Layer(m)), [m], b) == OneOf({OfCell(CellAt(c, b))}) {
      OnlyAt(m.extents[0], b);
      LookTop(Some(Layer(m)), [m], b);
      IntByte(c, b);
    }
  }

  lemma IntByte(c: Const, b: nat)
    requires c.CInt?
    ensures ByteAt(ScalarOf(c), b) == OneOf({OfCell(CellAt(c, b))})
  {
    var v, p := ScalarOf(c), OfCell(CellAt(c, b));
    PatternIn(v, Item(K(c), None), b);
    forall q | q in ByteAt(v, b).ps ensures q == p {
      var i := FromItem(v, q, b);
    }
  }

  lemma {:induction false} IntsKnown(x: Const, y: Const, b: nat, known: bool)
    requires x.CInt? && y.CInt? && b < Size(x) == Size(y)
    requires JoinKnown(known, Over([Extent(0, Size(x), ScalarOf(x))], Nothing), Over([Extent(0, Size(y), ScalarOf(y))], Nothing), Nothing, Size(x), b, false)
    ensures known
  {
    var e, f := Extent(0, Size(x), ScalarOf(x)), Extent(0, Size(y), ScalarOf(y));
    OnlyAt(e, b);
    OnlyAt(f, b);
    assert Knows(known, e, f) && Steady(e.val) && Steady(f.val);
    FreshFew(KScalar, e.val.items, f.val.items);
  }

  lemma {:induction false} EitherInt(x: Const, y: Const, b: nat, now: Abs)
    requires x.CInt? && y.CInt? && ByteInt(x.bits) && ByteInt(y.bits) && b < Size(x) == Size(y) && now.OneOf?
    requires StandsAt(now, Either(OneOf({OfCell(CellAt(x, b))}), OneOf({OfCell(CellAt(y, b))})), false)
    ensures now == OneOf({OfCell(CellAt(x, b)), OfCell(CellAt(y, b))})
  {
    var p, q := OfCell(CellAt(x, b)), OfCell(CellAt(y, b));
    assert Either(OneOf({p}), OneOf({q})).ps == {p, q};
    forall r | r in now.ps ensures r in {p, q} {
      assert FromOne(r, {p, q});
    }
    assert p in {p, q} && q in {p, q};
  }
}
