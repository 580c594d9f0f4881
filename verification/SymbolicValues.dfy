/** `ImprovedValSetSingle`: what is known about one value, what it says about each of its bytes, and
    the merge of two of them (llpe/include/llvm/Analysis/ShadowInlines.h:498-745, mergeValues in
    llpe/main/LoadForward.cpp:3655-3733). */
module SymbolicValues {
  import opened Options
  import opened Constants

  datatype Kind = KUnknown | KPointer | KScalar | KSplat | KFd | KVarArg | KDeallocated | KOldOverdef

  /** `ShadowValue`: a constant, an object, or an opaque token of the given size. */
  datatype Base = K(c: Const) | Obj(id: nat) | Token(id: nat, size: nat)

  /** `ImprovedVal`: a pointer's offset is unknown when `off` is None (LLONG_MAX in the source). */
  datatype Item = Item(v: Base, off: Option<int>)

  datatype Val = Val(kind: Kind, items: seq<Item>, overdef: bool)
  {
    predicate Initialised() { overdef || kind == KDeallocated || kind == KOldOverdef || |items| > 0 }
    predicate WhollyUnknown() { overdef || kind == KDeallocated || kind == KOldOverdef || |items| == 0 }
    function SetOverdef(): Val { Val(kind, [], true) }
  }

  const OVERDEF: Val := Val(KUnknown, [], true)
  const PBMAX: nat := 16

  // ----- what a value says about a byte

  /** One possible content of a byte. A pointer byte with no offset stands for every offset. */
  datatype Pattern =
    | Holds(b: Byte)
    | Anything
    | Address(base: nat, off: Option<int>, k: nat)
    | OddBits(bits: nat, value: nat, k: nat)
    | Opaque(id: nat, off: Option<int>, k: nat)

  /** The possible contents of a byte, or `Top` when nothing is known. */
  datatype Abs = Top | OneOf(ps: set<Pattern>)

  function OfCell(cell: Cell): Pattern
  {
    match cell
    case Known(b) => Holds(b)
    case Any => Anything
    case PtrByte(base, k) => Address(base, Some(0), k)
    case Odd(bits, value, k) => OddBits(bits, value, k)
  }

  /** Byte `k` of one item. A splat or a vararg cookie is the same at every byte. */
  function PatternAt(kind: Kind, item: Item, k: nat): Pattern
  {
    match item.v
    case K(c) =>
      if kind == KSplat then (if c.CInt? then Holds(c.value % 256) else Anything) else OfCell(CellAt(c, k))
    case Obj(id) => Address(id, item.off, k)
    case Token(id, _) => Opaque(id, item.off, if kind == KVarArg then 0 else k)
  }

  function ByteAt(v: Val, k: nat): Abs
  {
    if v.WhollyUnknown() then Top else OneOf(set x | x in v.items :: PatternAt(v.kind, x, k))
  }

  /** Content `q` stands for content `p`: it is the same, or the same pointer at any offset, or zero
      chosen for undef. */
  predicate PatternLeq(p: Pattern, q: Pattern)
  {
    || p == q
    || (p.Anything? && q == Holds(0))
    || (p.Address? && q.Address? && p.base == q.base && p.k == q.k && q.off.None?)
    || (p.Opaque? && q.Opaque? && p.id == q.id && p.k == q.k && q.off.None?)
  }

  /** `a` allows every content that `b` allows. */
  ghost predicate Covers(a: Abs, b: Abs)
  {
    a.Top? || (b.OneOf? && forall p :: p in b.ps ==> exists q :: q in a.ps && PatternLeq(p, q))
  }

  /** A pointer's byte without the offset. */
  function Unplaced(p: Pattern): Pattern
  {
    match p
    case Address(base, _, k) => Address(base, None, k)
    case Opaque(id, _, k) => Opaque(id, None, k)
    case _ => p
  }

  /** One pointer at two offsets. */
  predicate Rivals(p: Pattern, r: Pattern)
  {
    p != r && Unplaced(p) == Unplaced(r)
  }

  /** The content is one of these, or zero chosen for undef, or a pointer whose offset they disagree on. */
  ghost predicate FromOne(q: Pattern, ps: set<Pattern>)
  {
    q in ps || (q == Holds(0) && Anything in ps) || exists p, r :: p in ps && r in ps && Rivals(p, r) && q == Unplaced(p)
  }

  /** What `now` allows, if it is known, comes from what `was` allows. */
  ghost predicate Stems(now: Abs, was: Abs)
  {
    now.Top? || (was.OneOf? && forall q {:trigger FromOne(q, was.ps)} :: q in now.ps ==> FromOne(q, was.ps))
  }

  lemma {:induction false} StemsTrans(a: Abs, b: Abs, c: Abs)
    requires Stems(a, b) && Stems(b, c)
    ensures Stems(a, c)
  {
    if a.OneOf? {
      forall q | q in a.ps ensures FromOne(q, c.ps) {
        assert FromOne(q, b.ps);
        FromOneTrans(q, b.ps, c.ps);
      }
    }
  }

  lemma FromOneTrans(q: Pattern, ps: set<Pattern>, qs: set<Pattern>)
    requires FromOne(q, ps) && forall p {:trigger FromOne(p, qs)} :: p in ps ==> FromOne(p, qs)
    ensures FromOne(q, qs)
  {
    if q in ps {
      assert FromOne(q, qs);
    } else if q == Holds(0) && Anything in ps {
      assert FromOne(Anything, qs);
    } else {
      var p, r :| p in ps && r in ps && Rivals(p, r) && q == Unplaced(p);
      assert FromOne(p, qs) && FromOne(r, qs);
    }
  }

  /** What comes from either of two bytes comes from whatever those come from. */
  lemma {:induction false} StemsEither(now: Abs, a: Abs, b: Abs, was: Abs)
    requires Stems(now, Either(a, b)) && Stems(a, was) && Stems(b, was)
    ensures Stems(now, was)
  {
    if a.OneOf? && b.OneOf? {
      forall q | q in Either(a, b).ps ensures FromOne(q, was.ps) {
        assert q in a.ps || q in b.ps;
        assert FromOne(q, was.ps);
      }
      StemsTrans(now, Either(a, b), was);
    }
  }

  lemma {:induction false} StemsRefl(a: Abs)
    ensures Stems(a, a)
  {
    if a.OneOf? {
      forall q | q in a.ps ensures FromOne(q, a.ps) {
      }
    }
  }

  /** What either of two bytes may hold. */
  ghost function Either(a: Abs, b: Abs): Abs
  {
    if a.Top? || b.Top? then Top else OneOf(a.ps + b.ps)
  }

  lemma CoversRefl(a: Abs)
    ensures Covers(a, a)
  {
  }

  lemma CoversTrans(a: Abs, b: Abs, c: Abs)
    requires Covers(a, b) && Covers(b, c)
    ensures Covers(a, c)
  {
    if a.OneOf? {
      forall p | p in c.ps ensures exists q :: q in a.ps && PatternLeq(p, q) {
        var q :| q in b.ps && PatternLeq(p, q);
        var r :| r in a.ps && PatternLeq(q, r);
      }
    }
  }

  // ----- well-formed values

  predicate ItemFits(kind: Kind, x: Item, len: nat)
  {
    match kind
    case KScalar => x.v.K? && ValidConst(x.v.c) && Size(x.v.c) == len
    case KPointer => len == POINTER_SIZE && (x.v.Obj? || x.v == K(CNull))
    case KSplat => x.v.K? && x.v.c.CInt? && x.v.c.bits == 8 && len > 0
    case KFd => x.v.Token? && x.v.size == len
    case KVarArg => x.v.Token?
    case _ => false
  }

  /** The value can describe `len` bytes, and is not a transient empty one. */
  predicate Fits(v: Val, len: nat)
  {
    && v.Initialised() && v.kind != KDeallocated
    && (v.overdef ==> v.items == [])
    && (v.kind == KOldOverdef ==> v.items == [])
    && |v.items| <= PBMAX
    && forall x {:trigger ItemFits(v.kind, x, len)} :: x in v.items ==> ItemFits(v.kind, x, len)
  }

  // ----- merging

  /** Give every item with this base an unknown offset, if one has a different offset. */
  function Widen(items: seq<Item>, x: Item): (r: seq<Item>)
    ensures |r| == |items|
    ensures forall i :: 0 <= i < |items| ==>
              r[i] == if items[i].v == x.v && items[i].off != x.off then Item(x.v, None) else items[i]
  {
    if items == [] then []
    else
      var n := |items| - 1;
      Widen(items[..n], x) + [if items[n].v == x.v && items[n].off != x.off then Item(x.v, None) else items[n]]
  }

  predicate HasBase(items: seq<Item>, v: Base)
  {
    exists i :: 0 <= i < |items| && items[i].v == v
  }

  /** `insert`: pointers to one object are kept as one item, whose offset is forgotten when they
      differ; past PBMAX items everything is forgotten. A set holds one item per object, so widening
      all items with that base is widening the one. */
  function Insert(s: Val, x: Item): Val
  {
    if s.overdef then s
    else if s.kind == KPointer && HasBase(s.items, x.v) then s.(items := Widen(s.items, x))
    else if s.kind != KPointer && x in s.items then s
    else if |s.items| + 1 > PBMAX then s.SetOverdef()
    else s.(items := s.items + [x])
  }

  function InsertAll(s: Val, xs: seq<Item>): Val
  {
    if xs == [] then s else Insert(InsertAll(s, xs[..|xs| - 1]), xs[|xs| - 1])
  }

  predicate IsNull(x: Item)
  {
    x.v.K? && IsNullConst(x.v.c)
  }

  predicate IsFunction(x: Item)
  {
    x.v.K? && x.v.c.CAddr? && x.v.c.fn
  }

  predicate OnlyZeroes(s: Val)
  {
    |s.items| == 1 && IsNull(s.items[0])
  }

  predicate OnlyNulls(s: Val)
  {
    s.kind == KPointer && OnlyZeroes(s)
  }

  predicate OnlyFunctions(s: Val)
  {
    s.kind == KScalar && forall x :: x in s.items ==> IsFunction(x)
  }

  /** `merge`: the join of two values. */
  function Merge(a: Val, b: Val): Val
  {
    if !b.Initialised() then a
    else if b.overdef then a.(kind := if b.kind == KPointer then KPointer else a.kind).SetOverdef()
    else if a.Initialised() && b.kind != a.kind then
      if a.kind == KDeallocated then b
      else if b.kind == KDeallocated then a
      else if OnlyFunctions(a) && OnlyNulls(b) then Insert(a, b.items[0])
      else if OnlyNulls(a) && OnlyFunctions(b) then InsertAll(a.(kind := KScalar), b.items)
      else a.(kind := if b.kind == KPointer then KPointer else a.kind).SetOverdef()
    else InsertAll(a.(kind := b.kind), b.items)
  }

  lemma PatternIn(v: Val, x: Item, k: nat)
    requires !v.WhollyUnknown() && x in v.items
    ensures PatternAt(v.kind, x, k) in ByteAt(v, k).ps
  {
  }

  /** Each possible content of a byte comes from some item. */
  lemma FromItem(v: Val, p: Pattern, k: nat) returns (i: nat)
    requires !v.WhollyUnknown() && p in ByteAt(v, k).ps
    ensures i < |v.items| && p == PatternAt(v.kind, v.items[i], k)
  {
    var x :| x in v.items && p == PatternAt(v.kind, x, k);
    i :| 0 <= i < |v.items| && v.items[i] == x;
  }

  /** To cover a value it is enough to cover each of its items. */
  lemma CoversItems(a: Abs, v: Val, k: nat)
    requires !v.WhollyUnknown()
    requires forall i :: 0 <= i < |v.items| ==> Covers(a, OneOf({PatternAt(v.kind, v.items[i], k)}))
    ensures Covers(a, ByteAt(v, k))
  {
    if a.OneOf? {
      forall p | p in ByteAt(v, k).ps ensures exists q :: q in a.ps && PatternLeq(p, q) {
        var i := FromItem(v, p, k);
        assert Covers(a, OneOf({PatternAt(v.kind, v.items[i], k)}));
      }
    }
  }

  lemma CoversItem(v: Val, x: Item, p: Pattern, k: nat)
    requires !v.WhollyUnknown() && x in v.items && PatternLeq(p, PatternAt(v.kind, x, k))
    ensures Covers(ByteAt(v, k), OneOf({p}))
  {
    PatternIn(v, x, k);
  }

  predicate Plain(s: Val)
  {
    s.kind != KDeallocated && s.kind != KOldOverdef
  }

  /** Inserting adds the new item's pattern. */
  lemma InsertCoversNew(s: Val, x: Item, k: nat)
    requires Plain(s)
    ensures Covers(ByteAt(Insert(s, x), k), OneOf({PatternAt(s.kind, x, k)}))
  {
    var r := Insert(s, x);
    if !r.overdef {
      if s.kind == KPointer && HasBase(s.items, x.v) {
        var j :| 0 <= j < |s.items| && s.items[j].v == x.v;
        assert r.items[j] in r.items;
        CoversItem(r, r.items[j], PatternAt(s.kind, x, k), k);
      } else {
        assert x in r.items;
        CoversItem(r, x, PatternAt(s.kind, x, k), k);
      }
    }
  }

  /** Inserting keeps what was there. */
  lemma InsertCoversOld(s: Val, x: Item, k: nat)
    requires Plain(s) && !s.WhollyUnknown()
    ensures Covers(ByteAt(Insert(s, x), k), ByteAt(s, k))
  {
    var r := Insert(s, x);
    if !r.overdef {
      forall i | 0 <= i < |s.items| ensures Covers(ByteAt(r, k), OneOf({PatternAt(s.kind, s.items[i], k)})) {
        assert r.items[i] in r.items;
        CoversItem(r, r.items[i], PatternAt(s.kind, s.items[i], k), k);
      }
      CoversItems(ByteAt(r, k), s, k);
    }
  }

  lemma {:induction false} InsertAllShape(s: Val, xs: seq<Item>)
    ensures var r := InsertAll(s, xs);
            r.kind == s.kind && (s.overdef ==> r == s) && (|s.items| > 0 || xs != [] ==> r.overdef || |r.items| > 0)
  {
    if xs != [] {
      InsertAllShape(s, xs[..|xs| - 1]);
    }
  }

  lemma {:induction false} InsertAllCoversOld(s: Val, xs: seq<Item>, k: nat)
    requires Plain(s) && !s.WhollyUnknown()
    ensures Covers(ByteAt(InsertAll(s, xs), k), ByteAt(s, k))
  {
    if xs != [] {
      var m := InsertAll(s, xs[..|xs| - 1]);
      InsertAllShape(s, xs[..|xs| - 1]);
      InsertAllCoversOld(s, xs[..|xs| - 1], k);
      if !m.overdef {
        InsertCoversOld(m, xs[|xs| - 1], k);
        CoversTrans(ByteAt(InsertAll(s, xs), k), ByteAt(m, k), ByteAt(s, k));
      }
    }
  }

  lemma {:induction false} InsertAllCoversNew(s: Val, xs: seq<Item>, i: nat, k: nat)
    requires Plain(s) && i < |xs|
    ensures Covers(ByteAt(InsertAll(s, xs), k), OneOf({PatternAt(s.kind, xs[i], k)}))
  {
    var n := |xs| - 1;
    var m := InsertAll(s, xs[..n]);
    InsertAllShape(s, xs[..n]);
    if i == n {
      InsertCoversNew(m, xs[n], k);
    } else {
      InsertAllCoversNew(s, xs[..n], i, k);
      if !m.overdef {
        InsertCoversOld(m, xs[n], k);
        CoversTrans(ByteAt(InsertAll(s, xs), k), ByteAt(m, k), OneOf({PatternAt(s.kind, xs[i], k)}));
      }
    }
  }

  /** Inserting all of one value's items into another covers both. */
  lemma InsertAllCovers(s: Val, b: Val, k: nat)
    requires Plain(s) && s.kind == b.kind && (s.overdef || !s.WhollyUnknown()) && !b.WhollyUnknown()
    ensures Covers(ByteAt(InsertAll(s, b.items), k), ByteAt(s, k))
    ensures Covers(ByteAt(InsertAll(s, b.items), k), ByteAt(b, k))
  {
    InsertAllShape(s, b.items);
    if !s.overdef {
      InsertAllCoversOld(s, b.items, k);
    }
    forall i | 0 <= i < |b.items| ensures Covers(ByteAt(InsertAll(s, b.items), k), OneOf({PatternAt(b.kind, b.items[i], k)})) {
      InsertAllCoversNew(s, b.items, i, k);
    }
    CoversItems(ByteAt(InsertAll(s, b.items), k), b, k);
  }

  /** Both values may stand in a store: not transient, and not the mark of a freed object. */
  predicate Proper(v: Val)
  {
    v.Initialised() && v.kind != KDeallocated && (v.overdef ==> v.items == []) && (v.kind == KOldOverdef ==> v.items == [])
  }

  /** A null pointer joins a set of functions. */
  lemma InsertNullCovers(a: Val, b: Val, k: nat)
    requires Proper(a) && OnlyFunctions(a) && OnlyNulls(b) && !b.WhollyUnknown()
    ensures Covers(ByteAt(Insert(a, b.items[0]), k), ByteAt(a, k))
    ensures Covers(ByteAt(Insert(a, b.items[0]), k), ByteAt(b, k))
  {
    InsertCoversNew(a, b.items[0], k);
    if !a.overdef {
      InsertCoversOld(a, b.items[0], k);
    }
    assert PatternAt(KScalar, b.items[0], k) == PatternAt(KPointer, b.items[0], k);
    CoversItems(ByteAt(Insert(a, b.items[0]), k), b, k);
  }

  /** A null pointer is the same bytes when it is called a scalar. */
  lemma NullAsScalar(a: Val, k: nat)
    requires OnlyNulls(a) && !a.WhollyUnknown()
    ensures Covers(ByteAt(a.(kind := KScalar), k), ByteAt(a, k))
  {
    var s := a.(kind := KScalar);
    assert PatternAt(KScalar, a.items[0], k) == PatternAt(KPointer, a.items[0], k);
    CoversItem(s, a.items[0], PatternAt(KPointer, a.items[0], k), k);
    CoversItems(ByteAt(s, k), a, k);
  }

  /** The merge of two values allows, at every byte, whatever either allowed. */
  lemma MergeCovers(a: Val, b: Val, k: nat)
    requires Proper(a) && Proper(b)
    ensures Covers(ByteAt(Merge(a, b), k), ByteAt(a, k))
    ensures Covers(ByteAt(Merge(a, b), k), ByteAt(b, k))
  {
    var r := Merge(a, b);
    if b.overdef || b.kind == KOldOverdef {
      assert r.WhollyUnknown();
    } else if b.kind == a.kind {
      InsertAllCovers(a, b, k);
    } else if OnlyFunctions(a) && OnlyNulls(b) {
      InsertNullCovers(a, b, k);
    } else if OnlyNulls(a) && OnlyFunctions(b) {
      var s := a.(kind := KScalar);
      InsertAllCovers(s, b, k);
      NullAsScalar(a, k);
      CoversTrans(ByteAt(r, k), ByteAt(s, k), ByteAt(a, k));
    } else {
      assert r.WhollyUnknown();
    }
  }

  // ----- exactly what a merge holds

  /** Another item with this base has another offset. */
  predicate Contradicted(x: Item, items: seq<Item>)
  {
    exists z :: z in items && z.v == x.v && z.off != x.off
  }

  /** The item, without its offset if that is contradicted. */
  function Widened(x: Item, items: seq<Item>): Item
  {
    if Contradicted(x, items) then Item(x.v, None) else x
  }

  /** The items of a set `xs` that `ys` has joined: those of both, but for pointers to one object, which become
      one item, and forget their offsets where those differ. */
  ghost predicate JoinsItem(kind: Kind, xs: seq<Item>, ys: seq<Item>, y: Item)
  {
    if kind != KPointer then y in xs || y in ys
    else (exists x :: x in xs && y == Widened(x, ys)) || (!HasBase(xs, y.v) && exists z :: z in ys && z.v == y.v && y == Widened(z, ys))
  }

  /** What counts once in a set: an object, or an item. */
  function KeyOf(kind: Kind, x: Item): Item
  {
    if kind == KPointer then Item(x.v, None) else x
  }

  function Keys(kind: Kind, items: seq<Item>): set<Item>
  {
    if items == [] then {} else Keys(kind, items[..|items| - 1]) + {KeyOf(kind, items[|items| - 1])}
  }

  lemma {:induction false} KeysAre(kind: Kind, items: seq<Item>, k: Item)
    ensures k in Keys(kind, items) <==> exists x :: x in items && k == KeyOf(kind, x)
  {
    if items != [] {
      var front, last := items[..|items| - 1], items[|items| - 1];
      assert items == front + [last];
      KeysAre(kind, front, k);
    }
  }

  /** The object, or the item, is there. */
  predicate Present(kind: Kind, items: seq<Item>, x: Item)
  {
    if kind == KPointer then HasBase(items, x.v) else x in items
  }

  /** How many of `ys` are neither in `xs` nor earlier in `ys`. */
  function Fresh(kind: Kind, xs: seq<Item>, ys: seq<Item>): nat
  {
    if ys == [] then 0
    else
      var front, x := ys[..|ys| - 1], ys[|ys| - 1];
      Fresh(kind, xs, front) + if Present(kind, xs, x) || Present(kind, front, x) then 0 else 1
  }

  /** That many keys are added. */
  lemma {:induction false} FreshKeys(kind: Kind, xs: seq<Item>, ys: seq<Item>)
    ensures Fresh(kind, xs, ys) == |Keys(kind, ys) - Keys(kind, xs)|
  {
    if ys == [] {
      assert Keys(kind, []) - Keys(kind, xs) == {};
    } else {
      var front, x := ys[..|ys| - 1], ys[|ys| - 1];
      assert ys == front + [x];
      FreshKeys(kind, xs, front);
      KeysGrow(kind, xs, front, x);
      KeyPresent(kind, xs, x);
      KeyPresent(kind, front, x);
    }
  }

  /** With what `ys` adds to `xs` there are too many items. */
  predicate Crowded(kind: Kind, xs: seq<Item>, ys: seq<Item>)
  {
    |xs| + Fresh(kind, xs, ys) > PBMAX
  }

  lemma KeysSnoc(kind: Kind, ys: seq<Item>, x: Item)
    ensures Keys(kind, ys + [x]) == Keys(kind, ys) + {KeyOf(kind, x)}
  {
    assert (ys + [x])[..|ys|] == ys;
  }

  /** The keys of what has been joined. */
  lemma {:induction false} JoinedKeys(kind: Kind, xs: seq<Item>, ys: seq<Item>, items: seq<Item>)
    requires forall y :: y in items <==> JoinsItem(kind, xs, ys, y)
    ensures Keys(kind, items) == Keys(kind, xs) + Keys(kind, ys)
  {
    forall k ensures k in Keys(kind, items) <==> k in Keys(kind, xs) + Keys(kind, ys) {
      KeysAre(kind, items, k);
      KeysAre(kind, xs, k);
      KeysAre(kind, ys, k);
      JoinedKey(kind, xs, ys, items, k);
    }
  }

  lemma {:induction false} JoinedKey(kind: Kind, xs: seq<Item>, ys: seq<Item>, items: seq<Item>, k: Item)
    requires forall y :: y in items <==> JoinsItem(kind, xs, ys, y)
    ensures (exists y :: y in items && k == KeyOf(kind, y)) <==> (exists x :: x in xs && k == KeyOf(kind, x)) || (exists z :: z in ys && k == KeyOf(kind, z))
  {
    if y :| y in items && k == KeyOf(kind, y) {
      assert JoinsItem(kind, xs, ys, y);
    }
    if x :| x in xs && k == KeyOf(kind, x) {
      assert JoinsItem(kind, xs, ys, if kind == KPointer then Widened(x, ys) else x);
    }
    if z :| z in ys && k == KeyOf(kind, z) {
      if kind == KPointer && HasBase(xs, z.v) {
        var i :| 0 <= i < |xs| && xs[i].v == z.v;
        assert JoinsItem(kind, xs, ys, Widened(xs[i], ys));
      } else {
        assert JoinsItem(kind, xs, ys, if kind == KPointer then Widened(z, ys) else z);
      }
    }
  }

  lemma {:induction false} KeyPresent(kind: Kind, items: seq<Item>, x: Item)
    ensures KeyOf(kind, x) in Keys(kind, items) <==> Present(kind, items, x)
  {
    KeysAre(kind, items, KeyOf(kind, x));
    if kind == KPointer && HasBase(items, x.v) {
      var i :| 0 <= i < |items| && items[i].v == x.v;
      assert items[i] in items;
    }
    if y :| y in items && KeyOf(kind, y) == KeyOf(kind, x) {
      var i :| 0 <= i < |items| && items[i] == y;
    }
  }

  /** What inserting one more item makes of a join. */
  lemma {:induction false} InsertJoins(kind: Kind, xs: seq<Item>, ys: seq<Item>, x: Item, s: Val, y: Item)
    requires s.kind == kind && !s.overdef && !Insert(s, x).overdef && forall z :: z in s.items <==> JoinsItem(kind, xs, ys, z)
    ensures y in Insert(s, x).items <==> JoinsItem(kind, xs, ys + [x], y)
  {
    if kind == KPointer {
      if HasBase(s.items, x.v) {
        WidenJoins(xs, ys, x, s.items, y);
      } else {
        FreshJoins(xs, ys, x, s.items, y);
      }
    }
  }

  lemma WidenedSnoc(x: Item, ys: seq<Item>, z: Item)
    ensures Widened(x, ys + [z]) == if x.v == z.v && Widened(x, ys).off != z.off then Item(x.v, None) else Widened(x, ys)
  {
    if Contradicted(x, ys) {
      var w :| w in ys && w.v == x.v && w.off != x.off;
      assert w in ys + [z];
    }
    assert z in ys + [z];
  }

  lemma InWiden(items: seq<Item>, x: Item, y: Item)
    ensures y in Widen(items, x) <==> exists w :: w in items && y == if w.v == x.v && w.off != x.off then Item(x.v, None) else w
  {
    var r := Widen(items, x);
    if y in r {
      var i :| 0 <= i < |r| && r[i] == y;
      assert items[i] in items;
    }
    if w :| w in items && y == if w.v == x.v && w.off != x.off then Item(x.v, None) else w {
      var i :| 0 <= i < |items| && items[i] == w;
      assert r[i] == y;
    }
  }

  lemma {:induction false} WidenJoins(xs: seq<Item>, ys: seq<Item>, x: Item, items: seq<Item>, y: Item)
    requires HasBase(items, x.v) && forall z :: z in items <==> JoinsItem(KPointer, xs, ys, z)
    ensures y in Widen(items, x) <==> JoinsItem(KPointer, xs, ys + [x], y)
  {
    InWiden(items, x, y);
    if y in Widen(items, x) {
      var w :| w in items && y == if w.v == x.v && w.off != x.off then Item(x.v, None) else w;
      JoinsMore(xs, ys, x, w, y);
    }
    if JoinsItem(KPointer, xs, ys + [x], y) {
      var w := JoinedBefore(xs, ys, x, items, y);
    }
  }

  lemma {:induction false} JoinsMore(xs: seq<Item>, ys: seq<Item>, x: Item, w: Item, y: Item)
    requires JoinsItem(KPointer, xs, ys, w) && y == if w.v == x.v && w.off != x.off then Item(x.v, None) else w
    ensures JoinsItem(KPointer, xs, ys + [x], y)
  {
    if x0 :| x0 in xs && w == Widened(x0, ys) {
      WidenedSnoc(x0, ys, x);
    } else {
      var z :| z in ys && z.v == w.v && w == Widened(z, ys);
      WidenedSnoc(z, ys, x);
      assert z in ys + [x];
    }
  }

  lemma {:induction false} JoinedBefore(xs: seq<Item>, ys: seq<Item>, x: Item, items: seq<Item>, y: Item) returns (w: Item)
    requires HasBase(items, x.v) && (forall z :: z in items <==> JoinsItem(KPointer, xs, ys, z)) && JoinsItem(KPointer, xs, ys + [x], y)
    ensures w in items && y == if w.v == x.v && w.off != x.off then Item(x.v, None) else w
  {
    if x0 :| x0 in xs && y == Widened(x0, ys + [x]) {
      WidenedSnoc(x0, ys, x);
      w := Widened(x0, ys);
      assert JoinsItem(KPointer, xs, ys, w);
    } else {
      var z :| z in ys + [x] && z.v == y.v && y == Widened(z, ys + [x]);
      if z !in ys {
        // the base is among what was joined, so an earlier item has it
        var i :| 0 <= i < |items| && items[i].v == x.v;
        assert JoinsItem(KPointer, xs, ys, items[i]);
        var z0 :| z0 in ys && z0.v == x.v && items[i] == Widened(z0, ys);
        assert z0 in ys + [x] && z in ys + [x];
        SameWidened(z0, z, ys + [x]);
        z := z0;
      }
      WidenedSnoc(z, ys, x);
      w := Widened(z, ys);
      assert JoinsItem(KPointer, xs, ys, w);
    }
  }

  lemma SameWidened(a: Item, b: Item, items: seq<Item>)
    requires a in items && b in items && a.v == b.v
    ensures Widened(a, items) == Widened(b, items)
  {
  }

  lemma {:induction false} FreshJoins(xs: seq<Item>, ys: seq<Item>, x: Item, items: seq<Item>, y: Item)
    requires !HasBase(items, x.v) && forall z :: z in items <==> JoinsItem(KPointer, xs, ys, z)
    ensures y in items + [x] <==> JoinsItem(KPointer, xs, ys + [x], y)
  {
    NoBase(xs, ys, x, items);
    if y in items {
      JoinsMore(xs, ys, x, y, y);
    }
    if y == x {
      assert x in ys + [x] && Widened(x, ys + [x]) == x;
    }
    if JoinsItem(KPointer, xs, ys + [x], y) && y != x {
      if x0 :| x0 in xs && y == Widened(x0, ys + [x]) {
        WidenedSnoc(x0, ys, x);
        assert JoinsItem(KPointer, xs, ys, y);
      } else {
        var z :| z in ys + [x] && z.v == y.v && y == Widened(z, ys + [x]);
        WidenedSnoc(z, ys, x);
        assert z in ys;
        assert JoinsItem(KPointer, xs, ys, y);
      }
    }
  }

  lemma {:induction false} NoBase(xs: seq<Item>, ys: seq<Item>, x: Item, items: seq<Item>)
    requires !HasBase(items, x.v) && forall z :: z in items <==> JoinsItem(KPointer, xs, ys, z)
    ensures !HasBase(xs, x.v) && forall z :: z in ys ==> z.v != x.v
  {
    JoinedKeys(KPointer, xs, ys, items);
    KeyPresent(KPointer, items, x);
    KeyPresent(KPointer, xs, x);
    KeyPresent(KPointer, ys, x);
    forall z | z in ys ensures z.v != x.v {
      var i :| 0 <= i < |ys| && ys[i] == z;
    }
  }

  /** Inserting items one by one: how many there are, when they are too many, and what they are. */
  lemma {:induction false} InsertAllExactly(s: Val, ys: seq<Item>)
    requires !s.overdef && |s.items| <= PBMAX
    ensures var r := InsertAll(s, ys);
            && r.kind == s.kind && (r.overdef <==> Crowded(s.kind, s.items, ys))
            && (!r.overdef ==> |r.items| == |s.items| + Fresh(s.kind, s.items, ys))
            && (!r.overdef ==> forall y :: y in r.items <==> JoinsItem(s.kind, s.items, ys, y))
  {
    if ys == [] {
      NothingJoins(s.kind, s.items);
    } else {
      var front, x := ys[..|ys| - 1], ys[|ys| - 1];
      assert ys == front + [x];
      InsertAllExactly(s, front);
      var m := InsertAll(s, front);
      if !m.overdef {
        PresentAfter(s.kind, s.items, front, m.items, x);
        if !Insert(m, x).overdef {
          forall y ensures y in Insert(m, x).items <==> JoinsItem(s.kind, s.items, ys, y) {
            InsertJoins(s.kind, s.items, front, x, m, y);
          }
        }
      }
    }
  }

  lemma {:induction false} PresentAfter(kind: Kind, xs: seq<Item>, ys: seq<Item>, items: seq<Item>, x: Item)
    requires forall y :: y in items <==> JoinsItem(kind, xs, ys, y)
    ensures Present(kind, items, x) <==> Present(kind, xs, x) || Present(kind, ys, x)
  {
    JoinedKeys(kind, xs, ys, items);
    KeyPresent(kind, items, x);
    KeyPresent(kind, xs, x);
    KeyPresent(kind, ys, x);
  }

  /** One more item adds a key, or none. */
  lemma {:induction false} KeysGrow(kind: Kind, xs: seq<Item>, front: seq<Item>, x: Item)
    ensures var have, key := Keys(kind, xs), KeyOf(kind, x);
            |Keys(kind, front + [x]) - have| == |Keys(kind, front) - have| + if key in have + Keys(kind, front) then 0 else 1
  {
    KeysSnoc(kind, front, x);
    var have, key := Keys(kind, xs), KeyOf(kind, x);
    var few, more := Keys(kind, front) - have, Keys(kind, front + [x]) - have;
    assert more == if key in have + Keys(kind, front) then few else few + {key};
  }

  lemma NothingJoins(kind: Kind, xs: seq<Item>)
    ensures forall y :: y in xs <==> JoinsItem(kind, xs, [], y)
  {
    forall y | y in xs ensures JoinsItem(kind, xs, [], y) {
      assert y == Widened(y, []);
    }
  }

  /** Two known values that can be told by one kind. */
  ghost predicate Meets(a: Val, b: Val)
  {
    && !a.WhollyUnknown() && !b.WhollyUnknown()
    && (a.kind == b.kind || (OnlyFunctions(a) && OnlyNulls(b)) || (OnlyNulls(a) && OnlyFunctions(b)))
  }

  ghost function MeetKind(a: Val, b: Val): Kind
  {
    if a.kind == b.kind then a.kind else KScalar
  }

  /** The merge of two values is known exactly when both are, they meet, and their items are not too
      many; it then has the items of both. */
  lemma {:induction false} MergeExactly(a: Val, b: Val)
    requires Proper(a) && Proper(b) && |a.items| <= PBMAX
    ensures var r, kind := Merge(a, b), MeetKind(a, b);
            && (!r.WhollyUnknown() <==> Meets(a, b) && !Crowded(kind, a.items, b.items))
            && (!r.WhollyUnknown() ==> r.kind == kind && forall y :: y in r.items <==> JoinsItem(kind, a.items, b.items, y))
            && (!r.WhollyUnknown() && a.kind == b.kind ==> |r.items| == |a.items| + Fresh(kind, a.items, b.items))
  {
    var r := Merge(a, b);
    if Meets(a, b) {
      var s := a.(kind := MeetKind(a, b));
      InsertAllExactly(s, b.items);
      InsertAllShape(s, b.items);
      if a.kind != b.kind && OnlyNulls(b) {
        assert b.items == [b.items[0]] && b.items[..0] == [];
        assert InsertAll(s, b.items) == Insert(InsertAll(s, []), b.items[0]);
      }
    } else {
      MergeForgets(a, b);
    }
  }

  lemma {:induction false} MergeForgets(a: Val, b: Val)
    requires Proper(a) && Proper(b) && !Meets(a, b)
    ensures Merge(a, b).WhollyUnknown()
  {
    if !b.overdef && a.kind == b.kind {
      InsertAllShape(a, b.items);
      assert a.overdef || a.kind == KOldOverdef;
    }
  }

  /** The bytes of a merge are those of the two values, a pointer's offset perhaps forgotten. */
  lemma {:induction false} MergeBytes(a: Val, b: Val, k: nat)
    requires Proper(a) && Proper(b) && |a.items| <= PBMAX
    ensures var stems := Stems(ByteAt(Merge(a, b), k), Either(ByteAt(a, k), ByteAt(b, k))); stems
    ensures !Merge(a, b).WhollyUnknown() && MeetKind(a, b) != KPointer ==> ByteAt(Merge(a, b), k) == Either(ByteAt(a, k), ByteAt(b, k))
  {
    MergeExactly(a, b);
    var r, kind, both := Merge(a, b), MeetKind(a, b), Either(ByteAt(a, k), ByteAt(b, k));
    if !r.WhollyUnknown() {
      forall q | q in ByteAt(r, k).ps
        ensures FromOne(q, both.ps)
        ensures kind != KPointer ==> q in both.ps
      {
        MergedPattern(a, b, k, q);
      }
      if kind != KPointer {
        forall p | p in both.ps ensures p in ByteAt(r, k).ps {
          SidePattern(a, b, k, p);
        }
      }
    }
  }

  lemma {:induction false} MergedPattern(a: Val, b: Val, k: nat, q: Pattern)
    requires Proper(a) && Proper(b) && |a.items| <= PBMAX && !Merge(a, b).WhollyUnknown() && Meets(a, b) && q in ByteAt(Merge(a, b), k).ps
    ensures FromOne(q, Either(ByteAt(a, k), ByteAt(b, k)).ps)
    ensures MeetKind(a, b) != KPointer ==> q in Either(ByteAt(a, k), ByteAt(b, k)).ps
  {
    MergeExactly(a, b);
    var r, kind := Merge(a, b), MeetKind(a, b);
    var i := FromItem(r, q, k);
    var y := r.items[i];
    assert JoinsItem(kind, a.items, b.items, y);
    var x, z := Source(kind, a.items, b.items, y);
    MeetIn(a, b, x, k);
    MeetIn(a, b, z, k);
    if y != x {
      assert PatternAt(kind, x, k) == PatternAt(kind, z, k) == q || Rivals(PatternAt(kind, x, k), PatternAt(kind, z, k));
    }
  }

  lemma {:induction false} MeetIn(a: Val, b: Val, x: Item, k: nat)
    requires Meets(a, b) && (x in a.items || x in b.items)
    ensures PatternAt(MeetKind(a, b), x, k) in Either(ByteAt(a, k), ByteAt(b, k)).ps
  {
    MeetPatterns(a, b, x, k);
    if x in a.items {
      PatternIn(a, x, k);
    } else {
      PatternIn(b, x, k);
    }
  }

  /** Where an item of a join comes from; and if its offset was forgotten, which item disagrees on it. */
  lemma {:induction false} Source(kind: Kind, xs: seq<Item>, ys: seq<Item>, y: Item) returns (x: Item, z: Item)
    requires JoinsItem(kind, xs, ys, y)
    ensures (x in xs || x in ys) && (z in xs || z in ys)
    ensures y == x || (kind == KPointer && y == Item(x.v, None) && z.v == x.v && z.off != x.off)
  {
    if kind != KPointer {
      x, z := y, y;
    } else {
      if x0 :| x0 in xs && y == Widened(x0, ys) {
        x := x0;
      } else {
        x :| x in ys && x.v == y.v && y == Widened(x, ys);
      }
      z := x;
      if Contradicted(x, ys) {
        z :| z in ys && z.v == x.v && z.off != x.off;
      }
    }
  }

  /** Where a null meets functions its bytes are the same under either kind. */
  lemma {:induction false} MeetPatterns(a: Val, b: Val, x: Item, k: nat)
    requires Meets(a, b)
    ensures x in a.items ==> PatternAt(a.kind, x, k) == PatternAt(MeetKind(a, b), x, k)
    ensures x in b.items ==> PatternAt(b.kind, x, k) == PatternAt(MeetKind(a, b), x, k)
  {
    if a.kind != b.kind {
      forall y | y in a.items || y in b.items ensures y.v.K? {
        assert OnlyNulls(b) && y in b.items ==> y == b.items[0];
        assert OnlyNulls(a) && y in a.items ==> y == a.items[0];
      }
    }
  }

  lemma {:induction false} SidePattern(a: Val, b: Val, k: nat, p: Pattern)
    requires Proper(a) && Proper(b) && |a.items| <= PBMAX && !Merge(a, b).WhollyUnknown() && Meets(a, b) && MeetKind(a, b) != KPointer
    requires p in Either(ByteAt(a, k), ByteAt(b, k)).ps
    ensures p in ByteAt(Merge(a, b), k).ps
  {
    MergeExactly(a, b);
    var r := Merge(a, b);
    if p in ByteAt(a, k).ps {
      var i := FromItem(a, p, k);
      assert a.items[i] in a.items;
      MeetPatterns(a, b, a.items[i], k);
      PatternIn(r, a.items[i], k);
    } else {
      var i := FromItem(b, p, k);
      assert b.items[i] in b.items;
      MeetPatterns(a, b, b.items[i], k);
      PatternIn(r, b.items[i], k);
    }
  }

  // ----- merging stored values

  function Repeat(b: nat, n: nat): (r: seq<nat>)
    ensures |r| == n && forall i :: 0 <= i < n ==> r[i] == b
  {
    if n == 0 then [] else Repeat(b, n - 1) + [b]
  }

  /** `len` equal bytes: data, or a zero. */
  function Filled(b: nat, len: nat): Const
  {
    if b == 0 then CZero(ArrayTy(IntTy(8, 1), len)) else CData(8, 1, Repeat(b, len))
  }

  /** One splat item written out as `len` bytes. */
  function SplatItem(x: Item, len: nat): Item
  {
    if x.v.K? && x.v.c.CInt? then Item(K(Filled(x.v.c.value % 256, len)), None) else x
  }

  function SplatItems(items: seq<Item>, len: nat): (r: seq<Item>)
    ensures |r| == |items| && forall i :: 0 <= i < |items| ==> r[i] == SplatItem(items[i], len)
  {
    if items == [] then [] else SplatItems(items[..|items| - 1], len) + [SplatItem(items[|items| - 1], len)]
  }

  /** `scalarSplatToScalar`. */
  function SplatToScalar(s: Val, len: nat): Val
  {
    Val(KScalar, SplatItems(s.items, len), false)
  }

  /** The null value of the type of an item: a null pointer for objects and pointer constants. */
  function NullLike(x: Item): Val
  {
    if x.v.K? && !TyOf(x.v.c).PtrTy? then Val(KScalar, [Item(K(NullOf(TyOf(x.v.c))), None)], false)
    else Val(KPointer, [Item(K(CNull), Some(0))], false)
  }

  predicate Bits(v: Val)
  {
    (v.kind == KScalar || v.kind == KSplat) && |v.items| > 0
  }

  predicate Pointers(v: Val)
  {
    v.kind == KPointer && |v.items| > 0
  }

  /** `mergeValues`, with the vararg special case off: splats are written out to meet scalars, and
      zeroes become null pointers (or the other way round) to meet pointers. */
  function MergeValues(a: Val, b: Val, len: nat): Val
  {
    if a.kind == KSplat && |a.items| > 0 && b.kind == KScalar && |b.items| > 0 then Merge(SplatToScalar(a, len), b)
    else if a.kind == KScalar && |a.items| > 0 && b.kind == KSplat && |b.items| > 0 then Merge(a, SplatToScalar(b, len))
    else if (Bits(a) && Pointers(b)) || (Bits(b) && Pointers(a)) then
      if OnlyZeroes(a) then Merge(NullLike(b.items[0]), b)
      else if OnlyZeroes(b) then Merge(a, NullLike(a.items[0]))
      else Merge(a, b)
    else Merge(a, b)
  }

  lemma InsertFits(s: Val, x: Item, len: nat)
    requires ItemFits(s.kind, x, len)
    requires s.overdef ==> s.items == []
    requires |s.items| <= PBMAX && forall y :: y in s.items ==> ItemFits(s.kind, y, len)
    ensures var r := Insert(s, x);
            && r.kind == s.kind && (r.overdef ==> r.items == []) && (r.overdef || |r.items| > 0)
            && |r.items| <= PBMAX && forall y :: y in r.items ==> ItemFits(s.kind, y, len)
  {
    var r := Insert(s, x);
    forall y | y in r.items ensures ItemFits(s.kind, y, len) {
      var i :| 0 <= i < |r.items| && r.items[i] == y;
      assert i < |s.items| ==> s.items[i] in s.items;
    }
  }

  lemma {:induction false} InsertAllFits(s: Val, xs: seq<Item>, len: nat)
    requires s.overdef ==> s.items == []
    requires forall y :: y in xs ==> ItemFits(s.kind, y, len)
    requires |s.items| <= PBMAX && forall y :: y in s.items ==> ItemFits(s.kind, y, len)
    ensures var r := InsertAll(s, xs);
            && r.kind == s.kind && (r.overdef ==> r.items == [])
            && (xs != [] || s.overdef || |s.items| > 0 ==> r.overdef || |r.items| > 0)
            && |r.items| <= PBMAX && forall y :: y in r.items ==> ItemFits(s.kind, y, len)
  {
    if xs != [] {
      InsertAllFits(s, xs[..|xs| - 1], len);
      InsertFits(InsertAll(s, xs[..|xs| - 1]), xs[|xs| - 1], len);
    }
  }

  /** Two values of one length merge to a value of that length. */
  lemma MergeFits(a: Val, b: Val, len: nat)
    requires Fits(a, len) && Fits(b, len)
    ensures Fits(Merge(a, b), len)
  {
    if b.overdef {
    } else if b.kind == a.kind {
      InsertAllFits(a, b.items, len);
    } else if OnlyFunctions(a) && OnlyNulls(b) {
      assert ItemFits(KPointer, b.items[0], len) && ValidConst(CNull) && Size(CNull) == POINTER_SIZE;
      InsertFits(a, b.items[0], len);
    } else if OnlyNulls(a) && OnlyFunctions(b) {
      assert ItemFits(KPointer, a.items[0], len) && ValidConst(CNull) && Size(CNull) == POINTER_SIZE;
      InsertAllFits(a.(kind := KScalar), b.items, len);
    }
  }

  lemma SplatCell(b: nat, len: nat, k: nat)
    requires b < 256 && k < len
    ensures CellAt(Filled(b, len), k) == Known(b) && ValidConst(Filled(b, len)) && Size(Filled(b, len)) == len
  {
    if b > 0 {
      DataCell(Repeat(b, len), k);
    }
    assert AllocSize(ArrayTy(IntTy(8, 1), len)) == len;
  }

  /** Writing a splat out changes no byte of it. */
  lemma SplatToScalarSame(s: Val, len: nat, k: nat)
    requires Fits(s, len) && s.kind == KSplat && |s.items| > 0 && k < len
    ensures Fits(SplatToScalar(s, len), len)
    ensures Covers(ByteAt(SplatToScalar(s, len), k), ByteAt(s, k))
  {
    var r := SplatToScalar(s, len);
    forall i | 0 <= i < |s.items|
      ensures ItemFits(KScalar, r.items[i], len)
      ensures Covers(ByteAt(r, k), OneOf({PatternAt(KSplat, s.items[i], k)}))
    {
      assert s.items[i] in s.items && r.items[i] in r.items && ItemFits(KSplat, s.items[i], len);
      SplatCell(s.items[i].v.c.value % 256, len, k);
      CoversItem(r, r.items[i], PatternAt(KSplat, s.items[i], k), k);
    }
    CoversItems(ByteAt(r, k), s, k);
    forall y | y in r.items ensures ItemFits(KScalar, y, len) {
      var i :| 0 <= i < |r.items| && r.items[i] == y;
    }
  }

  lemma NullCell(c: Const, k: nat)
    requires ValidConst(c) && IsNullConst(c) && k < Size(c)
    ensures CellAt(c, k) == Known(0)
  {
    if c.CInt? && ByteInt(c.bits) {
      ZeroDiv(Pow256(k));
    }
  }

  lemma ZeroDiv(d: nat)
    requires d > 0
    ensures 0 / d == 0
  {
  }

  /** The bytes of a zero are zero. */
  lemma ZeroBytes(a: Val, len: nat, k: nat)
    requires Fits(a, len) && OnlyZeroes(a) && a.kind in {KScalar, KSplat, KPointer} && k < len
    ensures PatternAt(a.kind, a.items[0], k) == Holds(0) && ByteAt(a, k) == OneOf({Holds(0)})
  {
    assert a.items[0] in a.items && ItemFits(a.kind, a.items[0], len);
    if a.kind != KSplat {
      NullCell(a.items[0].v.c, k);
    }
    assert forall x :: x in a.items ==> x == a.items[0];
    assert ByteAt(a, k).ps == {Holds(0)} by {
      PatternIn(a, a.items[0], k);
    }
  }

  /** The null of an item's type is a zero of the same length. */
  lemma NullLikeFits(x: Item, kind: Kind, len: nat)
    requires ItemFits(kind, x, len) && (kind == KScalar || kind == KPointer)
    ensures Fits(NullLike(x), len) && OnlyZeroes(NullLike(x)) && NullLike(x).kind in {KScalar, KPointer}
  {
    assert ValidConst(CNull) && Size(CNull) == POINTER_SIZE;
  }

  lemma NullLikeCovers(a: Val, x: Item, kind: Kind, len: nat, k: nat)
    requires Fits(a, len) && OnlyZeroes(a) && a.kind in {KScalar, KSplat, KPointer} && k < len
    requires ItemFits(kind, x, len) && (kind == KScalar || kind == KPointer)
    ensures Covers(ByteAt(NullLike(x), k), ByteAt(a, k))
  {
    NullLikeFits(x, kind, len);
    ZeroBytes(a, len, k);
    ZeroBytes(NullLike(x), len, k);
  }

  /** Splat against pointer: neither side can be converted to the other, and all is forgotten. */
  lemma SplatPointerForgets(a: Val, b: Val, len: nat)
    requires Fits(a, len) && Fits(b, len)
    requires (a.kind == KSplat && |a.items| > 0 && Pointers(b) && !OnlyZeroes(a))
             || (b.kind == KSplat && |b.items| > 0 && Pointers(a) && (OnlyZeroes(a) || !OnlyZeroes(b)))
    ensures MergeValues(a, b, len).overdef && MergeValues(a, b, len).items == []
  {
    if a.kind == KSplat {
      assert a.items[0] in a.items;
    } else {
      assert b.items[0] in b.items;
    }
  }

  /** One turn of a conversion: `a'` stands for `a`, and merging it keeps both sides. */
  lemma MergeThrough(a: Val, a': Val, b: Val, len: nat, k: nat)
    requires Fits(a', len) && Fits(b, len) && Covers(ByteAt(a', k), ByteAt(a, k))
    ensures Fits(Merge(a', b), len)
    ensures Covers(ByteAt(Merge(a', b), k), ByteAt(a, k)) && Covers(ByteAt(Merge(a', b), k), ByteAt(b, k))
  {
    MergeFits(a', b, len);
    MergeCovers(a', b, k);
    CoversTrans(ByteAt(Merge(a', b), k), ByteAt(a', k), ByteAt(a, k));
  }

  lemma MergeThroughRight(a: Val, b: Val, b': Val, len: nat, k: nat)
    requires Fits(a, len) && Fits(b', len) && Covers(ByteAt(b', k), ByteAt(b, k))
    ensures Fits(Merge(a, b'), len)
    ensures Covers(ByteAt(Merge(a, b'), k), ByteAt(a, k)) && Covers(ByteAt(Merge(a, b'), k), ByteAt(b, k))
  {
    MergeFits(a, b', len);
    MergeCovers(a, b', k);
    CoversTrans(ByteAt(Merge(a, b'), k), ByteAt(b', k), ByteAt(b, k));
  }

  /** Merging two stored values of one length gives a value of that length that allows, at every
      byte, whatever either allowed. */
  lemma MergeValuesSound(a: Val, b: Val, len: nat, k: nat)
    requires Fits(a, len) && Fits(b, len) && k < len
    ensures Fits(MergeValues(a, b, len), len)
    ensures Covers(ByteAt(MergeValues(a, b, len), k), ByteAt(a, k))
    ensures Covers(ByteAt(MergeValues(a, b, len), k), ByteAt(b, k))
  {
    if a.kind == KSplat && |a.items| > 0 && b.kind == KScalar && |b.items| > 0 {
      SplatToScalarSame(a, len, k);
      MergeThrough(a, SplatToScalar(a, len), b, len, k);
    } else if a.kind == KScalar && |a.items| > 0 && b.kind == KSplat && |b.items| > 0 {
      SplatToScalarSame(b, len, k);
      MergeThroughRight(a, b, SplatToScalar(b, len), len, k);
    } else if (Bits(a) && Pointers(b)) || (Bits(b) && Pointers(a)) {
      MergeZeroes(a, b, len, k);
    } else {
      MergeThrough(a, a, b, len, k);
    }
  }

  lemma MergeZeroes(a: Val, b: Val, len: nat, k: nat)
    requires Fits(a, len) && Fits(b, len) && k < len
    requires (Bits(a) && Pointers(b)) || (Bits(b) && Pointers(a))
    ensures Fits(MergeValues(a, b, len), len)
    ensures Covers(ByteAt(MergeValues(a, b, len), k), ByteAt(a, k))
    ensures Covers(ByteAt(MergeValues(a, b, len), k), ByteAt(b, k))
  {
    if OnlyZeroes(a) && b.kind != KSplat {
      assert b.items[0] in b.items;
      NullLikeFits(b.items[0], b.kind, len);
      NullLikeCovers(a, b.items[0], b.kind, len, k);
      MergeThrough(a, NullLike(b.items[0]), b, len, k);
    } else if !OnlyZeroes(a) && OnlyZeroes(b) && a.kind != KSplat {
      assert a.items[0] in a.items;
      NullLikeFits(a.items[0], a.kind, len);
      NullLikeCovers(b, a.items[0], a.kind, len, k);
      MergeThroughRight(a, b, NullLike(a.items[0]), len, k);
    } else if a.kind == KSplat || b.kind == KSplat {
      SplatPointerForgets(a, b, len);
    } else {
      MergeThrough(a, a, b, len, k);
    }
  }

  // ----- exactly what merged stored values hold

  /** A zero that can be had as a null of the other value's type. */
  ghost predicate ZeroMeets(z: Val, o: Val)
  {
    OnlyZeroes(z) && ((Bits(z) && Pointers(o)) || (Pointers(z) && Bits(o) && o.kind == KScalar && (NullLike(o.items[0]).kind == KScalar || OnlyFunctions(o))))
  }

  /** One side is a zero that has to be converted to meet the other; of two zeroes the first is. */
  ghost predicate Converts(a: Val, b: Val)
  {
    ((Bits(a) && Pointers(b)) || (Bits(b) && Pointers(a))) && (if OnlyZeroes(a) then ZeroMeets(a, b) else ZeroMeets(b, a))
  }

  /** Two known values that can be told by one kind, if need be after a conversion. */
  ghost predicate MeetsValues(a: Val, b: Val)
  {
    && !a.WhollyUnknown() && !b.WhollyUnknown()
    && (a.kind == b.kind || (Bits(a) && Bits(b)) || Converts(a, b))
  }

  /** The first value in the kind in which the two meet. */
  ghost function FormLeft(a: Val, b: Val, len: nat): Val
  {
    if a.kind == KSplat && b.kind == KScalar then SplatToScalar(a, len)
    else if a.kind != b.kind && OnlyZeroes(a) && Converts(a, b) then NullLike(b.items[0])
    else a
  }

  ghost function FormRight(a: Val, b: Val, len: nat): Val
  {
    if b.kind == KSplat && a.kind == KScalar then SplatToScalar(b, len)
    else if a.kind != b.kind && !OnlyZeroes(a) && Converts(a, b) then NullLike(a.items[0])
    else b
  }

  /** Together they have too many items. */
  ghost predicate CrowdedValues(a: Val, b: Val, len: nat)
  {
    var x, y := FormLeft(a, b, len), FormRight(a, b, len);
    Crowded(MeetKind(x, y), x.items, y.items)
  }

  /** The join of the two values can be known. */
  ghost predicate Joins(a: Val, b: Val, len: nat)
  {
    MeetsValues(a, b) && !CrowdedValues(a, b, len)
  }

  lemma {:induction false} SplatBytes(s: Val, len: nat, k: nat)
    requires Fits(s, len) && s.kind == KSplat && |s.items| > 0 && k < len
    ensures Fits(SplatToScalar(s, len), len) && ByteAt(SplatToScalar(s, len), k) == ByteAt(s, k)
  {
    var r := SplatToScalar(s, len);
    SplatToScalarSame(s, len, k);
    forall i | 0 <= i < |s.items| ensures PatternAt(KScalar, r.items[i], k) == PatternAt(KSplat, s.items[i], k) {
      assert s.items[i] in s.items && ItemFits(KSplat, s.items[i], len);
      SplatCell(s.items[i].v.c.value % 256, len, k);
    }
    SamePatterns(s, r, k);
  }

  lemma SamePatterns(s: Val, r: Val, k: nat)
    requires !s.WhollyUnknown() && !r.WhollyUnknown() && |s.items| == |r.items|
    requires forall i :: 0 <= i < |s.items| ==> PatternAt(r.kind, r.items[i], k) == PatternAt(s.kind, s.items[i], k)
    ensures ByteAt(s, k) == ByteAt(r, k)
  {
    forall p | p in ByteAt(s, k).ps ensures p in ByteAt(r, k).ps {
      var i := FromItem(s, p, k);
      PatternIn(r, r.items[i], k);
    }
    forall p | p in ByteAt(r, k).ps ensures p in ByteAt(s, k).ps {
      var i := FromItem(r, p, k);
      PatternIn(s, s.items[i], k);
    }
  }

  /** The two values in one kind are what the merge merges, and have the same bytes. */
  lemma {:induction false} FormsAre(a: Val, b: Val, len: nat)
    requires Fits(a, len) && Fits(b, len) && MeetsValues(a, b)
    ensures var x, y := FormLeft(a, b, len), FormRight(a, b, len);
            MergeValues(a, b, len) == Merge(x, y) && Meets(x, y) && Fits(x, len) && Fits(y, len)
  {
    if a.kind == b.kind {
    } else if Bits(a) && Bits(b) {
      SplatsAre(a, b, len);
    } else {
      ConvertsIs(a, b, len);
    }
  }

  lemma {:induction false} SplatsAre(a: Val, b: Val, len: nat)
    requires Fits(a, len) && Fits(b, len) && MeetsValues(a, b) && a.kind != b.kind && Bits(a) && Bits(b)
    ensures var x, y := FormLeft(a, b, len), FormRight(a, b, len);
            MergeValues(a, b, len) == Merge(x, y) && Meets(x, y) && Fits(x, len) && Fits(y, len)
  {
    SplatForm(if a.kind == KSplat then a else b, len);
  }

  lemma {:induction false} SplatForm(s: Val, len: nat)
    requires Fits(s, len) && s.kind == KSplat && |s.items| > 0
    ensures Fits(SplatToScalar(s, len), len) && len > 0
  {
    assert s.items[0] in s.items && ItemFits(KSplat, s.items[0], len);
    SplatBytes(s, len, 0);
  }

  lemma {:induction false} ConvertsIs(a: Val, b: Val, len: nat)
    requires Fits(a, len) && Fits(b, len) && MeetsValues(a, b) && a.kind != b.kind && Converts(a, b)
    ensures var x, y := FormLeft(a, b, len), FormRight(a, b, len);
            MergeValues(a, b, len) == Merge(x, y) && Meets(x, y) && Fits(x, len) && Fits(y, len)
  {
    assert a.items[0] in a.items && b.items[0] in b.items;
    if OnlyZeroes(a) {
      NullLikeFits(b.items[0], b.kind, len);
    } else {
      NullLikeFits(a.items[0], a.kind, len);
    }
  }

  lemma {:induction false} FormBytes(a: Val, b: Val, len: nat, k: nat)
    requires Fits(a, len) && Fits(b, len) && MeetsValues(a, b) && k < len
    ensures ByteAt(FormLeft(a, b, len), k) == ByteAt(a, k) && ByteAt(FormRight(a, b, len), k) == ByteAt(b, k)
  {
    if a.kind == KSplat && b.kind == KScalar {
      SplatBytes(a, len, k);
    } else if b.kind == KSplat && a.kind == KScalar {
      SplatBytes(b, len, k);
    } else if a.kind != b.kind {
      assert Converts(a, b) && a.items[0] in a.items && b.items[0] in b.items;
      FormsAre(a, b, len);
      if OnlyZeroes(a) {
        NullLikeFits(b.items[0], b.kind, len);
        ZeroBytes(a, len, k);
        ZeroBytes(NullLike(b.items[0]), len, k);
      } else {
        NullLikeFits(a.items[0], a.kind, len);
        ZeroBytes(b, len, k);
        ZeroBytes(NullLike(a.items[0]), len, k);
      }
    }
  }

  /** Values that do not meet are forgotten. */
  lemma {:induction false} ApartForgets(a: Val, b: Val, len: nat)
    requires Fits(a, len) && Fits(b, len) && !MeetsValues(a, b)
    ensures MergeValues(a, b, len).WhollyUnknown()
  {
    if (Bits(a) && Pointers(b)) || (Bits(b) && Pointers(a)) {
      assert a.items[0] in a.items && b.items[0] in b.items;
      if OnlyZeroes(a) {
        MergeForgetsLeft(a, b, len);
      } else if OnlyZeroes(b) {
        MergeForgetsRight(a, b, len);
      } else {
        MergeExactly(a, b);
      }
    } else {
      MergeExactly(a, b);
    }
  }

  lemma {:induction false} MergeForgetsLeft(a: Val, b: Val, len: nat)
    requires Fits(a, len) && Fits(b, len) && OnlyZeroes(a) && !MeetsValues(a, b) && ((Bits(a) && Pointers(b)) || (Bits(b) && Pointers(a)))
    ensures Merge(NullLike(b.items[0]), b).WhollyUnknown()
  {
    assert b.items[0] in b.items;
    if b.kind == KSplat {
      assert ItemFits(KSplat, b.items[0], len);
    }
    MergeForgets(NullLike(b.items[0]), b);
  }

  lemma {:induction false} MergeForgetsRight(a: Val, b: Val, len: nat)
    requires Fits(a, len) && Fits(b, len) && !OnlyZeroes(a) && OnlyZeroes(b) && !MeetsValues(a, b) && ((Bits(a) && Pointers(b)) || (Bits(b) && Pointers(a)))
    ensures Merge(a, NullLike(a.items[0])).WhollyUnknown()
  {
    assert a.items[0] in a.items;
    if a.kind == KSplat {
      assert ItemFits(KSplat, a.items[0], len);
    }
    MergeForgets(a, NullLike(a.items[0]));
  }

  /** The merge of two stored values is known exactly when both are, they meet, and together they have not
      too many items. */
  lemma {:induction false} MergeValuesKnown(a: Val, b: Val, len: nat)
    requires Fits(a, len) && Fits(b, len)
    ensures !MergeValues(a, b, len).WhollyUnknown() <==> Joins(a, b, len)
  {
    if MeetsValues(a, b) {
      FormsAre(a, b, len);
      MergeExactly(FormLeft(a, b, len), FormRight(a, b, len));
    } else {
      ApartForgets(a, b, len);
    }
  }

  /** What it then allows at a byte comes from what either allowed; and it is just that, unless there are
      pointers. */
  lemma {:induction false} MergeValuesBytes(a: Val, b: Val, len: nat, k: nat)
    requires Fits(a, len) && Fits(b, len) && k < len
    ensures var stems := Stems(ByteAt(MergeValues(a, b, len), k), Either(ByteAt(a, k), ByteAt(b, k))); stems
    ensures Joins(a, b, len) && a.kind != KPointer && b.kind != KPointer ==>
              ByteAt(MergeValues(a, b, len), k) == Either(ByteAt(a, k), ByteAt(b, k))
  {
    MergeValuesKnown(a, b, len);
    if MeetsValues(a, b) {
      FormsAre(a, b, len);
      FormBytes(a, b, len, k);
      MergeBytes(FormLeft(a, b, len), FormRight(a, b, len), k);
    }
  }

  /** There is room for as many items as there may be. */
  lemma {:induction false} RoomFor(a: Val, b: Val, len: nat)
    requires |a.items| + |b.items| <= PBMAX && MeetsValues(a, b)
    ensures Joins(a, b, len)
  {
    var x, y := FormLeft(a, b, len), FormRight(a, b, len);
    FormSizes(a, b, len);
    FewFit(MeetKind(x, y), x.items, y.items);
  }

  /** Conversion makes no more items. */
  lemma {:induction false} FormSizes(a: Val, b: Val, len: nat)
    requires MeetsValues(a, b)
    ensures |FormLeft(a, b, len).items| <= |a.items| && |FormRight(a, b, len).items| <= |b.items|
  {
  }

  lemma {:induction false} FewFit(kind: Kind, xs: seq<Item>, ys: seq<Item>)
    requires |xs| + |ys| <= PBMAX
    ensures !Crowded(kind, xs, ys)
  {
    FreshFew(kind, xs, ys);
  }

  lemma {:induction false} FreshFew(kind: Kind, xs: seq<Item>, ys: seq<Item>)
    ensures Fresh(kind, xs, ys) <= |ys|
  {
    if ys != [] {
      FreshFew(kind, xs, ys[..|ys| - 1]);
    }
  }

  lemma {:induction false} FreshNone(kind: Kind, xs: seq<Item>, ys: seq<Item>)
    requires forall y :: y in ys ==> y in xs
    ensures Fresh(kind, xs, ys) == 0
  {
    if ys != [] {
      var x := ys[|ys| - 1];
      assert x in xs;
      var i :| 0 <= i < |xs| && xs[i] == x;
      FreshNone(kind, xs, ys[..|ys| - 1]);
    }
  }

  /** A stored value joined with itself holds that value. */
  lemma {:induction false} MergeValuesSelf(a: Val, len: nat, k: nat)
    requires Fits(a, len) && !a.WhollyUnknown() && k < len
    ensures !MergeValues(a, a, len).WhollyUnknown()
    ensures a.kind != KPointer ==> ByteAt(MergeValues(a, a, len), k) == ByteAt(a, k)
  {
    FreshNone(a.kind, a.items, a.items);
    MergeValuesKnown(a, a, len);
    MergeValuesBytes(a, a, len, k);
  }
}
