/** The objects of a block byte by byte: what a store changes in an object's extents, and a plain run of
    allocations and stores on flat objects (llpe/main/LoadForward.cpp:1789-1825, 2789-2979, 3431-3578). */
module ObjectBytes {
  import opened Options
  import opened Extents
  import opened ThreadLocality
  import SymbolicValues

  const WHOLE_OBJECT: nat := 0xffff_ffff_ffff_ffff

  // ----- values

  function Insert(targets: seq<Obj>, o: Obj): (r: seq<Obj>)
    ensures (forall t :: t in r <==> t in targets || t == o) && |r| == |targets| + if o in targets then 0 else 1
  {
    if o in targets then targets else targets + [o]
  }

  function InsertAll(targets: seq<Obj>, more: seq<Obj>): (r: seq<Obj>)
    ensures forall t :: t in r <==> t in targets || t in more
    ensures |r| == |targets| + |Others(targets, more)|
  {
    if more == [] then targets
    else
      var front, last := more[..|more| - 1], more[|more| - 1];
      OthersSnoc(targets, front, last);
      assert front + [last] == more;
      Insert(InsertAll(targets, front), last)
  }

  /** The objects of `more` that `targets` lacks. */
  function Others(targets: seq<Obj>, more: seq<Obj>): set<Obj>
  {
    set t | t in more && t !in targets
  }

  lemma OthersSnoc(targets: seq<Obj>, front: seq<Obj>, last: Obj)
    ensures Others(targets, []) == {}
    ensures |Others(targets, front + [last])| == |Others(targets, front)| + if last in targets || last in front then 0 else 1
  {
    var few, all := Others(targets, front), Others(targets, front + [last]);
    assert all == if last in targets || last in front then few else few + {last};
  }

  /** What merging two values does to the pointers they hold: sets grow up to PBMAX members, and values of
      different kinds give an unknown one. */
  function MergePointers(a: Value, b: Value): (r: Value)
    ensures r.Ptrs? <==> a.Ptrs? && b.Ptrs? && |a.targets| + |Others(a.targets, b.targets)| <= SymbolicValues.PBMAX
    ensures r.Ptrs? ==> forall t :: t in r.targets <==> t in a.targets || t in b.targets
    ensures r.Scalars? <==> a.Scalars? && b.Scalars? && |a.consts + b.consts| <= SymbolicValues.PBMAX
    ensures r.Scalars? ==> r.consts == a.consts + b.consts
    ensures r.UnknownScalar? <==> !r.Scalars? && (a.Scalars? || a.UnknownScalar?) && (b.Scalars? || b.UnknownScalar?)
    ensures r.UnknownOld? <==> a.UnknownOld? && b.UnknownOld?
  {
    if a.Ptrs? && b.Ptrs? then
      var u := InsertAll(a.targets, b.targets);
      if |u| <= SymbolicValues.PBMAX then Ptrs(u) else UnknownAny
    else if a.Scalars? && b.Scalars? then
      if |a.consts + b.consts| <= SymbolicValues.PBMAX then Scalars(a.consts + b.consts) else UnknownScalar
    else if a.UnknownOld? && b.UnknownOld? then UnknownOld
    else if (a.Scalars? || a.UnknownScalar?) && (b.Scalars? || b.UnknownScalar?) then UnknownScalar
    else UnknownAny
  }

  /** `setOverdef`: a set of scalars is still no pointer. */
  function Forgotten(v: Value): (r: Value)
    ensures r.WhollyUnknown() && (v.WhollyUnknown() ==> r == v) && (r.UnknownScalar? <==> v.Scalars? || v.UnknownScalar?)
    ensures r.UnknownOld? ==> v.UnknownOld?
  {
    if v.Ptrs? then UnknownAny else if v.Scalars? then UnknownScalar else v
  }

  /** A value cut short: pointers cannot be split. */
  function Cut(v: Value): Value
  {
    if v.Ptrs? then UnknownAny else v
  }

  function LeftOf(es: seq<Extent<Value>>, at: nat): seq<Extent<Value>>
  {
    if es == [] then []
    else
      var e := es[0];
      (if e.stop <= at then [e] else if e.start < at then [Extent(e.start, at, Cut(e.val))] else []) + LeftOf(es[1..], at)
  }

  function RightOf(es: seq<Extent<Value>>, at: nat): seq<Extent<Value>>
  {
    if es == [] then []
    else
      var e := es[0];
      (if at <= e.start then [e] else if at < e.stop then [Extent(at, e.stop, Cut(e.val))] else []) + RightOf(es[1..], at)
  }

  /** The extents after bytes off..off + size are overwritten by `v`. */
  function Overwritten(es: seq<Extent<Value>>, off: nat, size: nat, v: Value): seq<Extent<Value>>
  {
    LeftOf(es, off) + [Extent(off, off + size, v)] + RightOf(es, off + size)
  }

  lemma {:induction false} SidesKeep(es: seq<Extent<Value>>, at: nat)
    ensures forall e :: e in LeftOf(es, at) || e in RightOf(es, at) ==> e in es || !e.val.Ptrs?
    decreases es
  {
    if es != [] {
      SidesKeep(es[1..], at);
    }
  }

  /** Overwriting adds no pointers but those of the value written. */
  lemma OverwrittenPoints(contents: Contents, o: Obj, es: seq<Extent<Value>>, off: nat, size: nat, v: Value, x: Obj, y: Obj)
    requires es == if o in contents then contents[o] else []
    requires Points(contents[o := Overwritten(es, off, size, v)], x, y)
    ensures Points(contents, x, y) || (x == o && v.Ptrs? && y in v.targets)
  {
    SidesKeep(es, off);
    SidesKeep(es, off + size);
  }

  /** `readValRange`, as far as pointers go: a pointer is read only as a whole extent. */
  function ReadRange(es: seq<Extent<Value>>, off: nat, size: nat): (r: Value)
    ensures r.Ptrs? ==> exists e :: e in es && e.val == r
  {
    var i := Find(es, off);
    if i < |es| && es[i].start == off && es[i].stop == off + size then es[i].val
    else if forall e :: e in es && e.start < off + size && off < e.stop ==> e.val.Scalars? then Scalars({0})
    else UnknownAny
  }

  /** Where a store instruction may write. */
  datatype Destination =
    | Anywhere
    | AnywhereOld
    | Through(ptrs: seq<(Obj, Option<nat>)>)

  /** Some object the destination may name is outside `s`. */
  predicate MayLeave(d: Destination, s: set<Obj>)
  {
    !d.Through? || exists i :: 0 <= i < |d.ptrs| && d.ptrs[i].0 !in s
  }

  function Targets(v: Value): seq<Obj>
  {
    if v.Ptrs? then v.targets else []
  }

  /** One step of a merge-free run. */
  datatype Op =
    | Alloc(o: Obj, size: Option<nat>)
    | Store(d: Destination, width: nat, v: Value, vague: set<Obj>, shared: bool, clash: set<nat>)

  // ----- bytes

  /** The extent that holds each byte of an object. */
  type Row = imap<nat, Extent<Value>>
  type Memory = map<Obj, Row>

  ghost function Bytes(es: seq<Extent<Value>>): Row
  {
    imap b: nat | At(es, b).Some? :: At(es, b).value
  }

  ghost function Flat(contents: Contents): Memory
  {
    map o | o in contents :: Bytes(contents[o])
  }

  /** The extents of every object are in order and not empty. */
  ghost predicate Tidy(contents: Contents)
  {
    forall o :: o in contents ==> Sorted(contents[o])
  }

  /** What of an extent still holds byte `b` when lo..hi, which it is outside, are overwritten: unknown if that cuts
      a pointer. */
  function Clip(e: Extent<Value>, lo: nat, hi: nat, b: nat): Extent<Value>
  {
    var left := if e.val.Ptrs? then UnknownAny else e.val;
    if b < lo then (if e.stop <= lo then e else Extent(e.start, lo, left))
    else if hi <= e.start then e else Extent(hi, e.stop, left)
  }

  /** Bytes off..off + size hold the value, and the others what they held, cut off where it is overwritten. */
  ghost function WriteRow(row: Row, off: nat, size: nat, v: Value): Row
  {
    imap b: nat | b in row || off <= b < off + size :: if off <= b < off + size then Extent(off, off + size, v) else Clip(row[b], off, off + size, b)
  }

  /** What a read of bytes off..off + size gives. */
  ghost function ReadRow(row: Row, off: nat, size: nat): Value
  {
    if off in row && row[off].start == off && row[off].stop == off + size then row[off].val
    else if forall b: nat :: off <= b < off + size && b in row ==> row[b].val.Scalars? then Scalars({0})
    else UnknownAny
  }

  /** One extent over a whole object. */
  ghost function Filled(size: nat, v: Value): Row
  {
    imap b: nat | Before(b, size) :: Extent(0, size, v)
  }

  predicate Before(b: nat, size: nat)
  {
    b < size
  }

  lemma FilledBytes(size: nat, v: Value)
    requires size > 0
    ensures Bytes([Extent(0, size, v)]) == Filled(size, v)
  {
    forall b: nat ensures At([Extent(0, size, v)], b) == if b < size then Some(Extent(0, size, v)) else None {
      OnlyAt(Extent(0, size, v), b);
    }
  }

  // ----- a store by bytes

  lemma {:induction false} LeftStarts(es: seq<Extent<Value>>, at: nat, lo: nat)
    requires forall x :: x in es ==> lo <= x.start
    ensures forall e :: e in LeftOf(es, at) ==> lo <= e.start
    decreases es
  {
    if es != [] {
      assert forall x :: x in es[1..] ==> x in es;
      LeftStarts(es[1..], at, lo);
    }
  }

  /** What is left of the extents before `at`. */
  function LeftAt(es: seq<Extent<Value>>, at: nat, b: nat): Option<Extent<Value>>
  {
    if b < at && At(es, b).Some? then Some(Clip(At(es, b).value, at, at, b)) else None
  }

  function RightAt(es: seq<Extent<Value>>, at: nat, b: nat): Option<Extent<Value>>
  {
    if at <= b && At(es, b).Some? then Some(Clip(At(es, b).value, at, at, b)) else None
  }

  lemma {:induction false} LeftSorted(es: seq<Extent<Value>>, at: nat)
    requires Sorted(es)
    ensures Sorted(LeftOf(es, at)) && forall e :: e in LeftOf(es, at) ==> e.stop <= at
    decreases es
  {
    if es != [] {
      var e, rest := es[0], es[1..];
      assert es == [e] + rest;
      SortedParts([e], rest);
      LeftSorted(rest, at);
      if e.start < at {
        var first := if e.stop <= at then e else Extent(e.start, at, Cut(e.val));
        forall x | x in rest ensures first.stop <= x.start {
          var i :| 0 <= i < |rest| && rest[i] == x;
        }
        LeftStarts(rest, at, first.stop);
        SortedConcat([first], LeftOf(rest, at), first.stop);
      } else {
        assert LeftOf(es, at) == LeftOf(rest, at);
      }
    }
  }

  lemma {:induction false} LeftBytes(es: seq<Extent<Value>>, at: nat, b: nat)
    requires Sorted(es)
    ensures At(LeftOf(es, at), b) == LeftAt(es, at, b)
    decreases es
  {
    if es != [] {
      var e, rest := es[0], es[1..];
      assert es == [e] + rest;
      LeftSorted(es, at);
      AtConcat([e], rest, b);
      OnlyAt(e, b);
      LeftBytes(rest, at, b);
      if e.start < at {
        var first := if e.stop <= at then e else Extent(e.start, at, Cut(e.val));
        AtConcat([first], LeftOf(rest, at), b);
        OnlyAt(first, b);
      } else {
        assert LeftOf(es, at) == LeftOf(rest, at);
      }
    }
  }

  lemma {:induction false} RightStarts(es: seq<Extent<Value>>, at: nat, lo: nat)
    requires forall x :: x in es ==> lo <= x.start
    ensures forall e :: e in RightOf(es, at) ==> lo <= e.start
    decreases es
  {
    if es != [] {
      assert forall x :: x in es[1..] ==> x in es;
      assert es[0] in es;
      RightStarts(es[1..], at, lo);
    }
  }

  lemma {:induction false} RightSorted(es: seq<Extent<Value>>, at: nat)
    requires Sorted(es)
    ensures Sorted(RightOf(es, at)) && forall e :: e in RightOf(es, at) ==> at <= e.start
    decreases es
  {
    if es != [] {
      var e, rest := es[0], es[1..];
      assert es == [e] + rest;
      SortedParts([e], rest);
      RightSorted(rest, at);
      if at < e.stop {
        var first := if at <= e.start then e else Extent(at, e.stop, Cut(e.val));
        forall x | x in rest ensures first.stop <= x.start {
          var i :| 0 <= i < |rest| && rest[i] == x;
        }
        RightStarts(rest, at, first.stop);
        SortedConcat([first], RightOf(rest, at), first.stop);
      } else {
        assert RightOf(es, at) == RightOf(rest, at);
      }
    }
  }

  lemma {:induction false} RightStep(e: Extent<Value>, rest: seq<Extent<Value>>, at: nat, b: nat)
    requires Sorted([e] + rest) && at < e.stop && At(RightOf(rest, at), b) == RightAt(rest, at, b)
    requires Sorted([if at <= e.start then e else Extent(at, e.stop, Cut(e.val))] + RightOf(rest, at))
    ensures At([if at <= e.start then e else Extent(at, e.stop, Cut(e.val))] + RightOf(rest, at), b) == RightAt([e] + rest, at, b)
  {
    var first := if at <= e.start then e else Extent(at, e.stop, Cut(e.val));
    AtConcat([first], RightOf(rest, at), b);
    OnlyAt(first, b);
    AtConcat([e], rest, b);
    OnlyAt(e, b);
  }

  lemma {:induction false} RightBytes(es: seq<Extent<Value>>, at: nat, b: nat)
    requires Sorted(es)
    ensures At(RightOf(es, at), b) == RightAt(es, at, b)
    decreases es
  {
    if es != [] {
      var e, rest := es[0], es[1..];
      assert es == [e] + rest;
      RightSorted(es, at);
      AtConcat([e], rest, b);
      OnlyAt(e, b);
      RightBytes(rest, at, b);
      if at < e.stop {
        RightStep(e, rest, at, b);
      } else {
        assert RightOf(es, at) == RightOf(rest, at);
      }
    }
  }

  lemma {:induction false} OverwrittenSorted(es: seq<Extent<Value>>, off: nat, size: nat, v: Value)
    requires Sorted(es) && size > 0
    ensures Sorted(LeftOf(es, off) + [Extent(off, off + size, v)]) && Sorted(Overwritten(es, off, size, v))
  {
    LeftSorted(es, off);
    RightSorted(es, off + size);
    SortedConcat(LeftOf(es, off), [Extent(off, off + size, v)], off);
    SortedConcat(LeftOf(es, off) + [Extent(off, off + size, v)], RightOf(es, off + size), off + size);
  }

  lemma {:induction false} OverwrittenAt(es: seq<Extent<Value>>, off: nat, size: nat, v: Value, b: nat)
    requires Sorted(es) && size > 0
    ensures At(Overwritten(es, off, size, v), b) == if off <= b < off + size then Some(Extent(off, off + size, v))
                                                    else if At(es, b).Some? then Some(Clip(At(es, b).value, off, off + size, b)) else None
  {
    OverwrittenSorted(es, off, size, v);
    AtConcat(LeftOf(es, off) + [Extent(off, off + size, v)], RightOf(es, off + size), b);
    AtConcat(LeftOf(es, off), [Extent(off, off + size, v)], b);
    OnlyAt(Extent(off, off + size, v), b);
    LeftBytes(es, off, b);
    RightBytes(es, off + size, b);
  }

  /** The bytes of the range hold what was written, and the others what they held. */
  lemma {:induction false} OverwrittenBytes(es: seq<Extent<Value>>, off: nat, size: nat, v: Value)
    requires Sorted(es) && size > 0
    ensures Sorted(Overwritten(es, off, size, v)) && Bytes(Overwritten(es, off, size, v)) == WriteRow(Bytes(es), off, size, v)
  {
    OverwrittenSorted(es, off, size, v);
    forall b: nat ensures At(Overwritten(es, off, size, v), b) == if off <= b < off + size then Some(Extent(off, off + size, v))
                                                    else if At(es, b).Some? then Some(Clip(At(es, b).value, off, off + size, b)) else None
    {
      OverwrittenAt(es, off, size, v, b);
    }
    SameRow(Overwritten(es, off, size, v), es, off, size, v);
  }

  lemma SameRow(now: seq<Extent<Value>>, es: seq<Extent<Value>>, off: nat, size: nat, v: Value)
    requires forall b: nat :: At(now, b) == if off <= b < off + size then Some(Extent(off, off + size, v))
                                            else if At(es, b).Some? then Some(Clip(At(es, b).value, off, off + size, b)) else None
    ensures Bytes(now) == WriteRow(Bytes(es), off, size, v)
  {
  }

  lemma {:induction false} ReadBytes(es: seq<Extent<Value>>, off: nat, size: nat)
    requires Sorted(es) && size > 0
    ensures ReadRange(es, off, size) == ReadRow(Bytes(es), off, size)
  {
    var row := Bytes(es);
    forall e | e in es && e.start < off + size && off < e.stop ensures ShownIn(row, off, size, e) {
      MeetsByte(es, off, size, e);
    }
    forall b | off <= b < off + size && b in row ensures row[b] in es && row[b].start < off + size && off < row[b].stop {
    }
  }

  /** Some byte of the range lies in the extent. */
  ghost predicate ShownIn(row: Row, off: nat, size: nat, e: Extent<Value>)
  {
    exists b: nat :: off <= b < off + size && b in row && row[b] == e
  }

  lemma MeetsByte(es: seq<Extent<Value>>, off: nat, size: nat, e: Extent<Value>)
    requires Sorted(es) && e in es && e.start < off + size && off < e.stop && size > 0
    ensures ShownIn(Bytes(es), off, size, e)
  {
    var i :| 0 <= i < |es| && es[i] == e;
    var b := if e.start < off then off else e.start;
    AtHit(es, i, b);
    assert b in Bytes(es);
  }

  // ----- the objects a value leads to

  /** Some byte of object `x` holds a pointer to object `y`. */
  ghost predicate Leads(mem: Memory, x: Obj, y: Obj)
  {
    x in mem && exists b :: b in mem[x] && mem[x][b].val.Ptrs? && y in mem[x][b].val.targets
  }

  ghost predicate Way(mem: Memory, way: seq<Obj>, x: Obj, y: Obj)
  {
    && way != [] && way[0] == x && way[|way| - 1] == y
    && forall j :: 0 < j < |way| ==> Leads(mem, way[j - 1], way[j])
  }

  /** Following pointers from the value one may come to `y`. */
  ghost predicate LeadsTo(mem: Memory, v: Value, y: Obj)
  {
    exists t, way :: t in Targets(v) && Way(mem, way, t, y)
  }

  /** Some byte of the object is unknown. */
  ghost predicate Dark(mem: Memory, x: Obj, ignoreOld: bool)
  {
    x in mem && exists b :: b in mem[x] && Bad(mem[x][b].val, ignoreOld)
  }

  /** The value is unknown, or leads to something unknown. */
  ghost predicate Loose(mem: Memory, v: Value, ignoreOld: bool)
  {
    Bad(v, ignoreOld) || exists x :: LeadsTo(mem, v, x) && Dark(mem, x, ignoreOld)
  }

  /** What is left of a flag set once a value has leaked. */
  ghost function LeftIn(mem: Memory, s: set<Obj>, unescaped: set<Obj>, v: Value, ignoreOld: bool): set<Obj>
  {
    if Loose(mem, v, ignoreOld) then s * unescaped else set x | x in s && !LeadsTo(mem, v, x)
  }

  lemma LeadsPoints(contents: Contents, x: Obj, y: Obj)
    requires Tidy(contents)
    ensures Leads(Flat(contents), x, y) <==> Points(contents, x, y)
  {
    if Points(contents, x, y) {
      var e :| e in contents[x] && e.val.Ptrs? && y in e.val.targets;
      ByteOf(contents[x], e);
    }
  }

  /** Every extent holds its first byte. */
  lemma ByteOf(es: seq<Extent<Value>>, e: Extent<Value>)
    requires Sorted(es) && e in es
    ensures e.start in Bytes(es) && Bytes(es)[e.start] == e
  {
    var i :| 0 <= i < |es| && es[i] == e;
    AtHit(es, i, e.start);
  }

  lemma DarkHolds(contents: Contents, x: Obj, ignoreOld: bool)
    requires Tidy(contents)
    ensures Dark(Flat(contents), x, ignoreOld) <==> HoldsBad(contents, x, ignoreOld)
  {
    if HoldsBad(contents, x, ignoreOld) {
      var e :| e in contents[x] && Bad(e.val, ignoreOld);
      ByteOf(contents[x], e);
    }
    if Dark(Flat(contents), x, ignoreOld) {
      var b :| b in Flat(contents)[x] && Bad(Flat(contents)[x][b].val, ignoreOld);
      assert At(contents[x], b).value in contents[x];
    }
  }

  lemma WayPath(contents: Contents, way: seq<Obj>, x: Obj, y: Obj)
    requires Tidy(contents)
    ensures Way(Flat(contents), way, x, y) <==> Path(contents, way, x, y)
  {
    forall j | 0 < j < |way| ensures Leads(Flat(contents), way[j - 1], way[j]) <==> Points(contents, way[j - 1], way[j]) {
      LeadsPoints(contents, way[j - 1], way[j]);
    }
  }

  lemma LeadsReached(contents: Contents, v: Value, y: Obj)
    requires Tidy(contents)
    ensures LeadsTo(Flat(contents), v, y) <==> exists t :: t in Targets(v) && Reaches(contents, t, y)
  {
    if LeadsTo(Flat(contents), v, y) {
      var t, way :| t in Targets(v) && Way(Flat(contents), way, t, y);
      WayPath(contents, way, t, y);
      assert Reaches(contents, t, y);
    }
    if t :| t in Targets(v) && Reaches(contents, t, y) {
      var path :| Path(contents, path, t, y);
      WayPath(contents, path, t, y);
    }
  }

  lemma LooseBad(contents: Contents, v: Value, ignoreOld: bool)
    requires Tidy(contents)
    ensures Loose(Flat(contents), v, ignoreOld) <==> BadFrom(contents, v, ignoreOld)
  {
    if x :| LeadsTo(Flat(contents), v, x) && Dark(Flat(contents), x, ignoreOld) {
      LeadsReached(contents, v, x);
      DarkHolds(contents, x, ignoreOld);
    }
    if v.Ptrs? {
      if t, x :| t in v.targets && Reaches(contents, t, x) && HoldsBad(contents, x, ignoreOld) {
        LeadsReached(contents, v, x);
        DarkHolds(contents, x, ignoreOld);
      }
    }
  }

  // ----- runs on flat objects

  /** What is in the objects, and the flag sets. */
  datatype World = World(mem: Memory, threadLocal: set<Obj>, noAliasOld: set<Obj>, unescaped: set<Obj>)

  ghost function AllocRow(size: Option<nat>): Row
  {
    if size.Some? then Filled(size.value, Scalars({0})) else Filled(WHOLE_OBJECT, UnknownAny)
  }

  ghost function AllocStep(w: World, o: Obj, size: Option<nat>): World
  {
    World(w.mem[o := AllocRow(size)], w.threadLocal + {o}, w.noAliasOld + {o}, w.unescaped + {o})
  }

  /** One object written: everything in it is forgotten if the offset is unknown. */
  ghost function WriteAt(mem: Memory, o: Obj, off: Option<nat>, size: nat, v: Value, certain: bool): Memory
  {
    var row: Row := if o in mem then mem[o] else imap[];
    mem[o := if off.None? then Filled(WHOLE_OBJECT, UnknownAny)
             else WriteRow(row, off.value, size, if certain then v else MergePointers(ReadRow(row, off.value, size), v))]
  }

  /** The value as the write at pointer `i` is to store it, and after the first `n` writes. */
  function ClashedAt(v: Value, ptrs: seq<(Obj, Option<nat>)>, certain: bool, clash: set<nat>, n: nat): Value
    requires n <= |ptrs|
  {
    if n == 0 then v
    else
      var before := ClashedAt(v, ptrs, certain, clash, n - 1);
      if !certain && ptrs[n - 1].1.Some? && n - 1 in clash then Forgotten(before) else before
  }

  /** The first `n` of the writes. */
  ghost function WriteAll(mem: Memory, ptrs: seq<(Obj, Option<nat>)>, size: nat, v: Value, certain: bool, clash: set<nat>, n: nat): Memory
    requires n <= |ptrs|
  {
    if n == 0 then mem
    else WriteAt(WriteAll(mem, ptrs, size, v, certain, clash, n - 1), ptrs[n - 1].0, ptrs[n - 1].1, size, ClashedAt(v, ptrs, certain, clash, n), certain)
  }

  predicate Certain(ptrs: seq<(Obj, Option<nat>)>, vague: set<Obj>)
  {
    |ptrs| == 1 && ptrs[0].1.Some? && ptrs[0].0 !in vague
  }

  /** Only the objects in `save` are known any more. */
  ghost function Clobber(w: World, save: set<Obj>, shared: bool): World
  {
    var mem: Memory := map o | o in w.mem && o in save :: w.mem[o];
    if shared then World(mem, {}, {}, {}) else w.(mem := mem)
  }

  /** What a write leaves in the objects, and the value it turned out to store. */
  ghost function WriteStep(w: World, d: Destination, size: nat, v: Value, vague: set<Obj>, shared: bool, clash: set<nat>): (World, Value)
  {
    match d
    case Anywhere => (Clobber(w, w.unescaped, shared), v)
    case AnywhereOld => (Clobber(w, w.noAliasOld, shared), v)
    case Through(ptrs) =>
      var certain := Certain(ptrs, vague);
      (w.(mem := WriteAll(w.mem, ptrs, size, v, certain, clash, |ptrs|)), ClashedAt(v, ptrs, certain, clash, |ptrs|))
  }

  /** The write may go to an object outside the set. */
  ghost predicate Escapes(d: Destination, s: set<Obj>)
  {
    d.Through? ==> exists p :: p in d.ptrs && p.0 !in s
  }

  lemma EscapesIf(d: Destination, s: set<Obj>)
    ensures Escapes(d, s) <==> MayLeave(d, s)
  {
    if d.Through? {
      if p :| p in d.ptrs && p.0 !in s {
        var i :| 0 <= i < |d.ptrs| && d.ptrs[i] == p;
      }
    }
  }

  /** What a value written leaks. */
  ghost function LeakStep(w: World, d: Destination, v: Value): World
  {
    var threadLocal := if Escapes(d, w.threadLocal) && !v.UnknownScalar? then LeftIn(w.mem, w.threadLocal, w.unescaped, v, false) else w.threadLocal;
    var noAliasOld := if Escapes(d, w.noAliasOld) && !v.UnknownScalar? && !v.UnknownOld? then LeftIn(w.mem, w.noAliasOld, w.unescaped, v, true) else w.noAliasOld;
    w.(threadLocal := threadLocal, noAliasOld := noAliasOld)
  }

  ghost function StoreStep(w: World, d: Destination, size: nat, v: Value, vague: set<Obj>, shared: bool, clash: set<nat>): World
  {
    var (written, now) := WriteStep(w.(unescaped := w.unescaped - set t | t in Targets(v)), d, size, v, vague, shared, clash);
    LeakStep(written, d, now)
  }

  ghost function OpStep(w: World, op: Op): World
  {
    match op
    case Alloc(o, size) => AllocStep(w, o, size)
    case Store(d, width, v, vague, shared, clash) => StoreStep(w, d, width, v, vague, shared, clash)
  }

  /** A run, one operation after another. */
  ghost function RunFlat(w: World, ops: seq<Op>): World
    decreases |ops|
  {
    if ops == [] then w else RunFlat(OpStep(w, ops[0]), ops[1..])
  }

  lemma RunNext(w: World, ops: seq<Op>, i: nat)
    requires i < |ops|
    ensures RunFlat(w, ops[i..]) == RunFlat(OpStep(w, ops[i]), ops[i + 1..])
  {
    assert ops[i..][0] == ops[i] && ops[i..][1..] == ops[i + 1..];
  }
}
