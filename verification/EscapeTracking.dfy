/** Allocations, stores and clobbers on a block's local store, with the flag sets they maintain. */
module EscapeTracking {
  import opened Options
  import opened Extents
  import opened ThreadLocality
  import opened ObjectBytes

  /** `Sealed`, except that pointers into `targets` may have just been written. */
  ghost predicate SealedBut(contents: Contents, s: set<Obj>, targets: seq<Obj>)
  {
    forall x, y :: Points(contents, x, y) && y in s ==> x in s || y in targets
  }

  /** After a write has been propagated to `s`, it is sealed again. */
  lemma ErasedSealed(contents: Contents, s: set<Obj>, r: set<Obj>, targets: seq<Obj>)
    requires SealedBut(contents, s, targets) && r <= s && forall t :: t in targets ==> t !in r
    requires forall x, y :: x in s && x !in r && Points(contents, x, y) ==> y !in r
    ensures Sealed(contents, r)
  {
  }

  ghost predicate ReachedFrom(contents: Contents, v: Value, x: Obj)
  {
    exists t :: t in Targets(v) && Reaches(contents, t, x)
  }

  /** `r` is what is left of `s` after `v` leaks: if `v` leads to something unknown, the objects that
      have not escaped; otherwise the objects it does not lead to by any path. */
  ghost predicate Leaked(contents: Contents, s: set<Obj>, unescaped: set<Obj>, v: Value, ignoreOld: bool, r: set<Obj>)
  {
    if BadFrom(contents, v, ignoreOld) then r == s * unescaped
    else r <= s && forall x :: x in s ==> (x in r <==> !ReachedFrom(contents, v, x))
  }

  /** A path that starts outside a sealed set never enters it. */
  lemma {:induction false} OutsideStaysOutside(contents: Contents, s: set<Obj>, path: seq<Obj>, n: nat)
    requires Sealed(contents, s) && n < |path| && path[0] !in s
    requires forall j :: 0 < j < |path| ==> Points(contents, path[j - 1], path[j])
    ensures path[n] !in s
  {
    if n > 0 {
      OutsideStaysOutside(contents, s, path, n - 1);
      assert Points(contents, path[n - 1], path[n]);
    }
  }

  /** What is left of a flag set is told by what the objects hold byte by byte. */
  lemma LeakedIs(contents: Contents, s: set<Obj>, unescaped: set<Obj>, v: Value, ignoreOld: bool)
    requires Tidy(contents)
    ensures forall r :: Leaked(contents, s, unescaped, v, ignoreOld, r) <==> r == LeftIn(Flat(contents), s, unescaped, v, ignoreOld)
  {
    LooseBad(contents, v, ignoreOld);
    forall x | x in s ensures LeadsTo(Flat(contents), v, x) <==> ReachedFrom(contents, v, x) {
      LeadsReached(contents, v, x);
    }
  }

  /** Only the objects named may have come to hold pointers, and only those of the value. */
  ghost predicate Adds(now: Contents, was: Contents, named: set<Obj>, v: Value)
  {
    forall x, y :: Points(now, x, y) ==> Points(was, x, y) || (x in named && y in Targets(v))
  }

  function Named(ptrs: seq<(Obj, Option<nat>)>, n: nat): set<Obj>
    requires n <= |ptrs|
  {
    set j | 0 <= j < n :: ptrs[j].0
  }

  /** One object is written: every byte of every object holds what it is to hold, and no pointers have come in but
      those of the value. */
  ghost predicate WrittenOne(contents: Contents, was: Contents, o: Obj, off: Option<nat>, size: nat, v: Value, certain: bool)
  {
    Tidy(contents) && Flat(contents) == WriteAt(Flat(was), o, off, size, v, certain) && Adds(contents, was, {o}, v)
  }

  lemma WrittenBytes(contents: Contents, o: Obj, es: seq<Extent<Value>>, off: nat, size: nat, v: Value, certain: bool, w: Value)
    requires Tidy(contents) && size > 0 && es == if o in contents then contents[o] else []
    requires w == if certain then v else MergePointers(ReadRange(es, off, size), v)
    ensures var now := contents[o := Overwritten(es, off, size, w)]; Tidy(now) && Flat(now) == WriteAt(Flat(contents), o, Some(off), size, v, certain)
  {
    ReadBytes(es, off, size);
    OverwrittenBytes(es, off, size, w);
    FlatSet(contents, o, Overwritten(es, off, size, w));
    NoBytes();
  }

  lemma RangeWritten(contents: Contents, o: Obj, off: nat, size: nat, v: Value, certain: bool)
    requires Tidy(contents) && size > 0
    ensures var es := if o in contents then contents[o] else [];
            var now := contents[o := Overwritten(es, off, size, if certain then v else MergePointers(ReadRange(es, off, size), v))];
            var written := WrittenOne(now, contents, o, Some(off), size, v, certain); written
  {
    var es := if o in contents then contents[o] else [];
    var w := if certain then v else MergePointers(ReadRange(es, off, size), v);
    WrittenBytes(contents, o, es, off, size, v, certain, w);
    AddsRange(contents, o, es, off, size, v, certain);
  }

  lemma AddsRange(contents: Contents, o: Obj, es: seq<Extent<Value>>, off: nat, size: nat, v: Value, certain: bool)
    requires es == if o in contents then contents[o] else []
    ensures Adds(contents[o := Overwritten(es, off, size, if certain then v else MergePointers(ReadRange(es, off, size), v))], contents, {o}, v)
  {
    var w := if certain then v else MergePointers(ReadRange(es, off, size), v);
    var now := contents[o := Overwritten(es, off, size, w)];
    forall x, y | Points(now, x, y) ensures Points(contents, x, y) || (x == o && y in Targets(v)) {
      OverwrittenPoints(contents, o, es, off, size, w, x, y);
    }
  }

  lemma UnknownWritten(contents: Contents, o: Obj, size: nat, v: Value, certain: bool)
    requires Tidy(contents)
    ensures var written := WrittenOne(contents[o := [Extent(0, WHOLE_OBJECT, UnknownAny)]], contents, o, None, size, v, certain); written
  {
    FilledBytes(WHOLE_OBJECT, UnknownAny);
    FlatSet(contents, o, [Extent(0, WHOLE_OBJECT, UnknownAny)]);
  }

  /** The first `i` writes are done. */
  ghost predicate WrittenTo(contents: Contents, now: Value, was: Contents, ptrs: seq<(Obj, Option<nat>)>, size: nat, v: Value, certain: bool, clash: set<nat>, i: nat)
    requires i <= |ptrs|
  {
    && now == ClashedAt(v, ptrs, certain, clash, i) && (now == v || now == Forgotten(v)) && Tidy(contents)
    && Flat(contents) == WriteAll(Flat(was), ptrs, size, v, certain, clash, i) && Adds(contents, was, Named(ptrs, i), v)
  }

  lemma NoneWritten(contents: Contents, ptrs: seq<(Obj, Option<nat>)>, size: nat, v: Value, certain: bool, clash: set<nat>)
    requires Tidy(contents)
    ensures var done := WrittenTo(contents, v, contents, ptrs, size, v, certain, clash, 0); done
  {
  }

  lemma TidySoFar(contents: Contents, now: Value, was: Contents, ptrs: seq<(Obj, Option<nat>)>, size: nat, v: Value, certain: bool, clash: set<nat>, i: nat)
    requires i <= |ptrs| && WrittenTo(contents, now, was, ptrs, size, v, certain, clash, i)
    ensures var tidy := Tidy(contents); tidy
  {
  }

  lemma WrittenNext(contents: Contents, now: Value, mid: Contents, before: Value, was: Contents,
                    ptrs: seq<(Obj, Option<nat>)>, size: nat, v: Value, certain: bool, clash: set<nat>, i: nat)
    requires i < |ptrs| && WrittenTo(mid, before, was, ptrs, size, v, certain, clash, i)
    requires now == if !certain && ptrs[i].1.Some? && i in clash then Forgotten(before) else before
    requires var written := WrittenOne(contents, mid, ptrs[i].0, ptrs[i].1, size, now, certain); written
    ensures var done := WrittenTo(contents, now, was, ptrs, size, v, certain, clash, i + 1); done
  {
    assert now == ClashedAt(v, ptrs, certain, clash, i + 1);
    AddsThen(contents, mid, was, ptrs, i, v, now);
  }

  lemma AddsThen(now: Contents, mid: Contents, was: Contents, ptrs: seq<(Obj, Option<nat>)>, i: nat, v: Value, w: Value)
    requires i < |ptrs| && Adds(mid, was, Named(ptrs, i), v) && Adds(now, mid, {ptrs[i].0}, w) && (w == v || w == Forgotten(v))
    ensures Adds(now, was, Named(ptrs, i + 1), v)
  {
  }

  lemma FlatSet(contents: Contents, o: Obj, es: seq<Extent<Value>>)
    ensures Flat(contents[o := es]) == Flat(contents)[o := Bytes(es)]
  {
  }

  lemma NoBytes()
    ensures Bytes([]) == imap[]
  {
  }

  /** With some objects forgotten, what was known of pointers stays so. */
  lemma SavedKeep(contents: Contents, save: set<Obj>, threadLocal: set<Obj>, noAliasOld: set<Obj>, unescaped: set<Obj>, born: set<Obj>)
    requires Tidy(contents) && Sealed(contents, threadLocal) && Sealed(contents, noAliasOld) && Unpointed(contents, unescaped)
    requires forall x, y :: Points(contents, x, y) ==> y in born
    ensures var now: Contents := map o | o in contents && o in save :: contents[o];
            && Tidy(now) && Sealed(now, threadLocal) && Sealed(now, noAliasOld) && Unpointed(now, unescaped)
            && Sealed(now, {}) && Unpointed(now, {}) && (forall x, y :: Points(now, x, y) ==> y in born)
            && Flat(now) == map o | o in Flat(contents) && o in save :: Flat(contents)[o]
  {
    var now: Contents := map o | o in contents && o in save :: contents[o];
    forall x, y | Points(now, x, y) ensures Points(contents, x, y) {
    }
  }

  lemma AllocBytes(contents: Contents, o: Obj, size: Option<nat>, es: seq<Extent<Value>>)
    requires Tidy(contents)
    requires es == if size.None? then [Extent(0, WHOLE_OBJECT, UnknownAny)] else if size.value > 0 then [Extent(0, size.value, Scalars({0}))] else []
    ensures Tidy(contents[o := es]) && Flat(contents[o := es]) == Flat(contents)[o := AllocRow(size)]
  {
    FlatSet(contents, o, es);
    if size.None? {
      FilledBytes(WHOLE_OBJECT, UnknownAny);
    } else if size.value > 0 {
      FilledBytes(size.value, Scalars({0}));
    } else {
      NoBytes();
    }
  }

  class Block {
    var contents: Contents
    var threadLocal: set<Obj>
    var noAliasOld: set<Obj>
    var unescaped: set<Obj>
    ghost var born: set<Obj>

    /** No object outside `threadLocal` holds a known pointer into it, and likewise for
        `noAliasOld`; no object holds a known pointer to an unescaped object. */
    ghost predicate Valid()
      reads this
    {
      && Sealed(contents, threadLocal) && Sealed(contents, noAliasOld) && Unpointed(contents, unescaped)
      && (forall x, y :: Points(contents, x, y) ==> y in born) && Tidy(contents)
    }

    /** The block byte by byte. */
    ghost function Seen(): World
      reads this
    {
      World(Flat(contents), threadLocal, noAliasOld, unescaped)
    }

    /** A block before which the objects `older` were there, globals and others: they are shared and have
        escaped, and hold what `initial` says. */
    constructor (initial: Contents, ghost older: set<Obj>)
      requires Tidy(initial) && forall x, y :: Points(initial, x, y) ==> y in older
      ensures Valid() && contents == initial && born == older
      ensures threadLocal == {} && noAliasOld == {} && unescaped == {}
    {
      contents := initial;
      threadLocal, noAliasOld, unescaped := {}, {}, {};
      born := older;
    }

    /** `executeAllocInst`: a new object is thread-local, aliases nothing old and has not escaped. */
    method Allocate(o: Obj, size: Option<nat>)
      requires Valid() && o !in born
      modifies this
      ensures Valid() && born == old(born) + {o}
      ensures threadLocal == old(threadLocal) + {o} && noAliasOld == old(noAliasOld) + {o}
      ensures unescaped == old(unescaped) + {o} && o in contents
      ensures Seen() == AllocStep(old(Seen()), o, size)
    {
      var es := if size.None? then [Extent(0, WHOLE_OBJECT, UnknownAny)]
                else if size.value > 0 then [Extent(0, size.value, Scalars({0}))] else [];
      contents := contents[o := es];
      AllocBytes(old(contents), o, size, es);
      threadLocal, noAliasOld, unescaped := threadLocal + {o}, noAliasOld + {o}, unescaped + {o};
      born := born + {o};
      forall x, y | Points(contents, x, y) ensures Points(old(contents), x, y) {
      }
    }

    /** `valueEscaped`. */
    method ValueEscaped(v: Value)
      requires Valid()
      modifies this`unescaped
      ensures Valid() && unescaped == old(unescaped) - (set t | t in Targets(v))
    {
      unescaped := unescaped - (set t | t in Targets(v));
    }

    /** `clobberAllExcept`: forget every object but those saved. When the store is shared the new
        one starts with empty flag sets. */
    method ClobberAllExcept(save: set<Obj>, shared: bool)
      requires Valid()
      modifies this
      ensures Valid() && born == old(born) && Seen() == Clobber(old(Seen()), save, shared)
      ensures contents == map o | o in old(contents) && o in save :: old(contents)[o]
      ensures if shared then threadLocal == {} && noAliasOld == {} && unescaped == {}
              else threadLocal == old(threadLocal) && noAliasOld == old(noAliasOld) && unescaped == old(unescaped)
    {
      SavedKeep(contents, save, threadLocal, noAliasOld, unescaped, born);
      contents := map o | o in contents && o in save :: contents[o];
      if shared {
        threadLocal, noAliasOld, unescaped := {}, {}, {};
      }
    }

    /** One object written at known or unknown offset, certainly or perhaps. */
    method WriteOne(o: Obj, off: Option<nat>, size: nat, v: Value, certain: bool)
      requires size > 0 && var tidy := Tidy(contents); tidy
      modifies this`contents
      ensures var written := WrittenOne(contents, old(contents), o, off, size, v, certain); written
    {
      if off.None? {
        UnknownWritten(contents, o, size, v, certain);
        contents := contents[o := [Extent(0, WHOLE_OBJECT, UnknownAny)]];
      } else {
        RangeWritten(contents, o, off.value, size, v, certain);
        var es := if o in contents then contents[o] else [];
        contents := contents[o := Overwritten(es, off.value, size, if certain then v else MergePointers(ReadRange(es, off.value, size), v))];
      }
    }

    /** The writes of `executeWriteInst`. At the pointers numbered in `clash` the value there and the one
        stored cannot be given one type; from then on the stored value counts as unknown. */
    method PerformWrite(d: Destination, size: nat, v: Value, vague: set<Obj>, shared: bool, clash: set<nat>) returns (now: Value)
      requires Valid() && size > 0 && forall t :: t in Targets(v) ==> t !in unescaped && t in born
      modifies this
      ensures Tidy(contents) && (Seen(), now) == WriteStep(old(Seen()), d, size, v, vague, shared, clash)
      ensures Unpointed(contents, unescaped) && born == old(born)
      ensures forall x, y :: Points(contents, x, y) ==> y in born
      ensures SealedBut(contents, threadLocal, Targets(v)) && SealedBut(contents, noAliasOld, Targets(v))
      ensures !MayLeave(d, threadLocal) ==> Sealed(contents, threadLocal)
      ensures !MayLeave(d, noAliasOld) ==> Sealed(contents, noAliasOld)
      ensures threadLocal <= old(threadLocal) && noAliasOld <= old(noAliasOld) && unescaped <= old(unescaped)
      ensures d.Through? ==> threadLocal == old(threadLocal) && noAliasOld == old(noAliasOld) && unescaped == old(unescaped)
      ensures now == v || now == Forgotten(v)
    {
      now := v;
      match d {
        case Anywhere => ClobberAllExcept(unescaped, shared);
        case AnywhereOld => ClobberAllExcept(noAliasOld, shared);
        case Through(ptrs) =>
          var certain := |ptrs| == 1 && ptrs[0].1.Some? && ptrs[0].0 !in vague;
          now := WriteThrough(ptrs, size, v, certain, clash);
      }
    }

    /** Through each of several pointers. */
    method WriteThrough(ptrs: seq<(Obj, Option<nat>)>, size: nat, v: Value, certain: bool, clash: set<nat>) returns (now: Value)
      requires size > 0 && var tidy := Tidy(contents); tidy
      modifies this`contents
      ensures var done := WrittenTo(contents, now, old(contents), ptrs, size, v, certain, clash, |ptrs|); done
    {
      now := v;
      NoneWritten(contents, ptrs, size, v, certain, clash);
      var i := 0;
      while i < |ptrs|
        invariant 0 <= i <= |ptrs| && var done := WrittenTo(contents, now, old(contents), ptrs, size, v, certain, clash, i); done
      {
        ghost var before, was := contents, now;
        if !certain && ptrs[i].1.Some? && i in clash {
          now := Forgotten(now);
        }
        TidySoFar(before, was, old(contents), ptrs, size, v, certain, clash, i);
        WriteOne(ptrs[i].0, ptrs[i].1, size, now, certain);
        WrittenNext(contents, now, before, was, old(contents), ptrs, size, v, certain, clash, i);
        i := i + 1;
      }
    }

    /** `setObjectsThreadGlobal` and `setObjectsMayAliasOld`: what is left of a flag set once the
        objects a known value leads to have leaked. */
    method Leak(s: set<Obj>, v: Value, ignoreOld: bool) returns (r: set<Obj>)
      requires SealedBut(contents, s, Targets(v)) && Unpointed(contents, unescaped) && Tidy(contents)
      ensures Sealed(contents, r) && Leaked(contents, s, unescaped, v, ignoreOld, r)
    {
      var all := ReachesAllPointers(contents, v, ignoreOld);
      if all {
        return s * unescaped;
      }
      r := EraseReachable(contents, Targets(v), s);
      ErasedSealed(contents, s, r, Targets(v));
      forall x | x in s && ReachedFrom(contents, v, x) ensures x !in r {
        var t :| t in Targets(v) && Reaches(contents, t, x);
        var path :| Path(contents, path, t, x);
        OutsideStaysOutside(contents, r, path, |path| - 1);
      }
      forall x | x in s && x !in r ensures ReachedFrom(contents, v, x) {
        var t :| t in Targets(v) && Reaches(contents, t, x);
      }
    }

    /** `propagateStoreFlags`: a flag set changes only if the destination may lie outside it. It then
        loses exactly the objects the value leads to, or everything that has escaped if it leads to
        something unknown. */
    method PropagateStoreFlags(d: Destination, v: Value)
      requires v.UnknownAny? || (SealedBut(contents, threadLocal, Targets(v)) && SealedBut(contents, noAliasOld, Targets(v)))
      requires !MayLeave(d, threadLocal) ==> Sealed(contents, threadLocal)
      requires !MayLeave(d, noAliasOld) ==> Sealed(contents, noAliasOld)
      requires Unpointed(contents, unescaped) && Tidy(contents) && forall x, y :: Points(contents, x, y) ==> y in born
      modifies this`threadLocal, this`noAliasOld
      ensures Valid() && Seen() == LeakStep(old(Seen()), d, v)
      ensures if MayLeave(d, old(threadLocal)) && !v.UnknownScalar?
              then Leaked(contents, old(threadLocal), unescaped, v, false, threadLocal)
              else threadLocal == old(threadLocal)
      ensures if MayLeave(d, old(noAliasOld)) && !v.UnknownScalar? && !v.UnknownOld?
              then Leaked(contents, old(noAliasOld), unescaped, v, true, noAliasOld)
              else noAliasOld == old(noAliasOld)
    {
      EscapesIf(d, threadLocal);
      EscapesIf(d, noAliasOld);
      LeakedIs(contents, threadLocal, unescaped, v, false);
      LeakedIs(contents, noAliasOld, unescaped, v, true);
      var mayAliasOld, isGlobal := MayLeave(d, noAliasOld), MayLeave(d, threadLocal);
      if v.WhollyUnknown() {
        if v.UnknownScalar? {
          return;
        }
        if mayAliasOld && !v.IsOld() {
          noAliasOld := noAliasOld * unescaped;
        }
        if isGlobal {
          threadLocal := threadLocal * unescaped;
        }
      } else {
        if mayAliasOld {
          noAliasOld := Leak(noAliasOld, v, true);
        }
        if isGlobal {
          threadLocal := Leak(threadLocal, v, false);
        }
      }
    }

    /** `executeStoreInst`: the stored pointers escape, the store is performed, and what it leaked is
        taken out of the flag sets. */
    method ExecuteStore(d: Destination, size: nat, v: Value, vague: set<Obj>, shared: bool, clash: set<nat>)
      requires Valid() && size > 0 && forall t :: t in Targets(v) ==> t in born
      modifies this
      ensures Valid() && born == old(born) && Seen() == StoreStep(old(Seen()), d, size, v, vague, shared, clash)
      ensures threadLocal <= old(threadLocal) && noAliasOld <= old(noAliasOld) && unescaped <= old(unescaped)
      ensures forall t :: t in Targets(v) ==> t !in unescaped
    {
      ValueEscaped(v);
      var now := PerformWrite(d, size, v, vague, shared, clash);
      PropagateStoreFlags(d, now);
    }
  }

  /** Objects are allocated once, and pointers stored are to objects there are. */
  ghost predicate Sensible(ops: seq<Op>, born: set<Obj>)
    decreases ops
  {
    ops != [] ==>
      match ops[0]
      case Alloc(o, _) => o !in born && Sensible(ops[1..], born + {o})
      case Store(_, width, v, _, _, _) => width > 0 && (forall t :: t in Targets(v) ==> t in born) && Sensible(ops[1..], born)
  }

  /** A run of allocations and stores leaves in every byte of every object, and in the flag sets, what the same
      operations leave on flat objects. Thread-locality is closed over every such run, whatever objects there were
      before: those stay shared, and pointers to them may be stored like any others. */
  method RunOps(ops: seq<Op>, initial: Contents, ghost older: set<Obj>) returns (b: Block)
    requires Sensible(ops, older) && Tidy(initial) && forall x, y :: Points(initial, x, y) ==> y in older
    ensures b.Seen() == RunFlat(World(Flat(initial), {}, {}, {}), ops)
    ensures fresh(b) && b.Valid() && b.threadLocal !! older && b.noAliasOld !! older && b.unescaped !! older
    ensures forall x, y :: Leads(b.Seen().mem, x, y) && x !in b.threadLocal ==> y !in b.threadLocal
    ensures forall x, y :: Leads(b.Seen().mem, x, y) ==> y !in b.unescaped
  {
    b := new Block(initial, older);
    ghost var end := RunFlat(b.Seen(), ops);
    var i := 0;
    assert ops[0..] == ops;
    while i < |ops|
      invariant 0 <= i <= |ops| && fresh(b) && b.Valid() && Sensible(ops[i..], b.born) && older <= b.born
      invariant b.threadLocal !! older && b.noAliasOld !! older && b.unescaped !! older
      invariant RunFlat(b.Seen(), ops[i..]) == end
    {
      RunNext(b.Seen(), ops, i);
      assert ops[i..][0] == ops[i] && ops[i..][1..] == ops[i + 1..];
      match ops[i] {
        case Alloc(o, size) => b.Allocate(o, size);
        case Store(d, width, v, vague, shared, clash) => b.ExecuteStore(d, width, v, vague, shared, clash);
      }
      i := i + 1;
    }
    forall x, y | Leads(b.Seen().mem, x, y) ensures Points(b.contents, x, y) {
      LeadsPoints(b.contents, x, y);
    }
  }
}
