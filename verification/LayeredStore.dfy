/** The symbolic memory of one object: a single value, or an interval map of values laid over another
    store that shows through where the map has no extent (`ImprovedValSetMulti`; range writes are
    llpe/main/LoadForward.cpp:1787-1959). */
module LayeredStore {
  import opened Options
  import opened Extents
  import opened SymbolicValues
  import opened SubValues
  import opened ValueCuts
  import opened RangeClears

  const U64: nat := 0x1_0000_0000_0000_0000

  /** 64-bit unsigned arithmetic. */
  function Wrap(x: int): nat
  {
    x % U64
  }

  const UNKNOWN_SIZE: nat := U64 - 1

  /** What holds an object's bytes: one value, or a map over another store. A `Multi` is named by
      identity, a single value by itself. */
  datatype Store = Single(v: Val) | Layer(m: Multi)

  // ----- chains of layers

  /** `ms` are the maps met from `s` downwards; the last rests on a single value or on nothing. */
  ghost predicate Chain(s: Option<Store>, ms: seq<Multi>)
    reads ms
    decreases |ms|
  {
    if s.Some? && s.value.Layer? then ms != [] && ms[0] == s.value.m && Chain(ms[0].under, ms[1..])
    else ms == []
  }

  /** What a byte of the object holds: the topmost layer that has an extent there says; below the
      last map, nothing has been stored. */
  ghost function Look(s: Option<Store>, ms: seq<Multi>, b: nat): Abs
    requires Chain(s, ms)
    reads ms
    decreases |ms|
  {
    match s
    case None => OneOf({Anything})
    case Some(Single(v)) => ByteAt(v, b)
    case Some(Layer(m)) => if Peek(m.extents, b).Some? then Peek(m.extents, b).value else Look(m.under, ms[1..], b)
  }

  /** A store has one chain. */
  lemma {:induction false} ChainUnique(s: Option<Store>, a: seq<Multi>, b: seq<Multi>)
    requires Chain(s, a) && Chain(s, b)
    ensures a == b
    decreases |a|
  {
    if a != [] {
      ChainUnique(a[0].under, a[1..], b[1..]);
      assert a == [a[0]] + a[1..] && b == [b[0]] + b[1..];
    }
  }

  lemma {:induction false} ChainSuffix(s: Option<Store>, ms: seq<Multi>, i: nat)
    requires Chain(s, ms) && i < |ms|
    ensures Chain(Some(Layer(ms[i])), ms[i..])
    decreases |ms|
  {
    if i > 0 {
      ChainSuffix(ms[0].under, ms[1..], i - 1);
      assert ms[1..][i - 1..] == ms[i..];
    } else {
      assert ms[0..] == ms;
    }
  }

  /** No map lies below itself. */
  lemma ChainAcyclic(s: Option<Store>, ms: seq<Multi>)
    requires Chain(s, ms) && ms != []
    ensures ms[0] !in ms[1..]
  {
    if ms[0] in ms[1..] {
      var j :| 0 <= j < |ms[1..]| && ms[1..][j] == ms[0];
      ChainSuffix(s, ms, j + 1);
      ChainSuffix(s, ms, 0);
      ChainUnique(Some(Layer(ms[0])), ms[0..], ms[j + 1..]);
      assert false;
    }
  }

  /** Look through the top layer. */
  lemma LookTop(s: Option<Store>, ms: seq<Multi>, b: nat)
    requires Chain(s, ms) && ms != []
    ensures Look(s, ms, b) == if Peek(ms[0].extents, b).Some? then Peek(ms[0].extents, b).value else Look(ms[0].under, ms[1..], b)
  {
  }

  // ----- counting bytes

  /** How far a counter lags behind a total, in 64-bit arithmetic. */
  function Lag(total: int, counter: int): nat
  {
    Wrap(total - counter)
  }

  /** Adjusting the counter by what the total changed leaves the lag alone. */
  lemma LagKept(total: int, counter: int, change: int)
    ensures Lag(total + change, Wrap(counter + change)) == Lag(total, counter)
  {
  }

  /** While the lag stays the same and the total does not shrink, the difference stays the same. */
  lemma LagExact(total: int, counter: nat, total': int, counter': nat)
    requires Lag(total', counter') == Lag(total, counter) && counter <= total <= total' < U64 && counter' < U64
    ensures total' - counter' == total - counter
  {
    assert Wrap(total - counter) == total - counter;
  }

  lemma WithinMore(m: Pieces, a: nat, b: nat)
    requires Within(m, 0, a) && a <= b
    ensures Within(m, 0, b)
  {
  }

  lemma FindIs(m: Pieces, x: nat, k: nat)
    requires k <= |m| && (forall j :: 0 <= j < k ==> m[j].stop <= x) && (k < |m| ==> x < m[k].stop)
    ensures Find(m, x) == k
  {
  }

  lemma TotalDrop(p: Pieces, m: Pieces, k: nat)
    requires k < |m|
    ensures Total(p + m[k..]) == Total(p + m[k + 1..]) + (m[k].stop - m[k].start)
  {
    TotalConcat(p, m[k..]);
    TotalConcat(p, m[k + 1..]);
    assert m[k..] == [m[k]] + m[k + 1..];
    TotalConcat([m[k]], m[k + 1..]);
    assert [m[k]][..0] == [];
  }

  /** Replacing the extent at `k` by extents that lie end to end. */
  lemma TotalSwap(p: Pieces, m: Pieces, k: nat, fill: Pieces, lo: nat, hi: nat)
    requires k < |m| && Tiles(fill, lo, hi)
    ensures lo <= hi && Total(p + fill + m[k + 1..]) == Total(p + m[k..]) - (m[k].stop - m[k].start) + (hi - lo)
  {
    TilesSorted(fill, lo, hi);
    TotalDrop(p, m, k);
    TotalConcat(p, m[k + 1..]);
    TotalConcat(p + fill, m[k + 1..]);
    TotalConcat(p, fill);
  }

  lemma TotalInsert(p: Pieces, fill: Pieces, q: Pieces, lo: nat, hi: nat)
    requires Tiles(fill, lo, hi)
    ensures lo <= hi && Total(p + fill + q) == Total(p + q) + (hi - lo)
  {
    TilesSorted(fill, lo, hi);
    TotalConcat(p + fill, q);
    TotalConcat(p, fill);
    TotalConcat(p, q);
  }

  // ----- the three ways clearRange ends

  /** `left` covers the bytes before `lo` of an extent that reaches past it. */
  ghost predicate FillsLeft(left: Pieces, m: Pieces, lo: nat)
  {
    var l := LeftOf(m, lo);
    if l.Some? then Tiles(left, l.value.start, lo) else left == []
  }

  ghost predicate FillsRight(right: Pieces, m: Pieces, hi: nat)
  {
    var r := LeftOf(m, hi);
    if r.Some? then Tiles(right, hi, r.value.stop) else right == []
  }

  lemma ClearedFills(m: Pieces, lo: nat, hi: nat)
    requires MayClear(m, lo, hi)
    ensures FillsLeft(LeftRest(m, lo), m, lo) && FillsRight(RightRest(m, lo, hi), m, hi)
  {
    ClearedStands(m, lo, hi);
  }

  lemma HoleNothing(m: Pieces, lo: nat, hi: nat)
    requires Find(m, lo) == |m| && lo < hi
    ensures Holed(m, lo, hi, [], []) == m && LeftOf(m, lo) == LeftOf(m, hi) == None
  {
    FindIs(m, hi, |m|);
  }

  lemma HoleInside(m: Pieces, lo: nat, hi: nat, i: nat, left: Pieces, right: Pieces)
    requires Find(m, lo) == i < |m| && m[i].start < lo < hi < m[i].stop
    ensures LeftOf(m, hi) == Some(m[i]) && Holed(m, lo, hi, left, right) == m[..i] + left + right + m[i + 1..]
  {
    FindIs(m, hi, i);
  }

  /** Extents up to `k` erased, and the one at `k` trimmed if it starts before `hi`. */
  lemma HoleSpan(m: Pieces, lo: nat, hi: nat, i: nat, k: nat, left: Pieces, right: Pieces)
    requires Find(m, lo) == i <= k <= |m| && lo < hi && FillsRight(right, m, hi)
    requires (forall j :: i <= j < k ==> m[j].stop <= hi) && (k < |m| ==> hi < m[k].stop)
    ensures LeftOf(m, hi) == if k < |m| && m[k].start < hi then Some(m[k]) else None
    ensures Holed(m, lo, hi, left, right) ==
            if k < |m| && m[k].start < hi then (m[..i] + left) + (right + m[k + 1..]) else (m[..i] + left) + m[k..]
  {
    FindIs(m, hi, k);
  }

  /** A written map covers at least as much as before: what was cleared lay in the range. */
  lemma WrittenTotal(m: Pieces, lo: nat, hi: nat, end: nat, fill: Pieces)
    requires Sorted(m) && Within(m, 0, end) && MayClear(m, lo, hi) && lo < hi && Tiles(fill, lo, hi)
    ensures Total(m) <= Total(WrittenMap(m, lo, hi, fill))
  {
    ClearedFills(m, lo, hi);
    FilledTotal(m, lo, hi, LeftRest(m, lo), fill, RightRest(m, lo, hi));
  }

  lemma FilledTotal(m: Pieces, lo: nat, hi: nat, left: Pieces, fill: Pieces, right: Pieces)
    requires Sorted(m) && lo < hi && FillsLeft(left, m, lo) && FillsRight(right, m, hi) && Tiles(fill, lo, hi)
    ensures Total(m) <= Total((m[..Find(m, lo)] + left) + fill + (right + m[After(m, hi)..]))
  {
    var i, j, l, r := Find(m, lo), After(m, hi), LeftOf(m, lo), LeftOf(m, hi);
    CutPoints(m, lo, hi);
    var x, y := if l.Some? then l.value.start else lo, if r.Some? then r.value.stop else hi;
    if l.Some? {
      TilesSorted(left, x, lo);
    }
    if r.Some? {
      TilesSorted(right, hi, y);
    }
    TilesSorted(fill, lo, hi);
    MiddleTotal(m, lo, hi, i, j, x, y);
    TotalThree(m, i, j);
    TotalFive(m[..i], left, fill, right, m[j..]);
  }

  lemma TotalThree(m: Pieces, i: nat, j: nat)
    requires i <= j <= |m|
    ensures Total(m) == Total(m[..i]) + Total(m[i..j]) + Total(m[j..])
  {
    assert m == m[..i] + m[i..j] + m[j..];
    TotalConcat(m[..i] + m[i..j], m[j..]);
    TotalConcat(m[..i], m[i..j]);
  }

  lemma TotalFive(a: Pieces, b: Pieces, c: Pieces, d: Pieces, e: Pieces)
    ensures Total((a + b) + c + (d + e)) == Total(a) + Total(b) + Total(c) + Total(d) + Total(e)
  {
    TotalConcat((a + b) + c, d + e);
    TotalConcat(a + b, c);
    TotalConcat(a, b);
    TotalConcat(d, e);
  }

  lemma CutPoints(m: Pieces, lo: nat, hi: nat)
    requires lo < hi
    ensures Find(m, lo) <= After(m, hi) <= |m|
  {
  }

  /** What a range replaces covers no more than the range and the remainders. */
  lemma MiddleTotal(m: Pieces, lo: nat, hi: nat, i: nat, j: nat, x: nat, y: nat)
    requires Sorted(m) && lo < hi && i == Find(m, lo) <= j == After(m, hi) <= |m|
    requires x == (if LeftOf(m, lo).Some? then LeftOf(m, lo).value.start else lo)
    requires y == if LeftOf(m, hi).Some? then LeftOf(m, hi).value.stop else hi
    ensures x <= y && Total(m[i..j]) <= y - x
  {
    MiddleWithin(m, lo, hi, i, j, x, y);
    MiddleSorted(m, i, j);
    TotalBound(m[i..j], x, y);
  }

  lemma MiddleSorted(m: Pieces, i: nat, j: nat)
    requires Sorted(m) && i <= j <= |m|
    ensures Sorted(m[i..j])
  {
    assert m == m[..i] + m[i..j] + m[j..];
    SortedParts(m[..i] + m[i..j], m[j..]);
    SortedParts(m[..i], m[i..j]);
  }

  lemma MiddleWithin(m: Pieces, lo: nat, hi: nat, i: nat, j: nat, x: nat, y: nat)
    requires Sorted(m) && lo < hi && i == Find(m, lo) <= j == After(m, hi) <= |m|
    requires x == (if LeftOf(m, lo).Some? then LeftOf(m, lo).value.start else lo)
    requires y == if LeftOf(m, hi).Some? then LeftOf(m, hi).value.stop else hi
    ensures x <= y && Within(m[i..j], x, y)
  {
    var mid := m[i..j];
    forall k | 0 <= k < |mid| ensures x <= mid[k].start <= mid[k].stop <= y {
      assert mid[k] == m[i + k];
      if k > 0 {
        assert Precedes(m, i, i + k);
      }
      if i + k < j - 1 {
        assert Precedes(m, i + k, j - 1);
      }
    }
  }

  /** `truncateRight` and `truncateLeft` down to the bytes lo..hi of an extent, asking `canTruncate` first
      or not. */
  method Truncate(e: Extent<Val>, lo: nat, hi: nat, ask: bool) returns (ok: bool, r: Pieces)
    requires WellCut(e, lo, hi)
    ensures ok <==> !MultiSplat(e.val) && (ask || !NotConstant(e.val))
    ensures ok ==> r == if ask then Kept(e, lo, hi) else KeptBehind(e, lo, hi)
  {
    var v := e.val;
    r := [];
    if !CanTruncate(v) {
      if ask {
        return true, [Extent(lo, hi, Val(v.kind, [], true))];
      }
      if !v.items[0].v.K? {
        // getSingleConstant asserts
        return false, [];
      }
      return true, [Extent(lo, hi, if |v.items| == 1 then OVERDEF else v.SetOverdef())];
    }
    if !v.WhollyUnknown() && v.kind == KSplat && |v.items| != 1 {
      // a splat has one value
      return false, [];
    }
    return true, Truncated(v, e.stop - e.start, lo - e.start, hi - lo, e.start);
  }

  class Multi {
    var extents: Pieces
    var under: Option<Store>
    var covered: nat
    var allocSize: nat
    var refCount: nat

    /** Extents in order, within the object, each value describing its bytes. */
    ghost predicate Shaped()
      reads this
    {
      Sorted(extents) && Within(extents, 0, allocSize) && AllFit(extents) && allocSize < U64
    }

    /** How far the counter lags behind the bytes covered. */
    ghost function Gap(): nat
      reads this
    {
      Lag(Total(extents), covered)
    }

    /** The counter is a 64-bit number and never exceeds the number of bytes the map covers. */
    ghost predicate Counted()
      reads this
    {
      covered <= Total(extents) && covered < U64
    }

    constructor (size: nat)
      requires size < U64
      ensures Shaped() && covered == Total(extents) == 0
      ensures extents == [] && under == None && allocSize == size && refCount == 1
    {
      extents, under, covered, allocSize, refCount := [], None, 0, size, 1;
    }

    /** Put `fill`, which covers the bytes lo..hi of the extent at `i`, in its place. */
    method Swap(i: nat, fill: Pieces, ghost lo: nat, ghost hi: nat, dropped: nat)
      requires i < |extents| && Tiles(fill, lo, hi) && extents[i].start <= extents[i].stop
      requires lo <= hi && dropped == extents[i].stop - extents[i].start - (hi - lo)
      modifies this`extents, this`covered
      ensures extents == old(extents)[..i] + fill + old(extents)[i + 1..]
      ensures Gap() == old(Gap())
    {
      TotalSwap(extents[..i], extents, i, fill, lo, hi);
      assert extents[..i] + extents[i..] == extents;
      LagKept(Total(extents), covered, 0 - dropped);
      extents := extents[..i] + fill + extents[i + 1..];
      covered := Wrap(covered - dropped);
    }

    /** Drop the bytes lo..hi out of the middle of the extent at `i`: shorten it, then put a copy of
        what was there back behind the hole. */
    method PunchHole(i: nat, lo: nat, hi: nat, left: Pieces, right: Pieces)
      requires i < |extents| && extents[i].start < lo < hi < extents[i].stop
      requires Tiles(left, extents[i].start, lo) && Tiles(right, hi, extents[i].stop)
      modifies this`extents, this`covered
      ensures extents == old(extents)[..i] + left + right + old(extents)[i + 1..]
      ensures Gap() == old(Gap())
    {
      var e := extents[i];
      Swap(i, left, e.start, lo, e.stop - lo);
      var j := i + |left|;
      ghost var trimmed := extents;
      assert trimmed[..j] == old(extents)[..i] + left && trimmed[j..] == old(extents)[i + 1..];
      assert trimmed == trimmed[..j] + trimmed[j..];
      TotalInsert(trimmed[..j], right, trimmed[j..], hi, e.stop);
      LagKept(Total(trimmed), covered, e.stop - hi);
      extents := extents[..j] + right + extents[j..];
      covered := Wrap(covered + (e.stop - hi));
    }

    /** Erase the extent at `i`. */
    method Erase(i: nat)
      requires i < |extents|
      modifies this`extents, this`covered
      ensures extents == old(extents)[..i] + old(extents)[i + 1..]
      ensures Gap() == old(Gap())
    {
      TotalDrop(extents[..i], extents, i);
      assert extents == extents[..i] + extents[i..];
      LagKept(Total(extents), covered, -(extents[i].stop - extents[i].start));
      covered := Wrap(covered - (extents[i].stop - extents[i].start));
      extents := extents[..i] + extents[i + 1..];
    }

    /** Erase extents from `i` on as long as they end by `hi`. */
    method EraseUpTo(i: nat, hi: nat) returns (ghost k: nat)
      requires i <= |extents|
      modifies this`extents, this`covered
      ensures i <= k <= |old(extents)| && extents == old(extents)[..i] + old(extents)[k..]
      ensures forall j :: i <= j < k ==> old(extents)[j].stop <= hi
      ensures k < |old(extents)| ==> !(old(extents)[k].start < hi && old(extents)[k].stop <= hi)
      ensures Gap() == old(Gap())
    {
      ghost var was := extents;
      k := i;
      assert was == was[..i] + was[i..];
      while i < |extents| && extents[i].start < hi && extents[i].stop <= hi
        invariant i <= k <= |was| && extents == was[..i] + was[k..]
        invariant forall j :: i <= j < k ==> was[j].stop <= hi
        invariant Gap() == old(Gap())
        decreases |extents|
      {
        Erase(i);
        DropOne(was, i, k, extents);
        k := k + 1;
      }
    }

    /** The steps of `clearRange`, given what is left of the values that reach into the range. */
    method ClearWith(lo: nat, hi: nat, left: Pieces, right: Pieces)
      requires Sorted(extents) && lo < hi
      requires FillsLeft(left, extents, lo) && FillsRight(right, extents, hi)
      modifies this`extents, this`covered
      ensures extents == Holed(old(extents), lo, hi, left, right)
      ensures Gap() == old(Gap())
    {
      ghost var was := extents;
      var i := Find(extents, lo);
      if i == |extents| {
        HoleNothing(was, lo, hi);
        return;
      }
      var e := extents[i];
      if e.start < lo {
        if hi < e.stop {
          HoleInside(was, lo, hi, i, left, right);
          PunchHole(i, lo, hi, left, right);
          return;
        }
        Swap(i, left, e.start, lo, e.stop - lo);
        i := i + |left|;
        ClearRest(was, lo, hi, i, Find(was, lo) + 1, left, right);
      } else {
        assert extents == was[..i] + left + was[i..];
        ClearRest(was, lo, hi, i, i, left, right);
      }
    }

    /** The rest of `clearRange`, from the first extent that starts inside the range. */
    method ClearRest(ghost was: Pieces, lo: nat, hi: nat, i: nat, ghost start: nat, ghost left: Pieces, right: Pieces)
      requires Find(was, lo) <= start <= |was| && start <= Find(was, lo) + 1 && Sorted(was) && lo < hi
      requires start > Find(was, lo) ==> was[Find(was, lo)].stop <= hi
      requires extents == was[..Find(was, lo)] + left + was[start..] && i == Find(was, lo) + |left|
      requires FillsRight(right, was, hi)
      modifies this`extents, this`covered
      ensures extents == Holed(was, lo, hi, left, right)
      ensures Gap() == old(Gap())
    {
      ghost var trimmed := extents;
      ghost var k := EraseUpTo(i, hi);
      EraseDone(was, trimmed, left, right, lo, hi, start, i, k, extents);
      if i < |extents| && extents[i].start < hi {
        Swap(i, right, hi, extents[i].stop, hi - extents[i].start);
      }
    }

    /** Insert extents that cover lo..hi between what lies before and after it. */
    method Insert(lo: nat, hi: nat, fill: Pieces, ghost front: Pieces, ghost back: Pieces)
      requires extents == front + back && Tiles(fill, lo, hi) && lo < hi
      requires forall x :: x in front ==> x.stop <= lo
      requires forall x :: x in back ==> hi <= x.start < x.stop
      modifies this`extents, this`covered
      ensures extents == front + fill + back && Gap() == old(Gap()) && covered < U64
    {
      var i := Find(extents, lo);
      FindIs(extents, lo, |front|);
      assert extents[..i] == front && extents[i..] == back;
      TotalInsert(front, fill, back, lo, hi);
      LagKept(Total(extents), covered, hi - lo);
      extents := extents[..i] + fill + extents[i..];
      covered := Wrap(covered + (hi - lo));
    }

    /** `clearRange`: remove the bytes lo..hi, truncating the values that reach into the range, unless an
        assertion fails. */
    method ClearRange(lo: nat, hi: nat) returns (ok: bool)
      requires Sorted(extents) && Within(extents, 0, allocSize) && lo < hi <= allocSize && var well := CutsWell(extents, lo, hi); well
      modifies this`extents, this`covered
      ensures ok <==> !Asserts(old(extents), lo, hi)
      ensures ok ==> extents == ClearedMap(old(extents), lo, hi)
      ensures ok ==> var cleared := ClearedOf(extents, old(extents), lo, hi, allocSize); cleared
      ensures ok ==> Gap() == old(Gap())
    {
      var left, right;
      ok, left, right := Rests(lo, hi);
      if !ok {
        return;
      }
      CutsOrAsserts(extents, lo, hi);
      Cleared(extents, lo, hi, allocSize);
      ClearedFills(extents, lo, hi);
      ClearWith(lo, hi, left, right);
    }

    /** What is left of the values that reach into a range. */
    method Rests(lo: nat, hi: nat) returns (ok: bool, left: Pieces, right: Pieces)
      requires lo < hi && var well := CutsWell(extents, lo, hi); well
      ensures ok <==> !Asserts(extents, lo, hi)
      ensures ok ==> left == LeftRest(extents, lo) && right == RightRest(extents, lo, hi)
    {
      var l, r := LeftOf(extents, lo), LeftOf(extents, hi);
      ok, left, right := true, [], [];
      if l.Some? {
        assert WellCut(l.value, l.value.start, lo);
        ok, left := Truncate(l.value, l.value.start, lo, true);
        if !ok {
          return;
        }
      }
      if r.Some? {
        assert WellCut(r.value, hi, r.value.stop);
        ok, right := Truncate(r.value, hi, r.value.stop, l != r);
      }
    }

    /** Clear the bytes lo..hi and put `fill` there. */
    method Overwrite(lo: nat, hi: nat, fill: Pieces)
      requires allocSize < U64 && Counted() && var may := MayWrite(extents, lo, hi, allocSize, fill); may
      modifies this`extents, this`covered
      ensures Shaped() && extents == WrittenMap(old(extents), lo, hi, fill)
      ensures Total(extents) - covered == old(Total(extents) - covered) && Counted()
    {
      ghost var was, counted := extents, covered;
      ghost var front, back := was[..Find(was, lo)] + LeftRest(was, lo), RightRest(was, lo, hi) + was[After(was, hi)..];
      WrittenShape(was, lo, hi, allocSize, fill, front, back);
      Refill(lo, hi, fill, front, back);
      LagExact(Total(was), counted, Total(extents), covered);
    }

    /** `ClearRange` where no assertion fails. */
    method ClearAll(lo: nat, hi: nat)
      requires Sorted(extents) && Within(extents, 0, allocSize) && lo < hi <= allocSize && var may := MayClear(extents, lo, hi); may
      modifies this`extents, this`covered
      ensures extents == ClearedMap(old(extents), lo, hi) && Gap() == old(Gap())
    {
      ClearsWell(extents, lo, hi);
      var ok := ClearRange(lo, hi);
    }

    /** Clear the bytes lo..hi, then insert `fill` there. */
    method Refill(lo: nat, hi: nat, fill: Pieces, ghost front: Pieces, ghost back: Pieces)
      requires Sorted(extents) && Within(extents, 0, allocSize) && lo < hi <= allocSize && Tiles(fill, lo, hi)
      requires var may := MayClear(extents, lo, hi); may
      requires ClearedMap(extents, lo, hi) == front + back
      requires forall x :: x in front ==> x.stop <= lo
      requires forall x :: x in back ==> hi <= x.start < x.stop
      modifies this`extents, this`covered
      ensures extents == front + fill + back && Gap() == old(Gap()) && covered < U64
    {
      ClearAll(lo, hi);
      Insert(lo, hi, fill, front, back);
    }

    /** The store below is dropped once nothing of it can show. */
    method DropCovered()
      requires Shaped() && Counted()
      modifies this`under
      ensures under == (if covered == allocSize then None else old(under)) && (covered == allocSize ==> Total(extents) == allocSize)
    {
      TotalBound(extents, 0, allocSize);
      if under.Some? && covered == allocSize {
        under := None;
      }
    }

    /** `replaceRangeWithPB`: write one value over a range, growing the object if the range goes past
        its end. The counter keeps its distance from the bytes covered, and the store below is dropped
        when the counter says that every byte is covered, which is then so. */
    method ReplaceRange(v: Val, off: nat, size: nat)
      requires Shaped() && Counted()
      requires size > 0 && (if size == UNKNOWN_SIZE then v.overdef && (off == 0 || off < allocSize) else off + size < U64)
      requires var end := WriteEnd(off, size, allocSize); Fits(v, end - off) && var may := MayClear(extents, off, end); may
      modifies this`extents, this`covered, this`allocSize, this`under
      ensures Shaped() && Counted() && allocSize == GrownSize(off, size, old(allocSize))
      ensures var end := WriteEnd(off, size, old(allocSize)); extents == WrittenMap(old(extents), off, end, [Extent(off, end, v)])
      ensures Total(extents) - covered == old(Total(extents) - covered)
      ensures under == (if covered == allocSize then None else old(under)) && (covered == allocSize ==> Total(extents) == allocSize)
    {
      var grown := Wrap(off + size);
      if grown > allocSize {
        allocSize := grown;
      }
      var n := if size == UNKNOWN_SIZE then allocSize - off else size;
      var end := off + n;
      WriteEndIs(off, size, old(allocSize));
      assert end == WriteEnd(off, size, old(allocSize)) && allocSize == GrownSize(off, size, old(allocSize));
      MayWriteOne(extents, off, end, old(allocSize), allocSize, v);
      ReplaceRangeMany([Extent(off, end, v)], off, end);
    }

    /** `ReplaceRange`, with the range and the value given as an extent. */
    method Put(e: Extent<Val>, ghost end: nat)
      requires Shaped() && Counted() && allocSize <= end < UNKNOWN_SIZE && e.start < e.stop && Fits(e.val, e.stop - e.start)
      requires var may := MayWrite(extents, e.start, e.stop, end, [e]); may
      modifies this`extents, this`covered, this`allocSize, this`under
      ensures Shaped() && Counted() && old(allocSize) <= allocSize <= end
      ensures extents == WrittenMap(old(extents), e.start, e.stop, [e])
      ensures Total(extents) - covered == old(Total(extents) - covered)
      ensures under == (if covered == allocSize then None else old(under)) && (covered == allocSize ==> Total(extents) == allocSize)
    {
      MayWriteClear(extents, e.start, e.stop, end, [e]);
      assert e.stop <= end && WriteEnd(e.start, e.stop - e.start, allocSize) == e.stop;
      assert Extent(e.start, e.stop, e.val) == e;
      ReplaceRange(e.val, e.start, e.stop - e.start);
    }

    /** `ReplaceRange` on the top of a chain: every byte of the range reads as the value and every
        byte outside it as before, except that what is left of a value reaching into the range may
        allow more. */
    method WriteTop(v: Val, off: nat, size: nat, ghost ms: seq<Multi>) returns (ghost now: seq<Multi>)
      requires Shaped() && Counted() && Chain(Some(Layer(this)), ms)
      requires size > 0 && (if size == UNKNOWN_SIZE then v.overdef && (off == 0 || off < allocSize) else off + size < U64)
      requires var end := WriteEnd(off, size, allocSize); Fits(v, end - off) && var may := MayClear(extents, off, end); may
      modifies this`extents, this`covered, this`allocSize, this`under
      ensures var ok := Shaped() && Counted() && Total(extents) - covered == old(Total(extents) - covered); ok
      ensures var end := WriteEnd(off, size, old(allocSize)); extents == WrittenMap(old(extents), off, end, [Extent(off, end, v)])
      ensures allocSize == GrownSize(off, size, old(allocSize))
      ensures Chain(Some(Layer(this)), now) && under == (if covered == allocSize then None else old(under)) && now == if under == old(under) then ms else [this]
      ensures var end := WriteEnd(off, size, old(allocSize));
              forall b: nat :: b < GrownSize(off, size, old(allocSize)) ==>
                ReadsWritten(Look(Some(Layer(this)), now, b), old(Look(Some(Layer(this)), ms, b)), old(extents), off, end, [Extent(off, end, v)], b)
    {
      ghost var n := GrownSize(off, size, allocSize);
      ghost var deep := map b: nat | b < n :: Look(under, ms[1..], b);
      ghost var top := map b: nat | b < n :: Look(Some(Layer(this)), ms, b);
      TopOf(this, ms, n, top, deep);
      now := WriteOver(v, off, size, ms, n, top, deep);
      ToppedShape(this, n, old(under));
    }

    /** The write, which leaves a map that `MayWrite` says could be written. */
    method WriteMarked(v: Val, off: nat, size: nat, ghost n: nat, ghost below: Option<Store>)
      requires n == GrownSize(off, size, allocSize) && under == below && var ok := Shaped() && Counted(); ok
      requires size > 0 && (if size == UNKNOWN_SIZE then v.overdef && (off == 0 || off < allocSize) else off + size < U64)
      requires var end := WriteEnd(off, size, allocSize); Fits(v, end - off) && var may := MayClear(extents, off, end); may
      modifies this`extents, this`covered, this`allocSize, this`under
      ensures var ok := Topped(this, n, below); ok
      ensures var ok := Counted() && Total(extents) - covered == old(Total(extents) - covered); ok
      ensures under == if covered == allocSize then None else old(under)
      ensures var was, end := old(extents), WriteEnd(off, size, old(allocSize));
              extents == WrittenMap(was, off, end, [Extent(off, end, v)]) && var may := MayWrite(was, off, end, n, [Extent(off, end, v)]); may
    {
      MayWriteOne(extents, off, WriteEnd(off, size, allocSize), allocSize, n, v);
      ReplaceRange(v, off, size);
    }

    /** ... and leaves what lies deeper as it is. */
    method WriteFramed(v: Val, off: nat, size: nat, ghost n: nat, ghost below: Option<Store>, ghost rest: seq<Multi>, ghost deep: map<nat, Abs>)
      requires n == GrownSize(off, size, allocSize) && under == below && var ok := Shaped() && Counted(); ok
      requires size > 0 && (if size == UNKNOWN_SIZE then v.overdef && (off == 0 || off < allocSize) else off + size < U64)
      requires var end := WriteEnd(off, size, allocSize); Fits(v, end - off) && var may := MayClear(extents, off, end); may
      requires this !in rest && Chain(below, rest) && var deeps := Deeps(below, rest, n, deep); deeps
      modifies this`extents, this`covered, this`allocSize, this`under
      ensures Chain(below, rest) && var deeps := Deeps(below, rest, n, deep); deeps
      ensures var ok := Topped(this, n, below); ok
      ensures var ok := Counted() && Total(extents) - covered == old(Total(extents) - covered); ok
      ensures under == if covered == allocSize then None else old(under)
      ensures var was, end := old(extents), WriteEnd(off, size, old(allocSize));
              extents == WrittenMap(was, off, end, [Extent(off, end, v)]) && var may := MayWrite(was, off, end, n, [Extent(off, end, v)]); may
    {
      WriteMarked(v, off, size, n, below);
    }

    /** The write, given what the bytes read as before. */
    method WriteOver(v: Val, off: nat, size: nat, ghost ms: seq<Multi>, ghost n: nat, ghost top: map<nat, Abs>, ghost deep: map<nat, Abs>)
      returns (ghost now: seq<Multi>)
      requires n == GrownSize(off, size, allocSize) && var ok := Shaped() && Counted(); ok
      requires size > 0 && (if size == UNKNOWN_SIZE then v.overdef && (off == 0 || off < allocSize) else off + size < U64)
      requires var end := WriteEnd(off, size, allocSize); Fits(v, end - off) && var may := MayClear(extents, off, end); may
      requires ms != [] && ms[0] == this && this !in ms[1..] && Chain(under, ms[1..])
      requires (var tops := Tops(extents, n, top, deep); tops) && var deeps := Deeps(under, ms[1..], n, deep); deeps
      modifies this`extents, this`covered, this`allocSize, this`under
      ensures now == if under == old(under) then ms else [this]
      ensures var end := WriteEnd(off, size, old(allocSize)); extents == WrittenMap(old(extents), off, end, [Extent(off, end, v)])
      ensures var ok := Topped(this, n, old(under)); ok
      ensures var ok := Counted() && Total(extents) - covered == old(Total(extents) - covered); ok
      ensures under == if covered == allocSize then None else old(under)
      ensures var end := WriteEnd(off, size, old(allocSize));
              var ok := TopWritten(this, now, n, top, old(extents), off, end, [Extent(off, end, v)]); ok
    {
      ghost var was, below, rest, end := extents, under, ms[1..], WriteEnd(off, size, allocSize);
      WriteFramed(v, off, size, n, below, rest, deep);
      now := if under == below then ms else [this];
      assert now[1..] == if under == below then rest else [];
      TopReads(this, now, below, rest, was, off, end, [Extent(off, end, v)], n, top, deep);
    }

    /** `replaceRangeWithPBs`: write a list of extents that lie end to end over an in-bounds range. */
    method ReplaceRangeMany(fill: Pieces, lo: nat, hi: nat)
      requires allocSize < U64 && Counted() && var may := MayWrite(extents, lo, hi, allocSize, fill); may
      modifies this`extents, this`covered, this`under
      ensures Shaped() && Counted() && extents == WrittenMap(old(extents), lo, hi, fill)
      ensures Total(extents) - covered == old(Total(extents) - covered)
      ensures under == (if covered == allocSize then None else old(under)) && (covered == allocSize ==> Total(extents) == allocSize)
    {
      Overwrite(lo, hi, fill);
      DropCovered();
    }
  }

  // ----- writes, seen from above

  /** The bytes a write of `size` from `off` covers, and the size the object is then taken to have:
      a write past the end grows it, and a write of unknown size goes to the end. */
  function WriteEnd(off: nat, size: nat, allocSize: nat): nat
  {
    if size == UNKNOWN_SIZE && off > 0 then allocSize else off + size
  }

  function GrownSize(off: nat, size: nat, allocSize: nat): nat
  {
    if WriteEnd(off, size, allocSize) > allocSize then WriteEnd(off, size, allocSize) else allocSize
  }

  /** The source's arithmetic for the end of a write, in 64 bits. */
  lemma WriteEndIs(off: nat, size: nat, allocSize: nat)
    requires size > 0 && allocSize < U64
    requires if size == UNKNOWN_SIZE then off == 0 || off < allocSize else off + size < U64
    ensures var grown := Wrap(off + size);
            var now := if grown > allocSize then grown else allocSize;
            && now == GrownSize(off, size, allocSize) < U64
            && off < WriteEnd(off, size, allocSize) <= now
            && WriteEnd(off, size, allocSize) == off + if size == UNKNOWN_SIZE then now - off else size
  {
    if size == UNKNOWN_SIZE && off > 0 {
      assert off + size == U64 + (off - 1);
      assert Wrap(off + size) == off - 1;
    } else {
      assert Wrap(off + size) == off + size;
    }
  }

  /** `fill` may be written over lo..hi of a well-formed map. */
  ghost predicate MayWrite(m: Pieces, lo: nat, hi: nat, end: nat, fill: Pieces)
  {
    && Sorted(m) && Within(m, 0, end) && AllFit(m) && lo < hi <= end && Tiles(fill, lo, hi) && AllFit(fill)
    && MayClear(m, lo, hi)
  }

  lemma MayWriteClear(m: Pieces, lo: nat, hi: nat, end: nat, fill: Pieces)
    requires var may := MayWrite(m, lo, hi, end, fill); may
    ensures var may := MayClear(m, lo, hi); may
  {
  }

  lemma MayWriteOne(m: Pieces, lo: nat, hi: nat, size: nat, end: nat, v: Val)
    requires Sorted(m) && Within(m, 0, size) && AllFit(m) && lo < hi <= end && size <= end && Fits(v, hi - lo)
    requires var may := MayClear(m, lo, hi); may
    ensures var may := MayWrite(m, lo, hi, end, [Extent(lo, hi, v)]); may
  {
    TilesOne(Extent(lo, hi, v));
    WithinMore(m, size, end);
  }

  /** A map that covers the whole object hides what lies under it. */
  lemma FullyCovered(m: Pieces, size: nat, b: nat)
    requires Sorted(m) && Within(m, 0, size) && Total(m) == size && b < size
    ensures Peek(m, b).Some?
  {
    TotalBound(m, 0, size);
  }

  /** What a byte reads as after the range lo..hi of the top layer was written with `fill`, given
      what it read as before. */
  ghost predicate ReadsWritten(now: Abs, was: Abs, m: Pieces, lo: nat, hi: nat, fill: Pieces, b: nat)
  {
    if lo <= b < hi then Peek(fill, b) == Some(now)
    else if Straddles(m, lo, hi, b) then StandsAt(now, was, if b < lo then LeftExact(m, lo) else RightExact(m, hi))
    else now == was
  }

  /** The top layer's new map, over whatever was under it, reads as written. */
  lemma WrittenLook(m: Pieces, lo: nat, hi: nat, end: nat, fill: Pieces, b: nat, below: Abs)
    requires var may := MayWrite(m, lo, hi, end, fill); may
    ensures var p, q := Peek(m, b), Peek(WrittenMap(m, lo, hi, fill), b);
            var ok := ReadsWritten(if q.Some? then q.value else below, if p.Some? then p.value else below, m, lo, hi, fill, b); ok
  {
    Written(m, lo, hi, end, fill, b);
  }

  /** What the bytes read as through a map over what lies deeper. */
  ghost predicate Tops(was: Pieces, n: nat, top: map<nat, Abs>, deep: map<nat, Abs>)
  {
    forall b: nat :: b < n ==> b in deep && b in top && top[b] == if Peek(was, b).Some? then Peek(was, b).value else deep[b]
  }

  ghost predicate Deeps(under: Option<Store>, ms: seq<Multi>, n: nat, deep: map<nat, Abs>)
    requires Chain(under, ms)
    reads ms
  {
    forall b: nat :: b < n ==> b in deep && Look(under, ms, b) == deep[b]
  }

  /** A well-formed map over what it lay over, unless it covers every byte. */
  ghost predicate Topped(m: Multi, n: nat, below: Option<Store>)
    reads m
  {
    m.Shaped() && m.allocSize == n && (m.under == below || (m.under == None && Total(m.extents) == n))
  }

  /** ... and as it reads after a write to the map. */
  ghost predicate TopWritten(m: Multi, now: seq<Multi>, n: nat, top: map<nat, Abs>, was: Pieces, lo: nat, hi: nat, fill: Pieces)
    reads m, now
  {
    Chain(Some(Layer(m)), now) && forall b: nat :: b < n ==> b in top && ReadsWritten(Look(Some(Layer(m)), now, b), top[b], was, lo, hi, fill, b)
  }

  lemma ToppedShape(m: Multi, n: nat, below: Option<Store>)
    requires Topped(m, n, below)
    ensures m.allocSize == n && var ok := m.Shaped(); ok
  {
  }

  lemma TopOf(m: Multi, ms: seq<Multi>, n: nat, top: map<nat, Abs>, deep: map<nat, Abs>)
    requires Chain(Some(Layer(m)), ms)
    requires forall b: nat :: b < n ==> b in deep && Look(m.under, ms[1..], b) == deep[b]
    requires forall b: nat :: b < n ==> b in top && Look(Some(Layer(m)), ms, b) == top[b]
    ensures ms[0] == m && m !in ms[1..] && Chain(m.under, ms[1..]) && var tops := Tops(m.extents, n, top, deep); tops
    ensures var deeps := Deeps(m.under, ms[1..], n, deep); deeps
  {
    ChainAcyclic(Some(Layer(m)), ms);
    forall b: nat | b < n ensures top[b] == if Peek(m.extents, b).Some? then Peek(m.extents, b).value else deep[b] {
      LookTop(Some(Layer(m)), ms, b);
    }
  }

  /** ... after a write to that map. */
  lemma TopReads(m: Multi, now: seq<Multi>, under: Option<Store>, rest: seq<Multi>, was: Pieces, lo: nat, hi: nat, fill: Pieces,
                 n: nat, top: map<nat, Abs>, deep: map<nat, Abs>)
    requires (var ok := Topped(m, n, under); ok) && m.extents == WrittenMap(was, lo, hi, fill) && var may := MayWrite(was, lo, hi, n, fill); may
    requires Chain(under, rest) && (var deeps := Deeps(under, rest, n, deep); deeps) && var tops := Tops(was, n, top, deep); tops
    requires now != [] && now[0] == m && now[1..] == if m.under == under then rest else []
    ensures var ok := TopWritten(m, now, n, top, was, lo, hi, fill); ok
  {
    assert Chain(Some(Layer(m)), now);
    forall b: nat | b < n
      ensures b in top && var ok := ReadsWritten(Look(Some(Layer(m)), now, b), top[b], was, lo, hi, fill, b); ok
    {
      TopByte(m, now, under, rest, n, deep, b);
      WrittenLook(was, lo, hi, n, fill, b, deep[b]);
    }
  }

  lemma TopByte(m: Multi, now: seq<Multi>, under: Option<Store>, rest: seq<Multi>, n: nat, deep: map<nat, Abs>, b: nat)
    requires Chain(Some(Layer(m)), now) && Chain(under, rest) && b < n && var deeps := Deeps(under, rest, n, deep); deeps
    requires now[1..] == (if m.under == under then rest else []) && var ok := Topped(m, n, under); ok
    ensures b in deep && Look(Some(Layer(m)), now, b) == if Peek(m.extents, b).Some? then Peek(m.extents, b).value else deep[b]
  {
    LookTop(Some(Layer(m)), now, b);
    if m.under != under {
      FullyCovered(m.extents, n, b);
    }
  }

  /** In a cleared map nothing before the range reaches into it and nothing after it starts in it. */
  lemma ClearedBounds(m: Pieces, lo: nat, hi: nat, end: nat)
    requires Sorted(m) && Within(m, 0, end) && MayClear(m, lo, hi) && lo < hi
    ensures forall x :: x in m[..Find(m, lo)] + LeftRest(m, lo) ==> x.stop <= lo
    ensures forall x :: x in RightRest(m, lo, hi) + m[After(m, hi)..] ==> hi <= x.start < x.stop
  {
    ClearedStands(m, lo, hi);
    HoledSorted(m, lo, hi, end, LeftRest(m, lo), RightRest(m, lo, hi), LeftExact(m, lo), RightExact(m, hi));
    var back := RightRest(m, lo, hi) + m[After(m, hi)..];
    SortedParts(m[..Find(m, lo)] + LeftRest(m, lo), back);
  }

  /** Everything a write leaves true of the map. */
  lemma WrittenShape(m: Pieces, lo: nat, hi: nat, end: nat, fill: Pieces, front: Pieces, back: Pieces)
    requires var may := MayWrite(m, lo, hi, end, fill); may
    requires front == m[..Find(m, lo)] + LeftRest(m, lo) && back == RightRest(m, lo, hi) + m[After(m, hi)..]
    ensures ClearedMap(m, lo, hi) == front + back && WrittenMap(m, lo, hi, fill) == front + fill + back
    ensures forall x :: x in front ==> x.stop <= lo
    ensures forall x :: x in back ==> hi <= x.start < x.stop
    ensures var now := WrittenMap(m, lo, hi, fill);
            Sorted(now) && Within(now, 0, end) && AllFit(now) && Total(m) <= Total(now) <= end
  {
    Written(m, lo, hi, end, fill, 0);
    WrittenFits(m, lo, hi, end, fill);
    WrittenTotal(m, lo, hi, end, fill);
    ClearedBounds(m, lo, hi, end);
    TotalBound(WrittenMap(m, lo, hi, fill), 0, end);
  }

  lemma SwapBehind(front: Pieces, m: Pieces, k: nat, fill: Pieces, now: Pieces, i: nat)
    requires k <= |m| && now == front + m[k..] && i == |front|
    ensures i < |now| <==> k < |m|
    ensures k < |m| ==> now[i] == m[k] && now[..i] + fill + now[i + 1..] == front + (fill + m[k + 1..])
  {
  }

  lemma DropOne(m: Pieces, i: nat, k: nat, now: Pieces)
    requires i <= k < |m| && |now| == i + (|m| - k - 1)
    requires now == (m[..i] + m[k..])[..i] + (m[..i] + m[k..])[i + 1..]
    ensures now == m[..i] + m[k + 1..]
  {
  }

  /** After erasing behind the remainder on the left, the original map from `k` on is what is left. */
  lemma SpanErased(was: Pieces, trimmed: Pieces, left: Pieces, f: nat, start: nat, i: nat, k: nat, hi: nat, now: Pieces)
    requires f <= start <= |was| && start <= f + 1 && (start > f ==> was[f].stop <= hi) && Sorted(was)
    requires trimmed == was[..f] + left + was[start..] && i == f + |left| && start <= k
    requires var j := k - start + i; j <= |trimmed| && now == trimmed[..i] + trimmed[j..]
    requires forall j :: i <= j < k - start + i ==> trimmed[j].stop <= hi
    requires var j := k - start + i; j < |trimmed| ==> !(trimmed[j].start < hi && trimmed[j].stop <= hi)
    ensures k <= |was| && now == was[..f] + left + was[k..]
    ensures forall j :: f <= j < k ==> was[j].stop <= hi
    ensures k < |was| ==> hi < was[k].stop
  {
    assert trimmed[..i] == was[..f] + left;
    assert trimmed[k - start + i..] == was[k..];
    forall j | start <= j < k ensures was[j].stop <= hi {
      assert trimmed[j - start + i] == was[j];
    }
    assert k < |was| ==> trimmed[k - start + i] == was[k];
  }

  /** What is left to do after erasing: nothing, or trimming one extent. */
  lemma EraseDone(was: Pieces, trimmed: Pieces, left: Pieces, right: Pieces, lo: nat, hi: nat, start: nat, i: nat, j: nat, now: Pieces)
    requires var f := Find(was, lo);
             && f <= start <= |was| && start <= f + 1 && (start > f ==> was[f].stop <= hi)
             && trimmed == was[..f] + left + was[start..] && i == f + |left|
    requires Sorted(was) && lo < hi && FillsRight(right, was, hi)
    requires i <= j <= |trimmed| && now == trimmed[..i] + trimmed[j..]
    requires forall n :: i <= n < j ==> trimmed[n].stop <= hi
    requires j < |trimmed| ==> !(trimmed[j].start < hi && trimmed[j].stop <= hi)
    ensures if i < |now| && now[i].start < hi
            then hi < now[i].stop && Tiles(right, hi, now[i].stop) && now[..i] + right + now[i + 1..] == Holed(was, lo, hi, left, right)
            else now == Holed(was, lo, hi, left, right)
  {
    var f := Find(was, lo);
    var front, k := was[..f] + left, start + (j - i);
    SpanErased(was, trimmed, left, f, start, i, k, hi, now);
    HoleSpan(was, lo, hi, f, k, left, right);
    SwapBehind(front, was, k, right, now, i);
  }
}
