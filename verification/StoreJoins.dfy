/** Whole stores joined at control-flow joins: `LocStore::mergeStores`
    (llpe/main/LoadForward.cpp:3735-3784, 3912-3973). */
module StoreJoins {
  import opened Options
  import opened Extents
  import opened SymbolicValues
  import opened SubValues
  import opened ValueCuts
  import opened RangeClears
  import opened LayeredStore
  import opened Stacks
  import opened ExtentReads
  import opened StoreMerge
  import A = AncestorSearch

  // ----- the part of a chain below a store on it

  /** The maps from `x` downwards. */
  ghost function From(x: Store, ms: seq<Multi>): seq<Multi>
  {
    if x.Single? then []
    else if ms == [] then []
    else if ms[0] == x.m then ms
    else From(x, ms[1..])
  }

  /** A store on a chain has its own chain below it, and is cut as cleanly. */
  lemma {:induction false} FromChain(x: Store, s: Store, ms: seq<Multi>, size: nat, cuts: iset<nat>)
    requires Chain(Some(s), ms) && A.OnChain(x, s, ms) && StackSlices(StackOf(Some(s), ms, None), size, cuts)
    ensures Chain(Some(x), From(x, ms)) && StackSlices(StackOf(Some(x), From(x, ms), None), size, cuts)
    ensures forall m :: m in From(x, ms) ==> m in ms
    decreases |ms|
  {
    if ms != [] && !(x.Layer? && ms[0] == x.m) {
      if ms[0].under.Some? {
        StackUnder(Some(s), ms, None);
        FromChain(x, ms[0].under.value, ms[1..], size, cuts);
      }
    }
  }

  /** Looking no further than a threshold asks for no more cuts. */
  lemma {:induction false} ThresholdSlices(s: Option<Store>, ms: seq<Multi>, threshold: Option<Store>, size: nat, cuts: iset<nat>)
    requires Chain(s, ms) && StackSlices(StackOf(s, ms, None), size, cuts)
    ensures StackSlices(StackOf(s, ms, threshold), size, cuts)
    decreases |ms|
  {
    if ms != [] && !(threshold.Some? && s == threshold) {
      StackUnder(s, ms, None);
      StackUnder(s, ms, threshold);
      ThresholdSlices(ms[0].under, ms[1..], threshold, size, cuts);
    }
  }

  /** Where a threshold shows through, the store holds what the threshold store holds. */
  lemma {:induction false} ThroughLook(s: Store, ms: seq<Multi>, x: Store, b: nat)
    requires Chain(Some(s), ms) && A.OnChain(x, s, ms) && Chain(Some(x), From(x, ms)) && Through(StackOf(Some(s), ms, Some(x)), b)
    ensures Look(Some(s), ms, b) == Look(Some(x), From(x, ms), b)
    decreases |ms|
  {
    if s == x {
      if x.Layer? {
        assert From(x, ms) == ms;
      }
    } else if ms != [] {
      StackUnder(Some(s), ms, Some(x));
      if ms[0].under.Some? {
        ThroughLook(ms[0].under.value, ms[1..], x, b);
      }
    }
  }

  /** Stores that are the same hold the same. */
  lemma SameLooks(x: Store, y: Store, xm: seq<Multi>, ym: seq<Multi>, b: nat)
    requires A.SameStore(x, y) && Chain(Some(x), xm) && Chain(Some(y), ym)
    ensures Look(Some(x), xm, b) == Look(Some(y), ym, b)
  {
    if x.Single? {
      A.SameValBytes(x.v, y.v, b);
    } else {
      ChainUnique(Some(x), xm, ym);
    }
  }

  // ----- the nearest common ancestor

  /** The ancestors found on the two sides, if the chains are related: the first map the chains share, or
      if they share none the equal single values at the bottom. */
  ghost predicate Ancestors(la: Option<Store>, ra: Option<Store>, to: Store, tms: seq<Multi>, from: Store, fms: seq<Multi>)
    reads tms, fms
  {
    && Chain(Some(to), tms) && Chain(Some(from), fms)
    && (la.Some? <==> A.Related(to, tms, from, fms)) && (ra.Some? <==> la.Some?)
    && (la.Some? ==>
          && A.OnChain(la.value, to, tms) && A.OnChain(ra.value, from, fms)
          && A.SameStore(la.value, ra.value) && A.MeetAt(la.value, ra.value, tms, fms))
  }

  /** No map of `ms` has the byte, other than those it shares with the other chain. */
  ghost predicate Bare(ms: seq<Multi>, others: seq<Multi>, b: nat)
    reads ms
  {
    forall m :: m in ms && m !in others ==> Peek(m.extents, b).None?
  }

  /** The chains are related, and neither overrides the byte above where they meet. */
  ghost predicate Untouched(to: Store, tms: seq<Multi>, from: Store, fms: seq<Multi>, b: nat)
    requires Chain(Some(to), tms) && Chain(Some(from), fms)
    reads tms, fms
  {
    A.Related(to, tms, from, fms) && Bare(tms, fms, b) && Bare(fms, tms, b)
  }

  /** How many of the bytes before `n` some side overrides. */
  ghost function Overridden(to: Store, tms: seq<Multi>, from: Store, fms: seq<Multi>, n: nat): nat
    requires Chain(Some(to), tms) && Chain(Some(from), fms)
    reads tms, fms
  {
    if n == 0 then 0 else Overridden(to, tms, from, fms, n - 1) + if Untouched(to, tms, from, fms, n - 1) then 0 else 1
  }

  /** A store on a chain shows through where no map above it has the byte. */
  lemma {:induction false} ThroughAbove(s: Store, ms: seq<Multi>, x: Store, k: nat, b: nat)
    requires Chain(Some(s), ms) && A.OnChain(x, s, ms) && k <= |ms|
    requires if x.Layer? then k < |ms| && ms[k] == x.m else k == |ms|
    ensures Through(StackOf(Some(s), ms, Some(x)), b) <==> forall i: nat :: i < k ==> Peek(ms[i].extents, b).None?
    decreases |ms|
  {
    if s == x {
      if x.Layer? && k > 0 {
        A.NoRepeat(Some(s), ms, 0, k);
      }
    } else if ms != [] {
      StackUnder(Some(s), ms, Some(x));
      if x.Layer? {
        assert k > 0;
      }
      ThroughAbove(ms[0].under.value, ms[1..], x, k - 1, b);
      assert forall i: nat :: 0 < i < k ==> ms[i] == ms[1..][i - 1];
      assert forall i: nat :: i < k - 1 ==> ms[1..][i] == ms[i + 1];
    }
  }

  /** Where the chains meet shows through exactly where the side is bare. */
  lemma ThroughBare(s: Store, ms: seq<Multi>, x: Store, t: Store, others: seq<Multi>, b: nat)
    requires Chain(Some(s), ms) && Chain(Some(t), others) && A.OnChain(x, s, ms)
    requires if x.Layer? then A.FirstShared(x.m, ms, others) else A.Disjoint(ms, others)
    ensures Through(StackOf(Some(s), ms, Some(x)), b) <==> Bare(ms, others, b)
  {
    var k: nat := |ms|;
    if x.Layer? {
      k :| A.FirstAt(x.m, ms, others, k);
      var j := A.IndexOf(others, x.m);
      A.SameBelow(Some(s), ms, k, Some(t), others, j);
      forall i | k <= i < |ms| ensures ms[i] in others {
        assert ms[k..][i - k] == others[j..][i - k];
      }
    }
    ThroughAbove(s, ms, x, k, b);
    AboveBare(ms, others, k, b);
  }

  lemma AboveBare(ms: seq<Multi>, others: seq<Multi>, k: nat, b: nat)
    requires k <= |ms| && (forall i :: 0 <= i < k ==> ms[i] !in others) && forall i :: k <= i < |ms| ==> ms[i] in others
    ensures Bare(ms, others, b) <==> forall i: nat :: i < k ==> Peek(ms[i].extents, b).None?
  {
    if forall i: nat :: i < k ==> Peek(ms[i].extents, b).None? {
      forall m | m in ms && m !in others ensures Peek(m.extents, b).None? {
        var i :| 0 <= i < |ms| && ms[i] == m;
      }
    } else {
      var i: nat :| i < k && Peek(ms[i].extents, b).Some?;
      assert ms[i] in ms;
    }
  }

  /** The ancestor shows through on both sides exactly where the byte is untouched. */
  lemma UntouchedThrough(la: Option<Store>, ra: Option<Store>, to: Store, tms: seq<Multi>, from: Store, fms: seq<Multi>, b: nat)
    requires Ancestors(la, ra, to, tms, from, fms)
    ensures Through(StackOf(Some(to), tms, la), b) && Through(StackOf(Some(from), fms, ra), b) <==> Untouched(to, tms, from, fms, b)
  {
    if la.Some? {
      ThroughBare(to, tms, la.value, from, fms, b);
      ThroughBare(from, fms, ra.value, to, tms, b);
    } else {
      NoThreshold(Some(to), tms, b);
    }
  }

  /** Through maps none of which has the byte, the single value at the bottom shows. */
  lemma {:induction false} BottomLook(s: Store, ms: seq<Multi>, b: nat)
    requires Chain(Some(s), ms) && A.BottomOf(s, ms).Some? && forall m :: m in ms ==> Peek(m.extents, b).None?
    ensures Look(Some(s), ms, b) == ByteAt(A.BottomOf(s, ms).value, b)
    decreases |ms|
  {
    if ms != [] {
      assert ms[0] in ms;
      BottomLook(ms[0].under.value, ms[1..], b);
    }
  }

  lemma SingleUntouched(to: Store, from: Store, fms: seq<Multi>, b: nat)
    requires to.Single? && Chain(Some(to), []) && Chain(Some(from), fms) && Untouched(to, [], from, fms, b)
    ensures Look(Some(to), [], b) == Look(Some(from), fms, b)
  {
    BottomLook(from, fms, b);
    A.SameValBytes(to.v, A.BottomOf(from, fms).value, b);
  }

  // ----- the two sides of a join

  /** Where a side shows its threshold, it holds what the ancestor holds. */
  lemma SideLooks(s: Store, ms: seq<Multi>, threshold: Option<Store>, anc: Option<Store>, ams: seq<Multi>, size: nat)
    requires Chain(Some(s), ms) && Chain(anc, ams)
    requires threshold.Some? ==> A.OnChain(threshold.value, s, ms) && Chain(threshold, From(threshold.value, ms))
    requires threshold.Some? ==> anc.Some? && A.SameStore(threshold.value, anc.value)
    ensures var st, base := StackOf(Some(s), ms, threshold), StackOf(anc, ams, None);
            forall x: nat :: x < size && Through(st, x) ==> LookIn(st, x) == LookIn(base, x)
  {
    var st, base := StackOf(Some(s), ms, threshold), StackOf(anc, ams, None);
    forall x: nat | x < size && Through(st, x) ensures LookIn(st, x) == LookIn(base, x) {
      SideLook(s, ms, threshold, anc, ams, x);
    }
  }

  lemma SideLook(s: Store, ms: seq<Multi>, threshold: Option<Store>, anc: Option<Store>, ams: seq<Multi>, x: nat)
    requires Chain(Some(s), ms) && Chain(anc, ams) && Through(StackOf(Some(s), ms, threshold), x)
    requires threshold.Some? ==> A.OnChain(threshold.value, s, ms) && Chain(threshold, From(threshold.value, ms))
    requires threshold.Some? ==> anc.Some? && A.SameStore(threshold.value, anc.value)
    ensures threshold.Some? && LookIn(StackOf(Some(s), ms, threshold), x) == LookIn(StackOf(anc, ams, None), x) == Look(anc, ams, x)
    ensures Look(Some(s), ms, x) == Look(anc, ams, x)
  {
    if threshold.None? {
      NoThreshold(Some(s), ms, x);
      assert false;
    }
    StackLook(Some(s), ms, threshold, x);
    StackLook(anc, ams, None, x);
    ThroughLook(s, ms, threshold.value, x);
    SameLooks(threshold.value, anc.value, From(threshold.value, ms), ams, x);
  }

  /** A map on top of a chain is not below a store that is not it. */
  lemma {:induction false} NotBelow(s: Store, ms: seq<Multi>, x: Store)
    requires Chain(Some(s), ms) && s.Layer? && x != s
    ensures s.m !in From(x, ms)
  {
    ChainAcyclic(Some(s), ms);
    FromWithin(x, ms[1..]);
  }

  lemma {:induction false} FromWithin(x: Store, ms: seq<Multi>)
    ensures forall m :: m in From(x, ms) ==> m in ms
  {
    if x.Layer? && ms != [] && ms[0] != x.m {
      FromWithin(x, ms[1..]);
    }
  }

  /** What a join makes of two stores: a list of extents and the store that shows in its gaps. */
  ghost predicate Joined(out: Pieces, under: Option<Store>, ums: seq<Multi>, lst: Stack, rst: Stack, size: nat)
    reads ums
  {
    && Chain(under, ums) && Merged(out, 0, size, lst, rst)
    && forall b: nat :: b < size && Peek(out, b).None? ==> Look(under, ums, b) == LookIn(lst, b) == LookIn(rst, b)
  }

  /** A store of each chain, below which the two hold the same; or none. */
  ghost predicate Shared(l: Option<Store>, r: Option<Store>, ams: seq<Multi>, bms: seq<Multi>, to: Store, tms: seq<Multi>, from: Store, fms: seq<Multi>)
    reads ams, bms, tms, fms
  {
    && Chain(Some(to), tms) && Chain(Some(from), fms) && Chain(l, ams) && (l.Some? <==> r.Some?)
    && (l.Some? ==> A.OnChain(l.value, to, tms) && ams == From(l.value, tms) && A.SameStore(l.value, l.value))
    && (r.Some? ==> A.OnChain(r.value, from, fms) && bms == From(r.value, fms) && Chain(r, bms) && A.SameStore(r.value, l.value))
  }

  method FindShared(to: Store, from: Store, size: nat, ghost tms: seq<Multi>, ghost fms: seq<Multi>, ghost cuts: iset<nat>)
    returns (l: Option<Store>, r: Option<Store>, ghost ams: seq<Multi>, ghost bms: seq<Multi>)
    requires Chain(Some(to), tms) && Chain(Some(from), fms)
    requires StackSlices(StackOf(Some(to), tms, None), size, cuts) && StackSlices(StackOf(Some(from), fms, None), size, cuts)
    ensures Chain(l, ams) && ams == Below(l, tms) && var shared := Shared(l, r, ams, bms, to, tms, from, fms); shared
    ensures var slices := StackSlices(StackOf(l, ams, None), size, cuts); slices
    ensures var slices := StackSlices(StackOf(Some(to), tms, l), size, cuts); slices
    ensures var slices := StackSlices(StackOf(Some(from), fms, r), size, cuts); slices
    ensures var meet := Ancestors(l, r, to, tms, from, fms); meet
  {
    A.Start(to, tms);
    A.Start(from, fms);
    var found, left, right := A.CommonAncestor(to, from, {}, tms, [], to, tms, fms, [], from, fms);
    if found {
      l, r, ams, bms := Some(left), Some(right), From(left, tms), From(right, fms);
      FromChain(left, to, tms, size, cuts);
      FromChain(right, from, fms, size, cuts);
      A.SameSwap(left, right);
    } else {
      l, r, ams, bms := None, None, [], [];
    }
    ThresholdSlices(Some(to), tms, l, size, cuts);
    ThresholdSlices(Some(from), fms, r, size, cuts);
  }

  /** A byte in a gap of the merged list is one where the ancestor shows on both sides. */
  lemma GapLook(out: Pieces, gaps: bool, l: Option<Store>, r: Option<Store>, ams: seq<Multi>, bms: seq<Multi>, to: Store, tms: seq<Multi>,
                from: Store, fms: seq<Multi>, size: nat, b: nat)
    requires Shared(l, r, ams, bms, to, tms, from, fms) && b < size && Peek(out, b).None? && (!gaps ==> Tiles(out, 0, size))
    requires var ok := MergedAt(Peek(out, b), StackOf(Some(to), tms, l), StackOf(Some(from), fms, r), b); ok
    ensures gaps && Look(l, ams, b) == LookIn(StackOf(Some(to), tms, l), b) == LookIn(StackOf(Some(from), fms, r), b)
  {
    if !gaps {
      TilesCover(out, 0, size, b);
    }
    SideLook(to, tms, l, l, ams, b);
    SideLook(from, fms, r, l, ams, b);
  }

  lemma JoinedAll(out: Pieces, gaps: bool, l: Option<Store>, r: Option<Store>, ams: seq<Multi>, bms: seq<Multi>, to: Store, tms: seq<Multi>,
                  from: Store, fms: seq<Multi>, size: nat)
    requires Shared(l, r, ams, bms, to, tms, from, fms) && (!gaps ==> Tiles(out, 0, size))
    requires var ok := Merged(out, 0, size, StackOf(Some(to), tms, l), StackOf(Some(from), fms, r)); ok
    ensures var ok := Joined(out, if gaps then l else None, if gaps then ams else [], StackOf(Some(to), tms, l), StackOf(Some(from), fms, r), size); ok
  {
    var lst, rst := StackOf(Some(to), tms, l), StackOf(Some(from), fms, r);
    forall b: nat | b < size && Peek(out, b).None? ensures gaps && Look(l, ams, b) == LookIn(lst, b) == LookIn(rst, b) {
      assert MergedAt(Peek(out, b), lst, rst, b);
      GapLook(out, gaps, l, r, ams, bms, to, tms, from, fms, size, b);
    }
  }

  /** The bytes of the ancestor, as the merge reads them. */
  ghost function Below(anc: Option<Store>, ms: seq<Multi>): seq<Multi>
  {
    if anc.Some? then From(anc.value, ms) else []
  }

  /** What the joined list is known to hold, in terms of the values that each side and their ancestor hold. */
  ghost predicate Tells(out: Pieces, la: Option<Store>, ra: Option<Store>, to: Store, tms: seq<Multi>, from: Store, fms: seq<Multi>, size: nat)
    requires Chain(Some(to), tms) && Chain(Some(from), fms) && Chain(la, Below(la, tms))
    reads tms, fms, Below(la, tms)
  {
    Told(out, 0, size, StackOf(Some(to), tms, la), StackOf(Some(from), fms, ra), StackOf(la, Below(la, tms), None), size, false)
  }

  /** The general case of `mergeStores`: read both sides down to their common ancestor, merge the
      lists, and keep the ancestor below if any byte of it still shows. */
  method Join(to: Store, from: Store, size: nat, ghost tms: seq<Multi>, ghost fms: seq<Multi>, ghost cuts: iset<nat>)
    returns (out: Pieces, under: Option<Store>, ghost ums: seq<Multi>, ghost la: Option<Store>, ghost ra: Option<Store>)
    requires Chain(Some(to), tms) && Chain(Some(from), fms) && size > 0 && 0 in cuts && size in cuts
    requires var slices := StackSlices(StackOf(Some(to), tms, None), size, cuts) && StackSlices(StackOf(Some(from), fms, None), size, cuts); slices
    ensures var ok := Joined(out, under, ums, StackOf(Some(to), tms, la), StackOf(Some(from), fms, ra), size); ok
    ensures to.Layer? && to.m !in fms ==> to.m !in ums && la != Some(to)
    ensures var meet := Ancestors(la, ra, to, tms, from, fms); meet
    ensures Chain(la, Below(la, tms)) && var told := Tells(out, la, ra, to, tms, from, fms, size); told
    ensures under == if Holey(out, 0, size) then la else None
  {
    var l, r, ams, bms := FindShared(to, from, size, tms, fms, cuts);
    la, ra := l, r;
    out, under, ums := JoinBelow(to, from, size, l, r, ams, bms, tms, fms, cuts);
    NotOnTop(l, r, to, tms, from, fms);
  }

  /** A map the other chain does not have is not where the chains meet, nor below. */
  lemma NotOnTop(la: Option<Store>, ra: Option<Store>, to: Store, tms: seq<Multi>, from: Store, fms: seq<Multi>)
    requires Ancestors(la, ra, to, tms, from, fms)
    ensures to.Layer? && to.m !in fms ==> to.m !in Below(la, tms) && la != Some(to)
  {
    if la.Some? && to.Layer? && to.m !in fms {
      assert la.value != to;
      NotBelow(to, tms, la.value);
    }
  }

  method JoinBelow(to: Store, from: Store, size: nat, l: Option<Store>, r: Option<Store>, ghost ams: seq<Multi>, ghost bms: seq<Multi>,
                   ghost tms: seq<Multi>, ghost fms: seq<Multi>, ghost cuts: iset<nat>)
    returns (out: Pieces, under: Option<Store>, ghost ums: seq<Multi>)
    requires size > 0 && 0 in cuts && size in cuts
    requires Chain(Some(to), tms) && Chain(Some(from), fms) && Chain(l, ams)
    requires (var shared := Shared(l, r, ams, bms, to, tms, from, fms); shared) && var slices := StackSlices(StackOf(l, ams, None), size, cuts); slices
    requires var slices := StackSlices(StackOf(Some(to), tms, l), size, cuts); slices
    requires var slices := StackSlices(StackOf(Some(from), fms, r), size, cuts); slices
    ensures var ok := Joined(out, under, ums, StackOf(Some(to), tms, l), StackOf(Some(from), fms, r), size); ok
    ensures (ums == [] || ums == ams) && under == if Holey(out, 0, size) then l else None
    ensures var told := Told(out, 0, size, StackOf(Some(to), tms, l), StackOf(Some(from), fms, r), StackOf(l, ams, None), size, false); told
  {
    ghost var lst, rst, base := StackOf(Some(to), tms, l), StackOf(Some(from), fms, r), StackOf(l, ams, None);
    var ls, rs := ReadBoth(to, from, size, l, r, ams, bms, tms, fms, cuts);
    var gaps;
    out, gaps := MergeLists(ls, rs, l, size, lst, rst, base, ams, cuts);
    under := if gaps then l else None;
    ums := if gaps then ams else [];
    JoinedUnder(out, gaps, l, r, ams, bms, to, tms, from, fms, size);
  }

  lemma JoinedUnder(out: Pieces, gaps: bool, l: Option<Store>, r: Option<Store>, ams: seq<Multi>, bms: seq<Multi>, to: Store, tms: seq<Multi>,
                    from: Store, fms: seq<Multi>, size: nat)
    requires size > 0 && Covering(out, gaps, size) && Shared(l, r, ams, bms, to, tms, from, fms)
    requires var ok := Merged(out, 0, size, StackOf(Some(to), tms, l), StackOf(Some(from), fms, r)); ok
    ensures gaps <==> Holey(out, 0, size)
    ensures var ok := Joined(out, if gaps then l else None, if gaps then ams else [], StackOf(Some(to), tms, l), StackOf(Some(from), fms, r), size); ok
  {
    JoinedAll(out, gaps, l, r, ams, bms, to, tms, from, fms, size);
    if !gaps {
      NotHoley(out, size);
    }
  }

  /** Both sides of a join, read down to where they meet. */
  method ReadBoth(to: Store, from: Store, size: nat, l: Option<Store>, r: Option<Store>, ghost ams: seq<Multi>, ghost bms: seq<Multi>,
                  ghost tms: seq<Multi>, ghost fms: seq<Multi>, ghost cuts: iset<nat>)
    returns (ls: Pieces, rs: Pieces)
    requires size > 0 && 0 in cuts && size in cuts
    requires Chain(Some(to), tms) && Chain(Some(from), fms) && Chain(l, ams)
    requires (var shared := Shared(l, r, ams, bms, to, tms, from, fms); shared) && var slices := StackSlices(StackOf(l, ams, None), size, cuts); slices
    requires var slices := StackSlices(StackOf(Some(to), tms, l), size, cuts); slices
    requires var slices := StackSlices(StackOf(Some(from), fms, r), size, cuts); slices
    ensures var ok := Sides(ls, StackOf(Some(to), tms, l), rs, StackOf(Some(from), fms, r), StackOf(l, ams, None), size, cuts); ok
    ensures var known := Ancestor(l, ams, StackOf(l, ams, None), size, cuts); known
  {
    ls := ReadSide(to, size, l, tms, l, ams, cuts);
    rs := ReadSide(from, size, r, fms, l, ams, cuts);
  }

  lemma NotHoley(out: Pieces, size: nat)
    requires Tiles(out, 0, size)
    ensures !Holey(out, 0, size)
  {
    forall b: nat | b < size ensures Peek(out, b).Some? {
      TilesCover(out, 0, size, b);
    }
  }

  /** One side of a join, read down to its ancestor. */
  method ReadSide(s: Store, size: nat, threshold: Option<Store>, ghost ms: seq<Multi>, ghost anc: Option<Store>, ghost ams: seq<Multi>, ghost cuts: iset<nat>)
    returns (list: Pieces)
    requires Chain(Some(s), ms) && Chain(anc, ams) && size > 0 && 0 in cuts && size in cuts
    requires threshold.Some? ==> A.OnChain(threshold.value, s, ms) && Chain(threshold, From(threshold.value, ms))
    requires threshold.Some? ==> anc.Some? && A.SameStore(threshold.value, anc.value)
    requires StackSlices(StackOf(Some(s), ms, threshold), size, cuts)
    ensures var ok := Side(list, StackOf(Some(s), ms, threshold), StackOf(anc, ams, None), size, cuts); ok
  {
    ghost var st, base := StackOf(Some(s), ms, threshold), StackOf(anc, ams, None);
    SideLooks(s, ms, threshold, anc, ams, size);
    list := ReadMulti(Some(s), 0, size, threshold, size, ms, cuts);
    assert Side(list, st, base, size, cuts);
  }

  // ----- mergeStores

  /** The join takes the general case. */
  predicate Layered(to: Store, from: Store)
  {
    !Freed(to) && !Freed(from) && (to.Layer? || from.Layer?) && to != from && !(to.Single? && to.v.overdef)
  }

  predicate Freed(s: Store)
  {
    s.Single? && s.v.kind == KDeallocated
  }

  /** What a joined list over its store says of a byte. */
  ghost predicate JoinedByte(now: Abs, lst: Stack, rst: Stack, b: nat)
  {
    && StandsAt(now, Either(LookIn(lst, b), LookIn(rst, b)), false)
    && (Through(lst, b) && Through(rst, b) ==> now == LookIn(lst, b) == LookIn(rst, b))
  }

  lemma JoinedLook(out: Pieces, under: Option<Store>, ums: seq<Multi>, lst: Stack, rst: Stack, size: nat, b: nat)
    requires b < size && var ok := Joined(out, under, ums, lst, rst, size); ok
    ensures var now := if Peek(out, b).Some? then Peek(out, b).value else Look(under, ums, b);
            var ok := JoinedByte(now, lst, rst, b); ok
  {
    assert MergedAt(Peek(out, b), lst, rst, b);
    MergedByte(Peek(out, b), Look(under, ums, b), lst, rst, b);
  }

  lemma MergedByte(p: Option<Abs>, below: Abs, lst: Stack, rst: Stack, b: nat)
    requires var ok := MergedAt(p, lst, rst, b); ok
    requires p.None? ==> below == LookIn(lst, b) == LookIn(rst, b)
    ensures var ok := JoinedByte(if p.Some? then p.value else below, lst, rst, b); ok
  {
    var now := if p.Some? then p.value else below;
    if p.None? {
      EitherSelf(below);
    }
  }

  lemma {:induction false} EitherSelf(a: Abs)
    ensures Either(a, a) == a && var stands := StandsAt(a, a, false); stands
  {
    StandsSelf(a);
    EitherSame(a);
  }

  lemma {:induction false} EitherSame(a: Abs)
    ensures Either(a, a) == a
  {
    if a.OneOf? {
      assert a.ps + a.ps == a.ps;
    }
  }

  /** Every byte the top map covered is covered by the joined list. */
  lemma JoinedTotal(top: Pieces, rest: Stack, out: Pieces, lst: Stack, rst: Stack, size: nat)
    requires Sorted(top) && Within(top, 0, size) && lst == Over(top, rest) && var ok := Merged(out, 0, size, lst, rst); ok
    ensures Total(top) <= Total(out) <= size
  {
    forall b: nat | b < size && At(top, b).Some? ensures At(out, b).Some? {
      OverHit(top, rest, b, At(top, b).value);
      assert MergedAt(Peek(out, b), lst, rst, b);
    }
    TotalGrows(top, out, size);
    TotalBound(out, 0, size);
  }

  /** The joined list covers exactly the bytes that some side overrides. */
  lemma {:induction false} JoinedCount(out: Pieces, la: Option<Store>, ra: Option<Store>, to: Store, tms: seq<Multi>, from: Store, fms: seq<Multi>, size: nat, n: nat)
    requires Ancestors(la, ra, to, tms, from, fms) && n <= size
    requires var ok := Merged(out, 0, size, StackOf(Some(to), tms, la), StackOf(Some(from), fms, ra)); ok
    ensures Count(out, n) == Overridden(to, tms, from, fms, n)
  {
    if n > 0 {
      JoinedCount(out, la, ra, to, tms, from, fms, size, n - 1);
      JoinedAt(out, la, ra, to, tms, from, fms, size, n - 1);
    }
  }

  lemma JoinedAt(out: Pieces, la: Option<Store>, ra: Option<Store>, to: Store, tms: seq<Multi>, from: Store, fms: seq<Multi>, size: nat, b: nat)
    requires Ancestors(la, ra, to, tms, from, fms) && b < size
    requires var ok := Merged(out, 0, size, StackOf(Some(to), tms, la), StackOf(Some(from), fms, ra)); ok
    ensures At(out, b).Some? <==> !Untouched(to, tms, from, fms, b)
  {
    UntouchedThrough(la, ra, to, tms, from, fms, b);
    assert MergedAt(Peek(out, b), StackOf(Some(to), tms, la), StackOf(Some(from), fms, ra), b);
  }

  lemma JoinedCovers(out: Pieces, la: Option<Store>, ra: Option<Store>, to: Store, tms: seq<Multi>, from: Store, fms: seq<Multi>, size: nat)
    requires Ancestors(la, ra, to, tms, from, fms)
    requires var ok := Merged(out, 0, size, StackOf(Some(to), tms, la), StackOf(Some(from), fms, ra)); ok
    ensures Total(out) == Overridden(to, tms, from, fms, size)
  {
    JoinedCount(out, la, ra, to, tms, from, fms, size, size);
    TotalIsCount(out, size);
  }

  /** The store allows at every byte what either of the two held before, and if it is known nothing else. */
  twostate predicate HoldsEither(new s: Store, new ms: seq<Multi>, to: Store, tms: seq<Multi>, from: Store, fms: seq<Multi>, size: nat)
    requires Chain(Some(s), ms) && old(Chain(Some(to), tms)) && old(Chain(Some(from), fms))
    reads ms
  {
    forall b: nat :: b < size ==>
      StandsAt(Look(Some(s), ms, b), Either(old(Look(Some(to), tms, b)), old(Look(Some(from), fms, b))), false)
  }

  /** Bytes that neither side overrode above where the chains meet are as both held them. */
  twostate predicate KeepsUntouched(new s: Store, new ms: seq<Multi>, to: Store, tms: seq<Multi>, from: Store, fms: seq<Multi>, size: nat)
    requires Chain(Some(s), ms) && old(Chain(Some(to), tms)) && old(Chain(Some(from), fms))
    reads ms
  {
    forall b: nat :: b < size && old(Untouched(to, tms, from, fms, b)) ==>
      Look(Some(s), ms, b) == old(Look(Some(to), tms, b)) == old(Look(Some(from), fms, b))
  }

  /** The map at the top covers the bytes that some side overrode; its counter is what it was if it was
      there before and nobody else used it, and 0 if it is new. */
  twostate predicate JoinedMap(new s: Store, to: Store, tms: seq<Multi>, from: Store, fms: seq<Multi>, size: nat)
    requires old(Chain(Some(to), tms)) && old(Chain(Some(from), fms))
    reads if s.Layer? then {s.m} else {}
  {
    && s.Layer? && s.m.Shaped() && s.m.Counted()
    && (if old(to.Layer? && to.m.refCount == 1) then s == to && s.m.covered == old(to.m.covered) else s.m.covered == 0)
    && Total(s.m.extents) == old(Overridden(to, tms, from, fms, size))
  }

  /** The counter after a join is exact if and only if the map was there before and its counter already
      was the number of bytes overridden above the ancestor, or the map is new and no byte is. */
  twostate lemma CounterExactIff(new s: Store, to: Store, tms: seq<Multi>, from: Store, fms: seq<Multi>, size: nat)
    requires old(Chain(Some(to), tms)) && old(Chain(Some(from), fms)) && JoinedMap(s, to, tms, from, fms, size)
    ensures s.m.covered == Total(s.m.extents) <==>
            old(Overridden(to, tms, from, fms, size)) == if old(to.Layer? && to.m.refCount == 1) then old(to.m.covered) else 0
  {
  }

  /** A store on a chain of allocated maps is allocated. */
  lemma OnOld(x: Option<Store>, s: Store, ms: seq<Multi>)
    requires Chain(Some(s), ms) && (x.Some? ==> A.OnChain(x.value, s, ms))
    ensures x.Some? && x.value.Layer? ==> x.value.m in ms
  {
  }

  /** What the two sides of a join hold, taken down: the bytes of each, the bytes neither overrides above
      where the chains meet, and how many bytes that leaves. */
  datatype Taken = Taken(to: map<nat, Abs>, from: map<nat, Abs>, kept: set<nat>, count: nat)

  ghost function TakenDown(to: Store, tms: seq<Multi>, from: Store, fms: seq<Multi>, size: nat): Taken
    requires Chain(Some(to), tms) && Chain(Some(from), fms)
    reads tms, fms
  {
    Taken((map b: nat | b < size :: Look(Some(to), tms, b)), (map b: nat | b < size :: Look(Some(from), fms, b)),
          (set b: nat | b < size && Untouched(to, tms, from, fms, b) :: b), Overridden(to, tms, from, fms, size))
  }

  /** Bytes outside `kept` lie in the list, in a value that is known exactly when the values that were joined
      there could be, if those were read whole. */
  ghost predicate Shows(out: Pieces, lst: Stack, rst: Stack, base: Stack, kept: set<nat>, size: nat)
  {
    forall b: nat {:trigger At(out, b)} :: b < size && b !in kept ==>
      At(out, b).Some? && JoinKnown(!At(out, b).value.val.WhollyUnknown(), lst, rst, base, size, b, false)
  }

  /** The map at the top shows where some side overrode a byte, and what is known of it; it lies over the ancestor
      unless it covers every byte. */
  twostate predicate KnowsJoined(new s: Store, la: Option<Store>, ra: Option<Store>, to: Store, tms: seq<Multi>, from: Store, fms: seq<Multi>, size: nat)
    requires old(Ancestors(la, ra, to, tms, from, fms)) && old(Chain(la, Below(la, tms)))
    reads if s.Layer? then {s.m} else {}
  {
    s.Layer? && s.m.under == (if Holey(s.m.extents, 0, size) then la else None) &&
    Shows(s.m.extents, old(StackOf(Some(to), tms, la)), old(StackOf(Some(from), fms, ra)), old(StackOf(la, Below(la, tms), None)),
          old(TakenDown(to, tms, from, fms, size).kept), size)
  }

  lemma TellsShow(out: Pieces, under: Option<Store>, ums: seq<Multi>, la: Option<Store>, ra: Option<Store>, to: Store, tms: seq<Multi>, from: Store, fms: seq<Multi>, size: nat)
    requires Ancestors(la, ra, to, tms, from, fms) && Chain(la, Below(la, tms)) && Tells(out, la, ra, to, tms, from, fms, size)
    requires Chain(under, ums) && Joined(out, under, ums, StackOf(Some(to), tms, la), StackOf(Some(from), fms, ra), size)
    ensures var shown := Shows(out, StackOf(Some(to), tms, la), StackOf(Some(from), fms, ra), StackOf(la, Below(la, tms), None),
                               TakenDown(to, tms, from, fms, size).kept, size); shown
  {
    var lst, rst, base := StackOf(Some(to), tms, la), StackOf(Some(from), fms, ra), StackOf(la, Below(la, tms), None);
    forall b: nat | b < size && b !in TakenDown(to, tms, from, fms, size).kept
      ensures At(out, b).Some? && JoinKnown(!At(out, b).value.val.WhollyUnknown(), lst, rst, base, size, b, false)
    {
      JoinedAt(out, la, ra, to, tms, from, fms, size, b);
      assert SaysTold(At(out, b).value, lst, rst, base, size, b, false);
    }
  }

  /** What byte `b` of the joined store has to read as. */
  ghost predicate JoinsByte(now: Abs, sides: Taken, b: nat)
  {
    && b in sides.to && b in sides.from && StandsAt(now, Either(sides.to[b], sides.from[b]), false)
    && (b in sides.kept ==> now == sides.to[b] == sides.from[b])
  }

  /** What the joined list, over the bytes below it, says of a byte. */
  function OutByte(out: Pieces, below: map<nat, Abs>, b: nat): Abs
    requires b in below
  {
    if Peek(out, b).Some? then Peek(out, b).value else below[b]
  }

  /** A joined list ready to be put in place. */
  ghost predicate Ready(out: Pieces, below: map<nat, Abs>, sides: Taken, size: nat)
  {
    && Sorted(out) && Within(out, 0, size) && AllFit(out) && Total(out) == sides.count
    && forall b: nat :: b < size ==> b in below && JoinsByte(OutByte(out, below, b), sides, b)
  }

  lemma JoinFacts(out: Pieces, under: Option<Store>, ums: seq<Multi>, la: Option<Store>, ra: Option<Store>,
                  to: Store, tms: seq<Multi>, from: Store, fms: seq<Multi>, size: nat, below: map<nat, Abs>)
    requires Ancestors(la, ra, to, tms, from, fms) && Chain(under, ums)
    requires forall b: nat :: b < size ==> b in below && below[b] == Look(under, ums, b)
    requires var ok := Joined(out, under, ums, StackOf(Some(to), tms, la), StackOf(Some(from), fms, ra), size); ok
    ensures var ok := Ready(out, below, TakenDown(to, tms, from, fms, size), size); ok
  {
    var sides := TakenDown(to, tms, from, fms, size);
    forall b: nat | b < size ensures JoinsByte(OutByte(out, below, b), sides, b) {
      JoinFact(out, under, ums, la, ra, to, tms, from, fms, size, b);
    }
    JoinedCovers(out, la, ra, to, tms, from, fms, size);
  }

  lemma JoinFact(out: Pieces, under: Option<Store>, ums: seq<Multi>, la: Option<Store>, ra: Option<Store>,
                 to: Store, tms: seq<Multi>, from: Store, fms: seq<Multi>, size: nat, b: nat)
    requires Ancestors(la, ra, to, tms, from, fms) && Chain(under, ums) && b < size
    requires var ok := Joined(out, under, ums, StackOf(Some(to), tms, la), StackOf(Some(from), fms, ra), size); ok
    ensures var now := if Peek(out, b).Some? then Peek(out, b).value else Look(under, ums, b);
            && StandsAt(now, Either(Look(Some(to), tms, b), Look(Some(from), fms, b)), false)
            && (Untouched(to, tms, from, fms, b) ==> now == Look(Some(to), tms, b) == Look(Some(from), fms, b))
  {
    StackLook(Some(to), tms, la, b);
    StackLook(Some(from), fms, ra, b);
    UntouchedThrough(la, ra, to, tms, from, fms, b);
    JoinedLook(out, under, ums, StackOf(Some(to), tms, la), StackOf(Some(from), fms, ra), size, b);
  }

  /** The map that is used again covers nothing that the joined list does not. */
  lemma ReusedTotal(out: Pieces, la: Option<Store>, to: Store, tms: seq<Multi>, rst: Stack, ums: seq<Multi>, under: Option<Store>, size: nat)
    requires Chain(Some(to), tms) && to.Layer? && la != Some(to) && to.m.allocSize == size && to.m.Shaped() && to.m.Counted()
    requires Joined(out, under, ums, StackOf(Some(to), tms, la), rst, size)
    ensures to.m.covered <= Total(out)
  {
    StackUnder(Some(to), tms, la);
    var lst := StackOf(Some(to), tms, la);
    JoinedTotal(to.m.extents, lst.rest, out, lst, rst, size);
  }

  /** What the bytes below the joined list read as. */
  ghost predicate BelowReads(under: Option<Store>, ums: seq<Multi>, size: nat, below: map<nat, Abs>)
    requires Chain(under, ums)
    reads ums
  {
    forall b: nat :: b < size ==> b in below && below[b] == Look(under, ums, b)
  }

  ghost function BelowMap(under: Option<Store>, ums: seq<Multi>, size: nat): (below: map<nat, Abs>)
    requires Chain(under, ums)
    reads ums
    ensures var read := BelowReads(under, ums, size, below); read
  {
    map b: nat | b < size :: Look(under, ums, b)
  }

  lemma ReadyAll(out: Pieces, under: Option<Store>, ums: seq<Multi>, la: Option<Store>, ra: Option<Store>,
                 to: Store, tms: seq<Multi>, from: Store, fms: seq<Multi>, size: nat, below: map<nat, Abs>, sides: Taken)
    requires Chain(Some(to), tms) && Chain(Some(from), fms) && Chain(under, ums) && Chain(la, Below(la, tms)) && sides == TakenDown(to, tms, from, fms, size)
    requires Ancestors(la, ra, to, tms, from, fms) && BelowReads(under, ums, size, below)
    requires to.Layer? && to.m.refCount == 1 ==> la != Some(to) && to.m.allocSize == size && to.m.Shaped() && to.m.Counted()
    requires var told := Tells(out, la, ra, to, tms, from, fms, size); told
    requires var ok := Joined(out, under, ums, StackOf(Some(to), tms, la), StackOf(Some(from), fms, ra), size); ok
    ensures var ok := Ready(out, below, sides, size); ok
    ensures var shown := Shows(out, StackOf(Some(to), tms, la), StackOf(Some(from), fms, ra), StackOf(la, Below(la, tms), None), sides.kept, size); shown
    ensures to.Layer? && to.m.refCount == 1 ==> to.m.covered <= Total(out)
  {
    JoinFacts(out, under, ums, la, ra, to, tms, from, fms, size, below);
    TellsShow(out, under, ums, la, ra, to, tms, from, fms, size);
    if to.Layer? && to.m.refCount == 1 {
      ReusedTotal(out, la, to, tms, StackOf(Some(from), fms, ra), ums, under, size);
    }
  }

  /** `Join`, with what it makes told in terms of what the sides held. */
  method JoinReady(to: Store, from: Store, size: nat, ghost tms: seq<Multi>, ghost fms: seq<Multi>, ghost cuts: iset<nat>, ghost sides: Taken)
    returns (out: Pieces, under: Option<Store>, ghost ums: seq<Multi>, ghost la: Option<Store>, ghost ra: Option<Store>, ghost below: map<nat, Abs>)
    requires Chain(Some(to), tms) && Chain(Some(from), fms) && size > 0 && 0 in cuts && size in cuts
    requires var slices := StackSlices(StackOf(Some(to), tms, None), size, cuts) && StackSlices(StackOf(Some(from), fms, None), size, cuts); slices
    requires sides == TakenDown(to, tms, from, fms, size)
    requires to.Layer? ==> var shaped := to.m.Shaped() && to.m.Counted(); shaped
    requires to.Layer? && to.m.refCount == 1 ==> to.m !in fms && to.m.allocSize == size
    ensures var ok := Ready(out, below, sides, size); ok
    ensures Chain(under, ums) && var read := BelowReads(under, ums, size, below); read
    ensures to.Layer? && to.m.refCount == 1 ==> to.m !in ums && to.m.covered <= Total(out)
    ensures under == if Holey(out, 0, size) then la else None
    ensures Chain(la, Below(la, tms)) && var meet := Ancestors(la, ra, to, tms, from, fms); meet
    ensures var shown := Shows(out, StackOf(Some(to), tms, la), StackOf(Some(from), fms, ra), StackOf(la, Below(la, tms), None), sides.kept, size); shown
  {
    out, under, ums, la, ra := Join(to, from, size, tms, fms, cuts);
    below := BelowMap(under, ums, size);
    ReadyAll(out, under, ums, la, ra, to, tms, from, fms, size, below, sides);
  }

  /** `JoinReady`, told in terms of the state it began in. */
  method JoinOld(to: Store, from: Store, size: nat, ghost tms: seq<Multi>, ghost fms: seq<Multi>, ghost cuts: iset<nat>, ghost sides: Taken)
    returns (out: Pieces, under: Option<Store>, ghost ums: seq<Multi>, ghost la: Option<Store>, ghost ra: Option<Store>, ghost below: map<nat, Abs>)
    requires Chain(Some(to), tms) && Chain(Some(from), fms) && size > 0 && 0 in cuts && size in cuts
    requires StackSlices(StackOf(Some(to), tms, None), size, cuts) && StackSlices(StackOf(Some(from), fms, None), size, cuts)
    requires sides == TakenDown(to, tms, from, fms, size)
    requires to.Layer? ==> to.m.Shaped() && to.m.Counted()
    requires to.Layer? && to.m.refCount == 1 ==> to.m !in fms && to.m.allocSize == size
    ensures var ok := Ready(out, below, sides, size); ok
    ensures Chain(under, ums) && var read := BelowReads(under, ums, size, below); read
    ensures to.Layer? && to.m.refCount == 1 ==> to.m !in ums && to.m.covered <= Total(out)
    ensures under == if Holey(out, 0, size) then la else None
    ensures old(allocated(la)) && old(allocated(ra)) && old(Ancestors(la, ra, to, tms, from, fms)) && old(Chain(la, Below(la, tms)))
    ensures var shown := Shows(out, old(StackOf(Some(to), tms, la)), old(StackOf(Some(from), fms, ra)), old(StackOf(la, Below(la, tms), None)), sides.kept, size); shown
  {
    out, under, ums, la, ra, below := JoinReady(to, from, size, tms, fms, cuts, sides);
    OnOld(la, to, tms);
    OnOld(ra, from, fms);
    ghost var ams := Below(la, tms);
    BelowWithin(la, tms);
    assert old(Chain(la, ams));
    assert old(StackOf(la, ams, None)) == StackOf(la, ams, None);
  }

  lemma BelowWithin(anc: Option<Store>, ms: seq<Multi>)
    ensures forall m :: m in Below(anc, ms) ==> m in ms
  {
    if anc.Some? {
      FromWithin(anc.value, ms);
    }
  }

  class LocStore {
    var store: Store

    constructor (s: Store)
      ensures store == s
    {
      store := s;
    }

    /** Put a joined list in place: into the map at the top if nobody else uses it, otherwise into a
        new one. The reused map keeps its counter. */
    method Install(out: Pieces, under: Option<Store>, size: nat, ghost ums: seq<Multi>, ghost tms: seq<Multi>)
      requires Chain(under, ums) && Sorted(out) && Within(out, 0, size) && AllFit(out) && size < U64
      requires store.Layer? && store.m.refCount == 1 ==> store.m !in ums && store.m.allocSize == size && store.m.covered <= Total(out)
      requires store.Layer? ==> store.m.covered < U64
      modifies this, if store.Layer? then {store.m} else {}
      ensures store.Layer? && store.m.extents == out && store.m.under == under && store.m.Shaped() && store.m.Counted()
      ensures store.m !in ums && (store == old(store) || fresh(store.m))
      ensures if old(store.Layer? && store.m.refCount == 1) then store == old(store) && store.m.covered == old(store.m.covered) else store.m.covered == 0
      ensures Chain(Some(store), [store.m] + ums) && Chain(under, ums)
      ensures forall b: nat :: Look(under, ums, b) == old(Look(under, ums, b))
    {
      if store.Layer? && store.m.refCount == 1 {
        store.m.extents, store.m.under := out, under;
      } else {
        var m := new Multi(size);
        TotalBound(out, 0, size);
        m.extents, m.under := out, under;
        store := Layer(m);
      }
      assert ([store.m] + ums)[1..] == ums;
    }

    /** The store is what a join of two layered stores leaves. The map it ends in covers the bytes that
        some side overrides; its counter is what it was if the map was there before, and 0 if not. */
    method MergeLayers(from: Store, size: nat, ghost tms: seq<Multi>, ghost fms: seq<Multi>, ghost cuts: iset<nat>)
      returns (ghost now: seq<Multi>, ghost la: Option<Store>, ghost ra: Option<Store>)
      requires Chain(Some(store), tms) && Chain(Some(from), fms) && 0 < size < U64 && 0 in cuts && size in cuts
      requires StackSlices(StackOf(Some(store), tms, None), size, cuts) && StackSlices(StackOf(Some(from), fms, None), size, cuts)
      requires store.Layer? ==> store.m.Shaped() && store.m.Counted()
      requires store.Layer? && store.m.refCount == 1 ==> store.m !in fms && store.m.allocSize == size
      modifies this, if store.Layer? then {store.m} else {}
      ensures Chain(Some(store), now) && old(allocated(la)) && old(allocated(ra)) && old(Ancestors(la, ra, store, tms, from, fms))
      ensures JoinedMap(store, old(store), tms, from, fms, size)
      ensures old(Chain(la, Below(la, tms))) && KnowsJoined(store, la, ra, old(store), tms, from, fms, size)
      ensures HoldsEither(store, now, old(store), tms, from, fms, size) && KeepsUntouched(store, now, old(store), tms, from, fms, size)
    {
      ghost var sides := TakenDown(store, tms, from, fms, size);
      var out, under;
      ghost var ums, below;
      out, under, ums, la, ra, below := JoinOld(store, from, size, tms, fms, cuts, sides);
      now := InstallReady(out, under, size, ums, tms, below, sides);
    }

    /** Put a joined list in place. */
    method InstallReady(out: Pieces, under: Option<Store>, size: nat, ghost ums: seq<Multi>, ghost tms: seq<Multi>, ghost below: map<nat, Abs>, ghost sides: Taken)
      returns (ghost now: seq<Multi>)
      requires Chain(under, ums) && size < U64 && (store.Layer? ==> store.m.covered < U64) && var ok := Ready(out, below, sides, size); ok
      requires store.Layer? && store.m.refCount == 1 ==> store.m !in ums && store.m.allocSize == size && store.m.covered <= Total(out)
      requires var read := BelowReads(under, ums, size, below); read
      modifies this, if store.Layer? then {store.m} else {}
      ensures Chain(Some(store), now) && store.Layer? && store.m.Shaped() && store.m.Counted() && Total(store.m.extents) == sides.count
      ensures store.m.extents == out && store.m.under == under
      ensures if old(store.Layer? && store.m.refCount == 1) then store == old(store) && store.m.covered == old(store.m.covered) else store.m.covered == 0
      ensures forall b: nat :: b < size ==> JoinsByte(Look(Some(store), now, b), sides, b)
    {
      Install(out, under, size, ums, tms);
      now := [store.m] + ums;
      assert now[1..] == ums;
      forall b: nat | b < size ensures Look(Some(store), now, b) == OutByte(out, below, b) {
        LookTop(Some(store), now, b);
      }
    }

    /** `mergeStores`: merge another store into this one. Unless one of them is freed, the result
        allows at every byte what each of them held. Where the two chains are related and neither
        overrides the byte above where they meet, it holds exactly what both held. A freed store yields
        to the other. The map of a merged store covers the bytes that some side overrides, and its
        counter is the old one of a map that is used again, or 0. */
    method MergeStores(from: Store, size: nat, ghost tms: seq<Multi>, ghost fms: seq<Multi>, ghost cuts: iset<nat>)
      returns (ghost now: seq<Multi>, ghost la: Option<Store>, ghost ra: Option<Store>)
      requires Chain(Some(store), tms) && Chain(Some(from), fms) && 0 < size < U64 && 0 in cuts && size in cuts
      requires StackSlices(StackOf(Some(store), tms, None), size, cuts) && StackSlices(StackOf(Some(from), fms, None), size, cuts)
      requires store.Layer? ==> store.m.Shaped() && store.m.Counted()
      requires store.Layer? && store.m.refCount == 1 && store != from ==> store.m !in fms && store.m.allocSize == size
      modifies this, if store.Layer? then {store.m} else {}
      ensures Chain(Some(store), now) && old(allocated(la)) && old(allocated(ra))
      ensures Freed(old(store)) ==> store == from
      ensures Freed(from) && !Freed(old(store)) ==> store == old(store) && now == tms
      ensures !Freed(old(store)) && !Freed(from) ==> HoldsEither(store, now, old(store), tms, from, fms, size)
      ensures !Freed(old(store)) && !Freed(from) && (old(store).Layer? || from.Layer?) ==>
                KeepsUntouched(store, now, old(store), tms, from, fms, size)
      ensures Layered(old(store), from) ==>
                old(Ancestors(la, ra, store, tms, from, fms)) && JoinedMap(store, old(store), tms, from, fms, size)
      ensures Layered(old(store), from) ==>
                old(Chain(la, Below(la, tms))) && KnowsJoined(store, la, ra, old(store), tms, from, fms, size)
      ensures !Freed(old(store)) && !Freed(from) && old(store).Single? && from.Single? ==>
                store.Single? && (!store.v.WhollyUnknown() <==> Meets(old(store.v), from.v) && !Crowded(MeetKind(old(store.v), from.v), old(store.v).items, from.v.items))
    {
      now, la, ra := tms, None, None;
      if store.Layer? && store == from {
        ChainUnique(Some(store), tms, fms);
        forall b: nat ensures StandsAt(Look(Some(store), tms, b), Either(Look(Some(store), tms, b), Look(Some(from), fms, b)), false) {
          EitherSelf(Look(Some(store), tms, b));
        }
        return;
      }
      if store.Single? {
        if store.v.overdef && !Freed(store) {
          forall b: nat ensures StandsAt(Look(Some(store), tms, b), Either(Look(Some(store), tms, b), Look(Some(from), fms, b)), false) {
          }
          forall b: nat | Untouched(store, tms, from, fms, b) ensures Look(Some(store), tms, b) == Look(Some(from), fms, b) {
            SingleUntouched(store, from, fms, b);
          }
          return;
        }
        if Freed(store) {
          store, now := from, fms;
          return;
        }
        if from.Single? && !Freed(from) {
          SingleMerge(store.v, from.v, size);
          store := Single(Merge(store.v, from.v));
          return;
        }
      }
      if Freed(from) {
        return;
      }
      now, la, ra := MergeLayers(from, size, tms, fms, cuts);
    }
  }

  lemma {:induction false} SingleMerge(v: Val, w: Val, size: nat)
    requires Fits(v, size) && Fits(w, size)
    ensures forall b: nat :: StandsAt(ByteAt(Merge(v, w), b), Either(ByteAt(v, b), ByteAt(w, b)), false)
    ensures !Merge(v, w).WhollyUnknown() <==> Meets(v, w) && !Crowded(MeetKind(v, w), v.items, w.items)
  {
    forall b: nat ensures StandsAt(ByteAt(Merge(v, w), b), Either(ByteAt(v, b), ByteAt(w, b)), false) {
      MergeCovers(v, w, b);
      MergeBytes(v, w, b);
      CoversEither(ByteAt(Merge(v, w), b), ByteAt(v, b), ByteAt(w, b));
    }
    MergeExactly(v, w);
  }
}
