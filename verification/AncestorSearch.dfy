/** The search for a store both sides of a merge rest on: `getCommonAncestor`
    (llpe/main/LoadForward.cpp:3580-3633). */
module AncestorSearch {
  import opened Options
  import opened SymbolicValues
  import opened LayeredStore

  /** Equality of single values, which are sets: the order of items does not matter. */
  predicate SameVal(a: Val, b: Val)
  {
    a.kind == b.kind && a.overdef == b.overdef && (a.overdef || multiset(a.items) == multiset(b.items))
  }

  lemma SameItems(a: seq<Item>, b: seq<Item>)
    requires multiset(a) == multiset(b)
    ensures |a| == |b| && forall x :: x in a <==> x in b
  {
    assert |multiset(a)| == |a| && |multiset(b)| == |b|;
    forall x ensures x in a <==> x in b {
      assert x in a <==> x in multiset(a);
      assert x in b <==> x in multiset(b);
    }
  }

  /** Equal single values say the same of every byte. */
  lemma SameValBytes(a: Val, b: Val, k: nat)
    requires SameVal(a, b)
    ensures ByteAt(a, k) == ByteAt(b, k)
  {
    if !a.overdef {
      SameItems(a.items, b.items);
      assert (set x | x in a.items :: PatternAt(a.kind, x, k)) == (set x | x in b.items :: PatternAt(b.kind, x, k));
    }
  }

  /** The single value a chain rests on, if any. */
  ghost function BottomOf(s: Store, ms: seq<Multi>): Option<Val>
    requires Chain(Some(s), ms)
    reads ms
    decreases |ms|
  {
    match s
    case Single(v) => Some(v)
    case Layer(m) => if m.under.Some? then BottomOf(m.under.value, ms[1..]) else None
  }

  /** `x` is a store on the chain. */
  ghost predicate OnChain(x: Store, s: Store, ms: seq<Multi>)
    requires Chain(Some(s), ms)
    reads ms
  {
    match x
    case Layer(m) => m in ms
    case Single(v) => BottomOf(s, ms) == Some(v)
  }

  /** The chains share a map, or rest on equal single values. */
  ghost predicate Related(l: Store, lm: seq<Multi>, r: Store, rm: seq<Multi>)
    requires Chain(Some(l), lm) && Chain(Some(r), rm)
    reads lm, rm
  {
    || (exists m :: m in lm && m in rm)
    || (BottomOf(l, lm).Some? && BottomOf(r, rm).Some? && SameVal(BottomOf(l, lm).value, BottomOf(r, rm).value))
  }

  /** Two stores that denote the same. */
  predicate SameStore(a: Store, b: Store)
  {
    match a
    case Layer(m) => b == a
    case Single(v) => b.Single? && SameVal(v, b.v)
  }

  /** `m` is the first map of chain `a` that is also on chain `b`. */
  ghost predicate FirstShared(m: Multi, a: seq<Multi>, b: seq<Multi>)
  {
    m in b && exists k :: FirstAt(m, a, b, k)
  }

  ghost predicate FirstAt(m: Multi, a: seq<Multi>, b: seq<Multi>, k: nat)
  {
    k < |a| && a[k] == m && forall i :: 0 <= i < k ==> a[i] !in b
  }

  /** Where two chains meet: at the first map they share, or if they share none at their single values. */
  ghost predicate MeetAt(left: Store, right: Store, la: seq<Multi>, ra: seq<Multi>)
  {
    if left.Layer? then right == left && FirstShared(left.m, la, ra) && FirstShared(left.m, ra, la)
    else right.Single? && Disjoint(la, ra)
  }

  /** Where a search has got to on one chain: at `s`, past the maps `past`, which all lie over
      something and were recorded. */
  ghost predicate At(s: Store, ms: seq<Multi>, past: seq<Multi>, top: Store, all: seq<Multi>, seen: set<Multi>)
    reads all, ms
  {
    && Chain(Some(top), all) && Chain(Some(s), ms) && all == past + ms && BottomOf(top, all) == BottomOf(s, ms)
    && (forall i :: 0 <= i < |past| ==> all[i] in seen && all[i].under.Some?)
  }

  /** No map occurs twice on a chain. */
  lemma NoRepeat(s: Option<Store>, ms: seq<Multi>, i: nat, j: nat)
    requires Chain(s, ms) && i < j < |ms|
    ensures ms[i] != ms[j]
  {
    if ms[i] == ms[j] {
      ChainSuffix(s, ms, i);
      ChainSuffix(s, ms, j);
      ChainUnique(Some(Layer(ms[i])), ms[i..], ms[j..]);
      assert false;
    }
  }

  /** A map not yet passed on one chain that was recorded belongs to the other. */
  lemma SeenOther(s: Store, ms: seq<Multi>, past: seq<Multi>, top: Store, all: seq<Multi>, seen: set<Multi>, other: seq<Multi>)
    requires At(s, ms, past, top, all, seen) && ms != [] && ms[0] in seen && forall m :: m in seen ==> m in past || m in other
    ensures ms[0] in other
  {
    if ms[0] in past {
      var i :| 0 <= i < |past| && past[i] == ms[0];
      assert all[i] == past[i] && all[|past|] == ms[0];
      NoRepeat(Some(top), all, i, |past|);
      assert false;
    }
  }

  /** Going down one map. */
  lemma Advance(s: Store, ms: seq<Multi>, past: seq<Multi>, top: Store, all: seq<Multi>, seen: set<Multi>)
    requires At(s, ms, past, top, all, seen) && s.Layer? && s.m.under.Some?
    ensures ms != [] && ms[0] == s.m && At(s.m.under.value, ms[1..], past + [s.m], top, all, seen + {s.m})
  {
    var next := past + [s.m];
    assert all == next + ms[1..];
    forall i | 0 <= i < |next| ensures all[i] in seen + {s.m} && all[i].under.Some? {
      assert i < |past| ==> all[i] == past[i];
    }
  }

  lemma Onward(s: Store, ms: seq<Multi>, past: seq<Multi>, top: Store, all: seq<Multi>, seen: set<Multi>, more: set<Multi>)
    requires At(s, ms, past, top, all, seen) && seen <= more
    ensures At(s, ms, past, top, all, more)
  {
  }

  lemma NotPassed(s: Store, ms: seq<Multi>, past: seq<Multi>, top: Store, all: seq<Multi>, seen: set<Multi>, m: Multi)
    requires At(s, ms, past, top, all, seen) && m !in seen
    ensures m !in past
  {
    forall i | 0 <= i < |past| ensures past[i] != m {
      assert all[i] == past[i];
    }
  }

  lemma NotLast(s: Store, ms: seq<Multi>, past: seq<Multi>, top: Store, all: seq<Multi>, seen: set<Multi>, m: Multi)
    requires At(s, ms, past, top, all, seen) && m.under.None?
    ensures m !in past
  {
    forall i | 0 <= i < |past| ensures past[i] != m {
      assert all[i] == past[i];
    }
  }

  ghost predicate Disjoint(a: seq<Multi>, b: seq<Multi>)
  {
    forall m :: m in a ==> m !in b
  }

  /** Below a shared map the two chains are the same. */
  lemma SameBelow(s: Option<Store>, a: seq<Multi>, i: nat, t: Option<Store>, b: seq<Multi>, j: nat)
    requires Chain(s, a) && Chain(t, b) && i < |a| && j < |b| && a[i] == b[j]
    ensures a[i..] == b[j..]
  {
    ChainSuffix(s, a, i);
    ChainSuffix(t, b, j);
    ChainUnique(Some(Layer(a[i])), a[i..], b[j..]);
  }

  lemma BehindFront(front: seq<Multi>, all: seq<Multi>, k: nat)
    requires front <= all && k < |all| && all[k] !in front
    ensures |front| <= k
  {
    forall i | 0 <= i < |front| ensures all[i] in front {
      assert front[i] == all[i];
    }
  }

  /** The search stops at the first shared map: none of those passed on one chain is on the other. */
  lemma PassedFirst(l: Store, lm: seq<Multi>, lp: seq<Multi>, l0: Store, la: seq<Multi>, seen: set<Multi>, rp: seq<Multi>, r0: Store, ra: seq<Multi>, j: nat)
    requires At(l, lm, lp, l0, la, seen) && l.Layer? && Chain(Some(r0), ra) && Disjoint(lp, rp) && rp <= ra
    requires j < |ra| && ra[j] == l.m && j <= |rp|
    ensures FirstAt(l.m, la, ra, |lp|)
  {
    assert lm[0] == l.m && la[|lp|] == l.m;
    forall i | 0 <= i < |lp| ensures la[i] !in ra {
      assert la[i] == lp[i];
      if la[i] in ra {
        var k :| 0 <= k < |ra| && ra[k] == la[i];
        assert lp[i] in lp;
        BehindFront(rp, ra, k);
        SameBelow(Some(l0), la, i, Some(r0), ra, k);
        assert la[i..][|lp| - i] == l.m && ra[k..][|lp| - i] == ra[k + (|lp| - i)];
        NoRepeat(Some(r0), ra, j, k + (|lp| - i));
        assert false;
      }
    }
  }

  /** ... and none before it on the other chain is on this one. */
  lemma OtherFirst(l0: Store, la: seq<Multi>, r0: Store, ra: seq<Multi>, m: Multi, i: nat, j: nat)
    requires Chain(Some(l0), la) && Chain(Some(r0), ra) && FirstAt(m, la, ra, i) && j < |ra| && ra[j] == m
    ensures FirstAt(m, ra, la, j)
  {
    forall k | 0 <= k < j ensures ra[k] !in la {
      if ra[k] in la {
        var n :| 0 <= n < |la| && la[n] == ra[k];
        SameBelow(Some(l0), la, n, Some(r0), ra, k);
        assert ra[k..][j - k] == m && la[n..][j - k] == la[n + (j - k)];
        if n + (j - k) != i {
          NoRepeat(Some(l0), la, if i < n + (j - k) then i else n + (j - k), if i < n + (j - k) then n + (j - k) else i);
        }
        assert false;
      }
    }
  }

  /** Neither side can go on: nothing is shared. */
  lemma DeadEnd(l: Store, lm: seq<Multi>, lp: seq<Multi>, l0: Store, la: seq<Multi>,
                r: Store, rm: seq<Multi>, rp: seq<Multi>, r0: Store, ra: seq<Multi>, seen: set<Multi>)
    requires At(l, lm, lp, l0, la, seen) && At(r, rm, rp, r0, ra, seen) && Disjoint(lp, rp)
    requires l.Layer? && l.m.under.None? && l.m !in seen && l != r && (r.Layer? ==> r.m.under.None?)
    ensures !Related(l0, la, r0, ra)
  {
    assert Chain(None, lm[1..]) && lm == [l.m] && BottomOf(l, lm) == None;
    assert r.Layer? ==> Chain(None, rm[1..]) && rm == [r.m];
    NotPassed(r, rm, rp, r0, ra, seen, l.m);
    if r.Layer? {
      NotLast(l, lm, lp, l0, la, seen, r.m);
    }
  }

  lemma BothSingle(l: Store, lp: seq<Multi>, l0: Store, la: seq<Multi>, r: Store, rp: seq<Multi>, r0: Store, ra: seq<Multi>, seen: set<Multi>)
    requires l.Single? && r.Single? && At(l, [], lp, l0, la, seen) && At(r, [], rp, r0, ra, seen) && Disjoint(lp, rp)
    ensures Related(l0, la, r0, ra) <==> SameVal(l.v, r.v)
  {
    assert la == lp && ra == rp;
  }

  function Turn(l: Store): nat
    reads if l.Layer? then {l.m} else {}
  {
    if l.Single? then 2 else if l.m.under.None? then 1 else 0
  }

  /** `getCommonAncestor`: go down the two chains in turn until they meet. It succeeds exactly when
      they share a map or rest on equal single values. It then names the first map they share, or if they
      share none the single values, so that the stores named denote the same. */
  method CommonAncestor(l: Store, r: Store, seen: set<Multi>,
                        ghost lm: seq<Multi>, ghost lp: seq<Multi>, ghost l0: Store, ghost la: seq<Multi>,
                        ghost rm: seq<Multi>, ghost rp: seq<Multi>, ghost r0: Store, ghost ra: seq<Multi>)
    returns (ok: bool, left: Store, right: Store)
    requires At(l, lm, lp, l0, la, seen) && At(r, rm, rp, r0, ra, seen) && Disjoint(lp, rp)
    requires forall m :: m in seen ==> m in lp || m in rp
    ensures ok <==> Related(l0, la, r0, ra)
    ensures ok ==> OnChain(left, l0, la) && OnChain(right, r0, ra) && SameStore(left, right) && MeetAt(left, right, la, ra)
    decreases |lm| + |rm|, Turn(l)
  {
    left, right := l, r;
    if l.Single? {
      if r.Single? {
        BothSingle(l, lp, l0, la, r, rp, r0, ra, seen);
        return SameVal(l.v, r.v), l, r;
      }
      ok, right, left := CommonAncestor(r, l, seen, rm, rp, r0, ra, lm, lp, l0, la);
      return;
    }
    if l == r || l.m in seen {
      assert l.m in la;
      Met(l, r, lm, lp, l0, la, rm, rp, r0, ra, seen);
      return true, l, l;
    }
    if l.m.under.None? {
      if r.Single? || r.m.under.None? {
        DeadEnd(l, lm, lp, l0, la, r, rm, rp, r0, ra, seen);
        return false, l, r;
      }
      ok, right, left := CommonAncestor(r, l, seen, rm, rp, r0, ra, lm, lp, l0, la);
    } else {
      Advance(l, lm, lp, l0, la, seen);
      NotPassed(r, rm, rp, r0, ra, seen, l.m);
      Onward(r, rm, rp, r0, ra, seen, seen + {l.m});
      ok, right, left := CommonAncestor(r, l.m.under.value, seen + {l.m}, rm, rp, r0, ra, lm[1..], lp + [l.m], l0, la);
    }
  }

  /** The map reached on one chain has been reached or passed on the other. */
  lemma Met(l: Store, r: Store, lm: seq<Multi>, lp: seq<Multi>, l0: Store, la: seq<Multi>,
            rm: seq<Multi>, rp: seq<Multi>, r0: Store, ra: seq<Multi>, seen: set<Multi>)
    requires At(l, lm, lp, l0, la, seen) && At(r, rm, rp, r0, ra, seen) && Disjoint(lp, rp)
    requires l.Layer? && (l == r || l.m in seen) && forall m :: m in seen ==> m in lp || m in rp
    ensures l.m in la && l.m in ra && MeetAt(l, l, la, ra)
  {
    assert la[|lp|] == l.m;
    if l.m in seen {
      SeenOther(l, lm, lp, l0, la, seen, rp);
    }
    var j := if l.m in seen then IndexOf(rp, l.m) else |rp|;
    assert ra[j] == l.m;
    PassedFirst(l, lm, lp, l0, la, seen, rp, r0, ra, j);
    OtherFirst(l0, la, r0, ra, l.m, |lp|, j);
  }

  ghost function IndexOf(ms: seq<Multi>, m: Multi): (i: nat)
    requires m in ms
    ensures i < |ms| && ms[i] == m
  {
    var i :| 0 <= i < |ms| && ms[i] == m; i
  }

  /** A search starts at the top of each chain. */
  lemma Start(s: Store, ms: seq<Multi>)
    requires Chain(Some(s), ms)
    ensures At(s, ms, [], s, ms, {})
  {
    assert [] + ms == ms;
  }

  lemma SameSwap(a: Store, b: Store)
    requires SameStore(a, b)
    ensures SameStore(b, a) && SameStore(a, a)
  {
  }
}
