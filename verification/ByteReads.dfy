/** Reading a range of a store as one value or as bytes: `readValRangeFrom`
    (llpe/main/LoadForward.cpp:703-875). */
module ByteReads {
  import opened Options
  import opened Extents
  import opened Constants
  import opened SymbolicValues
  import opened SubValues
  import opened ValueCuts
  import opened RangeClears
  import opened LayeredStore
  import opened Stacks
  import opened PartialValue
  import opened Extraction

  // ----- the reader

  /** What a read gives: a value, bytes, or nothing (perhaps worth trying again with extents). */
  datatype ReadResult = Whole(v: Val) | Bytes(pv: PartialVal) | Unknown(tryMulti: bool)

  /** Bytes so far: the valid ones tell what is wanted, the others are still to be had from a place
      that holds `have`. */
  ghost predicate SoFar(buf: seq<Byte>, valid: seq<bool>, want: seq<Abs>, have: seq<Abs>)
  {
    && |buf| == |valid| == |want| == |have|
    && forall i :: 0 <= i < |want| ==> if valid[i] then Tells(want[i], buf[i]) else want[i] == have[i]
  }

  /** All bytes of a result tell what is wanted, or the value allows it, and if known nothing else. */
  ghost predicate Delivers(r: ReadResult, want: seq<Abs>, tidy: bool)
    reads if r.Bytes? then {r.pv.buf} else {}
  {
    match r
    case Bytes(pv) => pv.buf.Length == |want| && forall i :: 0 <= i < |want| ==> Tells(want[i], pv.buf[i])
    case Whole(v) => tidy ==> forall i :: 0 <= i < |want| ==> StandsAt(ByteAt(v, i), want[i], false)
    case Unknown(_) => true
  }

  /** Every read of the value may start where it does. */
  ghost predicate Startable(v: Val, len: nat)
  {
    forall k: nat :: k < len ==> StartsWell(v, k)
  }

  /** The value can be read as bytes, as far as it is known. */
  ghost predicate ReadyValue(v: Val, len: nat)
  {
    v.WhollyUnknown() || (Fits(v, len) && Startable(v, len))
  }

  /** What bytes off..off + n of a value hold. */
  ghost function Held(v: Val, off: nat, n: nat): (h: seq<Abs>)
    ensures |h| == n && forall i :: 0 <= i < n ==> h[i] == ByteAt(v, off + i)
  {
    if n == 0 then [] else Held(v, off, n - 1) + [ByteAt(v, off + (n - 1))]
  }

  // ----- when a read succeeds

  /** The value is handed over as it is, or a nested element of every constant of it gives the part and these
      do not merge to the unknown. */
  ghost predicate WholeHere(v: Val, len: nat, off: nat, n: nat)
  {
    || (off == 0 && n == len && v.kind != KSplat)
    || (!v.WhollyUnknown() && v.kind == KScalar && AllGive(v.items, off, n) && !ExtractMerge(v.items, off, n).overdef)
  }

  /** The value that is then handed over. */
  function WholeVal(v: Val, len: nat, off: nat, n: nat): Val
  {
    if off == 0 && n == len && v.kind != KSplat then v else ExtractMerge(v.items, off, n)
  }

  /** It is not, and it is one constant readable there or one splatted byte. */
  ghost predicate BytesHere(v: Val, len: nat, off: nat, n: nat)
  {
    && !WholeHere(v, len, off, n) && HasBytes(v, off, n)
    && (v.kind == KScalar ==> !ExtractMerge(v.items, off, n).overdef)
  }

  /** The part of the extent inside off..off + n can be had as bytes. */
  ghost predicate PartReadable(e: Extent<Val>, off: nat, n: nat)
  {
    var first, last := if off < e.start then e.start else off, if off + n < e.stop then off + n else e.stop;
    first < last ==> HasBytes(e.val, first - e.start, last - first)
  }

  /** Every extent that meets the range can be had as bytes there. */
  ghost predicate LayerReadable(top: Pieces, off: nat, n: nat)
  {
    forall e {:trigger PartReadable(e, off, n)} :: e in top ==> PartReadable(e, off, n)
  }

  /** Which bytes are known after a layer, if `valid` were before. */
  function Filled(top: Pieces, off: nat, valid: seq<bool>): (r: seq<bool>)
    ensures |r| == |valid|
  {
    seq(|valid|, k requires 0 <= k < |valid| => valid[k] || At(top, off + k).Some?)
  }

  predicate Complete(valid: seq<bool>)
  {
    forall k :: 0 <= k < |valid| ==> valid[k]
  }

  /** The bytes that are missing can be had: each layer down to the one that completes them is readable
      wherever it meets the range. */
  ghost predicate Bytewise(st: Stack, off: nat, valid: seq<bool>)
  {
    match st
    case Nothing => false
    case Bottom(v) => HasBytes(v, off, |valid|)
    case Over(top, rest) =>
      LayerReadable(top, off, |valid|) && (Complete(Filled(top, off, valid)) || Bytewise(rest, off, Filled(top, off, valid)))
    case Threshold(_) => false
  }

  function NoneValid(n: nat): seq<bool>
  {
    seq(n, _ => false)
  }

  /** One extent holds the whole range. */
  predicate CoveredBy(top: Pieces, off: nat, n: nat)
  {
    At(top, off).Some? && off + n <= At(top, off).value.stop
  }

  /** Some extent meets the range. */
  predicate Touched(top: Pieces, off: nat, n: nat)
  {
    exists i :: 0 <= i < |top| && top[i].start < off + n && off < top[i].stop
  }

  ghost predicate WholeIn(e: Extent<Val>, off: nat, n: nat)
  {
    e.start <= off && off + n <= e.stop && WholeHere(e.val, e.stop - e.start, off - e.start, n)
  }

  ghost predicate BytesIn(e: Extent<Val>, off: nat, n: nat)
  {
    e.start <= off && off + n <= e.stop && BytesHere(e.val, e.stop - e.start, off - e.start, n)
  }

  /** A fresh read gives a value: one value holds the range, under layers that do not meet it. */
  ghost predicate GivesWhole(st: Stack, off: nat, n: nat, size: nat)
  {
    match st
    case Nothing => false
    case Bottom(v) => WholeHere(v, size, off, n)
    case Over(top, rest) =>
      if CoveredBy(top, off, n) then WholeIn(At(top, off).value, off, n)
      else !Touched(top, off, n) && GivesWhole(rest, off, n, size)
    case Threshold(_) => false
  }

  ghost function GivenWhole(st: Stack, off: nat, n: nat, size: nat): Val
    requires GivesWhole(st, off, n, size)
  {
    match st
    case Bottom(v) => WholeVal(v, size, off, n)
    case Over(top, rest) =>
      if CoveredBy(top, off, n) then GivenBy(At(top, off).value, off, n) else GivenWhole(rest, off, n, size)
  }

  function GivenBy(e: Extent<Val>, off: nat, n: nat): Val
    requires e.start <= off <= e.stop
  {
    WholeVal(e.val, e.stop - e.start, off - e.start, n)
  }

  /** The extent could perhaps be read as extents, though not as bytes: it is a whole pointer or file descriptor, or
      some other known value. */
  predicate Retry(e: Extent<Val>, off: nat, n: nat)
  {
    if e.val.kind == KPointer || e.val.kind == KFd then off <= e.start && e.stop <= off + n else !e.val.WhollyUnknown()
  }

  /** The first extent of the layer that cannot be had as bytes could perhaps be read as extents. */
  ghost predicate RetriesLayer(top: Pieces, off: nat, n: nat)
  {
    exists k {:trigger top[k]} :: 0 <= k < |top| && FirstRefused(top, off, n, k) && Retry(top[k], off, n)
  }

  ghost predicate FirstRefused(top: Pieces, off: nat, n: nat, k: nat)
    requires k < |top|
  {
    !PartReadable(top[k], off, n) && forall j :: 0 <= j < k ==> PartReadable(top[j], off, n)
  }

  /** A read that gives nothing should be tried again with extents: it fails at a layer that does not hold the whole
      range in one extent, and the first extent that cannot be had as bytes could perhaps be read so. */
  ghost predicate Retries(st: Stack, off: nat, valid: seq<bool>)
  {
    match st
    case Over(top, rest) =>
      if CoveredBy(top, off, |valid|) then false
      else if LayerReadable(top, off, |valid|) then Retries(rest, off, Filled(top, off, valid))
      else RetriesLayer(top, off, |valid|)
    case _ => false
  }

  /** A fresh read gives bytes. */
  ghost predicate GivesBytes(st: Stack, off: nat, n: nat, size: nat)
  {
    match st
    case Nothing => false
    case Bottom(v) => BytesHere(v, size, off, n)
    case Over(top, rest) =>
      if CoveredBy(top, off, n) then BytesIn(At(top, off).value, off, n)
      else if Touched(top, off, n) then Bytewise(st, off, NoneValid(n))
      else GivesBytes(rest, off, n, size)
    case Threshold(_) => false
  }

  /** The constants of a fitting scalar. */
  lemma ScalarItems(v: Val, len: nat)
    requires Fits(v, len) && v.kind == KScalar
    ensures forall i :: 0 <= i < |v.items| ==> v.items[i].v.K?
  {
    forall i | 0 <= i < |v.items| ensures v.items[i].v.K? {
      assert v.items[i] in v.items && ItemFits(KScalar, v.items[i], len);
    }
  }

  /** The extraction attempts of a read that one value covers. */
  method TryExtract(v: Val, len: nat, off: nat, size: nat) returns (result: Val, worked: bool)
    requires Fits(v, len) && v.kind == KScalar && !v.WhollyUnknown() && size > 0
    ensures result.overdef <==> ExtractMerge(v.items, off, size).overdef
    ensures !result.overdef ==> result == ExtractMerge(v.items, off, size) && (worked <==> AllExtract(v.items, off, size))
    ensures AllExtract(v.items, off, size) <==> AllGive(v.items, off, size)
  {
    ScalarItems(v, len);
    ScalarGive(v, len, off, size);
    result, worked := ExtractItems(v.items, off, size);
  }

  lemma ScalarGive(v: Val, len: nat, off: nat, n: nat)
    requires Fits(v, len) && v.kind == KScalar && n > 0
    ensures AllExtract(v.items, off, n) <==> AllGive(v.items, off, n)
  {
    forall x | x in v.items ensures x.v.K? ==> ValidConst(x.v.c) {
      assert ItemFits(KScalar, x, len);
    }
    AllExtractIff(v.items, off, n);
  }

  method ExtractItems(items: seq<Item>, off: nat, size: nat) returns (result: Val, worked: bool)
    requires forall i :: 0 <= i < |items| ==> items[i].v.K?
    ensures result.overdef <==> ExtractMerge(items, off, size).overdef
    ensures !result.overdef ==> result == ExtractMerge(items, off, size) && (worked <==> AllExtract(items, off, size))
  {
    result, worked := Val(KUnknown, [], false), true;
    var i := 0;
    while i < |items|
      invariant 0 <= i <= |items| && result == ExtractMerge(items[..i], off, size)
      invariant worked <==> AllExtract(items[..i], off, size)
    {
      var found;
      result, found := ExtractOne(items, i, result, off, size);
      if found && result.overdef {
        StaysOverdef(items, off, size, i + 1);
        return;
      }
      worked := worked && found;
      i := i + 1;
    }
    assert items[..|items|] == items;
  }

  /** The sub-constant of the item at `i`, if it has one, merged into the result. */
  method ExtractOne(items: seq<Item>, i: nat, result: Val, off: nat, size: nat) returns (r: Val, found: bool)
    requires i < |items| && items[i].v.K? && result == ExtractMerge(items[..i], off, size)
    ensures r == ExtractMerge(items[..i + 1], off, size)
    ensures found && AllExtract(items[..i], off, size) <==> AllExtract(items[..i + 1], off, size)
  {
    ExtractNext(items, i, off, size);
    var d := Extract(items[i].v.c, off, size);
    found := d.Some?;
    r := if found then Merge(result, ValueOf(d.value)) else result;
  }

  lemma ExtractDelivers(v: Val, len: nat, off: nat, n: nat, want: seq<Abs>)
    requires Fits(v, len) && v.kind == KScalar && !v.WhollyUnknown() && n > 0 && AllExtract(v.items, off, n) && want == Held(v, off, n)
    ensures var ok := Delivers(Whole(ExtractMerge(v.items, off, n)), want, Tidy(v)); ok
  {
    if Tidy(v) {
      forall k: nat | k < n ensures StandsAt(ByteAt(ExtractMerge(v.items, off, n), k), want[k], false) {
        ExtractStands(v, len, off, n, k);
      }
    }
  }

  /** What the value that holds the whole range makes of the read. */
  ghost predicate Handled(r: ReadResult, v: Val, len: nat, off: nat, n: nat, afresh: bool)
  {
    && (r.Unknown? ==> !r.tryMulti)
    && if afresh then HandledAfresh(r, v, len, off, n) else !r.Whole? && (r.Bytes? <==> HasBytes(v, off, n))
  }

  ghost predicate HandledAfresh(r: ReadResult, v: Val, len: nat, off: nat, n: nat)
  {
    && (r.Whole? <==> WholeHere(v, len, off, n)) && (r.Bytes? <==> BytesHere(v, len, off, n))
    && (r.Whole? ==> r.v == WholeVal(v, len, off, n))
  }

  /** A read that one value covers. */
  method ReadValue(v: Val, len: nat, off: nat, size: nat, pv: PartialVal?, ghost want: seq<Abs>, ghost have: seq<Abs>) returns (r: ReadResult)
    requires size > 0 && off + size <= len && |want| == size && var ready := ReadyValue(v, len); ready
    requires have == Held(v, off, size) && (pv == null ==> want == have)
    requires pv != null ==> pv.Valid() && pv.buf.Length == size && var sofar := SoFar(pv.buf[..], pv.valid[..], want, have); sofar
    modifies if pv == null then {} else {pv, pv.buf, pv.valid}
    ensures var ok := Delivers(r, want, Tidy(v)); ok
    ensures var handled := Handled(r, v, len, off, size, pv == null); handled
  {
    var p := pv;
    if p == null {
      if len == size && off == 0 && v.kind != KSplat {
        return Whole(v);
      }
      if v.WhollyUnknown() || (v.kind != KScalar && v.kind != KSplat) {
        return Unknown(false);
      }
      if v.kind == KScalar {
        var result, worked := TryExtract(v, len, off, size);
        if result.overdef {
          return Unknown(false);
        }
        if worked {
          ExtractDelivers(v, len, off, size, want);
          return Whole(result);
        }
      }
      p := new PartialVal(size);
    }
    r := AddAll(v, len, off, size, p, want, have);
  }

  /** Fill what is missing from one value. */
  method AddAll(v: Val, len: nat, off: nat, size: nat, p: PartialVal, ghost want: seq<Abs>, ghost have: seq<Abs>) returns (r: ReadResult)
    requires size > 0 && off + size <= len && var ready := ReadyValue(v, len); ready
    requires p.Valid() && p.buf.Length == size && have == Held(v, off, size)
    requires var sofar := SoFar(p.buf[..], p.valid[..], want, have); sofar
    modifies p, p.buf, p.valid
    ensures var ok := Delivers(r, want, Tidy(v)); ok
    ensures !r.Whole? && (r.Bytes? <==> HasBytes(v, off, size)) && (r.Unknown? ==> !r.tryMulti)
  {
    if v.WhollyUnknown() {
      return Unknown(false);
    }
    var ok := p.AddValue(v, len, off, 0, size);
    if !ok {
      return Unknown(false);
    }
    r := Bytes(p);
  }

  // ----- reading through the layers

  /** What the bytes off..off + n of a stack hold. */
  ghost function Looks(st: Stack, off: nat, n: nat): (h: seq<Abs>)
    ensures |h| == n && forall i :: 0 <= i < n ==> h[i] == LookIn(st, off + i)
  {
    if n == 0 then [] else Looks(st, off, n - 1) + [LookIn(st, off + (n - 1))]
  }

  /** The layers are well formed and their values can be read from any byte on. */
  ghost predicate Ready(st: Stack, size: nat)
  {
    match st
    case Nothing => true
    case Bottom(v) => ReadyValue(v, size)
    case Over(top, rest) => Sorted(top) && AllFit(top) && AllStart(top) && Ready(rest, size)
    case Threshold(_) => false
  }

  ghost predicate AllStart(m: Pieces)
  {
    forall e {:trigger StartsAnywhere(e)} :: e in m ==> StartsAnywhere(e)
  }

  ghost predicate StartsAnywhere(e: Extent<Val>)
  {
    e.start < e.stop && Startable(e.val, e.stop - e.start)
  }

  /** Every constant of the stack can be cut. */
  ghost predicate AllTidy(st: Stack)
  {
    match st
    case Nothing => true
    case Bottom(v) => Tidy(v)
    case Over(top, rest) => (forall e {:trigger Tidy(e.val)} :: e in top ==> Tidy(e.val)) && AllTidy(rest)
    case Threshold(_) => true
  }

  lemma LooksBottom(v: Val, off: nat, n: nat)
    ensures Looks(Bottom(v), off, n) == Held(v, off, n)
  {
  }

  /** A range that lies in one extent of the top layer. */
  lemma LooksExtent(top: Pieces, rest: Stack, i: nat, off: nat, n: nat)
    requires Sorted(top) && i < |top| && top[i].start <= off && off + n <= top[i].stop
    ensures Looks(Over(top, rest), off, n) == Held(top[i].val, off - top[i].start, n)
  {
    var looks, held := Looks(Over(top, rest), off, n), Held(top[i].val, off - top[i].start, n);
    forall k: nat | k < n ensures looks[k] == held[k] {
      LooksOne(top, rest, i, off, n, k);
    }
    assert looks == held;
  }

  lemma LooksOne(top: Pieces, rest: Stack, i: nat, off: nat, n: nat, k: nat)
    requires Sorted(top) && i < |top| && top[i].start <= off && off + n <= top[i].stop && k < n
    ensures Looks(Over(top, rest), off, n)[k] == Held(top[i].val, off - top[i].start, n)[k]
  {
    LookHit(top, rest, i, off + k, off - top[i].start + k);
    LooksAt(Over(top, rest), off, n, k);
    HeldAtByte(top[i].val, off - top[i].start, n, k);
  }

  lemma LookHit(top: Pieces, rest: Stack, i: nat, b: nat, at: nat)
    requires Sorted(top) && i < |top| && top[i].start <= b < top[i].stop && at == b - top[i].start
    ensures LookIn(Over(top, rest), b) == ByteAt(top[i].val, at)
  {
    AtHit(top, i, b);
    OverHit(top, rest, b, top[i]);
  }

  lemma LooksAt(st: Stack, off: nat, n: nat, k: nat)
    requires k < n
    ensures Looks(st, off, n)[k] == LookIn(st, off + k)
  {
  }

  lemma HeldAtByte(v: Val, off: nat, n: nat, k: nat)
    requires k < n
    ensures Held(v, off, n)[k] == ByteAt(v, off + k)
  {
  }

  /** No extent before `i` holds a byte that is not yet valid. */
  ghost predicate PassedBy(top: Pieces, i: nat, off: nat, valid: seq<bool>)
    requires i <= |top|
  {
    forall j, k :: 0 <= j < i && 0 <= k < |valid| && !valid[k] ==> !(top[j].start <= off + k < top[j].stop)
  }

  lemma PassedMiss(top: Pieces, i: nat, off: nat, n: nat, valid: seq<bool>, k: nat)
    requires Sorted(top) && i <= |top| && PassedBy(top, i, off, valid) && k < |valid| == n && !valid[k]
    requires i < |top| ==> off + n <= top[i].start
    ensures At(top, off + k) == None
  {
    forall j | 0 <= j < |top| ensures !(top[j].start <= off + k < top[j].stop) {
      if j > i {
        assert Precedes(top, i, j);
      }
    }
    AtMiss(top, off + k);
  }

  /** Past the top layer, what is missing is to be had from below. */
  lemma PassedAll(top: Pieces, rest: Stack, i: nat, off: nat, buf: seq<Byte>, valid: seq<bool>, want: seq<Abs>)
    requires Sorted(top) && i <= |top| && PassedBy(top, i, off, valid) && (i < |top| ==> off + |want| <= top[i].start)
    requires var ok := SoFar(buf, valid, want, Looks(Over(top, rest), off, |want|)); ok
    ensures var ok := SoFar(buf, valid, want, Looks(rest, off, |want|)); ok
  {
    var n := |want|;
    var have, below := Looks(Over(top, rest), off, n), Looks(rest, off, n);
    forall k: nat | k < n && !valid[k] ensures have[k] == below[k] {
      PassedMiss(top, i, off, n, valid, k);
      LooksBelow(top, rest, off, n, k);
    }
    SoFarBelow(buf, valid, want, have, below);
  }

  lemma LooksBelow(top: Pieces, rest: Stack, off: nat, n: nat, k: nat)
    requires k < n && At(top, off + k) == None
    ensures Looks(Over(top, rest), off, n)[k] == Looks(rest, off, n)[k]
  {
    OverMiss(top, rest, off + k);
  }

  lemma SoFarBelow(buf: seq<Byte>, valid: seq<bool>, want: seq<Abs>, have: seq<Abs>, below: seq<Abs>)
    requires |below| == |have| && var ok := SoFar(buf, valid, want, have); ok
    requires forall k: nat :: k < |want| && !valid[k] ==> have[k] == below[k]
    ensures var ok := SoFar(buf, valid, want, below); ok
  {
  }

  lemma NothingHere(top: Pieces, rest: Stack, i: nat, off: nat, size: nat)
    requires Sorted(top) && i == Find(top, off) && (i < |top| ==> off + size <= top[i].start)
    ensures Looks(Over(top, rest), off, size) == Looks(rest, off, size)
  {
    var none := seq(size, _ => false);
    forall k: nat | k < size ensures Looks(Over(top, rest), off, size)[k] == Looks(rest, off, size)[k] {
      PassedMiss(top, i, off, size, none, k);
      LooksBelow(top, rest, off, size, k);
    }
  }

  /** Adding a value at `first` keeps the bytes so far right where the value is what is held. */
  lemma AddedSoFar(v: Val, voff: nat, first: nat, n: nat, want: seq<Abs>, have: seq<Abs>,
                   oldBuf: seq<Byte>, oldValid: seq<bool>, buf: seq<Byte>, valid: seq<bool>)
    requires SoFar(oldBuf, oldValid, want, have) && |buf| == |valid| == |want|
    requires forall k: nat :: first <= k < first + n && k < |want| ==> have[k] == ByteAt(v, voff + (k - first))
    requires forall k :: 0 <= k < |valid| ==> (valid[k] <==> oldValid[k] || first <= k < first + n)
    requires forall k :: 0 <= k < |buf| && (oldValid[k] || !(first <= k < first + n)) ==> buf[k] == oldBuf[k]
    requires forall k :: first <= k < first + n && k < |buf| && !oldValid[k] ==> Tells(ByteAt(v, voff + (k - first)), buf[k])
    ensures var ok := SoFar(buf, valid, want, have); ok
  {
    forall k | 0 <= k < |want| ensures if valid[k] then Tells(want[k], buf[k]) else want[k] == have[k] {
      if first <= k < first + n && !oldValid[k] {
        assert want[k] == have[k] == ByteAt(v, voff + (k - first));
      }
    }
  }

  /** Add part of a value where it is what is held. */
  method AddPart(p: PartialVal, v: Val, len: nat, voff: nat, first: nat, n: nat, ghost want: seq<Abs>, ghost have: seq<Abs>)
    returns (ok: bool)
    requires p.Valid() && Fits(v, len) && Startable(v, len) && n > 0 && voff + n <= len && first + n <= p.buf.Length
    requires var sofar := SoFar(p.buf[..], p.valid[..], want, have); sofar
    requires forall k: nat :: first <= k < first + n && k < |have| ==> have[k] == ByteAt(v, voff + (k - first))
    modifies p, p.buf, p.valid
    ensures p.Valid() && (ok <==> HasBytes(v, voff, n))
    ensures ok ==> forall k :: 0 <= k < p.valid.Length ==> (p.valid[k] <==> old(p.valid[k]) || first <= k < first + n)
    ensures ok ==> var sofar := SoFar(p.buf[..], p.valid[..], want, have); sofar
  {
    ghost var oldBuf, oldValid := p.buf[..], p.valid[..];
    ok := p.AddValue(v, len, voff, first, n);
    if ok {
      AddedSoFar(v, voff, first, n, want, have, oldBuf, oldValid, p.buf[..], p.valid[..]);
    }
  }

  lemma PassOne(top: Pieces, i: nat, off: nat, was: seq<bool>, now: seq<bool>, first: nat, last: nat)
    requires i < |top| && PassedBy(top, i, off, was) && |was| == |now|
    requires first == (if off < top[i].start then top[i].start else off)
    requires last == if off + |now| < top[i].stop then off + |now| else top[i].stop
    requires forall k :: 0 <= k < |now| ==> (now[k] <==> was[k] || first - off <= k < last - off)
    ensures PassedBy(top, i + 1, off, now)
  {
  }

  /** Where the top layer has an extent, `have` is what it says. */
  ghost predicate SaidBy(top: Pieces, off: nat, have: seq<Abs>)
  {
    forall k: nat :: k < |have| && Peek(top, off + k).Some? ==> have[k] == Peek(top, off + k).value
  }

  lemma LooksSaid(top: Pieces, rest: Stack, off: nat, n: nat)
    ensures SaidBy(top, off, Looks(Over(top, rest), off, n))
  {
  }

  lemma SaidHere(top: Pieces, i: nat, off: nat, have: seq<Abs>, k: nat)
    requires Sorted(top) && i < |top| && SaidBy(top, off, have) && k < |have| && top[i].start <= off + k < top[i].stop
    ensures have[k] == ByteAt(top[i].val, off + k - top[i].start)
  {
    AtHit(top, i, off + k);
    assert Peek(top, off + k).Some?;
  }

  lemma SaidRange(top: Pieces, i: nat, e: Extent<Val>, off: nat, have: seq<Abs>, at: nat, n: nat, voff: nat)
    requires Sorted(top) && i < |top| && top[i] == e && SaidBy(top, off, have)
    requires e.start + voff == off + at && voff + n <= e.stop - e.start
    ensures forall k: nat :: at <= k < at + n && k < |have| ==> have[k] == ByteAt(e.val, voff + (k - at))
  {
    forall k: nat | at <= k < at + n && k < |have| ensures have[k] == ByteAt(e.val, voff + (k - at)) {
      SaidHere(top, i, off, have, k);
      assert off + k - e.start == voff + (k - at);
    }
  }

  /** One turn of the loop: the part of the range that the extent at `i` holds. */
  method AddExtent(top: Pieces, i: nat, off: nat, size: nat, p: PartialVal, ghost want: seq<Abs>, ghost have: seq<Abs>)
    returns (ok: bool)
    requires Sorted(top) && AllFit(top) && AllStart(top) && SaidBy(top, off, have)
    requires size > 0 && i < |top| && off < top[i].stop && top[i].start < off + size && |have| == size
    requires p.Valid() && p.buf.Length == size && PassedBy(top, i, off, p.valid[..])
    requires var sofar := SoFar(p.buf[..], p.valid[..], want, have); sofar
    modifies p, p.buf, p.valid
    ensures p.Valid() && (ok <==> PartReadable(top[i], off, size))
    ensures ok ==> forall k :: 0 <= k < size ==> (p.valid[k] <==> old(p.valid[k]) || top[i].start <= off + k < top[i].stop)
    ensures ok ==> PassedBy(top, i + 1, off, p.valid[..])
    ensures ok ==> var sofar := SoFar(p.buf[..], p.valid[..], want, have); sofar
  {
    var e := top[i];
    assert e in top && ExtentFits(e) && StartsAnywhere(e);
    var first := if off < e.start then e.start else off;
    var last := if off + size < e.stop then off + size else e.stop;
    ghost var was := p.valid[..];
    var voff, at, n := first - e.start, first - off, last - first;
    SaidRange(top, i, e, off, have, at, n, voff);
    ok := AddPart(p, e.val, e.stop - e.start, voff, at, n, want, have);
    if ok {
      PassOne(top, i, off, was, p.valid[..], first, last);
    }
  }

  /** The bytes known are those known before and those of the extents before `k`. */
  ghost predicate Filling(top: Pieces, k: nat, off: nat, was: seq<bool>, valid: seq<bool>)
    requires k <= |top|
  {
    |valid| == |was| && forall j :: 0 <= j < |valid| ==> (valid[j] <==> was[j] || HeldBefore(top, k, off + j))
  }

  ghost predicate HeldBefore(top: Pieces, k: nat, b: nat)
    requires k <= |top|
  {
    exists i :: 0 <= i < k && top[i].start <= b < top[i].stop
  }

  lemma HeldStep(top: Pieces, k: nat, b: nat)
    requires k < |top|
    ensures HeldBefore(top, k + 1, b) <==> HeldBefore(top, k, b) || top[k].start <= b < top[k].stop
  {
  }

  /** The extents before the first that ends behind the range's start do not meet it. */
  lemma BeforeStart(top: Pieces, start: nat, off: nat, n: nat)
    requires start == Find(top, off)
    ensures forall i :: 0 <= i < start ==> top[i].stop <= off && PartReadable(top[i], off, n)
  {
  }

  lemma FillStart(top: Pieces, start: nat, off: nat, was: seq<bool>)
    requires start == Find(top, off)
    ensures var filling := Filling(top, start, off, was, was); filling
  {
  }

  lemma NothingFilled(top: Pieces, start: nat, off: nat, n: nat, valid: seq<bool>)
    requires start == Find(top, off) && |valid| == n && forall i :: 0 <= i < n ==> !valid[i]
    ensures var filling := Filling(top, start, off, NoneValid(n), valid); filling
  {
  }

  lemma FillNext(top: Pieces, k: nat, off: nat, was: seq<bool>, before: seq<bool>, valid: seq<bool>)
    requires k < |top| && |valid| == |before| && var filling := Filling(top, k, off, was, before); filling
    requires forall j :: 0 <= j < |valid| ==> (valid[j] <==> before[j] || top[k].start <= off + j < top[k].stop)
    ensures var filling := Filling(top, k + 1, off, was, valid); filling
  {
    forall j | 0 <= j < |valid| ensures valid[j] <==> was[j] || HeldBefore(top, k + 1, off + j) {
      HeldStep(top, k, off + j);
    }
  }

  /** Past the last extent that meets the range, the layer is done. */
  lemma LayerDone(top: Pieces, start: nat, k: nat, off: nat, n: nat, was: seq<bool>)
    requires Sorted(top) && start == Find(top, off) && start <= k <= |top| && n > 0
    requires k < |top| ==> off + n <= top[k].start
    requires forall j :: 0 <= j < k ==> PartReadable(top[j], off, n)
    requires k > start ==> top[start].start < off + n
    ensures LayerReadable(top, off, n) && (Touched(top, off, n) <==> k > start)
  {
    forall j | k <= j < |top| ensures off + n <= top[j].start {
      assert j > k ==> Precedes(top, k, j);
    }
    forall e | e in top ensures PartReadable(e, off, n) {
      var j :| 0 <= j < |top| && top[j] == e;
    }
    if k > start {
      assert off < top[start].stop;
    }
  }

  lemma FilledAll(top: Pieces, k: nat, off: nat, was: seq<bool>, valid: seq<bool>)
    requires Sorted(top) && k <= |top| && (k < |top| ==> off + |was| <= top[k].start) && var filling := Filling(top, k, off, was, valid); filling
    ensures valid == Filled(top, off, was)
  {
    forall j | 0 <= j < |valid| ensures valid[j] == Filled(top, off, was)[j] {
      HeldAt(top, k, off, |was|, off + j);
    }
  }

  lemma HeldAt(top: Pieces, k: nat, off: nat, n: nat, b: nat)
    requires Sorted(top) && k <= |top| && (k < |top| ==> off + n <= top[k].start) && b < off + n
    ensures HeldBefore(top, k, b) <==> At(top, b).Some?
  {
    if HeldBefore(top, k, b) {
      var i :| 0 <= i < k && top[i].start <= b < top[i].stop;
      AtHit(top, i, b);
    } else {
      forall i | 0 <= i < |top| ensures !(top[i].start <= b < top[i].stop) {
        assert i > k ==> Precedes(top, k, i);
      }
      AtMiss(top, b);
    }
  }

  /** The extents before `k` have been added to what was there. */
  ghost predicate Added(p: PartialVal, top: Pieces, k: nat, off: nat, size: nat, was: seq<bool>, want: seq<Abs>, have: seq<Abs>)
    requires k <= |top|
    reads p, p.buf, p.valid
  {
    && p.Valid() && p.buf.Length == size
    && PassedBy(top, k, off, p.valid[..]) && Filling(top, k, off, was, p.valid[..])
    && SoFar(p.buf[..], p.valid[..], want, have)
  }

  /** One turn of the loop. */
  method AddNext(top: Pieces, k: nat, off: nat, size: nat, p: PartialVal, ghost was: seq<bool>, ghost want: seq<Abs>, ghost have: seq<Abs>)
    returns (ok: bool, tryMulti: bool)
    requires Sorted(top) && AllFit(top) && AllStart(top) && SaidBy(top, off, have)
    requires size > 0 && k < |top| && off < top[k].stop && top[k].start < off + size && |have| == size
    requires var added := Added(p, top, k, off, size, was, want, have); added
    modifies p, p.buf, p.valid
    ensures (ok <==> PartReadable(top[k], off, size)) && (!ok ==> tryMulti == Retry(top[k], off, size))
    ensures ok ==> var added := Added(p, top, k + 1, off, size, was, want, have); added
  {
    ghost var before := p.valid[..];
    ok := AddExtent(top, k, off, size, p, want, have);
    tryMulti := false;
    if ok {
      FillNext(top, k, off, was, before, p.valid[..]);
    } else {
      var v := top[k].val;
      tryMulti := if v.kind == KPointer || v.kind == KFd then off <= top[k].start && top[k].stop <= off + size else !v.WhollyUnknown();
    }
  }

  /** A buffer with nothing in it yet. */
  method NewBuffer(top: Pieces, start: nat, off: nat, size: nat, ghost want: seq<Abs>) returns (p: PartialVal)
    requires start == Find(top, off) && |want| == size > 0
    ensures fresh(p) && fresh(p.buf) && fresh(p.valid)
    ensures var added := Added(p, top, start, off, size, NoneValid(size), want, want); added
  {
    p := new PartialVal(size);
    NothingFilled(top, start, off, size, p.valid[..]);
    BeforeStart(top, start, off, size);
  }

  /** The state at the head of the loop over one layer. */
  ghost predicate Going(p: PartialVal?, afresh: bool, top: Pieces, start: nat, k: nat, off: nat, size: nat, was: seq<bool>, want: seq<Abs>, have: seq<Abs>)
    reads if p == null then {} else {p, p.buf, p.valid}
  {
    && start <= k <= |top| && (k < |top| ==> off < top[k].stop) && (k > start ==> top[start].start < off + size)
    && (forall j :: 0 <= j < k ==> PartReadable(top[j], off, size))
    && (p == null <==> afresh && k == start)
    && (p != null ==> Added(p, top, k, off, size, was, want, have))
  }

  lemma {:induction false} GoOn(p: PartialVal, afresh: bool, top: Pieces, start: nat, k: nat, off: nat, size: nat, was: seq<bool>, want: seq<Abs>, have: seq<Abs>)
    requires Sorted(top) && start <= k < |top| && off < top[k].stop && top[k].start < off + size && (k > start ==> top[start].start < off + size)
    requires forall j :: 0 <= j < k ==> PartReadable(top[j], off, size)
    requires PartReadable(top[k], off, size) && var added := Added(p, top, k + 1, off, size, was, want, have); added
    ensures var going := Going(p, afresh, top, start, k + 1, off, size, was, want, have); going
  {
    assert k + 1 < |top| ==> Precedes(top, k, k + 1);
  }

  /** The state behind the loop, if every extent could be had as bytes. */
  ghost predicate AfterLayer(p: PartialVal?, afresh: bool, top: Pieces, start: nat, i: nat, off: nat, size: nat, was: seq<bool>, want: seq<Abs>, have: seq<Abs>)
    reads if p == null then {} else {p, p.buf, p.valid}
  {
    && LayerReadable(top, off, size) && i <= |top| && (i < |top| ==> off + size <= top[i].start)
    && (p == null <==> afresh && !Touched(top, off, size)) && (p == null ==> i == start && want == have)
    && (p != null ==> p.valid[..] == Filled(top, off, was) && Added(p, top, i, off, size, was, want, have))
  }

  lemma {:induction false} LayerAdded(p: PartialVal?, afresh: bool, top: Pieces, start: nat, k: nat, off: nat, size: nat, was: seq<bool>, want: seq<Abs>, have: seq<Abs>)
    requires Sorted(top) && start == Find(top, off) && size > 0 && |was| == size && var going := Going(p, afresh, top, start, k, off, size, was, want, have); going
    requires (k < |top| ==> off + size <= top[k].start) && (afresh ==> want == have)
    ensures var after := AfterLayer(p, afresh, top, start, k, off, size, was, want, have); after
  {
    LayerDone(top, start, k, off, size, was);
    if p != null {
      FilledAll(top, k, off, was, p.valid[..]);
    }
  }

  /** The extents of one layer that meet the range, added one after another until one cannot be had
      as bytes. */
  method AddLayer(top: Pieces, start: nat, off: nat, size: nat, pv: PartialVal?, ghost was: seq<bool>, ghost want: seq<Abs>, ghost have: seq<Abs>)
    returns (p: PartialVal?, failed: bool, tryMulti: bool, ghost i: nat)
    requires Sorted(top) && AllFit(top) && AllStart(top) && SaidBy(top, off, have) && start == Find(top, off)
    requires size > 0 && |have| == |want| == size && (pv == null ==> want == have && was == NoneValid(size))
    requires pv != null ==> pv.Valid() && pv.buf.Length == size && was == pv.valid[..]
    requires pv != null ==> var sofar := SoFar(pv.buf[..], pv.valid[..], want, have); sofar
    modifies if pv == null then {} else {pv, pv.buf, pv.valid}
    ensures pv != null ==> p == pv
    ensures pv == null && p != null ==> fresh(p) && fresh(p.buf) && fresh(p.valid)
    ensures failed ==> !LayerReadable(top, off, size) && tryMulti == RetriesLayer(top, off, size)
    ensures !failed ==> var after := AfterLayer(p, pv == null, top, start, i, off, size, was, want, have); after
  {
    p, failed, tryMulti := pv, false, false;
    var k := start;
    BeforeStart(top, start, off, size);
    if pv != null {
      FillStart(top, start, off, was);
    }
    while k < |top| && top[k].start < off + size
      invariant pv != null ==> p == pv
      invariant pv == null && p != null ==> fresh(p) && fresh(p.buf) && fresh(p.valid)
      invariant var going := Going(p, pv == null, top, start, k, off, size, was, want, have); going
    {
      if p == null {
        p := NewBuffer(top, k, off, size, want);
      }
      var ok;
      ok, tryMulti := AddNext(top, k, off, size, p, was, want, have);
      if !ok {
        assert top[k] in top;
        RefusedOnce(top, off, size, k);
        return p, true, tryMulti, k;
      }
      GoOn(p, pv == null, top, start, k, off, size, was, want, have);
      k := k + 1;
    }
    i := k;
    tryMulti := false;
    LayerAdded(p, pv == null, top, start, k, off, size, was, want, have);
  }

  /** Only one extent of a layer is the first that cannot be had as bytes. */
  lemma RefusedOnce(top: Pieces, off: nat, n: nat, k: nat)
    requires k < |top| && FirstRefused(top, off, n, k)
    ensures RetriesLayer(top, off, n) <==> Retry(top[k], off, n)
  {
    if RetriesLayer(top, off, n) {
      var j :| 0 <= j < |top| && FirstRefused(top, off, n, j) && Retry(top[j], off, n);
      assert j == k;
    }
  }

  /** A read that starts afresh gives a value, bytes or nothing, as foreseen; one that has some bytes gives
      bytes exactly when the others can be had; and one that gives nothing says whether to try extents. */
  ghost predicate Foreseen(r: ReadResult, st: Stack, off: nat, n: nat, size: nat, afresh: bool, valid: seq<bool>)
  {
    && (if afresh then ForeseenAfresh(r, st, off, n, size) else !r.Whole? && (r.Bytes? <==> Bytewise(st, off, valid)))
    && Advises(r, st, off, valid)
  }

  ghost predicate ForeseenAfresh(r: ReadResult, st: Stack, off: nat, n: nat, size: nat)
  {
    && (r.Whole? <==> GivesWhole(st, off, n, size)) && (r.Bytes? <==> GivesBytes(st, off, n, size))
    && (r.Whole? ==> r.v == GivenWhole(st, off, n, size))
  }

  ghost predicate Advises(r: ReadResult, st: Stack, off: nat, valid: seq<bool>)
  {
    r.Unknown? ==> (r.tryMulti <==> Retries(st, off, valid))
  }

  /** Where one extent holds the whole range, the others do not matter. */
  lemma {:induction false} CoveredBytewise(top: Pieces, rest: Stack, i: nat, off: nat, valid: seq<bool>)
    requires Sorted(top) && i < |top| && top[i].start <= off && off + |valid| <= top[i].stop && |valid| > 0
    ensures At(top, off) == Some(top[i]) && CoveredBy(top, off, |valid|)
    ensures Bytewise(Over(top, rest), off, valid) <==> HasBytes(top[i].val, off - top[i].start, |valid|)
  {
    var n := |valid|;
    AtHit(top, i, off);
    assert PartReadable(top[i], off, n) <==> HasBytes(top[i].val, off - top[i].start, n);
    forall k | 0 <= k < n ensures Filled(top, off, valid)[k] {
      AtHit(top, i, off + k);
    }
    forall e | e in top && e != top[i] ensures PartReadable(e, off, n) {
      var j :| 0 <= j < |top| && top[j] == e;
      assert if j < i then Precedes(top, j, i) else Precedes(top, i, j);
    }
    assert top[i] in top;
  }

  /** `readValRangeFrom`. If the read yields bytes, each is the one held by the topmost layer that
      covers it, undef perhaps as 0; if it yields a value and the constants can be cut, the value
      allows at each byte what is held there. */
  method ReadFrom(s: Store, off: nat, size: nat, asize: nat, pv: PartialVal?, ghost ms: seq<Multi>, ghost st: Stack, ghost want: seq<Abs>)
    returns (r: ReadResult)
    requires Chain(Some(s), ms) && st == Unmarked(Some(s), ms) && Ready(st, asize)
    requires size > 0 && off + size <= asize && |want| == size
    requires pv == null ==> want == Looks(st, off, size)
    requires pv != null ==> pv.Valid() && pv.buf.Length == size && var sofar := SoFar(pv.buf[..], pv.valid[..], want, Looks(st, off, size)); sofar
    modifies if pv == null then {} else {pv, pv.buf, pv.valid}
    ensures var ok := Delivers(r, want, AllTidy(st)); ok
    ensures var foreseen := Foreseen(r, st, off, size, asize, pv == null, if pv == null then NoneValid(size) else old(pv.valid[..])); foreseen
    decreases |ms|, 0
  {
    match s
    case Single(v) =>
      LooksBottom(v, off, size);
      r := ReadValue(v, asize, off, size, pv, want, Looks(st, off, size));
    case Layer(m) =>
      r := ReadLayer(m.extents, m.under, off, size, asize, pv, ms[1..], st.rest, want);
  }

  /** A read of a map over another store. */
  method ReadLayer(top: Pieces, under: Option<Store>, off: nat, size: nat, asize: nat, pv: PartialVal?,
                   ghost ms: seq<Multi>, ghost rest: Stack, ghost want: seq<Abs>)
    returns (r: ReadResult)
    requires Chain(under, ms) && rest == Unmarked(under, ms) && Ready(Over(top, rest), asize)
    requires size > 0 && off + size <= asize && |want| == size
    requires pv == null ==> want == Looks(Over(top, rest), off, size)
    requires pv != null ==> pv.Valid() && pv.buf.Length == size && var sofar := SoFar(pv.buf[..], pv.valid[..], want, Looks(Over(top, rest), off, size)); sofar
    modifies if pv == null then {} else {pv, pv.buf, pv.valid}
    ensures var ok := Delivers(r, want, AllTidy(Over(top, rest))); ok
    ensures var foreseen := Foreseen(r, Over(top, rest), off, size, asize, pv == null, if pv == null then NoneValid(size) else old(pv.valid[..])); foreseen
    decreases |ms|, 4
  {
    var i := Find(top, off);
    if i < |top| && top[i].start <= off && off + size <= top[i].stop {
      r := ReadCovered(top, rest, i, off, size, asize, pv, want);
      return;
    }
    r := ReadThrough(top, under, i, off, size, asize, pv, ms, rest, want);
  }

  /** The extents of a map that meet the range, then what is below. */
  method ReadThrough(top: Pieces, under: Option<Store>, i: nat, off: nat, size: nat, asize: nat, pv: PartialVal?,
                     ghost ms: seq<Multi>, ghost rest: Stack, ghost want: seq<Abs>)
    returns (r: ReadResult)
    requires Chain(under, ms) && rest == Unmarked(under, ms) && Sorted(top) && AllFit(top) && AllStart(top) && Ready(rest, asize)
    requires size > 0 && off + size <= asize && |want| == size && i == Find(top, off) && NotCovered(top, off, size)
    requires pv == null ==> want == Looks(Over(top, rest), off, size)
    requires pv != null ==> pv.Valid() && pv.buf.Length == size && var sofar := SoFar(pv.buf[..], pv.valid[..], want, Looks(Over(top, rest), off, size)); sofar
    modifies if pv == null then {} else {pv, pv.buf, pv.valid}
    ensures var ok := Delivers(r, want, AllTidy(Over(top, rest))); ok
    ensures var foreseen := Foreseen(r, Over(top, rest), off, size, asize, pv == null, if pv == null then NoneValid(size) else old(pv.valid[..])); foreseen
    decreases |ms|, 3
  {
    ghost var was := if pv == null then NoneValid(size) else pv.valid[..];
    assert pv == null ==> was == NoneValid(size);
    var p, failed, tryMulti, k := TryLayer(top, under, ms, rest, i, off, size, asize, pv, was, want);
    if failed {
      return Unknown(tryMulti);
    }
    r := ReadBelow(top, under, k, off, size, asize, p, ms, rest, pv == null, was, want);
  }

  /** The extents of the map itself, and what it means for the read if one cannot be had as bytes. */
  method TryExtents(top: Pieces, ghost rest: Stack, i: nat, off: nat, size: nat, ghost asize: nat, pv: PartialVal?, ghost was: seq<bool>, ghost want: seq<Abs>)
    returns (p: PartialVal?, failed: bool, tryMulti: bool, ghost k: nat)
    requires Sorted(top) && AllFit(top) && AllStart(top) && size > 0 && |want| == size && i == Find(top, off) && NotCovered(top, off, size)
    requires pv == null ==> want == Looks(Over(top, rest), off, size) && was == NoneValid(size)
    requires pv != null ==> pv.Valid() && pv.buf.Length == size && was == pv.valid[..]
    requires pv != null ==> var sofar := SoFar(pv.buf[..], pv.valid[..], want, Looks(Over(top, rest), off, size)); sofar
    modifies if pv == null then {} else {pv, pv.buf, pv.valid}
    ensures pv != null ==> p == pv
    ensures pv == null && p != null ==> fresh(p) && fresh(p.buf) && fresh(p.valid)
    ensures failed ==> var foreseen := Foreseen(Unknown(tryMulti), Over(top, rest), off, size, asize, pv == null, was); foreseen
    ensures !failed ==> var after := AfterLayer(p, pv == null, top, i, k, off, size, was, want, Looks(Over(top, rest), off, size)); after
  {
    LooksSaid(top, rest, off, size);
    p, failed, tryMulti, k := AddLayer(top, i, off, size, pv, was, want, Looks(Over(top, rest), off, size));
    if failed {
      LayerFails(Unknown(tryMulti), top, rest, off, size, asize, pv == null, was);
    }
  }

  /** ... which leaves the stack below as it is. */
  method TryLayer(top: Pieces, under: Option<Store>, ghost ms: seq<Multi>, ghost rest: Stack, i: nat, off: nat, size: nat, ghost asize: nat,
                  pv: PartialVal?, ghost was: seq<bool>, ghost want: seq<Abs>)
    returns (p: PartialVal?, failed: bool, tryMulti: bool, ghost k: nat)
    requires Chain(under, ms) && rest == Unmarked(under, ms)
    requires Sorted(top) && AllFit(top) && AllStart(top) && size > 0 && |want| == size && i == Find(top, off) && NotCovered(top, off, size)
    requires pv == null ==> want == Looks(Over(top, rest), off, size) && was == NoneValid(size)
    requires pv != null ==> pv.Valid() && pv.buf.Length == size && was == pv.valid[..]
    requires pv != null ==> var sofar := SoFar(pv.buf[..], pv.valid[..], want, Looks(Over(top, rest), off, size)); sofar
    modifies if pv == null then {} else {pv, pv.buf, pv.valid}
    ensures Chain(under, ms) && rest == Unmarked(under, ms)
    ensures pv != null ==> p == pv
    ensures pv == null && p != null ==> fresh(p) && fresh(p.buf) && fresh(p.valid)
    ensures failed ==> var foreseen := Foreseen(Unknown(tryMulti), Over(top, rest), off, size, asize, pv == null, was); foreseen
    ensures !failed ==> var after := AfterLayer(p, pv == null, top, i, k, off, size, was, want, Looks(Over(top, rest), off, size)); after
  {
    p, failed, tryMulti, k := TryExtents(top, rest, i, off, size, asize, pv, was, want);
  }

  /** No extent of the layer holds the whole range. */
  predicate NotCovered(top: Pieces, off: nat, n: nat)
  {
    var i := Find(top, off);
    !(i < |top| && top[i].start <= off && off + n <= top[i].stop)
  }

  lemma {:induction false} FailsWhereTouched(top: Pieces, off: nat, n: nat)
    requires !LayerReadable(top, off, n)
    ensures Touched(top, off, n)
  {
    var e :| e in top && !PartReadable(e, off, n);
    var i :| 0 <= i < |top| && top[i] == e;
    assert top[i].start < off + n && off < top[i].stop;
  }

  /** A layer that cannot be had as bytes. */
  lemma {:induction false} LayerFails(r: ReadResult, top: Pieces, rest: Stack, off: nat, n: nat, size: nat, afresh: bool, valid: seq<bool>)
    requires |valid| == n > 0 && NotCovered(top, off, n) && !LayerReadable(top, off, n) && r.Unknown? && r.tryMulti == RetriesLayer(top, off, n)
    requires afresh ==> valid == NoneValid(n)
    ensures var foreseen := Foreseen(r, Over(top, rest), off, n, size, afresh, valid); foreseen
  {
    FailsWhereTouched(top, off, n);
    CoversFind(top, off, n);
    BytewiseFails(top, rest, off, valid);
    FailsForeseen(r, top, rest, off, n, size, afresh, valid);
    FailsAdvises(r, top, rest, off, valid);
  }

  lemma {:induction false} FailsAdvises(r: ReadResult, top: Pieces, rest: Stack, off: nat, valid: seq<bool>)
    requires r.Unknown? && !CoveredBy(top, off, |valid|) && !LayerReadable(top, off, |valid|) && r.tryMulti == RetriesLayer(top, off, |valid|)
    ensures var advises := Advises(r, Over(top, rest), off, valid); advises
  {
  }

  lemma {:induction false} FailsForeseen(r: ReadResult, top: Pieces, rest: Stack, off: nat, n: nat, size: nat, afresh: bool, valid: seq<bool>)
    requires r.Unknown? && !CoveredBy(top, off, n) && Touched(top, off, n) && !Bytewise(Over(top, rest), off, valid) && (afresh ==> valid == NoneValid(n))
    ensures afresh ==> var foreseen := ForeseenAfresh(r, Over(top, rest), off, n, size); foreseen
  {
    if afresh {
      GivesTouched(top, rest, off, n, size);
    }
  }

  lemma {:induction false} GivesTouched(top: Pieces, rest: Stack, off: nat, n: nat, size: nat)
    requires !CoveredBy(top, off, n) && Touched(top, off, n)
    ensures !GivesWhole(Over(top, rest), off, n, size)
    ensures GivesBytes(Over(top, rest), off, n, size) <==> Bytewise(Over(top, rest), off, NoneValid(n))
  {
  }

  lemma {:induction false} CoversFind(top: Pieces, off: nat, n: nat)
    requires NotCovered(top, off, n)
    ensures !CoveredBy(top, off, n)
  {
  }

  lemma {:induction false} BytewiseFails(top: Pieces, rest: Stack, off: nat, valid: seq<bool>)
    requires !LayerReadable(top, off, |valid|)
    ensures !Bytewise(Over(top, rest), off, valid)
  {
  }

  /** A layer that can, over the rest of the stack. */
  lemma {:induction false} LayerPasses(r: ReadResult, touched: bool, top: Pieces, rest: Stack, off: nat, n: nat, size: nat, afresh: bool, valid: seq<bool>)
    requires |valid| == n > 0 && NotCovered(top, off, n) && LayerReadable(top, off, n) && (touched <==> !afresh || Touched(top, off, n))
    requires afresh ==> valid == NoneValid(n)
    requires !touched ==> var foreseen := Foreseen(r, rest, off, n, size, true, NoneValid(n)); foreseen
    requires touched ==> !r.Whole? && (r.Bytes? <==> (Complete(Filled(top, off, valid)) || Bytewise(rest, off, Filled(top, off, valid))))
    requires touched ==> var advises := Advises(r, rest, off, Filled(top, off, valid)); advises
    ensures var foreseen := Foreseen(r, Over(top, rest), off, n, size, afresh, valid); foreseen
  {
    CoversFind(top, off, n);
    if !touched {
      PassesAfresh(r, top, rest, off, n, size);
    } else {
      PassesTouched(r, top, rest, off, n, size, afresh, valid);
    }
  }

  lemma {:induction false} PassesAfresh(r: ReadResult, top: Pieces, rest: Stack, off: nat, n: nat, size: nat)
    requires n > 0 && !CoveredBy(top, off, n) && LayerReadable(top, off, n) && !Touched(top, off, n)
    requires var foreseen := Foreseen(r, rest, off, n, size, true, NoneValid(n)); foreseen
    ensures var foreseen := Foreseen(r, Over(top, rest), off, n, size, true, NoneValid(n)); foreseen
  {
    UntouchedFills(top, off, n);
  }

  /** A layer that does not meet the range makes nothing known. */
  lemma UntouchedFills(top: Pieces, off: nat, n: nat)
    requires !Touched(top, off, n)
    ensures Filled(top, off, NoneValid(n)) == NoneValid(n)
  {
    forall k | 0 <= k < n ensures Filled(top, off, NoneValid(n))[k] == NoneValid(n)[k] {
      AtMiss(top, off + k);
    }
  }

  lemma {:induction false} PassesTouched(r: ReadResult, top: Pieces, rest: Stack, off: nat, n: nat, size: nat, afresh: bool, valid: seq<bool>)
    requires |valid| == n > 0 && !CoveredBy(top, off, n) && LayerReadable(top, off, n) && (afresh ==> Touched(top, off, n) && valid == NoneValid(n))
    requires !r.Whole? && (r.Bytes? <==> (Complete(Filled(top, off, valid)) || Bytewise(rest, off, Filled(top, off, valid))))
    requires var advises := Advises(r, rest, off, Filled(top, off, valid)); advises
    ensures var foreseen := Foreseen(r, Over(top, rest), off, n, size, afresh, valid); foreseen
  {
    if afresh {
      GivesTouched(top, rest, off, n, size);
    }
  }

  lemma CoveredExtent(top: Pieces, rest: Stack, i: nat, off: nat, n: nat)
    requires Sorted(top) && AllFit(top) && AllStart(top) && i < |top| && top[i].start <= off && off + n <= top[i].stop
    ensures var e := top[i];
            && (var ready := ReadyValue(e.val, e.stop - e.start); ready)
            && Looks(Over(top, rest), off, n) == Held(e.val, off - e.start, n)
  {
    assert top[i] in top && ExtentFits(top[i]) && StartsAnywhere(top[i]);
    LooksExtent(top, rest, i, off, n);
  }

  lemma TidyExtent(top: Pieces, rest: Stack, i: nat)
    requires i < |top| && AllTidy(Over(top, rest))
    ensures var tidy := Tidy(top[i].val); tidy
  {
    assert top[i] in top;
  }

  lemma {:induction false} CoveredForeseen(r: ReadResult, top: Pieces, rest: Stack, i: nat, off: nat, n: nat, size: nat, afresh: bool, valid: seq<bool>)
    requires Sorted(top) && i < |top| && top[i].start <= off && off + n <= top[i].stop && n > 0 && |valid| == n
    requires var handled := Handled(r, top[i].val, top[i].stop - top[i].start, off - top[i].start, n, afresh); handled
    ensures var foreseen := Foreseen(r, Over(top, rest), off, n, size, afresh, valid); foreseen
  {
    CoveredIs(top, i, off, n);
    CoveredAdvises(r, top, rest, off, valid);
    if afresh {
      CoveredAfresh(r, top, rest, top[i], off, n, size);
    } else {
      CoveredOn(r, top, rest, i, off, n, size, valid);
    }
  }

  lemma {:induction false} CoveredAdvises(r: ReadResult, top: Pieces, rest: Stack, off: nat, valid: seq<bool>)
    requires CoveredBy(top, off, |valid|) && (r.Unknown? ==> !r.tryMulti)
    ensures var advises := Advises(r, Over(top, rest), off, valid); advises
  {
  }

  lemma {:induction false} CoveredOn(r: ReadResult, top: Pieces, rest: Stack, i: nat, off: nat, n: nat, size: nat, valid: seq<bool>)
    requires Sorted(top) && i < |top| && top[i].start <= off && off + n <= top[i].stop && |valid| == n > 0
    requires !r.Whole? && (r.Bytes? <==> HasBytes(top[i].val, off - top[i].start, n)) && var advises := Advises(r, Over(top, rest), off, valid); advises
    ensures var foreseen := Foreseen(r, Over(top, rest), off, n, size, false, valid); foreseen
  {
    CoveredBytewise(top, rest, i, off, valid);
  }

  lemma CoveredIs(top: Pieces, i: nat, off: nat, n: nat)
    requires Sorted(top) && i < |top| && top[i].start <= off && off + n <= top[i].stop && n > 0
    ensures At(top, off) == Some(top[i]) && CoveredBy(top, off, n)
  {
    AtHit(top, i, off);
  }

  lemma {:induction false} CoveredAfresh(r: ReadResult, top: Pieces, rest: Stack, e: Extent<Val>, off: nat, n: nat, size: nat)
    requires At(top, off) == Some(e) && CoveredBy(top, off, n) && var handled := HandledAfresh(r, e.val, e.stop - e.start, off - e.start, n); handled
    ensures var foreseen := ForeseenAfresh(r, Over(top, rest), off, n, size); foreseen
  {
    CoveredGives(top, rest, e, off, n, size);
    CoveredWhole(top, rest, e, off, n, size);
    if r.Whole? {
      CoveredGiven(top, rest, e, off, n, size);
    }
  }

  lemma {:induction false} CoveredGives(top: Pieces, rest: Stack, e: Extent<Val>, off: nat, n: nat, size: nat)
    requires At(top, off) == Some(e) && CoveredBy(top, off, n)
    ensures GivesBytes(Over(top, rest), off, n, size) <==> BytesHere(e.val, e.stop - e.start, off - e.start, n)
  {
  }

  lemma {:induction false} CoveredWhole(top: Pieces, rest: Stack, e: Extent<Val>, off: nat, n: nat, size: nat)
    requires At(top, off) == Some(e) && CoveredBy(top, off, n)
    ensures GivesWhole(Over(top, rest), off, n, size) <==> WholeHere(e.val, e.stop - e.start, off - e.start, n)
  {
  }

  lemma {:induction false} CoveredGiven(top: Pieces, rest: Stack, e: Extent<Val>, off: nat, n: nat, size: nat)
    requires At(top, off) == Some(e) && CoveredBy(top, off, n) && GivesWhole(Over(top, rest), off, n, size)
    ensures GivenWhole(Over(top, rest), off, n, size) == WholeVal(e.val, e.stop - e.start, off - e.start, n)
  {
  }

  /** A read that one extent of the top layer covers. */
  method ReadCovered(top: Pieces, ghost rest: Stack, i: nat, off: nat, size: nat, ghost asize: nat, pv: PartialVal?, ghost want: seq<Abs>)
    returns (r: ReadResult)
    requires Sorted(top) && AllFit(top) && AllStart(top) && size > 0 && |want| == size
    requires i < |top| && top[i].start <= off && off + size <= top[i].stop
    requires pv == null ==> want == Looks(Over(top, rest), off, size)
    requires pv != null ==> pv.Valid() && pv.buf.Length == size && var sofar := SoFar(pv.buf[..], pv.valid[..], want, Looks(Over(top, rest), off, size)); sofar
    modifies if pv == null then {} else {pv, pv.buf, pv.valid}
    ensures var ok := Delivers(r, want, AllTidy(Over(top, rest))); ok
    ensures var foreseen := Foreseen(r, Over(top, rest), off, size, asize, pv == null, if pv == null then NoneValid(size) else old(pv.valid[..])); foreseen
  {
    ghost var was := if pv == null then NoneValid(size) else pv.valid[..];
    var e := top[i];
    CoveredExtent(top, rest, i, off, size);
    r := ReadValue(e.val, e.stop - e.start, off - e.start, size, pv, want, Looks(Over(top, rest), off, size));
    CoveredDone(r, want, top, rest, i, off, size, asize, pv == null, was);
  }

  lemma CoveredDone(r: ReadResult, want: seq<Abs>, top: Pieces, rest: Stack, i: nat, off: nat, n: nat, size: nat, afresh: bool, valid: seq<bool>)
    requires i < |top| && top[i].start <= off && off + n <= top[i].stop && n > 0 && |valid| == n && var sorted := Sorted(top); sorted
    requires var handled := Handled(r, top[i].val, top[i].stop - top[i].start, off - top[i].start, n, afresh); handled
    requires var ok := Delivers(r, want, Tidy(top[i].val)); ok
    ensures var ok := Delivers(r, want, AllTidy(Over(top, rest))); ok
    ensures var foreseen := Foreseen(r, Over(top, rest), off, n, size, afresh, valid); foreseen
  {
    CoveredForeseen(r, top, rest, i, off, n, size, afresh, valid);
    DeliversCovered(r, want, top, rest, i);
  }

  lemma DeliversCovered(r: ReadResult, want: seq<Abs>, top: Pieces, rest: Stack, i: nat)
    requires i < |top| && var ok := Delivers(r, want, Tidy(top[i].val)); ok
    ensures var ok := Delivers(r, want, AllTidy(Over(top, rest))); ok
  {
    if AllTidy(Over(top, rest)) {
      TidyExtent(top, rest, i);
    }
    DeliversTidy(r, want, Tidy(top[i].val), AllTidy(Over(top, rest)));
  }

  lemma DeliversTidy(r: ReadResult, want: seq<Abs>, strong: bool, weak: bool)
    requires (weak ==> strong) && var ok := Delivers(r, want, strong); ok
    ensures var ok := Delivers(r, want, weak); ok
  {
  }

  /** What is still missing is read from the store below. */
  method ReadBelow(top: Pieces, under: Option<Store>, ghost i: nat, off: nat, size: nat, asize: nat, p: PartialVal?,
                   ghost ms: seq<Multi>, ghost rest: Stack, ghost afresh: bool, ghost was: seq<bool>, ghost want: seq<Abs>)
    returns (r: ReadResult)
    requires Chain(under, ms) && rest == Unmarked(under, ms) && Sorted(top) && Ready(rest, asize)
    requires size > 0 && off + size <= asize && |want| == |was| == size && NotCovered(top, off, size) && (afresh ==> was == NoneValid(size))
    requires var after := AfterLayer(p, afresh, top, Find(top, off), i, off, size, was, want, Looks(Over(top, rest), off, size)); after
    modifies if p == null then {} else {p, p.buf, p.valid}
    ensures var ok := Delivers(r, want, AllTidy(Over(top, rest))); ok
    ensures var foreseen := Foreseen(r, Over(top, rest), off, size, asize, afresh, was); foreseen
    decreases |ms|, 2
  {
    r := ReadMissing(top, under, i, off, size, asize, p, ms, rest, want);
    LayerPasses(r, p != null, top, rest, off, size, asize, afresh, was);
  }

  method ReadMissing(top: Pieces, under: Option<Store>, ghost i: nat, off: nat, size: nat, asize: nat, p: PartialVal?,
                     ghost ms: seq<Multi>, ghost rest: Stack, ghost want: seq<Abs>)
    returns (r: ReadResult)
    requires Chain(under, ms) && rest == Unmarked(under, ms) && Sorted(top) && Ready(rest, asize)
    requires size > 0 && off + size <= asize && |want| == size && i <= |top| && (i < |top| ==> off + size <= top[i].start)
    requires p == null ==> want == Looks(Over(top, rest), off, size) && i == Find(top, off)
    requires p != null ==> p.Valid() && p.buf.Length == size && PassedBy(top, i, off, p.valid[..])
    requires p != null ==> var sofar := SoFar(p.buf[..], p.valid[..], want, Looks(Over(top, rest), off, size)); sofar
    modifies if p == null then {} else {p, p.buf, p.valid}
    ensures var ok := Delivers(r, want, AllTidy(Over(top, rest))); ok
    ensures p == null ==> var foreseen := Foreseen(r, rest, off, size, asize, true, NoneValid(size)); foreseen
    ensures p != null ==> var advises := Advises(r, rest, off, old(p.valid[..])); advises
    ensures p != null ==> !r.Whole? && (r.Bytes? <==> (Complete(old(p.valid[..])) || Bytewise(rest, off, old(p.valid[..]))))
    decreases |ms|, 1
  {
    if p != null && p.finished {
      return Bytes(p);
    }
    if under.None? {
      return Unknown(false);
    }
    if p == null {
      NothingHere(top, rest, i, off, size);
    } else {
      PassedAll(top, rest, i, off, p.buf[..], p.valid[..], want);
    }
    r := ReadFrom(under.value, off, size, asize, p, ms, rest, want);
    DeliversTidy(r, want, AllTidy(rest), AllTidy(Over(top, rest)));
  }
}
