/** Unspecialised ("failed") code: which blocks it needs and from where, which blocks can lead to the
    target call, and how a failed block is cut into sub-blocks (llpe/main/ConditionalSpec.cpp). */
module FailurePaths {

  ghost predicate Edge(next: seq<seq<nat>>, x: nat, y: nat)
  {
    x < |next| && y in next[x]
  }

  /** A walk of at least one edge from `x` to `y`. */
  ghost predicate Walk(next: seq<seq<nat>>, path: seq<nat>, x: nat, y: nat)
  {
    && |path| >= 2 && path[0] == x && path[|path| - 1] == y
    && forall j :: 0 < j < |path| ==> Edge(next, path[j - 1], path[j])
  }

  ghost predicate Leads(next: seq<seq<nat>>, x: nat, y: nat)
  {
    exists path :: Walk(next, path, x, y)
  }

  lemma LeadsStep(next: seq<seq<nat>>, x: nat, s: nat)
    requires Edge(next, x, s)
    ensures Leads(next, x, s)
  {
    assert Walk(next, [x, s], x, s);
  }

  lemma LeadsThrough(next: seq<seq<nat>>, x: nat, s: nat, y: nat)
    requires Edge(next, x, s) && Leads(next, s, y)
    ensures Leads(next, x, y)
  {
    var path :| Walk(next, path, s, y);
    var longer := [x] + path;
    forall j | 0 < j < |longer| ensures Edge(next, longer[j - 1], longer[j]) {
      assert longer[j] == path[j - 1];
      if j > 1 {
        assert longer[j - 1] == path[j - 1 - 1];
      }
    }
    assert Walk(next, longer, x, y);
  }

  ghost predicate ValidEdges(next: seq<seq<nat>>)
  {
    forall u: nat, s: nat :: Edge(next, u, s) ==> s < |next|
  }

  // ----- failure marking

  /** Start index recorded for each block that needs unspecialised code. */
  type Marks = map<nat, nat>

  /** Every successor of a block marked and not in `open` is marked from its first instruction. */
  ghost predicate ClosedBut(next: seq<seq<nat>>, marks: Marks, open: set<nat>)
  {
    forall b, s :: b in marks && b !in open && Edge(next, b, s) ==> s in marks && marks[s] == 0
  }

  ghost predicate Closed(next: seq<seq<nat>>, marks: Marks)
  {
    ClosedBut(next, marks, {})
  }

  /** What is left to lower: the recorded indices, and the size of each unmarked block. */
  function Potential(insts: seq<nat>, marks: Marks, n: nat): nat
    requires n <= |insts|
  {
    if n == 0 then 0
    else Potential(insts, marks, n - 1) + if n - 1 in marks then marks[n - 1] else insts[n - 1]
  }

  lemma {:induction false} PotentialFalls(insts: seq<nat>, marks: Marks, n: nat, b: nat, i: nat)
    requires n <= |insts| && b < |insts|
    requires i < if b in marks then marks[b] else insts[b]
    ensures Potential(insts, marks[b := i], n) <= Potential(insts, marks, n)
    ensures b < n ==> Potential(insts, marks[b := i], n) < Potential(insts, marks, n)
  {
    if n > 0 {
      PotentialFalls(insts, marks, n - 1, b, i);
    }
  }

  lemma {:induction false} PotentialMonotone(insts: seq<nat>, a: Marks, b: Marks, n: nat)
    requires n <= |insts|
    requires forall k :: k in b && k < |insts| ==> b[k] <= insts[k]
    requires forall k :: k in b ==> k in a && a[k] <= b[k]
    requires forall k :: k in a && k < |insts| ==> a[k] <= insts[k]
    ensures Potential(insts, a, n) <= Potential(insts, b, n)
  {
    if n > 0 {
      PotentialMonotone(insts, a, b, n - 1);
    }
  }

  /** Marks only grow downwards. */
  ghost predicate Lowered(a: Marks, b: Marks)
  {
    forall k :: k in a ==> k in b && b[k] <= a[k]
  }

  /** Marking `idx` from `inst` accounts for every difference between `a` and `b`. */
  ghost predicate Explained(next: seq<seq<nat>>, a: Marks, b: Marks, idx: nat, inst: nat)
  {
    forall k :: k in b ==>
      (k in a && b[k] == a[k]) || (k == idx && b[k] == inst) || (b[k] == 0 && Leads(next, idx, k))
  }

  lemma ExplainedStep(next: seq<seq<nat>>, a: Marks, b: Marks, c: Marks, idx: nat, inst: nat, s: nat)
    requires Explained(next, a, b, idx, inst) && Explained(next, b, c, s, 0) && Edge(next, idx, s)
    ensures Explained(next, a, c, idx, inst)
  {
    LeadsStep(next, idx, s);
    forall k | k in c && Leads(next, s, k) ensures Leads(next, idx, k) {
      LeadsThrough(next, idx, s, k);
    }
  }

  // ----- which instructions are checked

  datatype Check = NoCheck | AsExpected | ReadLliowd | ReadMemcmp

  /** What the checks depend on: whether the instruction is a PHI node, whether a result was computed for
      it, its `needsRuntimeCheck`, whether its result may be invalid for another reason, and whether it is
      a specialised call that may return on a failed path. */
  datatype Inst = Inst(phi: bool, computed: bool, check: Check, tentative: bool, failedReturn: bool)

  /** `requiresRuntimeCheck2`. */
  predicate RequiresCheck(x: Inst, special: bool)
  {
    x.computed && (x.check.AsExpected? || (special && (x.check.ReadLliowd? || x.check.ReadMemcmp?)) || x.tentative)
  }

  /** PHI nodes are checked as a block, at the last of them. */
  predicate PhiBefore(block: seq<Inst>, j: nat)
    requires j < |block|
  {
    block[j].phi && j + 1 < |block| && block[j + 1].phi
  }

  /** The terminator is not a PHI node, PHI nodes are not calls, and a read that is checked beforehand is
      a call that is not inlined and so is checked for no other reason. */
  predicate ValidBlock(block: seq<Inst>)
  {
    && |block| > 0 && !block[|block| - 1].phi
    && (forall j :: 0 <= j < |block| && block[j].phi ==> !block[j].failedReturn && !block[j].check.ReadLliowd?)
    && (forall j :: 0 <= j < |block| && block[j].check.ReadLliowd? ==> !block[j].tentative)
  }

  /** The instruction is checked once it is done; of terminators only an invoke can be, and that has a
      successor. */
  predicate CheckedAfter(x: Inst)
  {
    RequiresCheck(x, false) || x.check.ReadMemcmp? || x.failedReturn
  }

  /** The specialised block may be left after the instruction at `j`. */
  predicate LeftAfter(block: seq<Inst>, j: nat)
    requires j < |block|
  {
    block[j].failedReturn || (RequiresCheck(block[j], true) && !PhiBefore(block, j) && !block[j].check.ReadLliowd?)
  }

  /** The specialised block may be left before the instruction at `j`. */
  predicate LeftBefore(block: seq<Inst>, j: nat)
    requires j < |block|
  {
    !block[j].failedReturn && RequiresCheck(block[j], true) && !PhiBefore(block, j) && block[j].check.ReadLliowd?
  }

  /** The failed block is needed because of the instruction at `j`. */
  predicate Starts(block: seq<Inst>, j: nat)
    requires j < |block|
  {
    !PhiBefore(block, j) && (block[j].check.ReadLliowd? || CheckedAfter(block[j]))
  }

  /** From where: the instruction itself if it is checked beforehand, and otherwise the next. */
  function StartAt(block: seq<Inst>, j: nat): nat
    requires j < |block|
  {
    if block[j].check.ReadLliowd? then j else j + 1
  }

  /** What the instruction at `j` marks: the block from there and what it leads to; behind the terminator, its first
      successor and what that leads to. */
  ghost predicate Owed(next: seq<seq<nat>>, idx: nat, block: seq<Inst>, j: nat, b: nat, at: nat)
    requires j < |block|
  {
    Starts(block, j) &&
    if StartAt(block, j) < |block| then (b == idx && at == StartAt(block, j)) || (at == 0 && Leads(next, idx, b))
    else at == 0 && idx < |next| && |next[idx]| > 0 && (b == next[idx][0] || Leads(next, next[idx][0], b))
  }

  /** Every mark that is new is owed to one of the first `n` instructions. */
  ghost predicate OwedAll(next: seq<seq<nat>>, idx: nat, block: seq<Inst>, n: nat, was: Marks, now: Marks)
    requires n <= |block|
  {
    forall b :: b in now ==> (b in was && now[b] == was[b]) || exists j: nat :: j < n && Owed(next, idx, block, j, b, now[b])
  }

  /** ... or, from the state before it, to the instruction at `j`. */
  ghost predicate OwedOne(next: seq<seq<nat>>, idx: nat, block: seq<Inst>, j: nat, was: Marks, now: Marks)
    requires j < |block|
  {
    forall b :: b in now ==> (b in was && now[b] == was[b]) || Owed(next, idx, block, j, b, now[b])
  }

  lemma OwedNext(next: seq<seq<nat>>, idx: nat, block: seq<Inst>, j: nat, was: Marks, mid: Marks, now: Marks)
    requires j < |block| && OwedAll(next, idx, block, j, was, mid) && OwedOne(next, idx, block, j, mid, now)
    ensures OwedAll(next, idx, block, j + 1, was, now)
  {
  }

  /** What the instruction at `j` needs is marked. */
  predicate Begun(next: seq<seq<nat>>, idx: nat, block: seq<Inst>, j: nat, marks: Marks)
    requires j < |block|
  {
    if StartAt(block, j) < |block| then idx in marks && marks[idx] <= StartAt(block, j)
    else idx < |next| && |next[idx]| > 0 && next[idx][0] in marks && marks[next[idx][0]] == 0
  }

  /** The block is split behind the instruction at `i`; never behind the terminator. */
  predicate Splits(block: seq<Inst>, i: nat)
  {
    i + 1 < |block| && (LeftAfter(block, i) || (i + 2 < |block| && LeftBefore(block, i + 1)))
  }

  /** `getLocalSplitInsts`: add the split points of one specialised copy of a block. */
  method GetLocalSplitInsts(block: seq<Inst>, splits: array<bool>)
    requires ValidBlock(block) && splits.Length == |block|
    modifies splits
    ensures forall i :: 0 <= i < splits.Length ==> (splits[i] <==> old(splits[i]) || Splits(block, i))
  {
    var i := 0;
    while i != |block| - 1
      invariant 0 <= i <= |block| - 1
      invariant forall k :: 0 <= k < splits.Length ==>
        (splits[k] <==> old(splits[k]) || (k < i && LeftAfter(block, k)) || (k + 1 < i && LeftBefore(block, k + 1)))
    {
      var x := block[i];
      if x.failedReturn {
        splits[i] := true;
      } else if RequiresCheck(x, true) && !(i + 1 != |block| - 1 && x.phi && block[i + 1].phi) {
        if x.check.ReadLliowd? {
          if i != 0 {
            splits[i - 1] := true;
          }
        } else {
          splits[i] := true;
        }
      }
      i := i + 1;
    }
  }

  class Function {
    const succs: seq<seq<nat>>
    const preds: seq<seq<nat>>
    /** Number of instructions of each block. */
    const insts: seq<nat>
    const omitChecks: bool
    /** `blocksReachableOnFailure`. */
    var marks: Marks
    /** `mayReachTarget`. */
    var mayReach: set<nat>

    ghost predicate Valid()
      reads this
    {
      && |succs| == |preds| == |insts| && ValidEdges(succs) && ValidEdges(preds)
      && (forall b :: 0 <= b < |insts| ==> insts[b] > 0)
      && (forall b :: b in marks ==> b < |insts| && marks[b] < insts[b])
    }

    /** The recursion of `markBlockAndSuccsReachableUnspecialised`, while the blocks in `open` are
        still having their successors marked. */
    method Mark(idx: nat, instIdx: nat, ghost open: set<nat>)
      requires Valid() && idx < |insts| && instIdx < insts[idx] && ClosedBut(succs, marks, open)
      modifies this`marks
      ensures Valid() && ClosedBut(succs, marks, open) && Lowered(old(marks), marks)
      ensures idx in marks && marks[idx] <= instIdx
      ensures Explained(succs, old(marks), marks, idx, instIdx)
      decreases Potential(insts, marks, |insts|), 0
    {
      if idx in marks && marks[idx] <= instIdx {
        return;
      }
      PotentialFalls(insts, marks, |insts|, idx, instIdx);
      marks := marks[idx := instIdx];
      MarkSuccs(idx, open + {idx});
      forall b, s | b in marks && b !in open && Edge(succs, b, s) ensures s in marks && marks[s] == 0 {
      }
    }

    /** The loop over successors. */
    method MarkSuccs(idx: nat, ghost open: set<nat>)
      requires Valid() && idx in marks && idx in open && ClosedBut(succs, marks, open)
      modifies this`marks
      ensures Valid() && ClosedBut(succs, marks, open) && Lowered(old(marks), marks)
      ensures forall s :: Edge(succs, idx, s) ==> s in marks && marks[s] == 0
      ensures Explained(succs, old(marks), marks, idx, old(marks)[idx])
      decreases Potential(insts, marks, |insts|), 1
    {
      var i := 0;
      while i < |succs[idx]|
        invariant 0 <= i <= |succs[idx]| && Valid() && ClosedBut(succs, marks, open) && Lowered(old(marks), marks)
        invariant forall j :: 0 <= j < i ==> succs[idx][j] in marks && marks[succs[idx][j]] == 0
        invariant Explained(succs, old(marks), marks, idx, old(marks)[idx])
      {
        var s := succs[idx][i];
        assert Edge(succs, idx, s);
        PotentialMonotone(insts, marks, old(marks), |insts|);
        ghost var before := marks;
        Mark(s, 0, open);
        ExplainedStep(succs, old(marks), before, marks, idx, old(marks)[idx], s);
        i := i + 1;
      }
    }

    /** `markBlockAndSuccsReachableUnspecialised`. On any control-flow graph, cyclic or not, the
        marks become the old ones plus everything the block leads to, each at its lowest start:
        what the block leads to is needed from its first instruction, the block itself from
        `instIdx` or from where it was already needed. */
    method MarkBlockAndSuccsReachableUnspecialised(idx: nat, instIdx: nat)
      requires Valid() && idx < |insts| && instIdx < insts[idx] && Closed(succs, marks)
      modifies this`marks
      ensures Valid() && Closed(succs, marks)
      ensures omitChecks ==> marks == old(marks)
      ensures !omitChecks ==>
                forall b :: b in marks <==> b in old(marks) || b == idx || Leads(succs, idx, b)
      ensures !omitChecks ==>
                forall b :: b in marks ==>
                  marks[b] == if Leads(succs, idx, b) then 0
                              else if b != idx then old(marks)[b]
                              else if idx in old(marks) && old(marks)[idx] < instIdx then old(marks)[idx]
                              else instIdx
    {
      if omitChecks {
        return;
      }
      Mark(idx, instIdx, {});
      forall b | Leads(succs, idx, b) ensures b in marks && marks[b] == 0 {
        var path :| Walk(succs, path, idx, b);
        ClosedLeads(succs, marks, path, |path| - 1);
      }
    }

    /** Mark what the instruction at `j` needs. */
    method MarkCheck(idx: nat, block: seq<Inst>, j: nat)
      requires Valid() && Closed(succs, marks) && idx < |insts| && |block| == insts[idx] && j < |block|
      requires ValidBlock(block) && (CheckedAfter(block[|block| - 1]) ==> |succs[idx]| > 0)
      modifies this`marks
      ensures Valid() && Closed(succs, marks) && (omitChecks ==> marks == old(marks))
      ensures !omitChecks ==> Lowered(old(marks), marks) && (Starts(block, j) ==> Begun(succs, idx, block, j, marks))
      ensures OwedOne(succs, idx, block, j, old(marks), marks)
    {
      var x := block[j];
      if RequiresCheck(x, false) || x.check.ReadMemcmp? {
        if !PhiBefore(block, j) {
          MarkNext(idx, block, j);
        }
      } else if x.check.ReadLliowd? {
        MarkFrom(idx, j);
      } else if x.failedReturn {
        MarkNext(idx, block, j);
      }
    }

    /** Mark from the instruction behind `j` on; behind a terminator that is its first successor. */
    method MarkNext(idx: nat, block: seq<Inst>, j: nat)
      requires Valid() && Closed(succs, marks) && idx < |insts| && |block| == insts[idx] && j < |block| && (j == |block| - 1 ==> |succs[idx]| > 0)
      requires Starts(block, j) && !block[j].check.ReadLliowd?
      modifies this`marks
      ensures Valid() && Closed(succs, marks) && (omitChecks ==> marks == old(marks))
      ensures !omitChecks ==> Lowered(old(marks), marks) && Begun(succs, idx, block, j, marks)
      ensures OwedOne(succs, idx, block, j, old(marks), marks)
    {
      if j == insts[idx] - 1 {
        assert Edge(succs, idx, succs[idx][0]);
        MarkFrom(succs[idx][0], 0);
      } else {
        MarkFrom(idx, j + 1);
      }
    }

    method MarkFrom(idx: nat, instIdx: nat)
      requires Valid() && idx < |insts| && instIdx < insts[idx] && Closed(succs, marks)
      modifies this`marks
      ensures Valid() && Closed(succs, marks) && (omitChecks ==> marks == old(marks))
      ensures !omitChecks ==> Lowered(old(marks), marks) && idx in marks && marks[idx] <= instIdx
      ensures Explained(succs, old(marks), marks, idx, instIdx)
    {
      MarkBlockAndSuccsReachableUnspecialised(idx, instIdx);
    }

    /** `addCheckpointFailedBlocks` on one specialised copy of a block: unless checks are left out, everything that one
        of its instructions needs is marked, and nothing else; the failed block is then recorded from each of its
        split points on at the latest. */
    method AddCheckpoints(idx: nat, block: seq<Inst>)
      requires Valid() && Closed(succs, marks) && idx < |insts| && |block| == insts[idx]
      requires ValidBlock(block) && (CheckedAfter(block[|block| - 1]) ==> |succs[idx]| > 0)
      modifies this`marks
      ensures Valid() && Closed(succs, marks) && (omitChecks ==> marks == old(marks))
      ensures !omitChecks ==> Lowered(old(marks), marks) && forall j: nat :: j < |block| && Starts(block, j) ==> Begun(succs, idx, block, j, marks)
      ensures OwedAll(succs, idx, block, |block|, old(marks), marks)
      ensures !omitChecks ==> MarkedFor(block, |block|, marks, idx)
    {
      var j := 0;
      while j < |block|
        invariant 0 <= j <= |block| && Valid() && Closed(succs, marks) && (omitChecks ==> marks == old(marks))
        invariant !omitChecks ==> Lowered(old(marks), marks) && forall i: nat :: i < j && Starts(block, i) ==> Begun(succs, idx, block, i, marks)
        invariant OwedAll(succs, idx, block, j, old(marks), marks)
      {
        ghost var before := marks;
        MarkCheck(idx, block, j);
        OwedNext(succs, idx, block, j, old(marks), before, marks);
        j := j + 1;
      }
      if !omitChecks {
        BegunSplits(succs, idx, block, marks);
      }
    }

    /** `createFailedBlock`, for a block of which there are several specialised copies, one for each
        iteration that was peeled: the failed block is split where any of them may be left. */
    method SplitFailedBlock(idx: nat, copies: seq<seq<Inst>>) returns (blocks: seq<SubBlock>, splits: seq<bool>)
      requires Valid() && idx in marks
      requires forall c :: c in copies ==> ValidBlock(c) && |c| == insts[idx] && MarkedFor(c, |c|, marks, idx)
      ensures |splits| == insts[idx] && forall i :: 0 <= i < |splits| ==> (splits[i] <==> exists c :: c in copies && Splits(c, i))
      ensures EndToEnd(blocks, marks[idx], insts[idx]) && BeginsWhereNeeded(blocks, splits, marks[idx], insts[idx])
    {
      var n := insts[idx];
      var marked := new bool[n](_ => false);
      var k := 0;
      while k < |copies|
        invariant 0 <= k <= |copies|
        invariant forall i :: 0 <= i < n ==> (marked[i] <==> exists j :: 0 <= j < k && Splits(copies[j], i))
      {
        assert copies[k] in copies;
        GetLocalSplitInsts(copies[k], marked);
        k := k + 1;
      }
      splits := marked[..];
      forall i | 0 <= i < n ensures splits[i] <==> exists c :: c in copies && Splits(c, i) {
        if c :| c in copies && Splits(c, i) {
          var j :| 0 <= j < |copies| && copies[j] == c;
          assert Splits(copies[j], i);
        }
      }
      blocks := CreateFailedBlock(n, marks[idx], splits);
    }

    /** The recursion of `addBlockAndPreds`, while the blocks in `open` are still having their
        predecessors added. */
    method AddPreds(idx: nat, ghost open: set<nat>)
      requires Valid() && idx < |preds| && SetClosedBut(preds, mayReach, open)
      requires forall b :: b in mayReach ==> b < |preds|
      modifies this`mayReach
      ensures SetClosedBut(preds, mayReach, open) && old(mayReach) + {idx} <= mayReach
      ensures forall b :: b in mayReach ==> b < |preds| && (b in old(mayReach) || b == idx || Leads(preds, idx, b))
      decreases Blocks(|preds|) - mayReach
    {
      if idx in mayReach {
        return;
      }
      assert idx in Blocks(|preds|) - mayReach;
      mayReach := mayReach + {idx};
      var i := 0;
      while i < |preds[idx]|
        invariant 0 <= i <= |preds[idx]| && SetClosedBut(preds, mayReach, open + {idx})
        invariant old(mayReach) + {idx} <= mayReach
        invariant forall j :: 0 <= j < i ==> preds[idx][j] in mayReach
        invariant forall b :: b in mayReach ==> b < |preds| && (b in old(mayReach) || b == idx || Leads(preds, idx, b))
      {
        var p := preds[idx][i];
        assert Edge(preds, idx, p);
        LeadsStep(preds, idx, p);
        AddPreds(p, open + {idx});
        forall b | Leads(preds, p, b) ensures Leads(preds, idx, b) {
          LeadsThrough(preds, idx, p, b);
        }
        i := i + 1;
      }
    }

    /** `addBlockAndPreds`: collect exactly the block and its transitive predecessors. */
    method AddBlockAndPreds(idx: nat)
      requires Valid() && idx < |preds| && SetClosedBut(preds, mayReach, {})
      requires forall b :: b in mayReach ==> b < |preds|
      modifies this`mayReach
      ensures SetClosedBut(preds, mayReach, {})
      ensures forall b :: b in mayReach <==> b in old(mayReach) || b == idx || Leads(preds, idx, b)
    {
      AddPreds(idx, {});
      forall b | Leads(preds, idx, b) ensures b in mayReach {
        var path :| Walk(preds, path, idx, b);
        SetClosedLeads(preds, mayReach, path, |path| - 1);
      }
    }
  }

  /** A block may be left only where its failed block is needed. */
  lemma BegunSplits(next: seq<seq<nat>>, idx: nat, block: seq<Inst>, marks: Marks)
    requires ValidBlock(block) && forall j: nat :: j < |block| && Starts(block, j) ==> Begun(next, idx, block, j, marks)
    ensures MarkedFor(block, |block|, marks, idx)
  {
    forall i: nat | i < |block| && Splits(block, i) ensures idx in marks && marks[idx] <= i + 1 {
      if LeftAfter(block, i) {
        assert Starts(block, i);
      } else {
        assert Starts(block, i + 1);
      }
    }
  }

  /** The failed block is recorded from each split point on at the latest. */
  ghost predicate MarkedFor(block: seq<Inst>, n: nat, marks: Marks, idx: nat)
  {
    forall i: nat :: i < n && Splits(block, i) ==> idx in marks && marks[idx] <= i + 1
  }

  ghost function Blocks(n: nat): (r: set<nat>)
    ensures forall b: nat :: b in r <==> b < n
  {
    if n == 0 then {} else Blocks(n - 1) + {n - 1}
  }

  ghost predicate SetClosedBut(next: seq<seq<nat>>, s: set<nat>, open: set<nat>)
  {
    forall b, p :: b in s && b !in open && Edge(next, b, p) ==> p in s
  }

  lemma {:induction false} SetClosedLeads(next: seq<seq<nat>>, s: set<nat>, path: seq<nat>, n: nat)
    requires SetClosedBut(next, s, {}) && n < |path| && path[0] in s
    requires forall j :: 0 < j < |path| ==> Edge(next, path[j - 1], path[j])
    ensures path[n] in s
  {
    if n > 0 {
      SetClosedLeads(next, s, path, n - 1);
      assert Edge(next, path[n - 1], path[n]);
    }
  }

  /** Closed marks hold everything that can be walked to from a marked block. */
  lemma {:induction false} ClosedLeads(next: seq<seq<nat>>, marks: Marks, path: seq<nat>, n: nat)
    requires Closed(next, marks) && 0 < n < |path| && path[0] in marks
    requires forall j :: 0 < j < |path| ==> Edge(next, path[j - 1], path[j])
    ensures path[n] in marks && marks[path[n]] == 0
  {
    if n > 1 {
      ClosedLeads(next, marks, path, n - 1);
    }
    assert Edge(next, path[n - 1], path[n]);
  }

  // ----- sub-blocks

  /** A sub-block of a failed block: instructions first..past of the original, listed under `start`. */
  datatype SubBlock = SubBlock(first: nat, past: nat, start: nat)

  /** Where sub-blocks must begin: at the start of the failed block and after every split. */
  predicate Begins(splits: seq<bool>, from: nat, at: nat)
  {
    at == from || (0 < at <= |splits| && splits[at - 1])
  }

  /** Sub-blocks listed under their own first instruction, in order and end to end over from..past. */
  ghost predicate EndToEnd(blocks: seq<SubBlock>, from: nat, past: nat)
  {
    && |blocks| > 0 && blocks[0].first == from && blocks[|blocks| - 1].past == past
    && (forall k {:trigger blocks[k].start} :: 0 <= k < |blocks| ==> blocks[k].start == blocks[k].first < blocks[k].past)
    && (forall k {:trigger blocks[k].past} :: 0 <= k < |blocks| - 1 ==> blocks[k].past == blocks[k + 1].first)
    && (forall j, k {:trigger blocks[j].first, blocks[k].first} :: 0 <= j < k < |blocks| ==> blocks[j].first < blocks[k].first)
  }

  ghost predicate HasBlockAt(blocks: seq<SubBlock>, at: nat)
  {
    exists k :: 0 <= k < |blocks| && blocks[k].first == at
  }

  /** Of the instructions up to `seen`, a sub-block begins exactly at those where one must. */
  ghost predicate BeginsWhereNeeded(blocks: seq<SubBlock>, splits: seq<bool>, from: nat, seen: nat)
  {
    forall at: nat :: at < |splits| ==> (HasBlockAt(blocks, at) <==> Begins(splits, from, at) && (at == from || at <= seen))
  }

  /** The cloning and splitting of `createFailedBlock`: clone the block from its recorded start and split
      it after every instruction marked in `splits`, none of which precedes that start by more than one
      instruction. The sub-blocks come out end to end, beginning exactly where they must. */
  method CreateFailedBlock(insts: nat, from: nat, splits: seq<bool>) returns (blocks: seq<SubBlock>)
    requires |splits| == insts && from < insts && !splits[insts - 1]
    requires forall i :: 0 <= i < insts && splits[i] ==> from <= i + 1
    ensures EndToEnd(blocks, from, insts)
    ensures BeginsWhereNeeded(blocks, splits, from, insts)
  {
    blocks := [SubBlock(from, insts, from)];
    var sinceSplit, i := 0, 0;
    assert blocks[0].first == from && HasBlockAt(blocks, from);
    while i < insts
      invariant 0 <= i <= insts && EndToEnd(blocks, from, insts)
      invariant BeginsWhereNeeded(blocks, splits, from, i)
      invariant blocks[|blocks| - 1].first <= if i < from then from else i
      invariant |blocks| > 1 ==> sinceSplit == i - blocks[|blocks| - 1].first
      invariant |blocks| == 1 ==> sinceSplit == i || (sinceSplit == i - 1 && 0 < from <= i)
    {
      if splits[i] {
        if i + 1 != from {
          var toSplit := if (i + 1) - from < sinceSplit + 1 then (i + 1) - from else sinceSplit + 1;
          assert blocks[|blocks| - 1].first + toSplit == i + 1;
          blocks := SplitLast(blocks, toSplit, i + 1, from, insts, splits);
          sinceSplit := 0;
        }
      } else {
        sinceSplit := sinceSplit + 1;
      }
      i := i + 1;
    }
  }

  /** `splitBasicBlock` on the last sub-block, `n` instructions in. */
  method SplitLast(blocks: seq<SubBlock>, n: nat, start: nat, ghost from: nat, ghost past: nat, ghost splits: seq<bool>)
    returns (r: seq<SubBlock>)
    requires EndToEnd(blocks, from, past) && n > 0 && blocks[|blocks| - 1].first + n == start < past == |splits|
    requires splits[start - 1] && BeginsWhereNeeded(blocks, splits, from, start - 1)
    ensures EndToEnd(r, from, past) && |r| == |blocks| + 1 && r[|r| - 1].first == start
    ensures BeginsWhereNeeded(r, splits, from, start)
  {
    var back := blocks[|blocks| - 1];
    r := blocks[..|blocks| - 1] + [back.(past := back.first + n), SubBlock(back.first + n, back.past, start)];
    SplitEndToEnd(blocks, r, n, from, past);
    forall at: nat ensures HasBlockAt(r, at) <==> HasBlockAt(blocks, at) || at == start {
      SplitBegins(blocks, r, start, at);
    }
  }

  lemma SplitEndToEnd(blocks: seq<SubBlock>, r: seq<SubBlock>, n: nat, from: nat, past: nat)
    requires EndToEnd(blocks, from, past) && n > 0 && blocks[|blocks| - 1].first + n < past
    requires var back := blocks[|blocks| - 1];
             r == blocks[..|blocks| - 1] + [back.(past := back.first + n), SubBlock(back.first + n, back.past, back.first + n)]
    ensures EndToEnd(r, from, past)
  {
    var last := |blocks| - 1;
    forall k | 0 <= k < |r| ensures r[k].start == r[k].first < r[k].past {
      assert k < last ==> r[k] == blocks[k];
      assert blocks[if k < last then k else last].start == blocks[if k < last then k else last].first;
    }
    forall k | 0 <= k < |r| - 1 ensures r[k].past == r[k + 1].first {
      assert k < last ==> r[k] == blocks[k] && blocks[k].past == blocks[k + 1].first;
    }
    forall j, k | 0 <= j < k < |r| ensures r[j].first < r[k].first {
      assert j < last ==> r[j] == blocks[j] && blocks[j].first < blocks[last].first;
    }
  }

  lemma SplitBegins(blocks: seq<SubBlock>, r: seq<SubBlock>, start: nat, at: nat)
    requires |blocks| > 0 && |r| == |blocks| + 1 && r[|blocks|].first == start
    requires forall k :: 0 <= k < |blocks| ==> r[k].first == blocks[k].first
    ensures HasBlockAt(r, at) <==> HasBlockAt(blocks, at) || at == start
  {
    if HasBlockAt(blocks, at) {
      var k :| 0 <= k < |blocks| && blocks[k].first == at;
      assert r[k].first == at;
    }
    if at == start {
      assert r[|blocks|].first == at;
    }
  }

  /** `getSubBlockForInst`: the first sub-block listed at or after an instruction. It begins exactly
      there when, and only when, a sub-block must begin there. */
  method GetSubBlockForInst(blocks: seq<SubBlock>, instIdx: nat, ghost splits: seq<bool>, ghost from: nat)
    returns (r: SubBlock)
    requires EndToEnd(blocks, from, |splits|) && BeginsWhereNeeded(blocks, splits, from, |splits|)
    requires instIdx <= blocks[|blocks| - 1].start
    ensures r in blocks && instIdx <= r.first
    ensures forall b :: b in blocks && instIdx <= b.start ==> r.first <= b.first
    ensures r.first == instIdx <==> Begins(splits, from, instIdx)
  {
    var k := 0;
    while blocks[k].start < instIdx
      invariant 0 <= k < |blocks|
      invariant forall n :: 0 <= n < k ==> blocks[n].start < instIdx
      decreases |blocks| - k
    {
      k := k + 1;
    }
    r := blocks[k];
    FirstFrom(blocks, splits, from, instIdx, k);
  }

  lemma FirstFrom(blocks: seq<SubBlock>, splits: seq<bool>, from: nat, instIdx: nat, k: nat)
    requires EndToEnd(blocks, from, |splits|) && BeginsWhereNeeded(blocks, splits, from, |splits|)
    requires k < |blocks| && instIdx <= blocks[k].start
    requires forall n :: 0 <= n < k ==> blocks[n].start < instIdx
    ensures instIdx <= blocks[k].first
    ensures forall b :: b in blocks && instIdx <= b.start ==> blocks[k].first <= b.first
    ensures blocks[k].first == instIdx <==> Begins(splits, from, instIdx)
  {
    forall n | 0 <= n < |blocks| && instIdx <= blocks[n].start ensures blocks[k].first <= blocks[n].first {
      assert k < n ==> blocks[k].first < blocks[n].first;
    }
    LastInside(blocks, from, |splits|, k);
    if HasBlockAt(blocks, instIdx) {
      var n :| 0 <= n < |blocks| && blocks[n].first == instIdx;
      assert blocks[n].start == blocks[n].first;
      assert k < n ==> blocks[k].first < blocks[n].first;
    }
  }

  lemma LastInside(blocks: seq<SubBlock>, from: nat, past: nat, k: nat)
    requires EndToEnd(blocks, from, past) && k < |blocks|
    ensures blocks[k].start == blocks[k].first < past
  {
    var last := |blocks| - 1;
    assert blocks[last].start == blocks[last].first < blocks[last].past;
    assert k < last ==> blocks[k].first < blocks[last].first;
  }
}
