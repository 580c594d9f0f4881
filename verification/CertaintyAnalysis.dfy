/** The walk over blocks that keeps `pendingEdges` and hands out certainty
    (llpe/main/CFGEval.cpp:104-130, 218-377, 383-529). */
module CertaintyAnalysis {
  import opened Options
  import opened Certainty

  datatype Status = Unknown | Certain | Assumed

  /** What is known about a block's terminator once its instructions are evaluated. */
  datatype Terminator =
    | Stop                                     // return, unreachable, resume
    | Jump                                     // unconditional branch
    | Invoke(comesBack: bool, unwinds: bool)
    | Known(target: nat)                       // branch or switch on a constant
    | OneOf(targets: seq<nat>)                 // switch on a set of constants
    | Open                                     // condition unknown

  /** The edges a terminator makes alive. */
  predicate Taken(t: Terminator, succs: seq<nat>, k: nat)
    requires k < |succs|
  {
    match t
    case Stop => false
    case Jump => k == 0
    case Invoke(comesBack, unwinds) => (k == 0 && comesBack) || (k == 1 && unwinds)
    case Known(target) => succs[k] == target
    case OneOf(targets) => succs[k] in targets
    case Open => true
  }

  /** The terminator has the successors its kind calls for. An invoke's normal successor is never
      its landing pad. */
  predicate FitsSuccs(t: Terminator, succs: seq<nat>)
  {
    && (t.Jump? ==> |succs| == 1)
    && (t.Invoke? ==> |succs| == 2 && succs[0] != succs[1])
  }

  /** Changing the edges of block `u` and of no other leaves counts over lower blocks alone. */
  lemma {:induction false} CrossFrame(g: Graph, a: Alive, b: Alive, m: nat, i: nat)
    requires Fits(g, a) && Fits(g, b) && m <= |a|
    requires forall u :: 0 <= u < m ==> a[u] == b[u]
    ensures Cross(g, a, m, i) == Cross(g, b, m, i)
  {
    if m > 0 {
      CrossFrame(g, a, b, m - 1, i);
      OutFrame(g, a, b, m - 1, i, |a[m - 1]|);
    }
  }

  lemma {:induction false} OutFrame(g: Graph, a: Alive, b: Alive, u: nat, i: nat, n: nat)
    requires Fits(g, a) && Fits(g, b) && u < |a| && a[u] == b[u] && n <= |a[u]|
    ensures Out(g, a, u, i, n) == Out(g, b, u, i, n)
  {
    if n > 0 {
      OutFrame(g, a, b, u, i, n - 1);
    }
  }

  /** Live edges from blocks below `v` to blocks above it. */
  ghost function Over(g: Graph, alive: Alive, v: nat): nat
    requires Fits(g, alive) && v <= |alive|
  {
    Cross(g, alive, v, v + 1)
  }

  /** The status block `u` passes on to `v`: its own if it can go nowhere else, and otherwise that of
      the edge. */
  ghost function StatusVia(g: Graph, alive: Alive, status: seq<Status>, assumed: set<(nat, nat)>, u: nat, v: nat): Status
    requires Fits(g, alive) && |status| == |alive| && u < |alive|
  {
    if status[u] != Unknown && OnlyTo(g, alive, u, v) then status[u]
    else if (u, v) in assumed then Assumed
    else Unknown
  }

  /** The lowest block with a live specialised edge to `v`. */
  ghost predicate FirstPred(g: Graph, alive: Alive, u: nat, v: nat)
    requires Fits(g, alive)
  {
    LiveEdge(g, alive, u, v) && forall w: nat :: w < u ==> !LiveEdge(g, alive, w, v)
  }

  ghost predicate Granted(g: Graph, alive: Alive, status: seq<Status>, assumed: set<(nat, nat)>, u: nat, v: nat)
    requires Fits(g, alive) && |status| == |alive|
  {
    u < v < |alive| && FirstPred(g, alive, u, v) && status[v] == StatusVia(g, alive, status, assumed, u, v)
  }

  /** Of the blocks that exist, those below `n` that nothing jumps over have the entry's status, and the
      others the one that the first block to lead there passed on. */
  ghost predicate Settled(g: Graph, alive: Alive, created: seq<bool>, status: seq<Status>, assumed: set<(nat, nat)>, n: nat)
    requires Fits(g, alive) && |created| == |status| == |alive| > 0
  {
    forall v: nat :: 0 < v < |alive| && created[v] ==>
      if v < n && Over(g, alive, v) == 0 then status[v] == status[0]
      else exists u: nat :: Granted(g, alive, status, assumed, u, v)
  }

  /** Settling block `i` by the cut rule; the blocks from it on have no live edges yet. */
  lemma SettledAt(g: Graph, alive: Alive, created: seq<bool>, status: seq<Status>, status': seq<Status>, assumed: set<(nat, nat)>, i: nat)
    requires Fits(g, alive) && |created| == |status| == |alive| && i < |alive|
    requires forall u, k :: i <= u < |alive| && 0 <= k < |alive[u]| ==> !alive[u][k]
    requires Settled(g, alive, created, status, assumed, i)
    requires status' == if i > 0 && Over(g, alive, i) == 0 then status[i := status[0]] else status
    ensures Settled(g, alive, created, status', assumed, i + 1)
  {
    forall v: nat | 0 < v < |alive| && created[v] && !(v < i + 1 && Over(g, alive, v) == 0)
      ensures exists u: nat :: Granted(g, alive, status', assumed, u, v)
    {
      var u: nat :| Granted(g, alive, status, assumed, u, v);
      assert u < i;
      assert Granted(g, alive, status', assumed, u, v);
    }
  }

  /** Evaluating block `i` after that; its edges all lead upwards. */
  lemma SettledStep(g: Graph, a: Alive, b: Alive, cr: seq<bool>, cr': seq<bool>, st: seq<Status>, st': seq<Status>,
                    assumed: set<(nat, nat)>, i: nat)
    requires g.Valid() && Fits(g, a) && Fits(g, b) && |cr| == |st| == |cr'| == |st'| == |a| && i < |a|
    requires b == a[i := b[i]] && cr[i] && cr[0] && Settled(g, a, cr, st, assumed, i + 1)
    requires forall u, k :: i <= u < |a| && 0 <= k < |a[u]| ==> !a[u][k]
    requires forall v: nat :: 0 < v < |cr| ==> (cr[v] <==> HasPred(g, a, v))
    requires forall v: nat :: v < |cr| ==> (cr'[v] <==> cr[v] || LiveEdge(g, b, i, v))
    requires forall v: nat :: v < |st| ==> st'[v] == if cr'[v] && !cr[v] then StatusVia(g, b, st, assumed, i, v) else st[v]
    ensures Settled(g, b, cr', st', assumed, i + 1)
  {
    forall v: nat | v <= i ensures Over(g, b, v) == Over(g, a, v) {
      CrossFrame(g, a, b, v, v + 1);
    }
    forall v: nat | v < |cr| && v <= i ensures cr'[v] == cr[v] && st'[v] == st[v] {
      assert !LiveEdge(g, b, i, v);
    }
    forall v: nat | 0 < v < |b| && cr'[v] && !(v < i + 1 && Over(g, b, v) == 0)
      ensures exists u: nat :: Granted(g, b, st', assumed, u, v)
    {
      if cr[v] {
        var u: nat :| Granted(g, a, st, assumed, u, v);
        GrantedStays(g, a, b, st, st', assumed, i, u, v);
        assert Granted(g, b, st', assumed, u, v);
      } else {
        forall w: nat | w < i ensures !LiveEdge(g, b, w, v) {
          SameRow(g, a, b, w, v);
          assert !HasPred(g, a, v);
        }
        assert Granted(g, b, st', assumed, i, v);
      }
    }
  }

  lemma GrantedStays(g: Graph, a: Alive, b: Alive, st: seq<Status>, st': seq<Status>, assumed: set<(nat, nat)>, i: nat, u: nat, v: nat)
    requires Fits(g, a) && Fits(g, b) && |st| == |st'| == |a| && i < |a| && b == a[i := b[i]]
    requires forall k :: 0 <= k < |a[i]| ==> !a[i][k]
    requires forall w, k :: i <= w < |a| && 0 <= k < |a[w]| ==> !a[w][k]
    requires Granted(g, a, st, assumed, u, v) && st'[v] == st[v] && (u < i ==> st'[u] == st[u])
    ensures Granted(g, b, st', assumed, u, v)
  {
    assert u < i;
    forall w: nat | w <= u ensures LiveEdge(g, a, w, v) <==> LiveEdge(g, b, w, v) {
      SameRow(g, a, b, w, v);
    }
  }

  /** The status a block gets when its predecessor creates it. */
  function Conferred(from: Status, unique: bool, assumed: bool): Status
  {
    if from != Unknown && unique then from else if assumed then Assumed else Unknown
  }

  class Analysis {
    const g: Graph
    const preds: seq<seq<nat>>
    var alive: Alive
    var created: seq<bool>
    var status: seq<Status>
    var pendingEdges: nat

    ghost predicate Shape()
      reads this
    {
      && g.Valid() && |g.succs| > 0 && PredsMatch(g, preds)
      && Fits(g, alive) && CopiesAgree(g, alive)
      && |created| == |status| == |alive|
    }

    /** Blocks from `i` on have not been evaluated: none of their edges is alive. */
    ghost predicate Fresh(i: nat)
      requires Fits(g, alive)
      reads this
    {
      forall u, k :: i <= u < |alive| && 0 <= k < |alive[u]| ==> !alive[u][k]
    }

    /** A block other than the entry exists exactly when a live specialised edge leads to it. */
    ghost predicate CreatedExactly()
      requires Shape()
      reads this
    {
      && created[0]
      && (forall v: nat :: 0 < v < |created| ==> (created[v] <==> HasPred(g, alive, v)))
      && (forall u: nat, k: nat :: u < |alive| && k < |alive[u]| && alive[u][k] ==> created[u])
    }

    /** Before block `i` is visited, `pendingEdges` counts the live edges from the blocks below it
        to the blocks from it on. */
    ghost predicate Valid(i: nat)
      reads this
    {
      && Shape() && i <= |alive| && Fresh(i) && CreatedExactly()
      && pendingEdges == Cross(g, alive, i, i)
    }

    constructor (g: Graph, preds: seq<seq<nat>>, entry: Status)
      requires g.Valid() && |g.succs| > 0 && PredsMatch(g, preds)
      ensures Valid(0) && this.g == g && this.preds == preds
      ensures status[0] == entry && forall v :: 0 < v < |status| ==> status[v] == Unknown
    {
      this.g, this.preds := g, preds;
      alive := seq(|g.succs|, u requires 0 <= u < |g.succs| => seq(|g.succs[u]|, k => false));
      created := seq(|g.succs|, u => u == 0);
      status := seq(|g.succs|, u => if u == 0 then entry else Unknown);
      pendingEdges := 0;
    }

    /** `setEdgeAlive`: mark every copy of the edge to `target` alive. */
    method SetEdgeAlive(u: nat, target: nat) returns (changed: bool)
      requires Fits(g, alive) && u < |alive|
      modifies this`alive
      ensures Fits(g, alive) && alive == old(alive)[u := alive[u]]
      ensures forall k :: 0 <= k < |alive[u]| ==> (alive[u][k] <==> old(alive[u][k]) || g.succs[u][k] == target)
      ensures changed <==> alive[u] != old(alive[u])
    {
      changed := false;
      var row, k := alive[u], 0;
      while k < |row|
        invariant 0 <= k <= |row| == |alive[u]|
        invariant forall l :: 0 <= l < |row| ==>
                    (row[l] <==> alive[u][l] || (l < k && g.succs[u][l] == target))
        invariant changed <==> row != alive[u]
      {
        if g.succs[u][k] == target {
          if !row[k] {
            changed := true;
            assert row[k := true][k] != alive[u][k];
          }
          row := row[k := true];
        }
        k := k + 1;
      }
      alive := alive[u := row];
    }

    /** `checkBlockOutgoingEdges`. */
    method CheckOutgoingEdges(u: nat, t: Terminator) returns (changed: bool)
      requires Fits(g, alive) && u < |alive| && FitsSuccs(t, g.succs[u])
      modifies this`alive
      ensures Fits(g, alive) && alive == old(alive)[u := alive[u]]
      ensures forall k :: 0 <= k < |alive[u]| ==> (alive[u][k] <==> old(alive[u][k]) || Taken(t, g.succs[u], k))
      ensures changed <==> alive[u] != old(alive[u])
    {
      match t {
        case Stop =>
          changed := false;
        case Jump =>
          changed := !alive[u][0];
          alive := alive[u := alive[u][0 := true]];
          assert changed ==> alive[u][0] != old(alive[u][0]);
        case Invoke(comesBack, unwinds) =>
          var row := [alive[u][0] || comesBack, alive[u][1] || unwinds];
          changed := (comesBack && !alive[u][0]) || (unwinds && !alive[u][1]);
          assert changed ==> row[0] != alive[u][0] || row[1] != alive[u][1];
          assert !changed ==> row == alive[u];
          alive := alive[u := row];
        case Known(target) =>
          changed := SetEdgeAlive(u, target);
        case OneOf(targets) =>
          changed := SetAll(u, targets);
        case Open =>
          changed := SetAll(u, g.succs[u]);
      }
    }

    method SetAll(u: nat, targets: seq<nat>) returns (changed: bool)
      requires Fits(g, alive) && u < |alive|
      modifies this`alive
      ensures Fits(g, alive) && alive == old(alive)[u := alive[u]]
      ensures forall k :: 0 <= k < |alive[u]| ==> (alive[u][k] <==> old(alive[u][k]) || g.succs[u][k] in targets)
      ensures changed <==> alive[u] != old(alive[u])
    {
      changed := false;
      var n := 0;
      while n < |targets|
        invariant 0 <= n <= |targets| && Fits(g, alive) && alive == old(alive)[u := alive[u]]
        invariant forall k :: 0 <= k < |alive[u]| ==>
                    (alive[u][k] <==> old(alive[u][k]) || g.succs[u][k] in targets[..n])
        invariant changed <==> alive[u] != old(alive[u])
      {
        ghost var before := alive[u];
        var c := SetEdgeAlive(u, targets[n]);
        assert targets[..n + 1] == targets[..n] + [targets[n]];
        if c {
          ghost var k :| 0 <= k < |before| && before[k] != alive[u][k];
        }
        changed := changed || c;
        n := n + 1;
      }
      assert targets[..n] == targets;
    }

    /** `edgeIsDead`: no copy of the edge is alive. */
    method EdgeIsDead(u: nat, v: nat) returns (dead: bool)
      requires Fits(g, alive) && u < |alive|
      ensures dead <==> forall k :: 0 <= k < |alive[u]| ==> !(g.succs[u][k] == v && alive[u][k])
    {
      var k := 0;
      while k < |alive[u]|
        invariant 0 <= k <= |alive[u]|
        invariant forall l :: 0 <= l < k ==> !(g.succs[u][l] == v && alive[u][l])
      {
        if g.succs[u][k] == v && alive[u][k] {
          return false;
        }
        k := k + 1;
      }
      dead := true;
    }

    /** The edge is not dead and stays in specialised code. */
    method IsCounted(u: nat, v: nat) returns (counted: bool)
      requires Fits(g, alive) && u < |alive|
      ensures counted <==> LiveEdge(g, alive, u, v)
    {
      var dead := EdgeIsDead(u, v);
      counted := !dead && (u, v) !in g.unspecialised;
      if counted {
        ghost var k :| 0 <= k < |alive[u]| && g.succs[u][k] == v && alive[u][k];
        assert Live(g, alive, u, k);
      }
    }

    /** `checkBlockStatus`: retire the edges that arrive at block `i`. The assertion that the count
        does not fall below zero is proved at each decrement. If nothing is pending any more, the
        block inherits the entry's status. */
    method CheckBlockStatus(i: nat, inLoopAnalyser: bool)
      requires Valid(i) && i < |alive|
      modifies this`pendingEdges, this`status
      ensures Shape() && pendingEdges == Cross(g, alive, i, i + 1)
      ensures status == if pendingEdges == 0 && !inLoopAnalyser then old(status)[i := old(status[0])] else old(status)
    {
      var ps, j := preds[i], 0;
      Arrivals(g, alive, i, ps);
      assert ps[..0] == [] && ps[..|ps|] == ps;
      while j < |ps|
        invariant 0 <= j <= |ps| && Shape() && status == old(status)
        invariant pendingEdges + LivePreds(g, alive, i, ps[..j]) == Cross(g, alive, i, i + 1) + LivePreds(g, alive, i, ps)
      {
        var p := ps[j];
        LivePredsStep(g, alive, i, ps, j);
        var counted := IsCounted(p, i);
        if counted {
          assert pendingEdges != 0;
          pendingEdges := pendingEdges - 1;
        }
        j := j + 1;
      }
      if pendingEdges == 0 && !inLoopAnalyser {
        status := status[i := status[0]];
      }
    }

    /** Count the live specialised edges out of a block towards `pendingEdges`. */
    method CountEdges(u: nat)
      requires Shape() && u < |alive|
      modifies this`pendingEdges
      ensures pendingEdges == old(pendingEdges) + Out(g, alive, u, u + 1, |alive[u]|)
    {
      var k := 0;
      while k < |alive[u]|
        invariant 0 <= k <= |alive[u]| && pendingEdges == old(pendingEdges) + Out(g, alive, u, u + 1, k)
      {
        if alive[u][k] && (u, g.succs[u][k]) !in g.unspecialised {
          pendingEdges := pendingEdges + 1;
        }
        k := k + 1;
      }
    }

    /** The only block this one can still go to, if there is exactly one. */
    method UniqueSucc(u: nat) returns (r: Option<nat>)
      requires Fits(g, alive) && u < |alive|
      ensures r.Some? ==> forall k :: 0 <= k < |alive[u]| && alive[u][k] ==> g.succs[u][k] == r.value
      ensures r.None? ==> (forall k :: 0 <= k < |alive[u]| ==> !alive[u][k])
                          || exists k, l :: 0 <= k < l < |alive[u]| && alive[u][k] && alive[u][l]
                                            && g.succs[u][k] != g.succs[u][l]
    {
      r := None;
      ghost var at := 0;
      var k := 0;
      while k < |alive[u]|
        invariant 0 <= k <= |alive[u]|
        invariant r.None? ==> forall l :: 0 <= l < k ==> !alive[u][l]
        invariant r.Some? ==> 0 <= at < k && alive[u][at] && g.succs[u][at] == r.value
        invariant r.Some? ==> forall l :: 0 <= l < k && alive[u][l] ==> g.succs[u][l] == r.value
      {
        if alive[u][k] {
          if r.None? {
            r, at := Some(g.succs[u][k]), k;
          } else if r.value != g.succs[u][k] {
            return None;
          }
        }
        k := k + 1;
      }
    }

    /** Create the blocks this block's live specialised edges lead to. */
    method CreateSuccessors(u: nat, assumedEdges: set<(nat, nat)>)
      requires Shape() && u < |alive|
      modifies this`created, this`status
      ensures Shape()
      ensures forall v: nat :: v < |created| ==> (created[v] <==> old(created[v]) || LiveEdge(g, alive, u, v))
      ensures forall v: nat :: v < |status| ==>
                status[v] == if created[v] && !old(created[v]) then StatusVia(g, alive, old(status), assumedEdges, u, v) else old(status[v])
    {
      var unique := UniqueSucc(u);
      var k := 0;
      while k < |alive[u]|
        invariant 0 <= k <= |alive[u]| && Shape() && status[u] == old(status[u])
        invariant forall v: nat :: v < |created| ==>
                    (created[v] <==> old(created[v]) || LiveAmong(g, alive, u, v, k))
        invariant forall v: nat :: v < |status| ==>
                    status[v] == if created[v] && !old(created[v]) then StatusVia(g, alive, old(status), assumedEdges, u, v) else old(status[v])
      {
        var v := g.succs[u][k];
        if alive[u][k] && (u, v) !in g.unspecialised {
          if !created[v] {
            assert unique.Some? <==> OnlyTo(g, alive, u, v);
            created := created[v := true];
            status := status[v := Conferred(status[u], unique.Some?, (u, v) in assumedEdges)];
          }
        }
        k := k + 1;
      }
    }

    /** Decide and count the live edges of a block not evaluated before. */
    method EvaluateEdges(u: nat, t: Terminator) returns (changed: bool)
      requires Shape() && u < |alive| && Fresh(u) && FitsSuccs(t, g.succs[u])
      requires pendingEdges == Cross(g, alive, u, u + 1)
      modifies this`alive, this`pendingEdges
      ensures Shape() && Fresh(u + 1) && pendingEdges == Cross(g, alive, u + 1, u + 1)
      ensures alive == old(alive)[u := alive[u]]
      ensures forall k :: 0 <= k < |alive[u]| ==> (alive[u][k] <==> Taken(t, g.succs[u], k))
      ensures changed <==> exists k :: 0 <= k < |alive[u]| && alive[u][k]
    {
      changed := CheckOutgoingEdges(u, t);
      RowCopies(g.succs[u], alive[u], t);
      if changed {
        ghost var k :| 0 <= k < |alive[u]| && alive[u][k] != old(alive[u])[k];
      }
      CrossFrame(g, old(alive), alive, u, u + 1);
      CountEdges(u);
    }

    /** `tryEvaluateTerminator`: decide the live edges of block `u`, count them, and create the
        blocks they lead to. */
    method TryEvaluateTerminator(u: nat, t: Terminator, assumedEdges: set<(nat, nat)>) returns (changed: bool)
      requires Shape() && u < |alive| && Fresh(u) && CreatedExactly() && created[u]
      requires pendingEdges == Cross(g, alive, u, u + 1) && FitsSuccs(t, g.succs[u])
      modifies this
      ensures Valid(u + 1)
      ensures alive == old(alive)[u := alive[u]]
      ensures forall k :: 0 <= k < |alive[u]| ==> (alive[u][k] <==> Taken(t, g.succs[u], k))
      ensures forall v: nat :: v < |created| ==> (created[v] <==> old(created[v]) || LiveEdge(g, alive, u, v))
      ensures forall v: nat :: v < |status| ==>
                status[v] == if created[v] && !old(created[v]) then StatusVia(g, alive, old(status), assumedEdges, u, v) else old(status[v])
    {
      changed := EvaluateEdges(u, t);
      if changed {
        CreateSuccessors(u, assumedEdges);
      }
      forall v: nat | v < |created|
        ensures HasPred(g, alive, v) <==> HasPred(g, old(alive), v) || LiveEdge(g, alive, u, v)
      {
        EdgesAfter(g, old(alive), alive, u, v);
      }
    }
  
    /** A block that does not exist is passed over. */
    lemma SkipBlock(i: nat)
      requires Valid(i) && i < |alive| && !created[i]
      ensures Valid(i + 1)
    {
      Arrivals(g, alive, i, preds[i]);
      forall u: nat ensures !LiveEdge(g, alive, u, i) {
        assert !HasPred(g, alive, i);
      }
      NoPreds(g, alive, i, preds[i]);
      NoEdges(g, alive, i, i + 1, |alive[i]|);
    }

    /** The edges alive are those that the terminators of the blocks that exist take, of the blocks
        below `n`. */
    ghost predicate Walked(terms: seq<Terminator>, n: nat)
      requires Shape() && |terms| == |alive|
      reads this
    {
      forall u: nat, k: nat :: u < n && u < |alive| && k < |alive[u]| ==> (alive[u][k] <==> created[u] && Taken(terms[u], g.succs[u], k))
    }

    /** Visit block `i`: settle its certainty, then its edges. */
    method AnalyseBlock(i: nat, t: Terminator, assumedEdges: set<(nat, nat)>)
      requires Valid(i) && i < |alive| && created[i] && Settled(g, alive, created, status, assumedEdges, i) && FitsSuccs(t, g.succs[i])
      modifies this
      ensures Valid(i + 1) && Settled(g, alive, created, status, assumedEdges, i + 1)
      ensures status[0] == old(status[0])
      ensures alive == old(alive)[i := alive[i]]
      ensures forall k :: 0 <= k < |alive[i]| ==> (alive[i][k] <==> Taken(t, g.succs[i], k))
      ensures forall v: nat :: v < |created| ==> (created[v] <==> old(created[v]) || LiveEdge(g, alive, i, v))
    {
      ghost var st0 := status;
      if i > 0 {
        CheckBlockStatus(i, false);
      }
      SettledAt(g, alive, created, st0, status, assumedEdges, i);
      ghost var a, cr, st := alive, created, status;
      var changed := TryEvaluateTerminator(i, t, assumedEdges);
      SettledStep(g, a, alive, cr, created, st, status, assumedEdges, i);
      assert status[0] == st[0];
    }

    /** Visit every block in topological order. The count is 0 at the end. The edges alive are those that
        the terminators of existing blocks take, and a block exists exactly when such edges lead there
        from the entry. A block has the entry's status if every live path past it goes through it, and
        otherwise the status passed on by the lowest block that leads there; it is called certain only
        if every live path past it goes through it. */
    method AnalyseBlocks(terms: seq<Terminator>, assumedEdges: set<(nat, nat)>)
      requires Valid(0) && |terms| == |alive|
      requires forall v :: 0 < v < |status| ==> status[v] == Unknown
      requires forall u :: 0 <= u < |terms| ==> FitsSuccs(terms[u], g.succs[u])
      modifies this
      ensures Valid(|alive|) && |alive| == |terms| && pendingEdges == 0
      ensures status[0] == old(status[0])
      ensures forall u: nat, k: nat :: u < |alive| && k < |alive[u]| ==> (alive[u][k] <==> created[u] && Taken(terms[u], g.succs[u], k))
      ensures forall v: nat :: v < |alive| ==> (created[v] <==> TakenTo(g, terms, v))
      ensures forall v: nat :: v < |alive| && created[v] ==> Reachable(g, alive, v)
      ensures forall v: nat :: 0 < v < |alive| && created[v] && MustPass(g, alive, v) ==> status[v] == status[0]
      ensures forall v: nat :: 0 < v < |alive| && created[v] && !MustPass(g, alive, v) ==>
                exists u: nat :: Granted(g, alive, status, assumedEdges, u, v)
      ensures forall v: nat :: 0 < v < |alive| && created[v] && status[v] == Certain ==> MustPass(g, alive, v)
    {
      VisitBlocks(terms, assumedEdges);
      NothingBeyond(g, alive, |alive|, |alive|);
      forall v: nat | v < |alive|
        ensures created[v] ==> Reachable(g, alive, v)
        ensures created[v] <==> TakenTo(g, terms, v)
      {
        CreatedTaken(terms, v);
      }
      forall v: nat | 0 < v < |alive| && created[v]
        ensures if MustPass(g, alive, v) then status[v] == status[0] else exists u: nat :: Granted(g, alive, status, assumedEdges, u, v)
        ensures status[v] == Certain ==> MustPass(g, alive, v)
      {
        CutAt(v);
        if status[v] == Certain {
          CertainMustPass(v, assumedEdges);
        }
      }
    }

    /** The loop over the blocks. */
    method VisitBlocks(terms: seq<Terminator>, assumedEdges: set<(nat, nat)>)
      requires Valid(0) && |terms| == |alive|
      requires forall v :: 0 < v < |status| ==> status[v] == Unknown
      requires forall u :: 0 <= u < |terms| ==> FitsSuccs(terms[u], g.succs[u])
      modifies this
      ensures Valid(|alive|) && |alive| == |terms| && status[0] == old(status[0])
      ensures Settled(g, alive, created, status, assumedEdges, |alive|) && Walked(terms, |alive|)
    {
      var i := 0;
      while i < |terms|
        invariant 0 <= i <= |terms| == |alive| && Valid(i) && status[0] == old(status[0])
        invariant Settled(g, alive, created, status, assumedEdges, i) && Walked(terms, i)
      {
        ghost var cr := created;
        if created[i] {
          AnalyseBlock(i, terms[i], assumedEdges);
        } else {
          SkipBlock(i);
          SettledSkip(g, alive, created, status, assumedEdges, i);
        }
        forall u: nat | u <= i ensures created[u] == cr[u] {
          assert !LiveEdge(g, alive, i, u);
        }
        i := i + 1;
      }
    }

    /** A block exists exactly when taken edges lead to it from the entry. */
    lemma CreatedTaken(terms: seq<Terminator>, v: nat)
      requires Shape() && CreatedExactly() && |terms| == |alive| && Walked(terms, |alive|) && v < |alive|
      ensures created[v] ==> Reachable(g, alive, v)
      ensures created[v] <==> TakenTo(g, terms, v)
    {
      if created[v] {
        CreatedReachable(v);
        var path :| LivePath(g, alive, path) && path[|path| - 1] == v;
        forall j | 0 < j < |path| ensures TakenEdge(g, terms, path[j - 1], path[j]) {
          LiveTaken(terms, path[j - 1], path[j]);
        }
        assert TakenPath(g, terms, path);
      }
      if path :| TakenPath(g, terms, path) && path[|path| - 1] == v {
        TakenCreated(terms, path);
      }
    }

    lemma LiveTaken(terms: seq<Terminator>, u: nat, v: nat)
      requires Shape() && CreatedExactly() && |terms| == |alive| && Walked(terms, |alive|) && LiveEdge(g, alive, u, v)
      ensures TakenEdge(g, terms, u, v)
    {
      var k :| 0 <= k < |alive[u]| && g.succs[u][k] == v && Live(g, alive, u, k);
      assert Taken(terms[u], g.succs[u], k);
    }

    lemma {:induction false} TakenCreated(terms: seq<Terminator>, path: seq<nat>)
      requires Shape() && CreatedExactly() && |terms| == |alive| && Walked(terms, |alive|) && TakenPath(g, terms, path)
      ensures path[|path| - 1] < |alive| && created[path[|path| - 1]]
      decreases |path|
    {
      if |path| > 1 {
        var front, v := path[..|path| - 1], path[|path| - 1];
        var u := front[|front| - 1];
        assert TakenPath(g, terms, front);
        TakenCreated(terms, front);
        assert TakenEdge(g, terms, path[|path| - 2], v);
        var k: nat :| k < |g.succs[u]| && g.succs[u][k] == v && Taken(terms[u], g.succs[u], k);
        assert Live(g, alive, u, k) && LiveEdge(g, alive, u, v);
      }
    }

    lemma {:induction false} CreatedReachable(v: nat)
      requires Shape() && CreatedExactly() && v < |alive| && created[v]
      ensures Reachable(g, alive, v)
      decreases v
    {
      if v == 0 {
        assert LivePath(g, alive, [0]);
      } else {
        var u: nat :| LiveEdge(g, alive, u, v);
        CreatedReachable(u);
        var path :| LivePath(g, alive, path) && path[|path| - 1] == u;
        var longer := path + [v];
        forall j | 0 < j < |longer| ensures LiveEdge(g, alive, longer[j - 1], longer[j]) {
          assert longer[j - 1] == path[j - 1];
        }
        assert LivePath(g, alive, longer);
      }
    }

    lemma CutAt(v: nat)
      requires Shape() && CreatedExactly() && v < |alive|
      ensures Over(g, alive, v) == 0 <==> MustPass(g, alive, v)
    {
      forall u: nat, w: nat | u < v && LiveEdge(g, alive, u, w) ensures Reachable(g, alive, u) {
        CreatedReachable(u);
      }
      CutExactly(g, alive, v);
    }

    lemma {:induction false} CertainMustPass(v: nat, assumed: set<(nat, nat)>)
      requires Shape() && CreatedExactly() && v < |alive| && created[v] && status[v] == Certain
      requires Settled(g, alive, created, status, assumed, |alive|)
      ensures MustPass(g, alive, v)
      decreases v
    {
      CutAt(v);
      if v > 0 && Over(g, alive, v) != 0 {
        var u: nat :| Granted(g, alive, status, assumed, u, v);
        CertainMustPass(u, assumed);
        PassOn(g, alive, u, v);
      }
    }
  }

  lemma SettledSkip(g: Graph, alive: Alive, created: seq<bool>, status: seq<Status>, assumed: set<(nat, nat)>, i: nat)
    requires Fits(g, alive) && |created| == |status| == |alive| && i < |alive|
    requires !created[i] && Settled(g, alive, created, status, assumed, i)
    ensures Settled(g, alive, created, status, assumed, i + 1)
  {
  }

  /** An edge that leads to specialised code and that the terminator takes. */
  ghost predicate TakenEdge(g: Graph, terms: seq<Terminator>, u: nat, v: nat)
  {
    u < |terms| == |g.succs| && (u, v) !in g.unspecialised
    && exists k: nat :: k < |g.succs[u]| && g.succs[u][k] == v && Taken(terms[u], g.succs[u], k)
  }

  /** A walk from the entry along such edges. */
  ghost predicate TakenPath(g: Graph, terms: seq<Terminator>, path: seq<nat>)
  {
    path != [] && path[0] == 0 && forall j :: 0 < j < |path| ==> TakenEdge(g, terms, path[j - 1], path[j])
  }

  ghost predicate TakenTo(g: Graph, terms: seq<Terminator>, v: nat)
  {
    exists path :: TakenPath(g, terms, path) && path[|path| - 1] == v
  }

  /** If every live path past `u` goes through `u`, and `u` can only go to `v`, then every live path
      past `v` goes through `v`. */
  lemma PassOn(g: Graph, alive: Alive, u: nat, v: nat)
    requires g.Valid() && Fits(g, alive) && u < v && u < |alive| && MustPass(g, alive, u) && OnlyTo(g, alive, u, v)
    ensures MustPass(g, alive, v)
  {
    forall path | LivePath(g, alive, path) && v < path[|path| - 1] ensures v in path {
      var j :| 0 <= j < |path| && path[j] == u;
      assert LiveEdge(g, alive, path[j + 1 - 1], path[j + 1]);
      assert path[j + 1] == v;
    }
  }

  lemma {:induction false} NoPreds(g: Graph, alive: Alive, i: nat, ps: seq<nat>)
    requires Fits(g, alive) && forall u: nat :: !LiveEdge(g, alive, u, i)
    ensures LivePreds(g, alive, i, ps) == 0
  {
    if ps != [] {
      NoPreds(g, alive, i, ps[..|ps| - 1]);
    }
  }

  lemma {:induction false} NoEdges(g: Graph, alive: Alive, u: nat, i: nat, n: nat)
    requires Fits(g, alive) && u < |alive| && n <= |alive[u]|
    requires forall k :: 0 <= k < n ==> !alive[u][k]
    ensures Out(g, alive, u, i, n) == 0
  {
    if n > 0 {
      NoEdges(g, alive, u, i, n - 1);
    }
  }

  /** There are no blocks past the last. */
  lemma NothingBeyond(g: Graph, alive: Alive, m: nat, i: nat)
    requires g.Valid() && Fits(g, alive) && m <= |alive| && |alive| <= i
    ensures Cross(g, alive, m, i) == 0
  {
    CrossPositive(g, alive, m, i);
  }

  /** A terminator treats copies of an edge alike. */
  lemma RowCopies(succs: seq<nat>, row: seq<bool>, t: Terminator)
    requires |row| == |succs| && FitsSuccs(t, succs)
    requires forall k :: 0 <= k < |row| ==> (row[k] <==> Taken(t, succs, k))
    ensures forall k, l :: 0 <= k < |row| && 0 <= l < |row| && succs[k] == succs[l] ==> row[k] == row[l]
  {
  }

  lemma EdgesAfter(g: Graph, a: Alive, b: Alive, u: nat, v: nat)
    requires Fits(g, a) && Fits(g, b) && u < |a| && b == a[u := b[u]]
    requires forall k :: 0 <= k < |a[u]| ==> !a[u][k]
    ensures HasPred(g, b, v) <==> HasPred(g, a, v) || LiveEdge(g, b, u, v)
  {
    forall w: nat ensures w != u ==> (LiveEdge(g, a, w, v) <==> LiveEdge(g, b, w, v)) {
      if w != u {
        SameRow(g, a, b, w, v);
      }
    }
    if HasPred(g, a, v) {
      var w: nat :| LiveEdge(g, a, w, v);
      assert w != u;
    }
  }

  lemma SameRow(g: Graph, a: Alive, b: Alive, w: nat, v: nat)
    requires Fits(g, a) && Fits(g, b) && (w < |a| ==> a[w] == b[w])
    ensures LiveEdge(g, a, w, v) <==> LiveEdge(g, b, w, v)
  {
    if LiveEdge(g, a, w, v) {
      var k :| 0 <= k < |a[w]| && g.succs[w][k] == v && Live(g, a, w, k);
      assert Live(g, b, w, k);
    }
    if LiveEdge(g, b, w, v) {
      var k :| 0 <= k < |b[w]| && g.succs[w][k] == v && Live(g, b, w, k);
      assert Live(g, a, w, k);
    }
  }

  ghost predicate HasPred(g: Graph, alive: Alive, v: nat)
    requires Fits(g, alive)
  {
    exists u: nat :: LiveEdge(g, alive, u, v)
  }

  ghost predicate LiveAmong(g: Graph, alive: Alive, u: nat, v: nat, n: nat)
    requires Fits(g, alive) && u < |alive| && n <= |alive[u]|
  {
    exists k :: 0 <= k < n && g.succs[u][k] == v && Live(g, alive, u, k)
  }

  /** Every edge of `u` still alive leads to `v`. */
  ghost predicate OnlyTo(g: Graph, alive: Alive, u: nat, v: nat)
    requires Fits(g, alive) && u < |alive|
  {
    forall k :: 0 <= k < |alive[u]| && alive[u][k] ==> g.succs[u][k] == v
  }

  lemma LivePredsStep(g: Graph, alive: Alive, i: nat, ps: seq<nat>, j: nat)
    requires Fits(g, alive) && j < |ps|
    ensures LivePreds(g, alive, i, ps[..j + 1]) ==
            LivePreds(g, alive, i, ps[..j]) + if LiveEdge(g, alive, ps[j], i) then 1 else 0
    ensures LivePreds(g, alive, i, ps[..j + 1]) <= LivePreds(g, alive, i, ps)
  {
    assert ps[..j + 1][..j] == ps[..j];
    LivePredsPrefix(g, alive, i, ps, j + 1);
  }

  lemma {:induction false} LivePredsPrefix(g: Graph, alive: Alive, i: nat, ps: seq<nat>, n: nat)
    requires Fits(g, alive) && n <= |ps|
    ensures LivePreds(g, alive, i, ps[..n]) <= LivePreds(g, alive, i, ps)
    decreases |ps|
  {
    if n < |ps| {
      LivePredsPrefix(g, alive, i, ps[..|ps| - 1], n);
      assert ps[..|ps| - 1][..n] == ps[..n];
    } else {
      assert ps[..n] == ps;
    }
  }
}
