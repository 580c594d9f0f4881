/** Which blocks are certain to run (llpe/main/CFGEval.cpp). Blocks are numbered in topological
    order with loops collapsed, so every edge goes to a higher number; `pendingEdges` counts the
    live specialised edges from blocks already visited to blocks still to come. */
module Certainty {

  /** `succIdxs` of each block, and the edges that branch to unspecialised code. */
  datatype Graph = Graph(succs: seq<seq<nat>>, unspecialised: set<(nat, nat)>)
  {
    ghost predicate Valid() {
      forall u, k :: 0 <= u < |succs| && 0 <= k < |succs[u]| ==> u < succs[u][k] < |succs|
    }
  }

  /** `succsAlive` of each block. */
  type Alive = seq<seq<bool>>

  ghost predicate Fits(g: Graph, alive: Alive)
  {
    |alive| == |g.succs| && forall u :: 0 <= u < |alive| ==> |alive[u]| == |g.succs[u]|
  }

  /** Copies of one edge (several switch cases with one target) live and die together. */
  ghost predicate CopiesAgree(g: Graph, alive: Alive)
    requires Fits(g, alive)
  {
    forall u, k, l :: 0 <= u < |alive| && 0 <= k < |alive[u]| && 0 <= l < |alive[u]| ==>
      g.succs[u][k] == g.succs[u][l] ==> alive[u][k] == alive[u][l]
  }

  /** Edge `k` of block `u` is alive and stays in specialised code. */
  predicate Live(g: Graph, alive: Alive, u: nat, k: nat)
    requires Fits(g, alive) && u < |alive| && k < |alive[u]|
  {
    alive[u][k] && (u, g.succs[u][k]) !in g.unspecialised
  }

  ghost predicate LiveEdge(g: Graph, alive: Alive, u: nat, v: nat)
    requires Fits(g, alive)
  {
    u < |alive| && exists k :: 0 <= k < |alive[u]| && g.succs[u][k] == v && Live(g, alive, u, k)
  }

  // ----- counting edges

  /** Live edges among the first `n` of block `u` that lead to block `i` or beyond. */
  ghost function Out(g: Graph, alive: Alive, u: nat, i: nat, n: nat): nat
    requires Fits(g, alive) && u < |alive| && n <= |alive[u]|
  {
    if n == 0 then 0
    else Out(g, alive, u, i, n - 1) + if Live(g, alive, u, n - 1) && i <= g.succs[u][n - 1] then 1 else 0
  }

  /** Live edges from blocks below `m` to block `i` or beyond. */
  ghost function Cross(g: Graph, alive: Alive, m: nat, i: nat): nat
    requires Fits(g, alive) && m <= |alive|
  {
    if m == 0 then 0 else Cross(g, alive, m - 1, i) + Out(g, alive, m - 1, i, |alive[m - 1]|)
  }

  /** Copies of the edge from `u` to `i` among the first `n` edges of `u`. */
  ghost function Copies(g: Graph, u: nat, i: nat, n: nat): nat
    requires u < |g.succs| && n <= |g.succs[u]|
  {
    if n == 0 then 0 else Copies(g, u, i, n - 1) + if g.succs[u][n - 1] == i then 1 else 0
  }

  function Occurrences(ps: seq<nat>, u: nat): nat
  {
    if ps == [] then 0 else Occurrences(ps[..|ps| - 1], u) + if ps[|ps| - 1] == u then 1 else 0
  }

  /** `predIdxs` lists each predecessor once per copy of its edge, in any order. */
  ghost predicate PredsMatch(g: Graph, preds: seq<seq<nat>>)
  {
    && |preds| == |g.succs|
    && (forall i, j :: 0 <= i < |preds| && 0 <= j < |preds[i]| ==> preds[i][j] < |g.succs|)
    && (forall i, u :: 0 <= i < |preds| && 0 <= u < |g.succs| ==>
          Occurrences(preds[i], u) == Copies(g, u, i, |g.succs[u]|))
  }

  /** Edges to `i` account for the difference between edges to `i` and beyond and edges beyond. */
  lemma {:induction false} OutDifference(g: Graph, alive: Alive, u: nat, i: nat, n: nat)
    requires Fits(g, alive) && CopiesAgree(g, alive) && u < |alive| && n <= |alive[u]|
    ensures Out(g, alive, u, i, n) == Out(g, alive, u, i + 1, n) + if LiveEdge(g, alive, u, i) then Copies(g, u, i, n) else 0
  {
    if n > 0 {
      OutDifference(g, alive, u, i, n - 1);
      if g.succs[u][n - 1] == i && LiveEdge(g, alive, u, i) {
        var k :| 0 <= k < |alive[u]| && g.succs[u][k] == i && Live(g, alive, u, k);
        assert alive[u][k] == alive[u][n - 1];
      }
    }
  }

  /** How often a live predecessor of `i` occurs in `ps`, counting predecessors below `m`. */
  ghost function LiveBelow(g: Graph, alive: Alive, i: nat, ps: seq<nat>, m: nat): nat
    requires Fits(g, alive) && m <= |alive|
  {
    if m == 0 then 0
    else LiveBelow(g, alive, i, ps, m - 1) + if LiveEdge(g, alive, m - 1, i) then Occurrences(ps, m - 1) else 0
  }

  /** The entries of `ps` that are live predecessors of `i`. */
  ghost function LivePreds(g: Graph, alive: Alive, i: nat, ps: seq<nat>): nat
    requires Fits(g, alive)
  {
    if ps == [] then 0
    else LivePreds(g, alive, i, ps[..|ps| - 1]) + if LiveEdge(g, alive, ps[|ps| - 1], i) then 1 else 0
  }

  lemma {:induction false} LiveBelowAppend(g: Graph, alive: Alive, i: nat, ps: seq<nat>, p: nat, m: nat)
    requires Fits(g, alive) && m <= |alive|
    ensures LiveBelow(g, alive, i, ps + [p], m) ==
            LiveBelow(g, alive, i, ps, m) + if p < m && LiveEdge(g, alive, p, i) then 1 else 0
  {
    if m > 0 {
      LiveBelowAppend(g, alive, i, ps, p, m - 1);
      assert (ps + [p])[..|ps|] == ps;
    }
  }

  lemma {:induction false} LiveBelowEmpty(g: Graph, alive: Alive, i: nat, m: nat)
    requires Fits(g, alive) && m <= |alive|
    ensures LiveBelow(g, alive, i, [], m) == 0
  {
    if m > 0 {
      LiveBelowEmpty(g, alive, i, m - 1);
    }
  }

  lemma {:induction false} LivePredsBelow(g: Graph, alive: Alive, i: nat, ps: seq<nat>)
    requires Fits(g, alive)
    ensures LivePreds(g, alive, i, ps) == LiveBelow(g, alive, i, ps, |alive|)
  {
    if ps == [] {
      LiveBelowEmpty(g, alive, i, |alive|);
    } else {
      var front, p := ps[..|ps| - 1], ps[|ps| - 1];
      LivePredsBelow(g, alive, i, front);
      LiveBelowAppend(g, alive, i, front, p, |alive|);
      assert front + [p] == ps;
    }
  }

  lemma {:induction false} CrossDifference(g: Graph, alive: Alive, m: nat, i: nat, ps: seq<nat>)
    requires Fits(g, alive) && CopiesAgree(g, alive) && m <= |alive|
    requires forall u :: 0 <= u < |g.succs| ==> Occurrences(ps, u) == Copies(g, u, i, |g.succs[u]|)
    ensures Cross(g, alive, m, i) == Cross(g, alive, m, i + 1) + LiveBelow(g, alive, i, ps, m)
  {
    if m > 0 {
      CrossDifference(g, alive, m - 1, i, ps);
      OutDifference(g, alive, m - 1, i, |alive[m - 1]|);
    }
  }

  /** No block at or above `i` has an edge to `i`. */
  lemma {:induction false} LiveBelowTop(g: Graph, alive: Alive, i: nat, ps: seq<nat>, m: nat)
    requires g.Valid() && Fits(g, alive) && i <= m <= |alive|
    ensures LiveBelow(g, alive, i, ps, m) == LiveBelow(g, alive, i, ps, i)
  {
    if i < m {
      LiveBelowTop(g, alive, i, ps, m - 1);
      assert !LiveEdge(g, alive, m - 1, i);
    }
  }

  /** Edges that arrive at `i`: the live entries of its predecessor list, and nothing else. */
  lemma Arrivals(g: Graph, alive: Alive, i: nat, ps: seq<nat>)
    requires g.Valid() && Fits(g, alive) && CopiesAgree(g, alive) && i <= |alive|
    requires forall u :: 0 <= u < |g.succs| ==> Occurrences(ps, u) == Copies(g, u, i, |g.succs[u]|)
    ensures Cross(g, alive, i, i) == Cross(g, alive, i, i + 1) + LivePreds(g, alive, i, ps)
  {
    CrossDifference(g, alive, i, i, ps);
    LiveBelowTop(g, alive, i, ps, |alive|);
    LivePredsBelow(g, alive, i, ps);
  }

  // ----- paths

  /** A walk from the entry along live specialised edges. */
  ghost predicate LivePath(g: Graph, alive: Alive, path: seq<nat>)
    requires Fits(g, alive)
  {
    && path != [] && path[0] == 0
    && forall j :: 0 < j < |path| ==> LiveEdge(g, alive, path[j - 1], path[j])
  }

  /** Every live path that gets past block `i` goes through it. */
  ghost predicate MustPass(g: Graph, alive: Alive, i: nat)
    requires Fits(g, alive)
  {
    forall path :: LivePath(g, alive, path) && i < path[|path| - 1] ==> i in path
  }

  ghost predicate Reachable(g: Graph, alive: Alive, u: nat)
    requires Fits(g, alive)
  {
    exists path :: LivePath(g, alive, path) && path[|path| - 1] == u
  }

  lemma {:induction false} OutPositive(g: Graph, alive: Alive, u: nat, i: nat, n: nat)
    requires Fits(g, alive) && u < |alive| && n <= |alive[u]|
    ensures Out(g, alive, u, i, n) > 0 <==> exists k :: 0 <= k < n && Live(g, alive, u, k) && i <= g.succs[u][k]
  {
    if n > 0 {
      OutPositive(g, alive, u, i, n - 1);
    }
  }

  lemma {:induction false} CrossPositive(g: Graph, alive: Alive, m: nat, i: nat)
    requires Fits(g, alive) && m <= |alive|
    ensures Cross(g, alive, m, i) > 0 <==> exists u, v :: 0 <= u < m && i <= v && LiveEdge(g, alive, u, v)
  {
    if m > 0 {
      CrossPositive(g, alive, m - 1, i);
      OutPositive(g, alive, m - 1, i, |alive[m - 1]|);
      if u, v :| 0 <= u < m && i <= v && LiveEdge(g, alive, u, v) {
        var k :| 0 <= k < |alive[u]| && g.succs[u][k] == v && Live(g, alive, u, k);
      }
      var u := m - 1;
      if k :| 0 <= k < |alive[u]| && Live(g, alive, u, k) && i <= g.succs[u][k] {
        assert LiveEdge(g, alive, u, g.succs[u][k]);
      }
    }
  }

  /** A path that ends past `i` without visiting it takes an edge from below `i` to above it. */
  lemma {:induction false} Jump(g: Graph, alive: Alive, path: seq<nat>, i: nat) returns (u: nat, v: nat)
    requires Fits(g, alive) && LivePath(g, alive, path) && i < path[|path| - 1] && i !in path
    ensures u < i < v && LiveEdge(g, alive, u, v)
  {
    var j := |path| - 1;
    while path[j - 1] > i
      invariant 0 < j < |path| && i < path[j]
      decreases j
    {
      j := j - 1;
    }
    u, v := path[j - 1], path[j];
  }

  /** The cut theorem: with no live edge from below `i` to above it, every live path past `i` goes
      through `i`; and if such an edge leaves a reachable block, some path avoids `i`. */
  lemma CutExactly(g: Graph, alive: Alive, i: nat)
    requires g.Valid() && Fits(g, alive) && i < |alive|
    requires forall u: nat, v: nat :: u < i && LiveEdge(g, alive, u, v) ==> Reachable(g, alive, u)
    ensures Cross(g, alive, i, i + 1) == 0 <==> MustPass(g, alive, i)
  {
    CrossPositive(g, alive, i, i + 1);
    if Cross(g, alive, i, i + 1) == 0 {
      forall path | LivePath(g, alive, path) && i < path[|path| - 1] ensures i in path {
        if i !in path {
          var u, v := Jump(g, alive, path, i);
          assert false;
        }
      }
    } else {
      var u, v :| 0 <= u < i && i + 1 <= v && LiveEdge(g, alive, u, v);
      var path :| LivePath(g, alive, path) && path[|path| - 1] == u;
      var longer := path + [v];
      forall j | 0 < j < |longer| ensures LiveEdge(g, alive, longer[j - 1], longer[j]) {
        assert longer[j - 1] == path[j - 1];
      }
      PathBelow(g, alive, path);
      assert LivePath(g, alive, longer) && i !in longer;
    }
  }

  /** Block numbers only rise along a path. */
  lemma {:induction false} PathBelow(g: Graph, alive: Alive, path: seq<nat>)
    requires g.Valid() && Fits(g, alive) && LivePath(g, alive, path)
    ensures forall j :: 0 <= j < |path| ==> path[j] <= path[|path| - 1]
    decreases |path|
  {
    if |path| > 1 {
      var front := path[..|path| - 1];
      assert LivePath(g, alive, front);
      PathBelow(g, alive, front);
      assert LiveEdge(g, alive, path[|path| - 2], path[|path| - 1]);
    }
  }
}
