/** Which objects other threads and old objects may reach: the flag sets kept beside the symbolic
    store and the walks that maintain them (llpe/main/LoadForward.cpp:1124-1177, 2789-2979,
    3242-3370, 3431-3578). */
module ThreadLocality {
  import opened Extents

  type Obj = nat

  /** What an extent of an object may hold, as far as pointers go. `UnknownOld` is unknown but known
      not to point to objects created since specialisation began. */
  datatype Value =
    | Ptrs(targets: seq<Obj>)
    | Scalars(consts: set<nat>)
    | UnknownScalar
    | UnknownAny
    | UnknownOld
  {
    predicate WhollyUnknown() { UnknownScalar? || UnknownAny? || UnknownOld? }
    predicate IsOld() { UnknownOld? }
  }

  type Contents = map<Obj, seq<Extent<Value>>>

  /** Object `x` holds a known pointer to object `y`. */
  ghost predicate Points(contents: Contents, x: Obj, y: Obj)
  {
    x in contents && exists e :: e in contents[x] && e.val.Ptrs? && y in e.val.targets
  }

  /** No object outside `s` holds a known pointer to one inside. */
  ghost predicate Sealed(contents: Contents, s: set<Obj>)
  {
    forall x, y :: Points(contents, x, y) && y in s ==> x in s
  }

  /** No object at all holds a known pointer into `s`. */
  ghost predicate Unpointed(contents: Contents, s: set<Obj>)
  {
    forall x, y :: Points(contents, x, y) ==> y !in s
  }

  ghost predicate Path(contents: Contents, path: seq<Obj>, x: Obj, y: Obj)
  {
    && path != [] && path[0] == x && path[|path| - 1] == y
    && forall j :: 0 < j < |path| ==> Points(contents, path[j - 1], path[j])
  }

  ghost predicate Reaches(contents: Contents, x: Obj, y: Obj)
  {
    exists path :: Path(contents, path, x, y)
  }

  lemma ReachesSelf(contents: Contents, x: Obj)
    ensures Reaches(contents, x, x)
  {
    assert Path(contents, [x], x, x);
  }

  lemma ReachesThrough(contents: Contents, x: Obj, y: Obj, z: Obj)
    requires Points(contents, x, y) && Reaches(contents, y, z)
    ensures Reaches(contents, x, z)
  {
    var path :| Path(contents, path, y, z);
    var longer := [x] + path;
    forall j | 0 < j < |longer| ensures Points(contents, longer[j - 1], longer[j]) {
      assert longer[j] == path[j - 1];
      if j > 1 {
        assert longer[j - 1] == path[j - 1 - 1];
      }
    }
    assert Path(contents, longer, x, z);
  }

  /** The walk of `SetTGVisitor` and `SetMAOVisitor`: erase from `s` everything the pointers lead to,
      without looking into objects already outside `s`. Afterwards nothing that was erased points
      back into what is left, and only what the pointers reach was erased. */
  method EraseReachable(contents: Contents, targets: seq<Obj>, s: set<Obj>) returns (r: set<Obj>)
    ensures r <= s && forall t :: t in targets ==> t !in r
    ensures forall x, y :: x in s && x !in r && Points(contents, x, y) ==> y !in r
    ensures forall x :: x in s && x !in r ==> exists t :: t in targets && Reaches(contents, t, x)
    decreases s, 0
  {
    r := s;
    var i := 0;
    while i < |targets|
      invariant 0 <= i <= |targets| && r <= s
      invariant forall j :: 0 <= j < i ==> targets[j] !in r
      invariant forall x, y :: x in s && x !in r && Points(contents, x, y) ==> y !in r
      invariant forall x :: x in s && x !in r ==> exists t :: t in targets && Reaches(contents, t, x)
    {
      var o := targets[i];
      if o in r {
        ghost var before := r;
        r := r - {o};
        r := EraseObject(contents, o, r);
        forall x | x in before && x !in r ensures Reaches(contents, o, x) {
          if x == o {
            ReachesSelf(contents, o);
          } else {
            var y :| Points(contents, o, y) && Reaches(contents, y, x);
            ReachesThrough(contents, o, y, x);
          }
        }
        assert o in targets;
      }
      i := i + 1;
    }
  }

  /** Erase what one object's extents lead to. */
  method EraseObject(contents: Contents, o: Obj, s: set<Obj>) returns (r: set<Obj>)
    ensures r <= s && forall y :: Points(contents, o, y) ==> y !in r
    ensures forall x, y :: x in s && x !in r && Points(contents, x, y) ==> y !in r
    ensures forall x :: x in s && x !in r ==> exists y :: Points(contents, o, y) && Reaches(contents, y, x)
    decreases s, 1
  {
    r := s;
    if o !in contents {
      return;
    }
    var es, i := contents[o], 0;
    while i < |es|
      invariant 0 <= i <= |es| && r <= s
      invariant forall j, y :: 0 <= j < i && es[j].val.Ptrs? && y in es[j].val.targets ==> y !in r
      invariant forall x, y :: x in s && x !in r && Points(contents, x, y) ==> y !in r
      invariant forall x :: x in s && x !in r ==> exists y :: Points(contents, o, y) && Reaches(contents, y, x)
    {
      if es[i].val.Ptrs? {
        ghost var before := r;
        r := EraseReachable(contents, es[i].val.targets, r);
        forall x | x in before && x !in r ensures exists y :: Points(contents, o, y) && Reaches(contents, y, x) {
          var y :| y in es[i].val.targets && Reaches(contents, y, x);
          assert es[i] in contents[o] && Points(contents, o, y);
        }
      }
      i := i + 1;
    }
  }

  // ----- does a value lead to an unknown one?

  predicate Bad(v: Value, ignoreOld: bool)
  {
    v.WhollyUnknown() && !(ignoreOld && v.IsOld())
  }

  ghost predicate HoldsBad(contents: Contents, x: Obj, ignoreOld: bool)
  {
    x in contents && exists e :: e in contents[x] && Bad(e.val, ignoreOld)
  }

  ghost predicate BadFrom(contents: Contents, v: Value, ignoreOld: bool)
  {
    Bad(v, ignoreOld)
    || (v.Ptrs? && exists t, x :: t in v.targets && Reaches(contents, t, x) && HoldsBad(contents, x, ignoreOld))
  }

  /** What is known of a walk that has found nothing: every object seen since `seen` holds known
      values only, and points only to objects seen. */
  ghost predicate Clean(contents: Contents, seen: set<Obj>, seen': set<Obj>, ignoreOld: bool)
  {
    forall x :: x in seen' && x !in seen ==>
      !HoldsBad(contents, x, ignoreOld) && forall y :: Points(contents, x, y) ==> y in seen'
  }

  /** The walk of `ReachesAllPointersVisitor`. */
  method FindUnknown(contents: Contents, v: Value, ignoreOld: bool, seen: set<Obj>) returns (found: bool, seen': set<Obj>)
    ensures seen <= seen'
    ensures found ==> BadFrom(contents, v, ignoreOld)
    ensures !found ==> !Bad(v, ignoreOld) && Clean(contents, seen, seen', ignoreOld)
    ensures !found && v.Ptrs? ==> forall t :: t in v.targets ==> t in seen'
    decreases contents.Keys - seen, 1
  {
    found, seen' := Bad(v, ignoreOld), seen;
    if found || !v.Ptrs? {
      return;
    }
    var i := 0;
    while i < |v.targets|
      invariant 0 <= i <= |v.targets| && seen <= seen' && !found
      invariant Clean(contents, seen, seen', ignoreOld)
      invariant forall j :: 0 <= j < i ==> v.targets[j] in seen'
    {
      var o := v.targets[i];
      if o !in seen' {
        ghost var before := seen';
        found, seen' := VisitObject(contents, o, ignoreOld, seen');
        if found {
          assert o in v.targets;
          return;
        }
      }
      i := i + 1;
    }
  }

  method VisitObject(contents: Contents, o: Obj, ignoreOld: bool, seen: set<Obj>) returns (found: bool, seen': set<Obj>)
    requires o !in seen
    ensures seen + {o} <= seen'
    ensures found ==> exists x :: Reaches(contents, o, x) && HoldsBad(contents, x, ignoreOld)
    ensures !found ==> Clean(contents, seen, seen', ignoreOld)
    decreases contents.Keys - seen, 0
  {
    found, seen' := false, seen + {o};
    if o !in contents {
      return;
    }
    assert o in contents.Keys - seen;
    var es, i := contents[o], 0;
    while i < |es|
      invariant 0 <= i <= |es| && seen + {o} <= seen' && !found
      invariant Clean(contents, seen + {o}, seen', ignoreOld)
      invariant forall j :: 0 <= j < i ==> !Bad(es[j].val, ignoreOld)
      invariant forall j, y :: 0 <= j < i && es[j].val.Ptrs? && y in es[j].val.targets ==> y in seen'
    {
      found, seen' := FindUnknown(contents, es[i].val, ignoreOld, seen');
      if found {
        FoundIn(contents, o, i, ignoreOld);
        return;
      }
      i := i + 1;
    }
  }

  lemma FoundIn(contents: Contents, o: Obj, i: nat, ignoreOld: bool)
    requires o in contents && i < |contents[o]| && BadFrom(contents, contents[o][i].val, ignoreOld)
    ensures exists x :: Reaches(contents, o, x) && HoldsBad(contents, x, ignoreOld)
  {
    var e := contents[o][i];
    assert e in contents[o];
    if Bad(e.val, ignoreOld) {
      ReachesSelf(contents, o);
      assert HoldsBad(contents, o, ignoreOld);
    } else {
      var t, x :| t in e.val.targets && Reaches(contents, t, x) && HoldsBad(contents, x, ignoreOld);
      assert Points(contents, o, t);
      ReachesThrough(contents, o, t, x);
    }
  }

  lemma {:induction false} CleanReaches(contents: Contents, seen: set<Obj>, ignoreOld: bool, path: seq<Obj>, n: nat)
    requires Clean(contents, {}, seen, ignoreOld) && n < |path| && path[0] in seen
    requires forall j :: 0 < j < |path| ==> Points(contents, path[j - 1], path[j])
    ensures path[n] in seen
  {
    if n > 0 {
      CleanReaches(contents, seen, ignoreOld, path, n - 1);
      assert Points(contents, path[n - 1], path[n]);
    }
  }

  /** `reachesAllPointers`: whether following known pointers from `v` meets an unknown value. */
  method ReachesAllPointers(contents: Contents, v: Value, ignoreOld: bool) returns (r: bool)
    ensures r <==> BadFrom(contents, v, ignoreOld)
  {
    var seen;
    r, seen := FindUnknown(contents, v, ignoreOld, {});
    if !r && v.Ptrs? {
      forall t, x | t in v.targets && Reaches(contents, t, x) ensures !HoldsBad(contents, x, ignoreOld) {
        var path :| Path(contents, path, t, x);
        CleanReaches(contents, seen, ignoreOld, path, |path| - 1);
      }
    }
  }
}
