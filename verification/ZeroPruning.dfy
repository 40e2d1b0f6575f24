// packaging/flavorgen/flavors/util/helpers.go, deleteZeroValues: pruning nested
// maps in place, over the values that JSON decoding makes.
module ZeroPruning {
  import opened Wrappers

  datatype Value =
    | Null
    | Bool(b: bool)
    | Int(i: int)
    | Float(f: real)
    | Str(s: string)
    | List(items: seq<Value>)
    | Obj(m: map<string, Value>)

  // isZeroValue, and nil
  predicate IsZero(v: Value) {
    v in {Null, Bool(false), Int(0), Float(0.0), Str(""), List([]), Obj(map[])}
  }

  // The zero value of a value's own kind.
  function ZeroOf(v: Value): Value {
    match v
    case Null => Null
    case Bool(_) => Bool(false)
    case Int(_) => Int(0)
    case Float(_) => Float(0.0)
    case Str(_) => Str("")
    case List(_) => List([])
    case Obj(_) => Obj(map[])
  }

  lemma ZeroExactly(v: Value)
    ensures IsZero(v) <==> v == ZeroOf(v)
  {
  }

  // ---------------------------------------------------------- what it computes

  function Pruned(v: Value): Option<Value> {
    if IsZero(v) then None
    else match v
      case Obj(m) =>
        var p := map k | k in m && Pruned(m[k]).Some? :: Pruned(m[k]).value;
        if p == map[] then None else Some(Obj(p))
      case _ => Some(v)
  }

  function PrunedMap(m: map<string, Value>): map<string, Value> {
    map k | k in m && Pruned(m[k]).Some? :: Pruned(m[k]).value
  }

  lemma PrunedEntryByEntry(before: map<string, Value>, after: map<string, Value>)
    requires after.Keys <= before.Keys
    requires forall k :: k in before ==> Pruned(before[k]) == if k in after then Some(after[k]) else None
    ensures after == PrunedMap(before)
  {
  }

  // The value that a path of keys leads to.
  function At(m: map<string, Value>, path: seq<string>): Option<Value>
    requires path != []
    decreases |path|
  {
    if path[0] !in m then None
    else if |path| == 1 then Some(m[path[0]])
    else match m[path[0]]
      case Obj(sub) => At(sub, path[1..])
      case _ => None
  }

  // Below the root there is no zero value and no empty map.
  ghost predicate Clean(m: map<string, Value>) {
    forall path :: path != [] && At(m, path).Some? ==> !IsZero(At(m, path).value)
  }

  // Exactly the paths to non-zero leaves are kept, with their values.
  lemma {:induction false} KeepsExactlyNonZeroLeaves(m: map<string, Value>, path: seq<string>, v: Value)
    requires path != [] && !v.Obj?
    ensures At(PrunedMap(m), path) == Some(v) <==> At(m, path) == Some(v) && !IsZero(v)
    decreases |path|
  {
    var k := path[0];
    if k in m && |path| > 1 && m[k].Obj? {
      var sub := m[k].m;
      KeepsExactlyNonZeroLeaves(sub, path[1..], v);
      if Pruned(m[k]).Some? {
        assert Pruned(m[k]).value.m == PrunedMap(sub);
      } else {
        assert PrunedMap(sub) == map[];
      }
    }
  }

  lemma {:induction false} LeavesNothingZero(m: map<string, Value>, path: seq<string>)
    requires path != [] && At(PrunedMap(m), path).Some?
    ensures !IsZero(At(PrunedMap(m), path).value)
    decreases |path|
  {
    var k := path[0];
    if |path| > 1 && m[k].Obj? {
      assert Pruned(m[k]).value.m == PrunedMap(m[k].m);
      LeavesNothingZero(m[k].m, path[1..]);
    }
  }

  lemma PrunedIsClean(m: map<string, Value>)
    ensures Clean(PrunedMap(m))
  {
    forall path | path != [] && At(PrunedMap(m), path).Some? ensures !IsZero(At(PrunedMap(m), path).value) {
      LeavesNothingZero(m, path);
    }
  }

  lemma CleanBelow(m: map<string, Value>, k: string)
    requires Clean(m) && k in m
    ensures !IsZero(m[k])
    ensures m[k].Obj? ==> Clean(m[k].m)
  {
    assert At(m, [k]) == Some(m[k]);
    if m[k].Obj? {
      forall path | path != [] && At(m[k].m, path).Some? ensures !IsZero(At(m[k].m, path).value) {
        assert ([k] + path)[1..] == path;
        assert At(m, [k] + path) == At(m[k].m, path);
      }
    }
  }

  // A clean map is left as it is; so pruning twice is pruning once.
  lemma {:induction false} CleanIsKept(m: map<string, Value>)
    requires Clean(m)
    ensures PrunedMap(m) == m
    decreases Obj(m)
  {
    forall k | k in m ensures Pruned(m[k]) == Some(m[k]) {
      CleanBelow(m, k);
      if m[k].Obj? {
        CleanIsKept(m[k].m);
        assert PrunedMap(m[k].m) == m[k].m;
      }
    }
  }

  lemma PruningIsIdempotent(m: map<string, Value>)
    ensures PrunedMap(PrunedMap(m)) == PrunedMap(m)
  {
    PrunedIsClean(m);
    CleanIsKept(PrunedMap(m));
  }

  // A clean map that is not empty has a leaf.
  lemma {:induction false} HasLeaf(m: map<string, Value>, k: string) returns (path: seq<string>)
    requires Clean(m) && k in m
    ensures path != [] && path[0] == k && At(m, path).Some? && !At(m, path).value.Obj?
    decreases m[k]
  {
    CleanBelow(m, k);
    if m[k].Obj? {
      var sub := m[k].m;
      assert sub != map[];
      var l :| l in sub;
      var rest := HasLeaf(sub, l);
      path := [k] + rest;
      assert path[1..] == rest;
    } else {
      path := [k];
    }
  }

  ghost predicate SameLeaves(a: map<string, Value>, b: map<string, Value>) {
    forall path, v: Value :: path != [] && !v.Obj? ==> (At(a, path) == Some(v) <==> At(b, path) == Some(v))
  }

  lemma KeyIsShared(a: map<string, Value>, b: map<string, Value>, k: string)
    requires Clean(a) && SameLeaves(a, b) && k in a
    ensures k in b
    ensures !a[k].Obj? ==> b[k] == a[k]
  {
    var path := HasLeaf(a, k);
    assert At(b, path) == Some(At(a, path).value);
    if !a[k].Obj? {
      assert At(a, [k]) == Some(a[k]);
      assert At(b, [k]) == Some(a[k]);
    }
  }

  lemma LeavesBelow(a: map<string, Value>, b: map<string, Value>, k: string)
    requires SameLeaves(a, b) && k in a && k in b && a[k].Obj? && b[k].Obj?
    ensures SameLeaves(a[k].m, b[k].m)
  {
    forall path, v: Value | path != [] && !v.Obj?
      ensures At(a[k].m, path) == Some(v) <==> At(b[k].m, path) == Some(v)
    {
      assert ([k] + path)[1..] == path;
      assert At(a, [k] + path) == At(a[k].m, path) && At(b, [k] + path) == At(b[k].m, path);
    }
  }

  // Two clean maps with the same leaves are the same map: being clean and keeping
  // exactly the non-zero leaves determine the result.
  lemma {:induction false} CleanIsDeterminedByLeaves(a: map<string, Value>, b: map<string, Value>)
    requires Clean(a) && Clean(b) && SameLeaves(a, b)
    ensures a == b
    decreases Obj(a)
  {
    forall k | k in a || k in b ensures k in a && k in b && a[k] == b[k] {
      if k in a { KeyIsShared(a, b, k); } else { KeyIsShared(b, a, k); }
      if a[k].Obj? && b[k].Obj? {
        CleanBelow(a, k);
        CleanBelow(b, k);
        LeavesBelow(a, b, k);
        CleanIsDeterminedByLeaves(a[k].m, b[k].m);
      } else if a[k].Obj? {
        KeyIsShared(b, a, k);
      }
    }
  }
}
