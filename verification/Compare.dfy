// pkg/clustermodule/util.go, Compare: stable sort of both slices in place by
// target name, then pointwise equality.
module Compare {
  import opened ClusterModules

  // Go's string order: by characters, a proper prefix first.
  predicate Less(a: string, b: string) {
    b != [] && (a == [] || a[0] < b[0] || (a[0] == b[0] && Less(a[1..], b[1..])))
  }

  // The strings agree up to some point, where the first ends or has the smaller
  // character.
  predicate FirstDifference(a: string, b: string, k: int) {
    && 0 <= k <= |a| && k < |b| && a[..k] == b[..k]
    && (k == |a| || a[k] < b[k])
  }

  lemma {:induction false} LessExactly(a: string, b: string)
    ensures Less(a, b) <==> exists k :: FirstDifference(a, b, k)
    decreases |a|
  {
    if a == [] {
      assert b != [] ==> FirstDifference(a, b, 0);
    } else if b != [] {
      LessExactly(a[1..], b[1..]);
      if k :| a[0] == b[0] && FirstDifference(a[1..], b[1..], k) {
        assert a[..k + 1] == [a[0]] + a[1..][..k] && b[..k + 1] == [b[0]] + b[1..][..k];
        assert FirstDifference(a, b, k + 1);
      }
      if a[0] < b[0] { assert FirstDifference(a, b, 0); }
      if k :| FirstDifference(a, b, k) && k > 0 {
        assert a[0] == a[..k][0] && b[0] == b[..k][0];
        assert a[1..][..k - 1] == a[..k][1..] && b[1..][..k - 1] == b[..k][1..];
        assert FirstDifference(a[1..], b[1..], k - 1);
      }
    }
  }

  lemma {:induction false} LessIsTotal(a: string, b: string)
    ensures (Less(a, b) && !Less(b, a) && a != b)
            || (!Less(a, b) && Less(b, a) && a != b)
            || (!Less(a, b) && !Less(b, a) && a == b)
    decreases |a|
  {
    if a != [] && b != [] {
      LessIsTotal(a[1..], b[1..]);
      if a[0] == b[0] && a[1..] == b[1..] {
        assert a == [a[0]] + a[1..] && b == [b[0]] + b[1..];
      }
    }
  }

  lemma {:induction false} LessIsTransitive(a: string, b: string, c: string)
    ensures Less(a, b) && Less(b, c) ==> Less(a, c)
    decreases |a|
  {
    if a != [] && b != [] && c != [] { LessIsTransitive(a[1..], b[1..], c[1..]); }
  }

  ghost predicate Sorted(s: seq<Module>) {
    forall i, j :: 0 <= i < j < |s| ==> !Less(s[j].target, s[i].target)
  }

  // The entries for one target name, in order.
  function Restrict(s: seq<Module>, name: string): seq<Module> {
    if s == [] then []
    else Restrict(s[..|s| - 1], name) + if s[|s| - 1].target == name then [s[|s| - 1]] else []
  }

  // A stable rearrangement keeps the order of entries with the same name.
  ghost predicate StableRearrangement(s: seq<Module>, t: seq<Module>) {
    multiset(s) == multiset(t) && SameRestrictions(s, t)
  }

  lemma {:induction false} RestrictAppend(s: seq<Module>, t: seq<Module>, name: string)
    ensures Restrict(s + t, name) == Restrict(s, name) + Restrict(t, name)
  {
    if t == [] {
      assert s + t == s;
    } else {
      assert (s + t)[..|s + t| - 1] == s + t[..|t| - 1];
      RestrictAppend(s, t[..|t| - 1], name);
    }
  }

  function Only(m: Module, name: string): seq<Module> {
    if m.target == name then [m] else []
  }

  lemma RestrictPair(x: Module, y: Module, name: string)
    ensures Restrict([x, y], name) == Only(x, name) + Only(y, name)
  {
    assert [x, y][..1] == [x] && [x][..0] == [];
    assert Restrict([x], name) == Only(x, name);
  }

  lemma RestrictAround(a: seq<Module>, p: seq<Module>, b: seq<Module>, name: string)
    ensures Restrict(a + p + b, name) == Restrict(a, name) + Restrict(p, name) + Restrict(b, name)
  {
    RestrictAppend(a + p, b, name);
    RestrictAppend(a, p, name);
  }

  lemma SwapRestrict(a: seq<Module>, x: Module, y: Module, b: seq<Module>, name: string)
    requires x.target != y.target
    ensures Restrict(a + [x, y] + b, name) == Restrict(a + [y, x] + b, name)
  {
    RestrictAround(a, [x, y], b, name);
    RestrictAround(a, [y, x], b, name);
    RestrictPair(x, y, name);
    RestrictPair(y, x, name);
  }

  // Exchanging two neighbours with different names is a stable rearrangement.
  lemma SwapIsStable(s: seq<Module>, j: nat)
    requires 1 <= j < |s| && s[j].target != s[j - 1].target
    ensures StableRearrangement(s, s[j := s[j - 1]][j - 1 := s[j]])
  {
    var t := s[j := s[j - 1]][j - 1 := s[j]];
    var a, x, y, b := s[..j - 1], s[j - 1], s[j], s[j + 1..];
    assert s == a + [x, y] + b;
    assert t == a + [y, x] + b;
    assert multiset(s) == multiset(a) + multiset{x, y} + multiset(b);
    forall name ensures Restrict(s, name) == Restrict(t, name) {
      SwapRestrict(a, x, y, b, name);
    }
  }

  // sort.SliceStable by target name: insertion by exchanging neighbours.
  method SliceStable(a: array<Module>)
    modifies a
    ensures Sorted(a[..]) && StableRearrangement(old(a[..]), a[..])
  {
    var n := a.Length;
    var i := 0;
    while i < n
      invariant 0 <= i <= n
      invariant Sorted(a[..i]) && StableRearrangement(old(a[..]), a[..])
    {
      Insert(a, i);
      i := i + 1;
    }
    assert a[..n] == a[..];
  }

  // Entry i sinks to its place among the sorted ones before it.
  method Insert(a: array<Module>, i: nat)
    requires i < a.Length && Sorted(a[..i])
    modifies a
    ensures Sorted(a[..i + 1]) && StableRearrangement(old(a[..]), a[..])
  {
    var j := i;
    while j > 0 && Less(a[j].target, a[j - 1].target)
      invariant 0 <= j <= i
      invariant StableRearrangement(old(a[..]), a[..])
      invariant SortedExcept(a[..], i, j)
    {
      SwapIsStable(a[..], j) by { LessIsTotal(a[j].target, a[j - 1].target); }
      ghost var before := a[..];
      a[j], a[j - 1] := a[j - 1], a[j];
      assert a[..] == before[j := before[j - 1]][j - 1 := before[j]];
      SwapSinks(before, i, j);
      j := j - 1;
    }
    InsertedIsSorted(a[..], i, j);
  }

  // Positions 0..i are in order but for the entry being inserted, at j, which is
  // before everything it has passed.
  ghost predicate SortedExcept(s: seq<Module>, i: nat, j: nat)
    requires j <= i < |s|
  {
    && (forall p, q :: 0 <= p < q <= i && p != j && q != j ==> !Less(s[q].target, s[p].target))
    && (forall q :: j < q <= i ==> Less(s[j].target, s[q].target))
  }

  lemma SwapSinks(s: seq<Module>, i: nat, j: nat)
    requires 1 <= j <= i < |s| && SortedExcept(s, i, j) && Less(s[j].target, s[j - 1].target)
    ensures SortedExcept(s[j := s[j - 1]][j - 1 := s[j]], i, j - 1)
  {
  }

  lemma InsertedIsSorted(s: seq<Module>, i: nat, j: nat)
    requires j <= i < |s| && SortedExcept(s, i, j)
    requires j > 0 ==> !Less(s[j].target, s[j - 1].target)
    ensures Sorted(s[..i + 1])
  {
    forall p, q | 0 <= p < q <= i ensures !Less(s[q].target, s[p].target) {
      if p == j {
        LessIsTotal(s[p].target, s[q].target);
      } else if q == j && p < j - 1 {
        NotLessIsTransitive(s[p].target, s[j - 1].target, s[j].target);
      }
    }
  }

  lemma NotLessIsTransitive(a: string, b: string, c: string)
    requires !Less(b, a) && !Less(c, b)
    ensures !Less(c, a)
  {
  }

  // --------------------------------------------------------------- uniqueness

  lemma {:induction false} RestrictElements(s: seq<Module>, name: string, m: Module)
    ensures m in Restrict(s, name) <==> m in s && m.target == name
  {
    if s != [] {
      RestrictElements(s[..|s| - 1], name, m);
      assert s == s[..|s| - 1] + [s[|s| - 1]];
    }
  }

  // A sorted list is determined by its restrictions.
  lemma {:induction false} SortedIsDetermined(s: seq<Module>, t: seq<Module>)
    requires Sorted(s) && Sorted(t)
    requires forall name :: Restrict(s, name) == Restrict(t, name)
    ensures s == t
    decreases |s|
  {
    if s == [] || t == [] {
      if s != [] { RestrictElements(s, s[0].target, s[0]); RestrictElements(t, s[0].target, s[0]); }
      if t != [] { RestrictElements(s, t[0].target, t[0]); RestrictElements(t, t[0].target, t[0]); }
    } else {
      LastNamesAgree(s, t);
      WithoutLast(s, t);
      SortedIsDetermined(s[..|s| - 1], t[..|t| - 1]);
      assert s == s[..|s| - 1] + [s[|s| - 1]] && t == t[..|t| - 1] + [t[|t| - 1]];
    }
  }

  lemma WithoutLast(s: seq<Module>, t: seq<Module>)
    requires s != [] && t != [] && SameRestrictions(s, t) && s[|s| - 1].target == t[|t| - 1].target
    ensures s[|s| - 1] == t[|t| - 1] && SameRestrictions(s[..|s| - 1], t[..|t| - 1])
  {
    var x, y, s', t' := s[|s| - 1], t[|t| - 1], s[..|s| - 1], t[..|t| - 1];
    assert Restrict(s, x.target) == Restrict(s', x.target) + [x];
    assert Restrict(t, x.target) == Restrict(t', x.target) + [y];
    assert Restrict(s, x.target)[|Restrict(s', x.target)|] == x;
    assert Restrict(t, x.target)[|Restrict(t', x.target)|] == y;
    forall name ensures Restrict(s', name) == Restrict(t', name) {
      assert Restrict(s, name) == Restrict(t, name);
      if name == x.target {
        assert Restrict(s, name)[..|Restrict(s, name)| - 1] == Restrict(s', name);
        assert Restrict(t, name)[..|Restrict(t, name)| - 1] == Restrict(t', name);
      } else {
        assert Restrict(s', name) + [] == Restrict(s', name) && Restrict(t', name) + [] == Restrict(t', name);
      }
    }
  }

  lemma LastIsGreatest(s: seq<Module>, m: Module)
    requires Sorted(s) && m in s
    ensures !Less(s[|s| - 1].target, m.target)
  {
    var k :| 0 <= k < |s| && s[k] == m;
    LessIsTotal(m.target, m.target);
  }

  lemma LastNamesAgree(s: seq<Module>, t: seq<Module>)
    requires s != [] && t != [] && Sorted(s) && Sorted(t)
    requires forall name :: Restrict(s, name) == Restrict(t, name)
    ensures s[|s| - 1].target == t[|t| - 1].target
  {
    var x, y := s[|s| - 1], t[|t| - 1];
    assert x in t by {
      RestrictElements(s, x.target, x);
      RestrictElements(t, x.target, x);
    }
    assert y in s by {
      RestrictElements(s, y.target, y);
      RestrictElements(t, y.target, y);
    }
    LastIsGreatest(t, x);
    LastIsGreatest(s, y);
    LessIsTotal(x.target, y.target);
  }

  ghost predicate SameRestrictions(s: seq<Module>, t: seq<Module>) {
    forall name :: Restrict(s, name) == Restrict(t, name)
  }

  lemma {:induction false} RestrictCounts(s: seq<Module>, m: Module)
    ensures multiset(Restrict(s, m.target))[m] == multiset(s)[m]
  {
    if s != [] {
      RestrictCounts(s[..|s| - 1], m);
      assert s == s[..|s| - 1] + [s[|s| - 1]];
    }
  }

  // What Compare accepts are rearrangements of one list.
  lemma SameRestrictionsSameEntries(s: seq<Module>, t: seq<Module>)
    requires SameRestrictions(s, t)
    ensures multiset(s) == multiset(t) && |s| == |t|
  {
    forall m ensures multiset(s)[m] == multiset(t)[m] {
      RestrictCounts(s, m);
      RestrictCounts(t, m);
    }
    assert |multiset(s)| == |s| && |multiset(t)| == |t|;
  }

  // Entries that share a name are the same entry.
  predicate NamesTellEntries(s: seq<Module>) {
    forall i, j :: 0 <= i < j < |s| && s[i].target == s[j].target ==> s[i] == s[j]
  }

  lemma RestrictMultiset(s: seq<Module>, t: seq<Module>, name: string)
    requires multiset(s) == multiset(t)
    ensures multiset(Restrict(s, name)) == multiset(Restrict(t, name))
    ensures |Restrict(s, name)| == |Restrict(t, name)|
  {
    var r, q := Restrict(s, name), Restrict(t, name);
    forall m: Module ensures multiset(r)[m] == multiset(q)[m] {
      if m.target == name {
        RestrictCounts(s, m);
        RestrictCounts(t, m);
      } else {
        RestrictElements(s, name, m);
        RestrictElements(t, name, m);
      }
    }
    assert |multiset(r)| == |r| && |multiset(q)| == |q|;
  }

  lemma UniformRestriction(s: seq<Module>, t: seq<Module>, name: string)
    requires NamesTellEntries(s) && multiset(s) == multiset(t)
    ensures Restrict(s, name) == Restrict(t, name)
  {
    var r, q := Restrict(s, name), Restrict(t, name);
    RestrictMultiset(s, t, name);
    forall k | 0 <= k < |r| ensures r[k] == q[k] {
      assert r[k] in r && q[k] in multiset(q) && q[k] in r;
      RestrictElements(s, name, r[k]);
      RestrictElements(s, name, q[k]);
    }
  }

  predicate DistinctNames(s: seq<Module>) {
    forall i, j :: 0 <= i < j < |s| ==> s[i].target != s[j].target
  }

  // With distinct target names, Compare accepts exactly the rearrangements.
  lemma DistinctNamesCompareAsSets(s: seq<Module>, t: seq<Module>)
    requires DistinctNames(s)
    ensures SameRestrictions(s, t) <==> multiset(s) == multiset(t)
  {
    if SameRestrictions(s, t) {
      SameRestrictionsSameEntries(s, t);
    }
    if multiset(s) == multiset(t) {
      forall name ensures Restrict(s, name) == Restrict(t, name) {
        UniformRestriction(s, t, name);
      }
    }
  }

  // Exchanging two different entries of one name, wherever they stand, gives a
  // list that Compare tells apart.
  lemma SharedNamesTellOrder(a: seq<Module>, x: Module, b: seq<Module>, y: Module, c: seq<Module>)
    requires x.target == y.target && x != y
    ensures multiset(a + [x] + b + [y] + c) == multiset(a + [y] + b + [x] + c)
    ensures !SameRestrictions(a + [x] + b + [y] + c, a + [y] + b + [x] + c)
  {
    var name := x.target;
    RestrictFive(a, x, b, y, c);
    RestrictFive(a, y, b, x, c);
    var k := |Restrict(a, name)|;
    assert Restrict(a + [x] + b + [y] + c, name)[k] == x;
    assert Restrict(a + [y] + b + [x] + c, name)[k] == y;
  }

  lemma RestrictFive(a: seq<Module>, x: Module, b: seq<Module>, y: Module, c: seq<Module>)
    requires x.target == y.target
    ensures Restrict(a + [x] + b + [y] + c, x.target)
            == Restrict(a, x.target) + [x] + Restrict(b, x.target) + [y] + Restrict(c, x.target)
  {
    var name := x.target;
    RestrictAppend(a, [x], name);
    RestrictAppend(a + [x], b, name);
    RestrictAppend(a + [x] + b, [y], name);
    RestrictAppend(a + [x] + b + [y], c, name);
    assert [x][..0] == [] && [y][..0] == [];
  }

  // Compare accepts every list with the same entries exactly when entries that
  // share a name are the same entry. A control plane and a MachineDeployment of
  // one name have different entries; then the order decides.
  lemma OrderNeverMattersExactly(s: seq<Module>)
    ensures (forall t :: multiset(s) == multiset(t) ==> SameRestrictions(s, t)) <==> NamesTellEntries(s)
  {
    if NamesTellEntries(s) {
      forall t, name | multiset(s) == multiset(t) ensures Restrict(s, name) == Restrict(t, name) {
        UniformRestriction(s, t, name);
      }
    } else {
      var i, j :| 0 <= i < j < |s| && s[i].target == s[j].target && s[i] != s[j];
      var a, b, c := s[..i], s[i + 1..j], s[j + 1..];
      assert s == a + [s[i]] + b + [s[j]] + c;
      SharedNamesTellOrder(a, s[i], b, s[j], c);
      var t := a + [s[j]] + b + [s[i]] + c;
      assert multiset(s) == multiset(t) && !SameRestrictions(s, t);
    }
  }

  // ------------------------------------------------------------------ Compare

  method Compare(oldMods: array<Module>, newMods: array<Module>) returns (same: bool)
    modifies oldMods, newMods
    ensures same <==> SameRestrictions(old(oldMods[..]), old(newMods[..]))
    ensures oldMods.Length == newMods.Length ==>
              && Sorted(oldMods[..]) && StableRearrangement(old(oldMods[..]), oldMods[..])
              && Sorted(newMods[..]) && StableRearrangement(old(newMods[..]), newMods[..])
    ensures oldMods.Length != newMods.Length ==>
              oldMods[..] == old(oldMods[..]) && newMods[..] == old(newMods[..])
  {
    if oldMods.Length != newMods.Length {
      if SameRestrictions(oldMods[..], newMods[..]) {
        SameRestrictionsSameEntries(oldMods[..], newMods[..]);
      }
      return false;
    }
    SliceStable(oldMods);
    SliceStable(newMods);
    if SameRestrictions(old(oldMods[..]), old(newMods[..])) {
      SortedIsDetermined(oldMods[..], newMods[..]);
    }
    for i := 0 to oldMods.Length
      invariant forall k :: 0 <= k < i ==> oldMods[k] == newMods[k]
    {
      if oldMods[i].controlPlane == newMods[i].controlPlane &&
         oldMods[i].target == newMods[i].target && oldMods[i].uuid == newMods[i].uuid {
        continue;
      }
      return false;
    }
    assert oldMods[..] == newMods[..];
    return true;
  }
}
