// packaging/flavorgen/flavors/util/helpers.go, deleteZeroValues, on maps in the
// heap: entries are deleted in place, and nested maps are pruned where they are.
module MapPruner {
  import opened Wrappers
  import opened ZeroPruning

  // A map entry: a value, or a reference to a nested map.
  datatype Slot = Leaf(v: Value) | Sub(n: MapNode)

  // One map[string]interface{} of a decoded document. Decoding shares nothing, so
  // nested maps have disjoint footprints.
  class MapNode {
    var entries: map<string, Slot>
    ghost var repr: set<MapNode>

    ghost predicate Valid()
      reads this, repr
      decreases repr
    {
      && this in repr
      && (forall k :: k in entries && entries[k].Leaf? ==> !entries[k].v.Obj?)
      && (forall k :: k in entries && entries[k].Sub? ==>
            var c := entries[k].n;
            c in repr && c.repr <= repr && this !in c.repr && c.Valid())
      && (forall k, l :: k in entries && l in entries && k != l && entries[k].Sub? && entries[l].Sub? ==>
            entries[k].n.repr !! entries[l].n.repr)
    }

    ghost function SlotValue(k: string): Value
      requires Valid() && k in entries
      reads this, repr
      decreases repr, 0
    {
      match entries[k]
      case Leaf(v) => v
      case Sub(c) => Obj(c.Contents())
    }

    // The document below this map.
    ghost function Contents(): map<string, Value>
      requires Valid()
      reads this, repr
      decreases repr, 1
    {
      map k | k in entries :: SlotValue(k)
    }

    method DeleteZeroValues()
      requires Valid()
      modifies repr
      ensures Valid() && repr == old(repr)
      ensures Contents() == PrunedMap(old(Contents()))
      decreases repr, 2
    {
      ghost var before := Contents();
      var todo := entries.Keys;
      while todo != {}
        invariant Valid() && repr == old(repr)
        invariant todo <= entries.Keys <= before.Keys
        invariant forall k :: k in todo ==> SlotValue(k) == before[k]
        invariant forall k :: k in before && k !in todo ==>
                    Pruned(before[k]) == if k in entries then Some(SlotValue(k)) else None
        decreases todo
      {
        var k :| k in todo;
        todo := todo - {k};
        VisitEntry(k);
      }
      assert Contents().Keys == entries.Keys;
      PrunedEntryByEntry(before, Contents());
    }

    // One turn of the loop.
    method VisitEntry(k: string)
      requires Valid() && k in entries
      modifies repr
      ensures Valid() && repr == old(repr)
      ensures var p := Pruned(old(SlotValue(k)));
              && entries.Keys == (if p.Some? then old(entries).Keys else old(entries).Keys - {k})
              && (p.Some? ==> SlotValue(k) == p.value)
      ensures forall l :: l in entries && l != k ==> SlotValue(l) == old(SlotValue(l))
      decreases repr, 1
    {
      match entries[k] {
        case Leaf(v) =>
          if IsZero(v) {
            DropEntry(k);
          }
        case Sub(c) =>
          ghost var m := c.Contents();
          assert SlotValue(k) == Obj(m);
          if c.entries == map[] {
            assert m == map[];
            DropEntry(k);
            return;
          }
          assert exists l :: l in c.entries && l in m;
          PruneChild(k, c);
          assert Pruned(Obj(m)) == if PrunedMap(m) == map[] then None else Some(Obj(PrunedMap(m)));
          assert c.Contents().Keys == c.entries.Keys;
          if c.entries == map[] {
            DropEntry(k);
          }
      }
    }

    method DropEntry(k: string)
      requires Valid() && k in entries
      modifies this`entries
      ensures Valid() && entries == old(entries) - {k}
      ensures forall l :: l in entries ==> SlotValue(l) == old(SlotValue(l))
    {
      entries := entries - {k};
    }

    // The recursive call on a nested map, which touches nothing beside it.
    method PruneChild(k: string, c: MapNode)
      requires Valid() && k in entries && entries[k] == Sub(c)
      modifies c.repr
      ensures Valid() && repr == old(repr) && entries == old(entries)
      ensures c.Contents() == PrunedMap(old(c.Contents()))
      ensures forall l :: l in entries && l != k ==> SlotValue(l) == old(SlotValue(l))
      decreases repr, 0
    {
      c.DeleteZeroValues();
    }
  }
}
