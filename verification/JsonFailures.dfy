/** Why printing fails: the error names something that is reached from the value. */
module JsonFailures {
  import opened Text
  import opened CanonicalJson

  /** w is an element of the array v, or a member of the object v that is neither undefined nor a function. */
  ghost predicate Contains(heap: Heap, v: Value, w: Value) {
    && v.Obj? && v.ref in heap
    && match heap[v.ref]
       case ArrayNode(items) => w in items
       case ObjectNode(entries) => !Absent(w) && exists e | e in entries :: e.1 == w
  }

  /** Each value contains the next. */
  ghost predicate IsPath(heap: Heap, path: seq<Value>) {
    path != [] && forall i | 0 <= i < |path| - 1 :: Contains(heap, path[i], path[i + 1])
  }

  /** The path ends in what the error names: a number that is not finite, a bigint, or an object it came through. */
  ghost predicate Blames(path: seq<Value>, error: WriteError)
    requires path != []
  {
    var last := path[|path| - 1];
    match error
    case NonFiniteNumber => last == NonFinite
    case BigIntValue => last == BigInt
    case Circular => last.Obj? && last in path[..|path| - 1]
  }

  lemma {:induction false} Extend(heap: Heap, trail: seq<Value>, v: Value)
    requires IsPath(heap, trail) && Contains(heap, trail[|trail| - 1], v)
    ensures IsPath(heap, trail + [v])
  {
  }

  lemma {:induction false} WriteBlames(heap: Heap, v: Value, seen: set<nat>, trail: seq<Value>) returns (path: seq<Value>)
    requires WellFormed(heap) && InHeap(heap, v) && IsPath(heap, trail + [v])
    requires forall r :: r in seen <==> Obj(r) in trail
    requires Write(heap, v, seen).Err?
    ensures IsPath(heap, path) && (trail + [v])[0] == path[0] && Blames(path, Write(heap, v, seen).error)
    decreases heap.Keys - seen, 0, 0
  {
    path := trail + [v];
    if v.Obj? && v.ref !in seen {
      ChildrenInHeap(heap, v.ref);
      var vs := if heap[v.ref].ArrayNode? then heap[v.ref].items else Values(Sort(KeptEntries(heap[v.ref].entries)));
      ChildrenAreContained(heap, v, vs);
      path := WriteAllBlames(heap, vs, seen + {v.ref}, path);
    } else if v.Obj? {
      assert path[..|path| - 1] == trail;
    }
  }

  lemma {:induction false} ChildrenAreContained(heap: Heap, v: Value, vs: seq<Value>)
    requires v.Obj? && v.ref in heap
    requires vs == if heap[v.ref].ArrayNode? then heap[v.ref].items else Values(Sort(KeptEntries(heap[v.ref].entries)))
    ensures forall w | w in vs :: Contains(heap, v, w)
  {
    if heap[v.ref].ObjectNode? {
      var entries := heap[v.ref].entries;
      SortKeepsEntries(entries);
      forall w | w in vs
        ensures Contains(heap, v, w)
      {
        var i :| 0 <= i < |vs| && vs[i] == w;
        assert Sort(KeptEntries(entries))[i] in Sort(KeptEntries(entries));
      }
    }
  }

  lemma {:induction false} WriteAllBlames(heap: Heap, vs: seq<Value>, seen: set<nat>, trail: seq<Value>) returns (path: seq<Value>)
    requires WellFormed(heap) && IsPath(heap, trail) && forall v | v in vs :: InHeap(heap, v)
    requires forall v | v in vs :: Contains(heap, trail[|trail| - 1], v)
    requires forall r :: r in seen <==> Obj(r) in trail
    requires WriteAll(heap, vs, seen).Err?
    ensures IsPath(heap, path) && trail[0] == path[0] && Blames(path, WriteAll(heap, vs, seen).error)
    decreases heap.Keys - seen, 1, |vs|
  {
    assert vs[0] in vs && forall v | v in vs[1..] :: v in vs;
    if Write(heap, vs[0], seen).Err? {
      Extend(heap, trail, vs[0]);
      path := WriteBlames(heap, vs[0], seen, trail);
    } else {
      path := WriteAllBlames(heap, vs[1..], seen, trail);
    }
  }

  /** A failure to print says why: from the value one comes to a number that is not finite, to a bigint, or back to an
      object one came through. */
  lemma {:induction false} FailureNamesItsCause(heap: Heap, v: Value)
    requires WellFormed(heap) && InHeap(heap, v) && StableStringify(heap, v).Err?
    ensures exists path :: IsPath(heap, path) && path[0] == v && Blames(path, StableStringify(heap, v).error)
  {
    var path := WriteBlames(heap, v, {}, []);
    assert ([] + [v])[0] == v;
  }
}
