/** Records outcome once under an idempotency key: a map of records beside an index of keys. Orders and refunds
    are kept this way. */
module Books {
  import opened Text

  datatype Book<R> = Book(records: map<string, R>, keys: map<string, string>)

  /** How a kind of record carries its id and its key. */
  datatype Shape<!R> = Shape(id: R -> string, key: R -> Option<string>)

  datatype Opened<R> = Opened(created: bool, record: R)

  /** The record already under this key, if there is one. */
  function Original<R>(b: Book<R>, key: Option<string>): Option<R> {
    if key.Some? && key.value in b.keys && b.keys[key.value] in b.records then Some(b.records[b.keys[key.value]]) else None
  }

  function Open<R>(b: Book<R>, id: string, key: Option<string>, record: R): (Book<R>, Opened<R>) {
    var original := Original(b, key);
    if original.Some? then (b, Opened(false, original.value))
    else
      (Book(b.records[id := record], if key.Some? then b.keys[key.value := id] else b.keys), Opened(true, record))
  }

  function Change<R>(b: Book<R>, id: string, change: R -> Option<R>): Book<R> {
    if id in b.records && change(b.records[id]).Some? then b.(records := b.records[id := change(b.records[id]).value]) else b
  }

  // ---- the invariant ----

  /** The index and the records agree in both directions. */
  ghost predicate Indexed<R>(b: Book<R>, shape: Shape<R>) {
    && (forall k | k in b.keys :: b.keys[k] in b.records && shape.key(b.records[b.keys[k]]) == Some(k))
    && (forall id | id in b.records ::
          && shape.id(b.records[id]) == id
          && (shape.key(b.records[id]).Some? ==>
                shape.key(b.records[id]).value in b.keys && b.keys[shape.key(b.records[id]).value] == id))
  }

  /** A key names at most one record. */
  lemma {:induction false} KeyNamesOne<R>(b: Book<R>, shape: Shape<R>, i: string, j: string)
    requires Indexed(b, shape) && i in b.records && j in b.records
    requires shape.key(b.records[i]).Some? && shape.key(b.records[i]) == shape.key(b.records[j])
    ensures i == j
  {
    assert b.keys[shape.key(b.records[i]).value] == i;
  }

  /** Opening keeps the index exactly when it does not overwrite a keyed record with a new one under another key. */
  lemma {:induction false} OpenKeepsIndex<R>(b: Book<R>, shape: Shape<R>, record: R)
    requires Indexed(b, shape)
    ensures var id, key := shape.id(record), shape.key(record);
      var (after, outcome) := Open(b, id, key, record);
      Indexed(after, shape) <==> !(outcome.created && id in b.records && shape.key(b.records[id]).Some?)
  {
    var id, key := shape.id(record), shape.key(record);
    var (after, outcome) := Open(b, id, key, record);
    if outcome.created && id in b.records && shape.key(b.records[id]).Some? {
      var old_ := shape.key(b.records[id]).value;
      assert old_ in after.keys && after.keys[old_] == id;
    } else if outcome.created {
      assert forall k | k in b.keys :: b.keys[k] != id;
    }
  }

  ghost predicate KeepsShape<R(!new)>(shape: Shape<R>, change: R -> Option<R>) {
    forall r | change(r).Some? :: shape.id(change(r).value) == shape.id(r) && shape.key(change(r).value) == shape.key(r)
  }

  // ---- whole histories ----

  datatype Step<!R> = Opening(record: R) | Changing(id: string, change: R -> Option<R>)

  ghost function Do<R>(b: Book<R>, shape: Shape<R>, step: Step<R>): Book<R> {
    match step
    case Opening(record) => Open(b, shape.id(record), shape.key(record), record).0
    case Changing(id, change) => Change(b, id, change)
  }

  ghost function Run<R>(b: Book<R>, shape: Shape<R>, steps: seq<Step<R>>): Book<R> {
    if steps == [] then b else Do(Run(b, shape, steps[..|steps| - 1]), shape, steps[|steps| - 1])
  }

  /** A history comes to what its parts come to, one after the other. */
  lemma {:induction false} RunInParts<R>(b: Book<R>, shape: Shape<R>, steps: seq<Step<R>>, more: seq<Step<R>>, step: Step<R>)
    ensures Run(b, shape, []) == b && Run(b, shape, [step]) == Do(b, shape, step)
    ensures Run(b, shape, steps + more) == Run(Run(b, shape, steps), shape, more)
    decreases |more|
  {
    assert [step][..0] == [];
    if more == [] {
      assert steps + more == steps;
    } else {
      var n := |more| - 1;
      RunInParts(b, shape, steps, more[..n], step);
      assert (steps + more)[..|steps + more| - 1] == steps + more[..n];
    }
  }

  /** Every record actually created has an id not in use, and changes touch neither id nor key. */
  ghost predicate Fresh<R(!new)>(b: Book<R>, shape: Shape<R>, steps: seq<Step<R>>) {
    forall n | 0 <= n < |steps| ::
      match steps[n]
      case Opening(record) =>
        var now := Run(b, shape, steps[..n]);
        Original(now, shape.key(record)).None? ==> shape.id(record) !in now.records
      case Changing(_, change) => KeepsShape(shape, change)
  }

  /** Over every history with fresh ids the index stays exact, and what a key names never changes. */
  lemma {:induction false} HistoryKeepsIndex<R(!new)>(b: Book<R>, shape: Shape<R>, steps: seq<Step<R>>)
    requires Indexed(b, shape) && Fresh(b, shape, steps)
    ensures Indexed(Run(b, shape, steps), shape)
    ensures forall k | k in b.keys :: k in Run(b, shape, steps).keys && Run(b, shape, steps).keys[k] == b.keys[k]
  {
    if steps != [] {
      var n := |steps| - 1;
      var init := steps[..n];
      assert forall m | 0 <= m < n :: init[m] == steps[m] && init[..m] == steps[..m];
      HistoryKeepsIndex(b, shape, init);
      StepKeepsIndex(Run(b, shape, init), shape, steps[n]);
    }
  }

  lemma {:induction false} StepKeepsIndex<R(!new)>(b: Book<R>, shape: Shape<R>, step: Step<R>)
    requires Indexed(b, shape)
    requires step.Opening? && Original(b, shape.key(step.record)).None? ==> shape.id(step.record) !in b.records
    requires step.Changing? ==> KeepsShape(shape, step.change)
    ensures Indexed(Do(b, shape, step), shape)
    ensures forall k | k in b.keys :: k in Do(b, shape, step).keys && Do(b, shape, step).keys[k] == b.keys[k]
  {
    if step.Opening? {
      OpenKeepsIndex(b, shape, step.record);
    }
  }

  /** However much happened since, opening again under a used key creates nothing and returns the record with the
      original id. */
  lemma {:induction false} LaterOpensReturnTheOriginal<R(!new)>(b: Book<R>, shape: Shape<R>, steps: seq<Step<R>>, again: R, key: string)
    requires Indexed(b, shape) && Fresh(b, shape, steps) && key in b.keys && shape.key(again) == Some(key)
    ensures var now := Run(b, shape, steps);
      var (after, outcome) := Open(now, shape.id(again), shape.key(again), again);
      && after == now && !outcome.created && shape.id(outcome.record) == b.keys[key]
      && shape.key(outcome.record) == Some(key)
  {
    HistoryKeepsIndex(b, shape, steps);
  }
}
