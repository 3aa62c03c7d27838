/**
 * Snapshots and delta snapshots (include/core/snapshot.hpp,
 * sources/core/snapshot.cpp): the whole game state at one tick, and the
 * difference between two such states.
 */
module Snapshots {
  import opened Machine
  import opened Errors
  import opened Types
  import opened GameObjects

  /** Object id -> object; std::map<std::uint32_t, std::shared_ptr<GameObject>>. */
  type Objects = map<Uint32, GameObject>

  /** The per-object time step `update` runs: game logic supplied by each class. */
  type Physics = GameObject -> Values

  /** Every object is stored under its own id. */
  predicate WellKeyed(objs: Objects)
  {
    forall id :: id in objs ==> objs[id].id == id
  }

  /** The objects after one physics step: ids, classes and key set are kept. */
  function Stepped(objs: Objects, physics: Physics): (r: Objects)
    ensures r.Keys == objs.Keys
    ensures forall id :: id in r ==> r[id].id == objs[id].id && r[id].kind == objs[id].kind
  {
    map id | id in objs :: objs[id].(values := physics(objs[id]))
  }

  class Snapshot {
    var objects: Objects
    var tick: Uint32

    constructor (tick: Uint32)
      ensures this.tick == tick && objects == map[]
    {
      this.tick := tick;
      objects := map[];
    }

    /** The copy constructor: every object cloned under its id, and the tick advanced by one. */
    constructor Copy(other: Snapshot)
      ensures tick == NextTick(other.tick)
      ensures objects == other.objects
    {
      var copied: Objects := map[];
      var todo := other.objects.Keys;
      while todo != {}
        invariant todo <= other.objects.Keys
        invariant copied.Keys == other.objects.Keys - todo
        invariant forall id :: id in copied ==> copied[id] == other.objects[id]
        decreases |todo|
      {
        var id :| id in todo;
        copied := copied[id := other.objects[id]];
        todo := todo - {id};
      }
      tick := NextTick(other.tick);
      objects := copied;
    }

    /** The implicit copy assignment `*this = other`: same objects, same tick. */
    method AssignFrom(other: Snapshot)
      modifies this
      ensures objects == old(other.objects) && tick == old(other.tick)
    {
      objects, tick := other.objects, other.tick;
    }

    /** add_object: stores the object under its id, replacing any earlier entry. */
    method AddObject(o: GameObject)
      modifies this
      ensures objects == old(objects)[o.id := o]
      ensures tick == old(tick)
      ensures WellKeyed(old(objects)) ==> WellKeyed(objects)
    {
      objects := objects[o.id := o];
    }

    /** delete_object: true iff an object had that id; afterwards none has. */
    method DeleteObject(id: Uint32) returns (removed: bool)
      modifies this
      ensures removed == (id in old(objects))
      ensures objects == old(objects) - {id}
      ensures tick == old(tick)
    {
      removed := id in objects;
      objects := objects - {id};
    }

    /** get_object: the object stored under the id, or null. */
    function GetObject(id: Uint32): (r: Option<GameObject>)
      reads this
      ensures r.Some? <==> id in objects
      ensures r.Some? ==> r.value == objects[id]
    {
      if id in objects then Some(objects[id]) else None
    }

    /** update: runs every object's own time step. */
    method Update(physics: Physics)
      modifies this
      ensures objects == Stepped(old(objects), physics)
      ensures tick == old(tick)
    {
      objects := Stepped(objects, physics);
    }

    /**
     * apply: a new snapshot interpolated a fraction `t` along `delta`.
     * Objects are added and removed only at `t == 1`; the receiver is
     * left as it was.
     */
    method Apply(delta: DeltaSnapshot, t: real) returns (r: Result<Snapshot>)
      ensures !(0.0 <= t <= 1.0) ==> r == Err(OutOfRange)
      ensures 0.0 <= t <= 1.0 ==> (r.Ok? <==> Applicable(ApplyBase(objects, delta, t), delta))
      ensures r.Ok? ==> fresh(r.value) && r.value.tick == tick
      ensures r.Ok? ==> r.value.objects == ApplyObjects(objects, delta, t)
      ensures r.Err? && 0.0 <= t <= 1.0 ==> ApplyError(ApplyBase(objects, delta, t), delta, r.error)
    {
      if !(0.0 <= t <= 1.0) {
        return Err(OutOfRange);
      }
      var base := ApplyBase(objects, delta, t);
      if exists id :: id in delta.deltaValues && id !in base {
        var id :| id in delta.deltaValues && id !in base;
        return Err(UnknownId(id));
      }
      if !Applicable(base, delta) {
        var id :| id in delta.deltaValues && !Interpolable(base[id], delta.deltaValues[id]);
        var failed := Interpolate(base[id], delta.deltaValues[id], t);
        return Err(failed.error);
      }
      var s := new Snapshot(tick);
      s.objects := ApplyObjects(objects, delta, t);
      return Ok(s);
    }
  }

  // ---- DeltaSnapshot ----

  datatype DeltaSnapshot = DeltaSnapshot(
    prevTick: Uint32,
    nextTick: Uint32,
    deltaValues: map<Uint32, Diffset>,
    deletedObjects: Objects,
    addedObjects: Objects)

  /** Every object present in both snapshots can be compared with its successor. */
  predicate Evaluable(prev: Objects, next: Objects)
  {
    forall id :: id in prev && id in next ==> Comparable(prev[id], next[id])
  }

  /**
   * The delta snapshot `evaluate` fills in: objects only in the previous
   * snapshot are deleted, objects only in the next one are added, and
   * surviving objects with attributes are diffed.
   */
  function EvaluateSpec(prevTick: Uint32, nextTick: Uint32, prev: Objects, next: Objects): (d: DeltaSnapshot)
    requires Evaluable(prev, next)
    ensures d.prevTick == prevTick && d.nextTick == nextTick
    ensures d.deletedObjects.Keys == prev.Keys - next.Keys
    ensures d.addedObjects.Keys == next.Keys - prev.Keys
    ensures d.deltaValues.Keys == set id | id in prev && id in next && prev[id].values != map[]
  {
    DeltaSnapshot(
      prevTick, nextTick,
      map id | id in prev && id in next && prev[id].values != map[] :: Diff(prev[id], next[id]),
      map id | id in prev && id !in next :: prev[id],
      map id | id in next && id !in prev :: next[id])
  }

  /**
   * evaluate: a first pass over the previous snapshot records deleted
   * objects and the differences of surviving ones; a second pass over the
   * next snapshot records added objects.
   */
  method Evaluate(prevTick: Uint32, nextTick: Uint32, prev: Snapshot, next: Snapshot)
    returns (r: Result<DeltaSnapshot>)
    ensures r.Ok? <==> Evaluable(prev.objects, next.objects)
    ensures r.Ok? ==> r.value == EvaluateSpec(prevTick, nextTick, prev.objects, next.objects)
    ensures r.Err? ==> exists id :: id in prev.objects && id in next.objects &&
                                    CompareError(prev.objects[id], next.objects[id], r.error)
  {
    var survivors := ScanPrevious(prev, next);
    if survivors.Err? {
      return Err(survivors.error);
    }
    var added := ScanNext(prev, next);
    var deltaValues, deleted := survivors.value.deltaValues, survivors.value.deleted;
    EvaluateSpecCharacterised(prevTick, nextTick, prev.objects, next.objects, deltaValues, deleted, added);
    return Ok(DeltaSnapshot(prevTick, nextTick, deltaValues, deleted, added));
  }

  /** What the first pass of `evaluate` collects. */
  datatype Survivors = Survivors(deltaValues: map<Uint32, Diffset>, deleted: Objects)

  /** The first pass of `evaluate`, over the ids of the previous snapshot. */
  method ScanPrevious(prev: Snapshot, next: Snapshot) returns (r: Result<Survivors>)
    ensures r.Ok? <==> Evaluable(prev.objects, next.objects)
    ensures r.Ok? ==> forall id :: id in r.value.deltaValues <==>
                        id in prev.objects && id in next.objects && prev.objects[id].values != map[]
    ensures r.Ok? ==> forall id :: id in r.value.deltaValues ==>
                        r.value.deltaValues[id] == Diff(prev.objects[id], next.objects[id])
    ensures r.Ok? ==> r.value.deleted.Keys == prev.objects.Keys - next.objects.Keys
    ensures r.Ok? ==> forall id :: id in r.value.deleted ==> r.value.deleted[id] == prev.objects[id]
    ensures r.Err? ==> exists id :: id in prev.objects && id in next.objects &&
                                    CompareError(prev.objects[id], next.objects[id], r.error)
  {
    var deltaValues: map<Uint32, Diffset> := map[];
    var deleted: Objects := map[];
    var todo := prev.objects.Keys;
    while todo != {}
      invariant todo <= prev.objects.Keys
      invariant forall id :: id in prev.objects && id !in todo && id in next.objects ==>
                  Comparable(prev.objects[id], next.objects[id])
      invariant deleted.Keys == (prev.objects.Keys - todo) - next.objects.Keys
      invariant forall id :: id in deleted ==> deleted[id] == prev.objects[id]
      invariant forall id :: id in deltaValues <==>
                  id in prev.objects && id !in todo && id in next.objects &&
                  prev.objects[id].values != map[]
      invariant forall id :: id in deltaValues ==>
                  id in prev.objects && id in next.objects &&
                  Comparable(prev.objects[id], next.objects[id]) &&
                  deltaValues[id] == Diff(prev.objects[id], next.objects[id])
      decreases |todo|
    {
      var id :| id in todo;
      var prevObject := prev.GetObject(id);
      var nextObject := next.GetObject(id);
      if nextObject.None? {
        deleted := deleted[id := prevObject.value];
      } else {
        var differences := Compare(prevObject.value, nextObject.value);
        if differences.Err? {
          return Err(differences.error);
        }
        if differences.value != map[] {
          deltaValues := deltaValues[id := differences.value];
        }
      }
      todo := todo - {id};
    }
    return Ok(Survivors(deltaValues, deleted));
  }

  /** The second pass of `evaluate`, over the ids of the next snapshot. */
  method ScanNext(prev: Snapshot, next: Snapshot) returns (added: Objects)
    ensures added.Keys == next.objects.Keys - prev.objects.Keys
    ensures forall id :: id in added ==> added[id] == next.objects[id]
  {
    added := map[];
    var todo := next.objects.Keys;
    while todo != {}
      invariant todo <= next.objects.Keys
      invariant added.Keys == (next.objects.Keys - todo) - prev.objects.Keys
      invariant forall id :: id in added ==> added[id] == next.objects[id]
      decreases |todo|
    {
      var id :| id in todo;
      var nextObject := next.GetObject(id);
      var prevObject := prev.GetObject(id);
      if prevObject.None? {
        added := added[id := nextObject.value];
      }
      todo := todo - {id};
    }
  }

  /** The three maps the passes of `evaluate` leave behind are those of EvaluateSpec. */
  lemma EvaluateSpecCharacterised(prevTick: Uint32, nextTick: Uint32, prev: Objects, next: Objects,
                                  deltaValues: map<Uint32, Diffset>, deleted: Objects, added: Objects)
    requires Evaluable(prev, next)
    requires forall id :: id in deltaValues <==> id in prev && id in next && prev[id].values != map[]
    requires forall id :: id in deltaValues ==> deltaValues[id] == Diff(prev[id], next[id])
    requires deleted.Keys == prev.Keys - next.Keys
    requires forall id :: id in deleted ==> deleted[id] == prev[id]
    requires added.Keys == next.Keys - prev.Keys
    requires forall id :: id in added ==> added[id] == next[id]
    ensures EvaluateSpec(prevTick, nextTick, prev, next) ==
            DeltaSnapshot(prevTick, nextTick, deltaValues, deleted, added)
  {
    DeltaValuesCharacterised(prev, next, deltaValues);
    OnlyInFirst(prev, next, deleted);
    OnlyInFirst(next, prev, added);
  }

  lemma DeltaValuesCharacterised(prev: Objects, next: Objects, deltaValues: map<Uint32, Diffset>)
    requires Evaluable(prev, next)
    requires forall id :: id in deltaValues <==> id in prev && id in next && prev[id].values != map[]
    requires forall id :: id in deltaValues ==> deltaValues[id] == Diff(prev[id], next[id])
    ensures deltaValues ==
            map id | id in prev && id in next && prev[id].values != map[] :: Diff(prev[id], next[id])
  {
    var spec := map id | id in prev && id in next && prev[id].values != map[] :: Diff(prev[id], next[id]);
    assert spec.Keys == deltaValues.Keys;
  }

  lemma OnlyInFirst(first: Objects, second: Objects, only: Objects)
    requires only.Keys == first.Keys - second.Keys
    requires forall id :: id in only ==> only[id] == first[id]
    ensures only == map id | id in first && id !in second :: first[id]
  {
    var spec := map id | id in first && id !in second :: first[id];
    assert spec.Keys == only.Keys;
  }

  /**
   * The ids split three ways: deleted (previous only), added (next only)
   * and changed (both, with at least one attribute), each changed entry
   * being `compare` of the two versions.
   */
  lemma EvaluatePartition(prevTick: Uint32, nextTick: Uint32, prev: Objects, next: Objects)
    requires Evaluable(prev, next)
    ensures var d := EvaluateSpec(prevTick, nextTick, prev, next);
      && d.prevTick == prevTick && d.nextTick == nextTick
      && d.deletedObjects.Keys == prev.Keys - next.Keys
      && d.addedObjects.Keys == next.Keys - prev.Keys
      && d.deltaValues.Keys <= prev.Keys * next.Keys
      && (forall id :: id in prev && id in next ==> (id in d.deltaValues <==> prev[id].values != map[]))
      && d.deletedObjects.Keys !! d.addedObjects.Keys
      && d.deletedObjects.Keys !! d.deltaValues.Keys
      && d.addedObjects.Keys !! d.deltaValues.Keys
      && (forall id :: id in d.deltaValues ==> d.deltaValues[id] == Diff(prev[id], next[id]))
      && (forall id :: id in d.deltaValues ==> d.deltaValues[id].Keys == prev[id].values.Keys)
  {
  }

  /** Diffing a snapshot against an exact copy adds and deletes nothing, and every delta is zero. */
  lemma EvaluateCopy(prevTick: Uint32, nextTick: Uint32, objs: Objects)
    ensures Evaluable(objs, objs)
    ensures var d := EvaluateSpec(prevTick, nextTick, objs, objs);
      && d.addedObjects == map[] && d.deletedObjects == map[]
      && (forall id, n :: id in d.deltaValues && n in d.deltaValues[id] ==>
            d.deltaValues[id][n] == Zero(objs[id].values[n]))
  {
    forall id | id in objs ensures Comparable(objs[id], objs[id]) {
      DiffSelfIsZero(objs[id]);
    }
    var d := EvaluateSpec(prevTick, nextTick, objs, objs);
    forall id, n | id in d.deltaValues && n in d.deltaValues[id]
      ensures d.deltaValues[id][n] == Zero(objs[id].values[n])
    {
      DiffSelfIsZero(objs[id]);
    }
  }

  // ---- apply ----

  /** The objects `apply` starts from: at `t == 1` the additions and removals are made. */
  function ApplyBase(objs: Objects, delta: DeltaSnapshot, t: real): Objects
  {
    if t == 1.0 then (objs + delta.addedObjects) - delta.deletedObjects.Keys else objs
  }

  /** Every object the delta changes exists and accepts its deltas. */
  predicate Applicable(base: Objects, delta: DeltaSnapshot)
  {
    forall id :: id in delta.deltaValues ==>
      id in base && Interpolable(base[id], delta.deltaValues[id])
  }

  /** The failures `apply` reports within range: a missing object, or an interpolation failure. */
  predicate ApplyError(base: Objects, delta: DeltaSnapshot, e: Error)
  {
    || (e.UnknownId? && e.id in delta.deltaValues && e.id !in base)
    || ((e == UnknownAttribute || e == TypeMismatch) &&
        exists id :: id in delta.deltaValues && id in base && !Interpolable(base[id], delta.deltaValues[id]))
  }

  /** The objects of the snapshot `apply` returns. */
  function ApplyObjects(objs: Objects, delta: DeltaSnapshot, t: real): Objects
    requires Applicable(ApplyBase(objs, delta, t), delta)
  {
    var base := ApplyBase(objs, delta, t);
    map id | id in base ::
      if id in delta.deltaValues then InterpolateValues(base[id], delta.deltaValues[id], t) else base[id]
  }

  /**
   * Structure of `apply`: below 1 the id set is the receiver's; at 1
   * every added object is present and every deleted id is gone; objects
   * the delta does not change are carried over as they were.
   */
  lemma ApplyStructure(objs: Objects, delta: DeltaSnapshot, t: real)
    requires Applicable(ApplyBase(objs, delta, t), delta)
    ensures var r := ApplyObjects(objs, delta, t);
      && (t != 1.0 ==> r.Keys == objs.Keys)
      && (t == 1.0 ==> r.Keys == (objs.Keys + delta.addedObjects.Keys) - delta.deletedObjects.Keys)
      && (t == 1.0 ==> forall id ::
            (id in delta.addedObjects && id !in delta.deletedObjects && id !in delta.deltaValues) ==>
              r[id] == delta.addedObjects[id])
      && (forall id :: id in r && id !in delta.deltaValues ==> r[id] == ApplyBase(objs, delta, t)[id])
      && (forall id :: id in r ==> r[id].id == ApplyBase(objs, delta, t)[id].id)
  {
  }

  /** Applying any delta at fraction 0 reproduces the receiver's objects. */
  lemma ApplyAtZero(objs: Objects, delta: DeltaSnapshot)
    requires Applicable(objs, delta)
    ensures ApplyBase(objs, delta, 0.0) == objs
    ensures ApplyObjects(objs, delta, 0.0) == objs
  {
    forall id | id in delta.deltaValues
      ensures InterpolateValues(objs[id], delta.deltaValues[id], 0.0) == objs[id]
    {
      InterpolateAtZero(objs[id], delta.deltaValues[id]);
    }
    assert ApplyObjects(objs, delta, 0.0) == objs;
  }

  /**
   * The replication round trip: applying `evaluate(prev, next)` in full
   * to `prev` yields `next`, when every surviving object kept its class,
   * id and attribute names and has only interpolating attributes.
   */
  lemma ApplyEvaluateReconstructs(prevTick: Uint32, nextTick: Uint32, prev: Objects, next: Objects)
    requires forall id :: id in prev && id in next ==> Reconstructible(prev[id], next[id])
    ensures Evaluable(prev, next)
    ensures var d := EvaluateSpec(prevTick, nextTick, prev, next);
      Applicable(ApplyBase(prev, d, 1.0), d) && ApplyObjects(prev, d, 1.0) == next
  {
    forall id | id in prev && id in next ensures Comparable(prev[id], next[id]) {
      InterpolateDiffAtOne(prev[id], next[id]);
    }
    var d := EvaluateSpec(prevTick, nextTick, prev, next);
    var base := ApplyBase(prev, d, 1.0);
    assert base.Keys == next.Keys;
    forall id | id in d.deltaValues
      ensures id in base && Interpolable(base[id], d.deltaValues[id])
      ensures InterpolateValues(base[id], d.deltaValues[id], 1.0) == next[id]
    {
      InterpolateDiffAtOne(prev[id], next[id]);
    }
    forall id | id in base && id !in d.deltaValues
      ensures base[id] == next[id]
    {
      if id in prev {
        assert prev[id].values == map[];
        assert next[id].values == map[];
      }
    }
    assert ApplyObjects(prev, d, 1.0) == next;
  }
}
