/**
 * The tick driver (include/core/gameinstance.hpp,
 * sources/core/gameinstance.cpp): it holds the current snapshot and the
 * queue of pending actions, and each tick plays the queued actions on a
 * copy, runs the physics, diffs the copy against the current snapshot,
 * records the delta and makes the copy current.
 */
module GameInstances {
  import opened Machine
  import opened Errors
  import opened GameObjects
  import opened Snapshots
  import opened Actions
  import opened TsDeque

  /** The game logic a tick runs: the action classes and the objects' own time step. */
  datatype GameLogic = GameLogic(actions: ActionLogic, physics: Physics)

  /** The status `_play_action` reports for an action, and the objects it leaves. */
  datatype Played = Played(status: ActionStatus, objects: Objects)

  /**
   * _play_action: the status carries the action's id; it succeeds exactly
   * when `act` throws nothing, with an empty message, and otherwise holds
   * the caught exception's message.
   */
  function PlayStep(a: GameAction, tick: Uint32, objs: Objects, logic: ActionLogic): (r: Played)
    ensures r.status.actionId == a.id
    ensures r.status.success <==> ActSpec(a, tick, objs, logic).exc.None?
    ensures r.status.success ==> r.status.message == ""
    ensures !r.status.success ==> r.status.message == ActSpec(a, tick, objs, logic).exc.value.message
    ensures r.objects == ActSpec(a, tick, objs, logic).objects
  {
    var performed := ActSpec(a, tick, objs, logic);
    match performed.exc
    case None => Played(ActionStatus(a.id, true, ""), performed.objects)
    case Some(e) => Played(ActionStatus(a.id, false, e.message), performed.objects)
  }

  /** The statuses and objects the drain loop of `update_tick` leaves. */
  datatype Drained = Drained(statuses: seq<ActionStatus>, objects: Objects)

  /**
   * Playing a run of actions in order on one snapshot: one status per
   * action, in the same order and with the same ids, every success
   * carrying an empty message.
   */
  function RunActions(actions: seq<GameAction>, tick: Uint32, objs: Objects, logic: ActionLogic): (r: Drained)
    ensures |r.statuses| == |actions|
    ensures forall i :: 0 <= i < |actions| ==> r.statuses[i].actionId == actions[i].id
    ensures forall i :: 0 <= i < |actions| && r.statuses[i].success ==> r.statuses[i].message == ""
    decreases |actions|
  {
    if actions == [] then Drained([], objs)
    else
      var prior := RunActions(actions[..|actions| - 1], tick, objs, logic);
      var step := PlayStep(actions[|actions| - 1], tick, prior.objects, logic);
      Drained(prior.statuses + [step.status], step.objects)
  }

  /**
   * Status i is that of action i played on the objects the earlier
   * actions left: each action sees the effects of those before it.
   */
  lemma {:induction false} RunActionsInOrder(actions: seq<GameAction>, tick: Uint32, objs: Objects,
                                             logic: ActionLogic, i: nat)
    requires i < |actions|
    ensures RunActions(actions, tick, objs, logic).statuses[i] ==
            PlayStep(actions[i], tick, RunActions(actions[..i], tick, objs, logic).objects, logic).status
    decreases |actions|
  {
    var init := actions[..|actions| - 1];
    if i == |actions| - 1 {
      assert actions[..i] == init;
    } else {
      RunActionsInOrder(init, tick, objs, logic, i);
      assert init[..i] == actions[..i];
    }
  }

  /** Running a run of actions then one more is running the longer run. */
  lemma RunActionsSnoc(actions: seq<GameAction>, a: GameAction, tick: Uint32, objs: Objects, logic: ActionLogic)
    ensures var prior := RunActions(actions, tick, objs, logic);
            var step := PlayStep(a, tick, prior.objects, logic);
            RunActions(actions + [a], tick, objs, logic) == Drained(prior.statuses + [step.status], step.objects)
  {
    assert (actions + [a])[..|actions|] == actions;
  }

  /** The objects a tick produces: the queued actions played in order, then one physics step. */
  function TickObjects(queue: seq<GameAction>, tick: Uint32, objs: Objects, logic: GameLogic): (r: Objects)
    ensures r.Keys == RunActions(queue, tick, objs, logic.actions).objects.Keys
  {
    Stepped(RunActions(queue, tick, objs, logic.actions).objects, logic.physics)
  }

  class GameInstance {
    const tickRate: Uint32
    const serverSide: bool
    /** The initial game state; never changed after construction. */
    const base: Snapshot
    const current: Snapshot
    const queue: ThreadSafeDeque<GameAction>
    var statusList: seq<ActionStatus>
    var deltas: seq<DeltaSnapshot>

    /** The current snapshot is an object of its own, distinct from the initial one. */
    predicate Valid()
      reads this
    {
      base != current
    }

    /**
     * The constructor, called with a named snapshot. The argument is taken
     * by value, so it is copied once on the way in; the initial snapshot
     * is a copy of that argument, and the current snapshot, first a copy
     * of the initial one, is then assigned the initial one. Each copy
     * advances the tick. A temporary argument would be built in place
     * (C++17 copy elision), one tick step fewer.
     */
    constructor (snapshot: Snapshot, serverSide: bool, tickRate: Uint32)
      ensures Valid() && fresh(base) && fresh(current) && fresh(queue)
      ensures base.objects == snapshot.objects && base.tick == NextTick(NextTick(snapshot.tick))
      ensures current.objects == base.objects && current.tick == base.tick
      ensures queue.items == [] && statusList == [] && deltas == []
      ensures this.serverSide == serverSide && this.tickRate == tickRate
    {
      var argument := new Snapshot.Copy(snapshot);
      this.serverSide := serverSide;
      this.tickRate := tickRate;
      var initial := new Snapshot.Copy(argument);
      base := initial;
      current := new Snapshot.Copy(initial);
      queue := new ThreadSafeDeque<GameAction>();
      statusList := [];
      deltas := [];
      new;
      current.AssignFrom(base);
    }

    /** add_action: the action joins the back of the queue for the next tick. */
    method AddAction(a: GameAction)
      modifies queue
      ensures queue.items == old(queue.items) + [a]
    {
      queue.PushBack(a);
    }

    /** action_list: the queued actions, front first; the queue is left as it is. */
    function ActionList(): (r: seq<GameAction>)
      reads this, queue
      ensures |r| == queue.Count()
      ensures |r| > 0 ==> queue.Front() == Ok(r[0]) && queue.Back() == Ok(r[|r| - 1])
    {
      queue.items
    }

    /** _play_action: act on the snapshot, catching the two exceptions that make a failed status. */
    method PlayAction(a: GameAction, snapshot: Snapshot, logic: ActionLogic) returns (status: ActionStatus)
      modifies snapshot
      ensures Played(status, snapshot.objects) == PlayStep(a, old(snapshot.tick), old(snapshot.objects), logic)
      ensures snapshot.tick == old(snapshot.tick)
    {
      var exc := Act(a, snapshot, logic);
      if exc.None? {
        status := ActionStatus(a.id, true, "");
      } else {
        status := ActionStatus(a.id, false, exc.value.message);
      }
    }

    /**
     * The drain loop of update_tick: pops every queued action, front
     * first, plays it on `next` and appends its status.
     */
    method DrainQueue(next: Snapshot, logic: ActionLogic)
      modifies this, queue, next
      ensures queue.items == []
      ensures Drained(statusList, next.objects) ==
              RunActions(old(queue.items), next.tick, old(next.objects), logic)
      ensures next.tick == old(next.tick)
      ensures deltas == old(deltas)
    {
      ghost var pending := queue.items;
      ghost var start := next.objects;
      ghost var played := 0;
      statusList := [];
      while !queue.Empty()
        invariant 0 <= played <= |pending|
        invariant queue.items == pending[played..]
        invariant next.tick == old(next.tick)
        invariant Drained(statusList, next.objects) == RunActions(pending[..played], next.tick, start, logic)
        invariant deltas == old(deltas)
        decreases |queue.items|
      {
        var popped := queue.PopFront();
        var status := PlayAction(popped.value, next, logic);
        RunActionsSnoc(pending[..played], pending[played], next.tick, start, logic);
        assert pending[..played + 1] == pending[..played] + [pending[played]];
        statusList := statusList + [status];
        played := played + 1;
      }
      assert pending[..played] == pending;
    }

    /**
     * update_tick. The queue is drained and the status list rebuilt even
     * when the final diff fails; only on success is the delta recorded and
     * the copy made current.
     */
    method UpdateTick(logic: GameLogic) returns (r: Result<DeltaSnapshot>)
      requires Valid()
      modifies this, current, queue
      ensures Valid()
      ensures queue.items == []
      ensures statusList ==
              RunActions(old(queue.items), NextTick(old(current.tick)), old(current.objects), logic.actions).statuses
      ensures var next := TickObjects(old(queue.items), NextTick(old(current.tick)), old(current.objects), logic);
        && (r.Ok? <==> Evaluable(old(current.objects), next))
        && (r.Ok? ==> r.value == EvaluateSpec(old(current.tick), NextTick(old(current.tick)), old(current.objects), next))
        && (r.Ok? ==> current.objects == next && current.tick == NextTick(old(current.tick)))
        && (r.Ok? ==> deltas == old(deltas) + [r.value])
        && (r.Err? ==> current.objects == old(current.objects) && current.tick == old(current.tick))
        && (r.Err? ==> deltas == old(deltas))
    {
      var next := new Snapshot.Copy(current);
      DrainQueue(next, logic.actions);
      next.Update(logic.physics);
      r := Evaluate(current.tick, next.tick, current, next);
      if r.Ok? {
        deltas := deltas + [r.value];
        current.AssignFrom(next);
      }
    }
  }

  /**
   * The tick's delta is labelled with the old tick and its successor; it
   * deletes the objects the actions removed, adds those they created, and
   * diffs every object that survived.
   */
  lemma TickDelta(queue: seq<GameAction>, tick: Uint32, objs: Objects, logic: GameLogic)
    requires Evaluable(objs, TickObjects(queue, NextTick(tick), objs, logic))
    ensures var next := TickObjects(queue, NextTick(tick), objs, logic);
      var d := EvaluateSpec(tick, NextTick(tick), objs, next);
      && d.prevTick == tick && d.nextTick == NextTick(tick)
      && d.deletedObjects.Keys == objs.Keys - next.Keys
      && d.addedObjects.Keys == next.Keys - objs.Keys
      && (forall id :: id in d.deltaValues ==> d.deltaValues[id] == Diff(objs[id], next[id]))
  {
    EvaluatePartition(tick, NextTick(tick), objs, TickObjects(queue, NextTick(tick), objs, logic));
  }

  /**
   * A client holding the old current snapshot that applies the tick's
   * delta in full reaches the new current snapshot, when every object
   * that survives the tick keeps its class and attribute names and has
   * only interpolating attributes.
   */
  lemma TickReplicates(queue: seq<GameAction>, tick: Uint32, objs: Objects, logic: GameLogic)
    requires var next := TickObjects(queue, NextTick(tick), objs, logic);
      forall id :: id in objs && id in next ==> Reconstructible(objs[id], next[id])
    ensures var next := TickObjects(queue, NextTick(tick), objs, logic);
      Evaluable(objs, next) &&
      var d := EvaluateSpec(tick, NextTick(tick), objs, next);
      Applicable(ApplyBase(objs, d, 1.0), d) && ApplyObjects(objs, d, 1.0) == next
  {
    ApplyEvaluateReconstructs(tick, NextTick(tick), objs, TickObjects(queue, NextTick(tick), objs, logic));
  }

  /**
   * A tick with no queued action and a physics step that changes nothing
   * adds and deletes no object, and every delta it records is zero.
   */
  lemma IdleTick(tick: Uint32, objs: Objects, logic: GameLogic)
    requires forall o: GameObject :: logic.physics(o) == o.values
    ensures TickObjects([], NextTick(tick), objs, logic) == objs
    ensures var d := EvaluateSpec(tick, NextTick(tick), objs, objs);
      && d.addedObjects == map[] && d.deletedObjects == map[]
      && (forall id, n :: id in d.deltaValues && n in d.deltaValues[id] ==>
            d.deltaValues[id][n] == Zero(objs[id].values[n]))
  {
    var next := TickObjects([], NextTick(tick), objs, logic);
    assert next == objs;
    EvaluateCopy(tick, NextTick(tick), objs);
  }
}
