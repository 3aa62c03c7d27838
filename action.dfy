/**
 * Game actions (include/core/action.hpp, sources/core/action.cpp): a
 * player's request to change the game state, checked against the game
 * rules before it is performed, and the status reported for it.
 */
module Actions {
  import opened Machine
  import opened Errors
  import opened Types
  import opened GameObjects
  import opened Snapshots

  /** An action: its id, the name of its concrete class, and the slots its add_values registers. */
  datatype GameAction = GameAction(id: Uint32, kind: string, values: Values)

  /** `GameAction(id)`: the given id, no slot registered yet. */
  function NewAction(kind: string, id: Uint32): (a: GameAction)
    ensures a.id == id && a.kind == kind && a.values == map[]
  {
    GameAction(id, kind, map[])
  }

  /** The default constructor `GameAction()`: id 0. */
  function DefaultAction(kind: string): (a: GameAction)
    ensures a.id == 0 && a == NewAction(kind, 0)
  {
    GameAction(0, kind, map[])
  }

  // ---- act ----

  /** The message of the exception `act` throws when the check fails. */
  const IMPOSSIBLE_MESSAGE: string := "Action cannot be activated"

  /**
   * The exceptions a tick catches around `act`: an unknown object id
   * (raised by game logic looking an object up) and an impossible action.
   */
  datatype ActionException =
    | UnknownIdThrown(message: string, id: Uint32)
    | ImpossibleThrown(message: string)

  /** What `check_action` does: answer, or throw. */
  datatype CheckOutcome = Checked(activable: bool) | CheckThrew(exc: ActionException)

  /**
   * What `perform_act` does: the objects as it leaves them, and the
   * exception it throws, if any, once those changes are made.
   */
  datatype Performed = Performed(objects: Objects, exc: Option<ActionException>)

  /**
   * The game logic of the action classes. `check_action` receives a const
   * snapshot, so it is a function of the tick and objects; `perform_act`
   * returns the objects it leaves behind.
   */
  datatype ActionLogic = ActionLogic(
    check: (GameAction, Uint32, Objects) -> CheckOutcome,
    perform: (GameAction, Uint32, Objects) -> Performed)

  /**
   * act: `perform_act` runs only when `check_action` returns true; a false
   * check throws ImpossibleActionException, and a check that throws lets
   * its exception through; in both cases the snapshot is untouched.
   */
  function ActSpec(a: GameAction, tick: Uint32, objs: Objects, logic: ActionLogic): (r: Performed)
    ensures logic.check(a, tick, objs) == Checked(true) ==> r == logic.perform(a, tick, objs)
    ensures logic.check(a, tick, objs) != Checked(true) ==> r.objects == objs && r.exc.Some?
    ensures logic.check(a, tick, objs) == Checked(false) ==>
              r.exc == Some(ImpossibleThrown(IMPOSSIBLE_MESSAGE))
    ensures r.exc.None? ==> logic.check(a, tick, objs) == Checked(true)
  {
    match logic.check(a, tick, objs)
    case CheckThrew(e) => Performed(objs, Some(e))
    case Checked(activable) =>
      if activable then logic.perform(a, tick, objs)
      else Performed(objs, Some(ImpossibleThrown(IMPOSSIBLE_MESSAGE)))
  }

  /** act on a snapshot in place; the exception it throws, if any, is returned. */
  method Act(a: GameAction, world: Snapshot, logic: ActionLogic) returns (exc: Option<ActionException>)
    modifies world
    ensures Performed(world.objects, exc) == ActSpec(a, old(world.tick), old(world.objects), logic)
    ensures world.tick == old(world.tick)
  {
    var outcome := logic.check(a, world.tick, world.objects);
    if outcome.CheckThrew? {
      return Some(outcome.exc);
    }
    if !outcome.activable {
      return Some(ImpossibleThrown(IMPOSSIBLE_MESSAGE));
    }
    var performed := logic.perform(a, world.tick, world.objects);
    world.objects := performed.objects;
    exc := performed.exc;
  }

  // ---- status reports ----

  /** ActionStatus: the report for one played action. */
  datatype ActionStatus = ActionStatus(actionId: Uint32, success: bool, message: string)

  /** serialization::ActionStatus: the wire record. */
  datatype ActionStatusMsg = ActionStatusMsg(id: Uint32, success: bool, message: string)

  /** serialization::ActionStatusList. */
  datatype ActionStatusListMsg = ActionStatusListMsg(status: seq<ActionStatusMsg>)

  function SerializeStatus(s: ActionStatus): (m: ActionStatusMsg)
    ensures m.id == s.actionId && m.success == s.success && m.message == s.message
  {
    ActionStatusMsg(s.actionId, s.success, s.message)
  }

  /** ActionStatus::deserialize is the inverse of serialize, in both directions. */
  function DeserializeStatus(m: ActionStatusMsg): (s: ActionStatus)
    ensures SerializeStatus(s) == m
    ensures forall t: ActionStatus :: SerializeStatus(t) == m ==> t == s
  {
    ActionStatus(m.id, m.success, m.message)
  }

  /** serialize_action_status_list: one record per status, appended in order. */
  function SerializeStatusList(ss: seq<ActionStatus>): (l: ActionStatusListMsg)
    ensures |l.status| == |ss|
    decreases |ss|
  {
    if ss == [] then ActionStatusListMsg([])
    else
      var init := SerializeStatusList(ss[..|ss| - 1]);
      ActionStatusListMsg(init.status + [SerializeStatus(ss[|ss| - 1])])
  }

  /** deserialize_action_status_list: one status per record, appended in order. */
  function DeserializeStatusList(l: ActionStatusListMsg): (ss: seq<ActionStatus>)
    ensures |ss| == |l.status|
    decreases |l.status|
  {
    if l.status == [] then []
    else
      DeserializeStatusList(ActionStatusListMsg(l.status[..|l.status| - 1]))
        + [DeserializeStatus(l.status[|l.status| - 1])]
  }

  /** The list keeps the order: record i is the serialization of status i. */
  lemma {:induction false} SerializeStatusListOrder(ss: seq<ActionStatus>)
    ensures forall i :: 0 <= i < |ss| ==> SerializeStatusList(ss).status[i] == SerializeStatus(ss[i])
    decreases |ss|
  {
    if ss != [] {
      SerializeStatusListOrder(ss[..|ss| - 1]);
    }
  }

  /** deserialize_action_status_list(serialize_action_status_list(ss)) == ss. */
  lemma {:induction false} StatusListRoundTrip(ss: seq<ActionStatus>)
    ensures DeserializeStatusList(SerializeStatusList(ss)) == ss
    decreases |ss|
  {
    if ss != [] {
      var init := ss[..|ss| - 1];
      StatusListRoundTrip(init);
      assert SerializeStatusList(ss).status[..|ss| - 1] == SerializeStatusList(init).status;
      assert ss == init + [ss[|ss| - 1]];
    }
  }

  /** The other direction: serializing a deserialized list gives back the records. */
  lemma {:induction false} StatusListMsgRoundTrip(l: ActionStatusListMsg)
    ensures SerializeStatusList(DeserializeStatusList(l)) == l
    decreases |l.status|
  {
    if l.status != [] {
      var init := ActionStatusListMsg(l.status[..|l.status| - 1]);
      StatusListMsgRoundTrip(init);
      var ss := DeserializeStatusList(l);
      assert ss[..|ss| - 1] == DeserializeStatusList(init);
      assert l.status == init.status + [l.status[|l.status| - 1]];
    }
  }

  // ---- serialization and the action registry ----

  /** serialization::Action: the id, the type name and one blob per slot. */
  datatype ActionMsg = ActionMsg(id: Uint32, typeName: string, values: Blobs)

  /** serialize: the id, the type name and every registered slot. */
  function SerializeAction(a: GameAction): (m: ActionMsg)
    ensures m.id == a.id && m.typeName == a.kind
    ensures m.values.Keys == a.values.Keys
    ensures forall n :: n in m.values ==> |m.values[n]| == Width(a.values[n])
  {
    ActionMsg(a.id, a.kind, SerializeValues(a.values))
  }

  /** instantiate: calls the creator registered under the name, or throws. */
  function InstantiateAction(creators: map<string, Creator>, typeName: string): (r: Result<GameAction>)
    ensures r.Ok? <==> typeName in creators
    ensures r.Ok? ==> r.value == DefaultAction(creators[typeName].kind)
    ensures r.Err? ==> r.error == UnknownClassType(typeName)
  {
    if typeName in creators then Ok(DefaultAction(creators[typeName].kind))
    else Err(UnknownClassType(typeName))
  }

  /**
   * The action `deserialize` rebuilds from a message: UnknownClassType for
   * an unregistered class name, UnknownAttribute for a blob that names no
   * registered slot, and otherwise the registered class with the
   * message's id and every registered slot.
   */
  function DeserializedAction(creators: map<string, Creator>, msg: ActionMsg): (r: Result<GameAction>)
    ensures msg.typeName !in creators ==> r == Err(UnknownClassType(msg.typeName))
    ensures msg.typeName in creators ==>
              (r.Ok? <==> msg.values.Keys <= creators[msg.typeName].schema.Keys)
    ensures msg.typeName in creators && r.Err? ==> r.error == UnknownAttribute
    ensures r.Ok? ==> r.value.id == msg.id && r.value.kind == creators[msg.typeName].kind
    ensures r.Ok? ==> r.value.values.Keys == creators[msg.typeName].schema.Keys
  {
    match InstantiateAction(creators, msg.typeName)
    case Err(e) => Err(e)
    case Ok(a) =>
      match FillSlots(creators[msg.typeName].schema, msg.values)
      case Err(e) => Err(e)
      case Ok(vs) => Ok(a.(id := msg.id, values := vs))
  }

  /**
   * deserialize: instantiate the class, set the id, register the slots,
   * then deserialize each blob into its slot and `change` the slot to it.
   */
  method DeserializeAction(creators: map<string, Creator>, msg: ActionMsg) returns (r: Result<GameAction>)
    ensures r == DeserializedAction(creators, msg)
    ensures msg.typeName !in creators ==> r == Err(UnknownClassType(msg.typeName))
    ensures r.Ok? ==> r.value.id == msg.id && r.value.kind == creators[msg.typeName].kind
  {
    var created := InstantiateAction(creators, msg.typeName);
    if created.Err? {
      return Err(created.error);
    }
    var action := created.value.(id := msg.id);
    var schema := creators[msg.typeName].schema;
    var values := schema;
    var todo := msg.values.Keys;
    while todo != {}
      invariant todo <= msg.values.Keys
      invariant msg.values.Keys - todo <= schema.Keys
      invariant values.Keys == schema.Keys
      invariant forall n :: n in schema ==>
                  values[n] == if n in msg.values && n !in todo
                               then Changed(schema[n], Deserialize(schema[n], msg.values[n]))
                               else schema[n]
      decreases |todo|
    {
      var name :| name in todo;
      if name !in values {
        return Err(UnknownAttribute);
      }
      var slot := values[name];
      values := values[name := Changed(slot, Deserialize(slot, msg.values[name]))];
      todo := todo - {name};
    }
    var filled := FillSlots(schema, msg.values);
    assert values == filled.value;
    return Ok(action.(values := values));
  }

  /**
   * deserialize(serialize(a)) gives back the action: the same id, class
   * and slot values, when its class is registered with its slots.
   */
  lemma ActionRoundTrip(creators: map<string, Creator>, a: GameAction)
    requires Registered(creators, a.kind, a.values)
    ensures DeserializedAction(creators, SerializeAction(a)) == Ok(a)
  {
    FillSlotsRoundTrip(creators[a.kind].schema, a.values);
  }
}
