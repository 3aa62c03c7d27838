/**
 * The older object container (include/core/world.hpp,
 * sources/core/world.cpp): every game object under its id.
 */
module Worlds {
  import opened Machine
  import opened Errors
  import opened GameObjects

  /**
   * `std::map::insert`: stores the object only when its id is free; an
   * object already stored under that id is kept.
   */
  function Inserted(objs: map<Uint32, GameObject>, o: GameObject): (r: map<Uint32, GameObject>)
    ensures r.Keys == objs.Keys + {o.id}
    ensures forall id :: id in objs ==> r[id] == objs[id]
    ensures o.id !in objs ==> r[o.id] == o
  {
    if o.id in objs then objs else objs[o.id := o]
  }

  class World {
    var objects: map<Uint32, GameObject>

    constructor ()
      ensures objects == map[]
    {
      objects := map[];
    }

    /** add_gameobject: inserts under the object's own id, never replacing. */
    method AddGameObject(o: GameObject)
      modifies this
      ensures objects == Inserted(old(objects), o)
    {
      objects := Inserted(objects, o);
    }

    /** get_gameobject: the object under the id; throws UnknownIDException for an unknown id. */
    function GetGameObject(id: Uint32): (r: Result<GameObject>)
      reads this
      ensures r.Ok? <==> id in objects
      ensures r.Ok? ==> r.value == objects[id]
      ensures r.Err? ==> r.error == UnknownId(id)
    {
      if id in objects then Ok(objects[id]) else Err(UnknownId(id))
    }
  }

  /** The ids of a run of objects. */
  function Ids(os: seq<GameObject>): set<Uint32>
  {
    set j | 0 <= j < |os| :: os[j].id
  }

  /**
   * The map a run of add_gameobject calls leaves, in call order: every id
   * of the run is present, and objects stored before the run are kept.
   */
  function InsertAll(objs: map<Uint32, GameObject>, os: seq<GameObject>): (r: map<Uint32, GameObject>)
    ensures r.Keys == objs.Keys + Ids(os)
    ensures forall id :: id in objs ==> r[id] == objs[id]
    decreases |os|
  {
    if os == [] then objs
    else
      var init := os[..|os| - 1];
      assert Ids(os) == Ids(init) + {os[|os| - 1].id} by {
        forall id | id in Ids(os) ensures id in Ids(init) + {os[|os| - 1].id} {
          var j :| 0 <= j < |os| && os[j].id == id;
          if j < |os| - 1 {
            assert init[j] == os[j];
          }
        }
        forall id | id in Ids(init) ensures id in Ids(os) {
          var j :| 0 <= j < |init| && init[j].id == id;
          assert os[j] == init[j];
        }
      }
      Inserted(InsertAll(objs, init), os[|os| - 1])
  }

  /**
   * The first object added under an id is the one the world keeps: later
   * objects with the same id are ignored.
   */
  lemma {:induction false} FirstInsertWins(objs: map<Uint32, GameObject>, os: seq<GameObject>, i: nat)
    requires i < |os| && os[i].id !in objs
    requires forall j :: 0 <= j < i ==> os[j].id != os[i].id
    ensures InsertAll(objs, os)[os[i].id] == os[i]
    decreases |os|
  {
    var init := os[..|os| - 1];
    if i < |os| - 1 {
      assert init[i] == os[i];
      FirstInsertWins(objs, init, i);
    }
  }
}
