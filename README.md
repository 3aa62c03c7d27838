# haraka-engine state replication, in Dafny

This project models the state-replication core of the haraka-engine
multiplayer game engine.

- **Values.** A game object's attributes are typed values: a 32-bit
  integer, an integer 2-D vector, and an integer that does not
  interpolate. Each value can:
  - diff itself against a newer value (`get_delta`);
  - move a fraction of a delta (`interp`);
  - take another value's payload (`change`);
  - serialize itself to fixed-width bytes.
- **Objects.** A game object is an id, a class name and a map from
  attribute names to values. `compare` diffs two objects attribute by
  attribute. `interpolate` moves an object along such a diff.
  `checksum` XORs the attribute checksums.
- **Snapshots.** A snapshot holds every object under its id at one
  tick. Copying a snapshot advances the tick.
- **Deltas.** `DeltaSnapshot::evaluate` diffs two snapshots into three
  maps: deleted objects, added objects, and per-object attribute
  deltas. `Snapshot::apply` moves a snapshot a fraction along such a
  delta.
- **Actions.** Actions are checked against the game rules and then
  performed on a snapshot. Each one yields a status report.
- **The tick driver.** `GameInstance::update_tick` does one tick:
  1. it drains the queue of pending actions onto a copy of the current
     snapshot;
  2. it runs the physics step;
  3. it diffs the copy against the current snapshot;
  4. it records the delta and makes the copy current.
- **Queue and container.** The queue is a mutex-guarded deque. An older
  container, `World`, maps ids to objects.

## How the model is built

- **Modules.** Each module follows one part of the source:
  - `Machine`: fixed-width integers, wrap-around, tick arithmetic,
    little-endian bytes;
  - `Errors`: the exceptions as error values;
  - `Types`: `types.hpp`;
  - `GameObjects`: `game_object.hpp` and `game_object_snapshot.cpp`;
  - `Snapshots`: `snapshot.hpp` and `snapshot.cpp`;
  - `Actions`: `action.hpp` and `action.cpp`;
  - `TsDeque`: `tsdeque.hpp`;
  - `Worlds`: `world.cpp`;
  - `GameInstances`: `gameinstance.cpp`.
- **Values and classes.** Values, objects, actions and deltas are
  datatypes. Their C++ counterparts are reached through owning or
  shared pointers, but the core only reads them or replaces them
  whole. The following are classes whose methods update fields in
  place: the snapshot, the queue, the world, the tick driver, a value
  slot (for `change`, `+=` and `-=`) and the factory registry.
- **Errors.** Every C++ exception the core raises or lets through is an
  `Err` result. This covers `map::at`, a failed `cast`, an unknown
  class, an unknown id and an empty queue.
- **Integers.** Payloads are `int32_t`. Signed overflow is undefined
  behaviour in C++; the model chooses two's-complement wrap-around
  modulo 2^32 for `get_delta`, `+`, `-`, `*`, `+=` and `-=`.
- **Interpolation is idealised.** In `interp` the source converts the
  payload and the delta to `float`, and computes `_value + delta *
  interval` in single precision. It then converts the float back to
  `int`, truncating toward zero. The model does the same sum exactly
  over the reals, then truncates toward zero and wraps. The two agree
  only while the payload, the delta and the sum stay within 2^24 in
  magnitude (see `Types.Interp` under "Left out").
- **Game logic.** The game classes supply `check_action`,
  `perform_act` and `update`. They are parameters of the model, given
  as functions:
  - the check sees the tick and the objects, and answers or throws;
  - perform returns the objects it leaves behind, and optionally the
    exception it ends with;
  - the physics step gives each object its new attribute values and
    keeps its id and class.
- **Checksums.** The CRC-32 of a byte string is a parameter as well:
  `crc: seq<Byte> -> bv32`.

### Where the model chooses between the header, the tests and the code

- **No checksum gate in `evaluate`.** `evaluate` diffs every object
  present in both snapshots, with no checksum comparison. This follows
  `sources/core/snapshot.cpp:67-73`.
  - A delta entry exists exactly when `compare` returns at least one
    pair. This is because the entry is created by `operator[]` inside
    the loop over the pairs.
  - An object without attributes therefore gets no entry. An unchanged
    object with attributes gets an entry of zero deltas.
- **`add_object` follows the header.** The object is stored under its
  own id, replacing any earlier object. The header
  (`include/core/snapshot.hpp:61`) and the tests use this signature.
  The `.cpp` definition at `sources/core/snapshot.cpp:21-25` takes the
  id separately.
- **Diffsets are maps.** The `.cpp` builds a vector of pairs. The
  header's `diffset_t` and the tests look entries up by attribute name,
  so the model uses a map keyed by attribute name.
- **Declarations without a definition.** Several members are declared
  in the headers but defined in none of the source files. Their
  contracts are the model's reading of the doc comments, the tests and
  the neighbouring code. The results below are modelling choices, not
  behaviour of the source:
  - `Snapshot::apply` (`include/core/snapshot.hpp:42-51`). It takes a
    fraction in [0, 1] and adds or removes objects only at 1. The
    result is a new snapshot at the receiver's tick, and the receiver
    is unchanged. The default argument `interp = 1.0f` is a call with
    fraction 1.0, a full apply (`Snapshots.ApplyStructure` at 1). A
    fraction outside [0, 1] gives OutOfRange. A delta for an id the
    receiver lacks gives UnknownId.
  - `Snapshot::delete_object` (`include/core/snapshot.hpp:63-69`). It
    reports whether an object was removed.
  - `Snapshot::update` (`include/core/snapshot.hpp:36-40`). It calls
    each object's own `update`; the tick is kept.
  - `GameObject::interpolate` (`include/core/game_object.hpp:45-53`).
    It applies each delta with the value's `interp`. It reports
    UnknownAttribute for a delta naming no attribute and TypeMismatch
    for a delta of another class. These mirror the `map::at` and
    `cast` failures of `compare`
    (`sources/core/game_object_snapshot.cpp:21-44`).
  - `GameObject::checksum` (`include/core/game_object.hpp:71-78`). It
    is the XOR of the attribute checksums, as the doc comment says.
  - `GameObject()` (`include/core/game_object.hpp:32-35`): id 0, per
    the doc comment.
  - `GameObject::serialize`, `deserialize`, `registry`, `instantiate`
    and `Registrar` (`include/core/game_object.hpp:102-148`). They
    follow their action counterparts in `sources/core/action.cpp`:
    `serialize` at 17-29, `deserialize` at 31-48, the registrar at
    4-9 and `instantiate` at 50-58.
- **`deserialize` in the NoInterp class.** `PrimitiveValueNoInterp`
  does not override `get_delta` or `deserialize`, so these build a
  plain integer value. The NoInterp class is restored by `change`,
  which keeps the receiver's own class. The object and action round
  trips therefore still hold.
- **Deserialized values are padded.** A short buffer deserializes as if
  padded with zero bytes, because the target is value-initialised and
  `stringstream::read` stores what it reads. Surplus bytes are ignored.
- **A tick's delta is labelled** with the current tick and its
  successor, because `next_snapshot` is a copy of the current snapshot.
- **The `GameInstance` constructor advances the tick twice.** The
  snapshot argument is taken by value. For a named snapshot (an
  lvalue), the initial snapshot is therefore a copy of a copy of the
  caller's snapshot (two tick steps). The current snapshot is first a
  copy of the initial one and is then assigned it, so it ends on the
  same tick. A temporary argument is constructed in place under C++17
  copy elision, which gives one step fewer. The model covers the
  lvalue call, the form the tests use.

## Model

| member | source | states |
|---|---|---|
| Machine.Wrap32 | include/core/types.hpp:146-152 | the wrapped result is congruent to the exact one modulo 2^32 and equals it when it fits in 32 bits |
| Machine.WrapUnique | include/core/types.hpp:146-152 | a value in 32-bit range congruent to x is the wrap of x (two's complement is unique) |
| Machine.WrapAddWrap | include/core/types.hpp:154-161 | adding a wrapped delta then wrapping equals wrapping the exact sum |
| Machine.NextTick | sources/core/snapshot.cpp:8-10 | the copy's tick is old + 1, wrapping from 2^32 - 1 to 0 |
| Machine.EncodeLE | include/core/types.hpp:163-168 | the encoding of an integer has exactly the requested number of bytes |
| Machine.DecodeLE | include/core/types.hpp:170-176 | decoding n bytes gives a number below 256^n |
| Machine.DecodeEncodeLE | include/core/types.hpp:163-176 | decoding the little-endian encoding of a number below 256^n gives it back |
| Machine.ToUnsigned | include/core/types.hpp:166 | reinterpreting an int32 as unsigned keeps it modulo 2^32 |
| Machine.ToSigned | include/core/types.hpp:174 | reinterpreting 32 bits as int32 keeps them modulo 2^32 |
| Machine.EncodeInt32 | include/core/types.hpp:163-168 | an int32 serializes to exactly sizeof(int32_t) = 4 bytes |
| Machine.DecodeInt32 | include/core/types.hpp:170-176 | every 4-byte pattern read as an int32 is written back as the same 4 bytes |
| Machine.EncodeDecodeLE | include/core/types.hpp:163-176 | encoding the number decoded from n bytes, at n bytes, gives those bytes back |
| Machine.Int32RoundTrip | include/core/types.hpp:163-176 | decoding the 4 bytes of an int32 gives it back |
| Types.GetDelta | include/core/types.hpp:146-152 | a primitive delta is new - old and a Vec2 delta is component-wise new - old, modulo 2^32; NoInterp's inherited get_delta gives a plain integer |
| Types.DeltaIsDifference | include/core/types.hpp:218-224 | when no overflow occurs, the delta is exactly new - old, e.g. 150 - 100 = 50 and (2,3) - (1,5) = (1,-2) |
| Types.DeltaIsMinus | include/core/types.hpp:236-239 | Vec2 get_delta equals operator- of the newer and the older value |
| Types.TruncToZero | include/core/types.hpp:231-232 | the float-to-int conversion truncates toward zero: at most one unit toward 0 from the real value |
| Types.Interp | include/core/types.hpp:154-161 | interp keeps the receiver's class (integer, Vec2 or NoInterp) |
| Types.InterpComponentAtOne | include/core/types.hpp:154-161 | one component moved a full step by its wrapped delta reaches the target |
| Types.InterpDeltaAtOne | include/core/types.hpp:226-234 | interp(a, get_delta(a, b), 1) is change(a, b), and equals b when a and b are of the same class |
| Types.InterpAtZero | include/core/types.hpp:154-161 | interp by fraction 0 returns the receiver unchanged |
| Types.NoInterpIgnoresDelta | include/core/types.hpp:311-319 | NoInterp interp ignores delta and fraction and returns the receiver's own value |
| Types.InterpComponentBetween | include/core/types.hpp:231-232 | without overflow, a component moved a fraction in [0,1] stays between its start and its end |
| Types.ScaledBetween | include/core/types.hpp:231 | a delta scaled by a fraction in [0,1] lies between 0 and the delta |
| Types.MulNonNegative | include/core/types.hpp:231 | a product of non-negative reals is non-negative |
| Types.OffsetBetween | include/core/types.hpp:231-232 | the truncated start-plus-offset stays between start and end |
| Types.TruncBetween | include/core/types.hpp:231-232 | truncation keeps a real between two integers between them |
| Types.Vec2InterpTruncates | include/core/types.hpp:226-234 | (5,5) with delta (5,5) gives (7,7) at 0.5 and (8,8) at 0.6; (0,0) with (-5,-5) at 0.5 gives (-2,-2) |
| Types.Changed | include/core/types.hpp:140-144 | change keeps the receiver's class and takes the other value's payload |
| Types.Serialize | include/core/types.hpp:163-168 | the encoding is exactly sizeof(T) bytes for a primitive and 2*sizeof(T) for a Vec2 |
| Types.PadTo | include/core/types.hpp:170-176 | a buffer padded to n bytes has n bytes and keeps its first n bytes |
| Types.Deserialize | include/core/types.hpp:283-292 | the result has the receiver's kind and interpolates (NoInterp inherits the plain deserialize) |
| Types.DeserializeSerialize | include/core/types.hpp:163-176 | deserialize(serialize(v)) == v, with NoInterp read back as a plain integer |
| Types.ChangeDeserializeRoundTrip | include/core/types.hpp:140-144 | changing a slot to the deserialized bytes of a same-class value makes the slot that value |
| Types.DeserializeShortAndLong | include/core/types.hpp:170-176 | an empty buffer reads as 0; a long buffer reads only its first 4 bytes |
| Types.Checksum | include/core/types.hpp:133-138 | a primitive's checksum is the CRC of its 4 payload bytes; a Vec2's is one CRC run over the bytes of x then y (include/core/types.hpp:203-209) |
| Types.ChecksumByPayload | include/core/types.hpp:133-138 | the checksum depends only on the payload bytes, not on the value class |
| Types.Plus | include/core/types.hpp:241-244 | operator+ of two Vec2 is a Vec2 |
| Types.Minus | include/core/types.hpp:236-239 | operator- of two Vec2 is a Vec2 |
| Types.Scale | include/core/types.hpp:246-249 | operator* of a Vec2 by a scalar is a Vec2 |
| Types.WrapMulWrap | include/core/types.hpp:246-249 | multiplying a wrapped value and wrapping equals wrapping the exact product |
| Types.ScaleByOne | include/core/types.hpp:246-249 | v * 1 == v |
| Types.ScaleByZero | include/core/types.hpp:246-249 | v * 0 is the zero vector |
| Types.MulDistributesWrapped | include/core/types.hpp:241-249 | for one component, (x + y) * s == x * s + y * s under wrap-around |
| Types.ScaleDistributes | include/core/types.hpp:241-249 | (a + b) * s == a * s + b * s under wrap-around |
| Types.ScaleCompose | include/core/types.hpp:246-249 | (v * s) * u == v * (s * u) under wrap-around |
| Types.PlusMinusCancel | include/core/types.hpp:236-244 | (a + b) - b == a under wrap-around |
| Types.InterpVecAtOneIsPlus | include/core/types.hpp:226-244 | a Vec2 moved a full step is the receiver plus the delta |
| Types.ValueSlot.Change | include/core/types.hpp:211-216 | the slot takes the other value's payload and keeps its class; the other slot is untouched |
| Types.ValueSlot.AddAssign | include/core/types.hpp:251-256 | += sets the slot to the wrapped sum |
| Types.ValueSlot.SubAssign | include/core/types.hpp:258-263 | -= sets the slot to the wrapped difference |
| GameObjects.DefaultObject | include/core/game_object.hpp:32-35 | the default constructor gives id 0 and no attributes |
| GameObjects.GetValue | sources/core/game_object_snapshot.cpp:46-54 | the named attribute, or UnknownAttribute exactly when the name is not registered |
| GameObjects.Diff | sources/core/game_object_snapshot.cpp:21-44 | the diffset holds one delta for every attribute of the receiver |
| GameObjects.Compare | sources/core/game_object_snapshot.cpp:21-44 | succeeds exactly when every attribute exists in the other object with a diffable class, and then returns the diffset; otherwise it reports a missing name or a class mismatch that actually occurs |
| GameObjects.InterpolateValues | include/core/game_object.hpp:45-53 | the result keeps the id, class and attribute names; attributes without a delta are unchanged |
| GameObjects.Interpolate | include/core/game_object.hpp:45-53 | fails exactly when a delta names an unknown attribute (UnknownAttribute) or mismatches its class (TypeMismatch) |
| GameObjects.InterpolateDiffAtOne | include/core/game_object.hpp:45-53 | interpolating a by the whole of compare(a, b) yields b |
| GameObjects.InterpolateAtZero | include/core/game_object.hpp:45-53 | interpolating by fraction 0 gives the object back |
| GameObjects.NoInterpAttributeSnapsBack | include/core/types.hpp:311-319 | a NoInterp attribute keeps its old value even at fraction 1 |
| GameObjects.DiffSelfIsZero | sources/core/game_object_snapshot.cpp:21-44 | comparing an object with itself gives a zero delta for every attribute |
| GameObjects.ValuesChecksum | include/core/game_object.hpp:71-78 | the XOR fold over no attributes is 0 |
| GameObjects.ObjectChecksum | include/core/game_object.hpp:71-78 | an object without attributes has checksum 0; otherwise the checksum is any one attribute's checksum XOR the checksum of the rest |
| GameObjects.ChecksumRemoveAny | include/core/game_object.hpp:71-78 | every attribute can be XOR-ed out of the fold |
| GameObjects.ChecksumRemove | include/core/game_object.hpp:71-78 | the XOR fold can peel off any attribute first, whatever order the fold picked |
| GameObjects.XorOverFrame | include/core/game_object.hpp:71-78 | the fold over a list of names depends only on the values under those names |
| GameObjects.ChecksumAnyOrder | include/core/game_object.hpp:71-78 | XORing the attribute checksums in any duplicate-free order of the names gives the object checksum |
| GameObjects.ChecksumIgnoresId | include/core/game_object.hpp:71-78 | objects with equal attributes have equal checksums |
| GameObjects.SerializeValues | include/core/game_object.hpp:102-108 | one blob per attribute, each of that value's width |
| GameObjects.SerializeObject | include/core/game_object.hpp:102-108 | the message carries the id, the type name and one blob per attribute |
| GameObjects.FillSlots | include/core/game_object.hpp:110-114 | succeeds exactly when every blob names a registered slot; each slot keeps its class; slots without a blob keep their value |
| GameObjects.Registry.constructor | include/core/game_object.hpp:116-120 | the registry starts with no registered class |
| GameObjects.Registry.Register | include/core/game_object.hpp:145-148 | registering a name maps it to the creator, overwriting an earlier entry |
| GameObjects.InstantiateObject | include/core/game_object.hpp:122-130 | a registered name gives its default object; an unknown one gives UnknownClassType with that name |
| GameObjects.DeserializeObject | include/core/game_object.hpp:110-114 | an unknown type name fails with UnknownClassType; a success has the message's id and the registered class |
| GameObjects.FillSlotsRoundTrip | include/core/game_object.hpp:102-114 | filling a schema's slots from the serialized values of the same schema gives those values |
| GameObjects.ObjectRoundTrip | include/core/game_object.hpp:102-114 | deserialize(serialize(o)) == o when o's class is registered with its schema |
| Snapshots.Stepped | include/core/snapshot.hpp:36-40 | the physics step keeps the ids, the classes and the set of objects |
| Snapshots.Snapshot.constructor | sources/core/snapshot.cpp:3-6 | a new snapshot is empty at the given tick |
| Snapshots.Snapshot.Copy | sources/core/snapshot.cpp:8-14 | the copy holds the same objects at tick + 1 |
| Snapshots.Snapshot.AssignFrom | sources/core/gameinstance.cpp:85 | copy assignment takes the other snapshot's objects and its tick (no tick step, unlike the copy constructor); also `_current_snapshot = next_snapshot` at sources/core/gameinstance.cpp:50 |
| Snapshots.Snapshot.AddObject | include/core/snapshot.hpp:58-61 | stores the object under its id, replacing an earlier one, and keeps every object under its own id |
| Snapshots.Snapshot.DeleteObject | include/core/snapshot.hpp:63-69 | true exactly when an object had the id; afterwards none has |
| Snapshots.Snapshot.GetObject | sources/core/snapshot.cpp:27-42 | the object under the id, or nothing exactly when the id is absent |
| Snapshots.Snapshot.Update | include/core/snapshot.hpp:36-40 | every object takes its physics step; the tick is kept |
| Snapshots.Snapshot.Apply | include/core/snapshot.hpp:42-51 | OutOfRange outside [0,1]; otherwise succeeds exactly when every changed object exists and accepts its deltas, giving a fresh snapshot at the receiver's tick |
| Snapshots.EvaluateSpec | sources/core/snapshot.cpp:50-90 | deleted ids = prev - next, added ids = next - prev, diffed ids = surviving objects with attributes, the three pairwise disjoint, with the two ticks as labels |
| Snapshots.Evaluate | sources/core/snapshot.cpp:50-90 | succeeds exactly when every surviving object can be compared, and then gives the deleted, added and changed maps of the two snapshots; otherwise the error is a real compare failure |
| Snapshots.ScanPrevious | sources/core/snapshot.cpp:53-75 | the first pass records each object missing from the next snapshot as deleted and a non-empty diffset for each survivor |
| Snapshots.ScanNext | sources/core/snapshot.cpp:76-89 | the second pass records exactly the objects new in the next snapshot |
| Snapshots.EvaluateSpecCharacterised | sources/core/snapshot.cpp:50-90 | maps with the key sets and entries the two passes establish are the delta snapshot's maps |
| Snapshots.DeltaValuesCharacterised | sources/core/snapshot.cpp:67-73 | the changed map is determined by its keys and entries |
| Snapshots.OnlyInFirst | sources/core/snapshot.cpp:62-66 | the deleted (and added) map is determined by its keys and entries |
| Snapshots.EvaluatePartition | sources/core/snapshot.cpp:50-90 | deleted, added and changed ids are pairwise disjoint; deleted = prev - next, added = next - prev, changed = surviving objects with attributes |
| Snapshots.EvaluateCopy | sources/core/snapshot.cpp:50-90 | diffing a snapshot against an identical one adds and deletes nothing and records only zero deltas |
| Snapshots.ApplyStructure | include/core/snapshot.hpp:42-51 | below 1 the ids are kept; at 1 the added ids appear and the deleted ids vanish; unchanged objects are carried over |
| Snapshots.ApplyAtZero | include/core/snapshot.hpp:42-51 | applying any applicable delta at 0 gives the receiver's objects |
| Snapshots.ApplyEvaluateReconstructs | include/core/snapshot.hpp:42-51 | applying evaluate(prev, next) in full to prev gives next, when surviving objects keep their schema and interpolate |
| Actions.NewAction | include/core/action.hpp:14-16 | GameAction(id) has that id |
| Actions.DefaultAction | include/core/action.hpp:18-20 | the default constructor gives id 0 |
| Actions.ActSpec | include/core/action.hpp:22-30 | perform runs only when the check returns true; a false check throws ImpossibleActionException "Action cannot be activated"; a failing check leaves the snapshot untouched |
| Actions.Act | include/core/action.hpp:22-30 | act changes the snapshot's objects exactly as ActSpec says and keeps its tick |
| Actions.SerializeStatus | sources/core/action.cpp:60-69 | the record carries the id, success flag and message |
| Actions.DeserializeStatus | sources/core/action.cpp:71-81 | deserialize is the two-sided inverse of serialize |
| Actions.SerializeStatusList | sources/core/action.cpp:83-92 | one record per status |
| Actions.DeserializeStatusList | sources/core/action.cpp:94-105 | one status per record |
| Actions.SerializeStatusListOrder | sources/core/action.cpp:83-92 | record i is the serialization of status i |
| Actions.StatusListRoundTrip | sources/core/action.cpp:83-105 | deserializing a serialized status list gives it back |
| Actions.StatusListMsgRoundTrip | sources/core/action.cpp:83-105 | serializing a deserialized list message gives it back |
| Actions.SerializeAction | sources/core/action.cpp:17-29 | the message carries the id, the type name and one blob per slot |
| Actions.InstantiateAction | sources/core/action.cpp:50-58 | a registered name gives its default action; an unknown one gives UnknownClassType with that name |
| Actions.DeserializedAction | sources/core/action.cpp:31-48 | UnknownClassType for an unregistered class; otherwise succeeds exactly when every blob names a registered slot (else UnknownAttribute), with the message's id, the registered class and its slots |
| Actions.DeserializeAction | sources/core/action.cpp:31-48 | rebuilds the action: UnknownClassType for an unknown class, UnknownAttribute for an unknown slot, otherwise the message's id with every slot filled |
| Actions.ActionRoundTrip | sources/core/action.cpp:17-48 | deserialize(serialize(a)) == a when a's class is registered with its slots |
| TsDeque.ThreadSafeDeque.constructor | include/net/tsdeque.hpp:14 | a new queue is empty |
| TsDeque.ThreadSafeDeque.Front | include/net/tsdeque.hpp:27-36 | the first element, or EmptyQueue exactly when empty |
| TsDeque.ThreadSafeDeque.Back | include/net/tsdeque.hpp:38-46 | the last element, or EmptyQueue exactly when empty |
| TsDeque.ThreadSafeDeque.PopFront | include/net/tsdeque.hpp:48-58 | returns and removes the first element; on an empty queue it fails and changes nothing |
| TsDeque.ThreadSafeDeque.PopBack | include/net/tsdeque.hpp:60-70 | returns and removes the last element; on an empty queue it fails and changes nothing |
| TsDeque.ThreadSafeDeque.PushBack | include/net/tsdeque.hpp:72-79 | the queue becomes old + [x] |
| TsDeque.ThreadSafeDeque.PushFront | include/net/tsdeque.hpp:81-88 | the queue becomes [x] + old |
| TsDeque.ThreadSafeDeque.Count | include/net/tsdeque.hpp:96-100 | the number of elements |
| TsDeque.ThreadSafeDeque.Empty | include/net/tsdeque.hpp:90-94 | true exactly when the count is 0, which is exactly when front and back throw |
| TsDeque.ThreadSafeDeque.Clear | include/net/tsdeque.hpp:102-106 | the queue becomes empty |
| TsDeque.FifoRoundTrip | include/net/tsdeque.hpp:48-79 | elements pushed at the back and popped from the front come out in insertion order |
| TsDeque.LifoAtFront | include/net/tsdeque.hpp:48-88 | elements pushed at the front and popped from the front come out reversed |
| Worlds.Inserted | sources/core/world.cpp:8-12 | insert adds the object's id, never replaces a stored object, and stores the object when its id was free |
| Worlds.World.constructor | sources/core/world.cpp:4-6 | a new world has no objects |
| Worlds.World.AddGameObject | sources/core/world.cpp:8-12 | the objects become the std::map::insert of the new one |
| Worlds.World.GetGameObject | sources/core/world.cpp:15-24 | the object under the id, or UnknownId with that id exactly when it is absent |
| Worlds.InsertAll | sources/core/world.cpp:8-12 | a run of inserts stores every id of the run and keeps the objects stored before |
| Worlds.FirstInsertWins | sources/core/world.cpp:8-12 | of several objects added under one id, the first is kept |
| GameInstances.PlayStep | sources/core/gameinstance.cpp:60-80 | the status has the action's id; success exactly when act throws nothing, then with an empty message; otherwise the exception's message |
| GameInstances.RunActions | sources/core/gameinstance.cpp:31-36 | one status per action, in queue order, with the action's id; every success has an empty message |
| GameInstances.RunActionsInOrder | sources/core/gameinstance.cpp:31-36 | status i is action i played on the objects the earlier actions left |
| GameInstances.RunActionsSnoc | sources/core/gameinstance.cpp:32-36 | one more loop iteration appends one status and advances the objects |
| GameInstances.TickObjects | sources/core/gameinstance.cpp:31-39 | the physics step keeps the set of objects the actions left |
| GameInstances.GameInstance.constructor | sources/core/gameinstance.cpp:13-23 | initial and current snapshots hold the argument's objects at the tick two copies later; queue, statuses and history are empty |
| GameInstances.GameInstance.AddAction | sources/core/gameinstance.cpp:55-58 | the action joins the back of the queue |
| GameInstances.GameInstance.ActionList | sources/core/gameinstance.cpp:98-101 | as many actions as queued, front first, without removing any |
| GameInstances.GameInstance.PlayAction | sources/core/gameinstance.cpp:60-80 | plays the action on the snapshot and reports the status PlayStep gives |
| GameInstances.GameInstance.DrainQueue | sources/core/gameinstance.cpp:31-36 | the queue ends empty; the statuses and objects are those of playing the queued actions in FIFO order; the tick is kept |
| GameInstances.GameInstance.UpdateTick | sources/core/gameinstance.cpp:25-53 | the queue ends empty; the statuses are exactly those of the drained actions in FIFO order; on success the delta of old current vs. the new state is returned and appended, and current becomes the new state at tick + 1 |
| GameInstances.TickDelta | sources/core/gameinstance.cpp:42-44 | the tick's delta runs from the old tick to its successor and deletes, adds and diffs as the tick changed the objects |
| GameInstances.TickReplicates | sources/core/gameinstance.cpp:25-53 | a client applying the tick's delta in full to the old state reaches the new state |
| GameInstances.IdleTick | sources/core/gameinstance.cpp:25-53 | with no actions and an identity physics step, the delta adds and deletes nothing and has only zero deltas |

## Left out

- **Floating point.** Float payloads (`vec2f_t`, `float_value_t`) and
  float rounding are left out. The interpolation fraction is an exact
  real number. `_ms_per_tick` and the physics time step are left out;
  the physics step is a parameter.
- **CRC-32.** `boost::crc_32_type` is a parameter function. The model
  proves only how checksums combine, not their CRC values.
- **Protocol buffers.** Wire messages are datatypes holding the same
  fields as the protobuf messages. The protobuf byte encoding and the
  JSON printing in the tests are left out.
- **Threads.** Mutexes, the condition variable, `wait` and the
  registrar's console output are left out. The queue is modelled
  sequentially.
- **`to_vector`.** `action_list` calls `to_vector`, which
  `include/net/tsdeque.hpp` does not define. The model returns the
  queued items.
- **Pointers.** Pointer identity, sharing and `clone` are left out. A
  cloned object is equal to its original. Copy assignment of a snapshot
  copies its map, so objects shared through `shared_ptr` are not
  modelled as aliases.
- **`GameInstance()`.** The default constructor, marked unimplemented
  in the source, is left out.
- **Trivial accessors.** `current_snapshot`, `action_status_list`,
  `tick()`, `id()` and the `DeltaSnapshot` accessors are fields of the
  model.
- **Exceptions from game logic.** Game logic can only throw the two
  exceptions `_play_action` catches. Any other exception would leave
  `update_tick` mid-way.
- Types.Interp: the float arithmetic of `interp`
  (`include/core/types.hpp:154-161`, `226-234`) is idealised as exact
  real arithmetic. Several lemmas therefore hold in the source only
  while every payload, delta and sum stays within 2^24 in magnitude,
  the range in which `float` represents integers exactly. These are
  Types.InterpAtZero, Types.InterpDeltaAtOne,
  Types.InterpVecAtOneIsPlus, GameObjects.InterpolateDiffAtOne,
  Snapshots.ApplyEvaluateReconstructs and
  GameInstances.TickReplicates. For example, the source maps a payload
  of 16777217 at fraction 0 to 16777216. A float result outside the
  `int` range converts with undefined behaviour (payload 2147483647
  plus delta 6 at fraction 1); the model wraps it.
- Types.GetDelta: a difference outside the `int32_t` range
  (`include/core/types.hpp:150`, `222`) is signed overflow, which is
  undefined behaviour in C++. The model wraps it modulo 2^32, and so
  do Types.Plus, Types.Minus, Types.Scale and the `+=`/`-=` slots.
- Snapshots.Evaluate: the error is only stated to be a real
  failure, not the first one met, because the order of a `std::map`
  walk is not modelled.
- GameObjects.Compare: the error is only stated to be a real
  failure, not the first one met, for the same reason.
- Actions.DeserializeAction: for a blob whose name is not a
  registered slot, the source dereferences the null pointer that
  `operator[]` inserts, which is undefined behaviour. The model reports
  UnknownAttribute.
- GameObjects.DeserializeObject: the header's declaration
  (`include/core/game_object.hpp:110-114`) has no body. The model
  follows the steps of the action version. It reports UnknownAttribute
  for an unregistered name.
- Snapshots.Snapshot.Apply: the source declares `apply` without a
  definition. The result tick is the receiver's, and a delta for an id
  the receiver lacks is UnknownId. Neither the header nor the tests
  say which tick the result has or what an unknown id does.
- GameObjects.Interpolate: the source declares `interpolate` without a
  definition. Its error split (UnknownAttribute, TypeMismatch) is the
  model's choice, after `compare`.
- GameObjects.ObjectChecksum: the source declares `checksum` without a
  definition. The model follows the doc comment's XOR of the attribute
  checksums.
- Snapshots.Snapshot.Update: the source declares `update` without a
  definition. The model runs the physics parameter on every object and
  keeps the tick.
- **Back's error message.** `back()`, `pop_back()` and `pop_front()`
  reuse the "front element" message; the model has only one
  EmptyQueue error.
- **Checked casts.** A failed `dynamic_cast` inside `get_delta`,
  `interp` or `change` dereferences null in the source. The model makes
  these cases preconditions, and `compare` and `interpolate` report
  them as TypeMismatch.
- **Legacy files.** The observer pattern, rendering, networking
  sessions and the legacy `_old` files are not part of this model.
