/**
 * Game objects (include/core/game_object.hpp and
 * sources/core/game_object_snapshot.cpp): an id, the name of the concrete
 * class, and the map from attribute names to typed values that
 * `add_values` registers.
 */
module GameObjects {
  import opened Machine
  import opened Errors
  import opened Types

  /** Attribute name -> value; std::map<std::string, GameValue*>. */
  type Values = map<string, GameValue>

  /** Attribute name -> delta, the result of `compare`. */
  type Diffset = map<string, GameValue>

  /** Attribute name -> serialized payload, the wire form of `Values`. */
  type Blobs = map<string, seq<Byte>>

  datatype GameObject = GameObject(id: Uint32, kind: string, values: Values)

  /** The default constructor: id 0, no attribute registered yet. */
  function DefaultObject(kind: string): (o: GameObject)
    ensures o.id == 0 && o.kind == kind && o.values == map[]
  {
    GameObject(0, kind, map[])
  }

  /** get_value: the named attribute; `map::at` throws for an unknown name. */
  function GetValue(o: GameObject, name: string): (r: Result<GameValue>)
    ensures r.Ok? <==> name in o.values
    ensures r.Ok? ==> r.value == o.values[name]
    ensures r.Err? ==> r.error == UnknownAttribute
  {
    if name in o.values then Ok(o.values[name]) else Err(UnknownAttribute)
  }

  // ---- compare ----

  /** Every attribute of `a` exists in `b` with a kind `a`'s get_delta accepts. */
  predicate Comparable(a: GameObject, b: GameObject)
  {
    forall n :: n in a.values ==> n in b.values && Compatible(a.values[n], b.values[n])
  }

  /** The diffset `compare` builds: one delta per attribute of the receiver. */
  function Diff(a: GameObject, b: GameObject): (d: Diffset)
    requires Comparable(a, b)
    ensures d.Keys == a.values.Keys
  {
    map n | n in a.values :: GetDelta(a.values[n], b.values[n])
  }

  /** The failures `compare` can report: a name `b` lacks, or a kind `a` cannot diff against. */
  predicate CompareError(a: GameObject, b: GameObject, e: Error)
  {
    || (e == UnknownAttribute && exists n :: n in a.values && n !in b.values)
    || (e == TypeMismatch && exists n :: n in a.values && n in b.values && !Compatible(a.values[n], b.values[n]))
  }

  /**
   * compare: walks the receiver's attributes, looks each name up in
   * `other` with `at` and stores the delta under that name.
   */
  method Compare(a: GameObject, b: GameObject) returns (r: Result<Diffset>)
    ensures r.Ok? <==> Comparable(a, b)
    ensures r.Ok? ==> r.value == Diff(a, b)
    ensures r.Err? ==> CompareError(a, b, r.error)
  {
    var differences: Diffset := map[];
    var todo := a.values.Keys;
    while todo != {}
      invariant todo <= a.values.Keys
      invariant differences.Keys == a.values.Keys - todo
      invariant forall n :: n in differences ==>
                  n in b.values && Compatible(a.values[n], b.values[n]) &&
                  differences[n] == GetDelta(a.values[n], b.values[n])
      decreases |todo|
    {
      var n :| n in todo;
      if n !in b.values {
        return Err(UnknownAttribute);
      }
      if !Compatible(a.values[n], b.values[n]) {
        return Err(TypeMismatch);
      }
      differences := differences[n := GetDelta(a.values[n], b.values[n])];
      todo := todo - {n};
    }
    return Ok(differences);
  }

  // ---- interpolate ----

  /** Every delta names an attribute of `o` whose interp accepts it. */
  predicate Interpolable(o: GameObject, diffs: Diffset)
  {
    forall n :: n in diffs ==> n in o.values && InterpCompatible(o.values[n], diffs[n])
  }

  /** The object `interpolate` returns: the attributes named in `diffs` moved a fraction `t`. */
  function InterpolateValues(o: GameObject, diffs: Diffset, t: real): (r: GameObject)
    requires Interpolable(o, diffs)
    ensures r.id == o.id && r.kind == o.kind && r.values.Keys == o.values.Keys
    ensures forall n :: n in o.values && n !in diffs ==> r.values[n] == o.values[n]
  {
    o.(values := map n | n in o.values ::
                    if n in diffs then Interp(o.values[n], diffs[n], t) else o.values[n])
  }

  /**
   * interpolate: a new object with the same id and interpolated values;
   * the receiver is a value and stays as it was.
   */
  function Interpolate(o: GameObject, diffs: Diffset, t: real): (r: Result<GameObject>)
    ensures r.Ok? <==> Interpolable(o, diffs)
    ensures r.Ok? ==> r.value == InterpolateValues(o, diffs, t)
    ensures r.Err? ==> (r.error == UnknownAttribute <==> exists n :: n in diffs && n !in o.values)
    ensures r.Err? ==> r.error == UnknownAttribute || r.error == TypeMismatch
  {
    if exists n :: n in diffs && n !in o.values then Err(UnknownAttribute)
    else if !Interpolable(o, diffs) then Err(TypeMismatch)
    else Ok(InterpolateValues(o, diffs, t))
  }

  /** The two objects differ only in their attribute payloads, which all interpolate. */
  predicate Reconstructible(a: GameObject, b: GameObject)
  {
    && a.id == b.id && a.kind == b.kind && a.values.Keys == b.values.Keys
    && forall n :: n in a.values ==> SameKind(a.values[n], b.values[n]) && !a.values[n].NoInterpInt?
  }

  /** Interpolating `a` by the whole of `compare(a, b)` yields `b`. */
  lemma InterpolateDiffAtOne(a: GameObject, b: GameObject)
    requires Reconstructible(a, b)
    ensures Comparable(a, b) && Interpolable(a, Diff(a, b))
    ensures InterpolateValues(a, Diff(a, b), 1.0) == b
  {
    assert Comparable(a, b);
    var d := Diff(a, b);
    forall n | n in d
      ensures InterpCompatible(a.values[n], d[n])
      ensures Interp(a.values[n], d[n], 1.0) == b.values[n]
    {
      InterpDeltaAtOne(a.values[n], b.values[n]);
    }
    var r := InterpolateValues(a, d, 1.0);
    assert r.values == b.values;
  }

  /** Interpolating by a fraction 0 leaves every attribute as it was. */
  lemma InterpolateAtZero(o: GameObject, diffs: Diffset)
    requires Interpolable(o, diffs)
    ensures InterpolateValues(o, diffs, 0.0) == o
  {
    forall n | n in diffs
      ensures Interp(o.values[n], diffs[n], 0.0) == o.values[n]
    {
      InterpAtZero(o.values[n], diffs[n]);
    }
    assert InterpolateValues(o, diffs, 0.0).values == o.values;
  }

  /** A no-interp attribute keeps the receiver's value even when a whole step is applied. */
  lemma NoInterpAttributeSnapsBack(a: GameObject, b: GameObject, n: string)
    requires Comparable(a, b) && n in a.values && a.values[n].NoInterpInt?
    ensures Interpolable(a, Diff(a, b))
    ensures InterpolateValues(a, Diff(a, b), 1.0).values[n] == a.values[n]
  {
    assert Interpolable(a, Diff(a, b));
  }

  /** The zero delta of each kind. */
  function Zero(v: GameValue): (z: GameValue)
  {
    if v.Vec2i? then Vec2i(0, 0) else IntVal(0)
  }

  /** An object compared with an equal copy yields a zero delta for every attribute. */
  lemma DiffSelfIsZero(a: GameObject)
    ensures Comparable(a, a)
    ensures forall n :: n in a.values ==> Diff(a, a)[n] == Zero(a.values[n])
  {
  }

  // ---- checksum ----

  /** The XOR of the attribute checksums, folded over the attributes in some order. */
  ghost function ValuesChecksum(values: Values, crc: Crc): (c: bv32)
    ensures values == map[] ==> c == 0
    decreases |values|
  {
    if values == map[] then 0
    else
      var n :| n in values;
      assert (values - {n}).Keys == values.Keys - {n};
      ValuesChecksum(values - {n}, crc) ^ Checksum(values[n], crc)
  }

  /**
   * checksum of an object: 0 without attributes, and otherwise the XOR of
   * any one attribute's checksum with the checksum of the others. It does
   * not involve the id or the class.
   */
  ghost function ObjectChecksum(o: GameObject, crc: Crc): (c: bv32)
    ensures o.values == map[] ==> c == 0
    ensures forall n :: n in o.values ==>
              c == ValuesChecksum(o.values - {n}, crc) ^ Checksum(o.values[n], crc)
  {
    ChecksumRemoveAny(o.values, crc);
    ValuesChecksum(o.values, crc)
  }

  /**
   * The fold does not depend on which attribute is taken first: any
   * attribute can be XOR-ed out last.
   */
  lemma {:induction false} ChecksumRemove(values: Values, n: string, crc: Crc)
    requires n in values
    ensures ValuesChecksum(values, crc) ==
            ValuesChecksum(values - {n}, crc) ^ Checksum(values[n], crc)
    decreases |values|
  {
    var m :| m in values && ValuesChecksum(values, crc) ==
             ValuesChecksum(values - {m}, crc) ^ Checksum(values[m], crc);
    if m != n {
      var rest := values - {m} - {n};
      assert (values - {m}).Keys == values.Keys - {m};
      assert (values - {n}).Keys == values.Keys - {n};
      ChecksumRemove(values - {m}, n, crc);
      ChecksumRemove(values - {n}, m, crc);
      assert values - {m} - {n} == values - {n} - {m};
    }
  }

  /** ChecksumRemove for every attribute at once. */
  lemma ChecksumRemoveAny(values: Values, crc: Crc)
    ensures forall n :: n in values ==>
              ValuesChecksum(values, crc) == ValuesChecksum(values - {n}, crc) ^ Checksum(values[n], crc)
  {
    forall n | n in values
      ensures ValuesChecksum(values, crc) == ValuesChecksum(values - {n}, crc) ^ Checksum(values[n], crc)
    {
      ChecksumRemove(values, n, crc);
    }
  }

  /** XOR of the attribute checksums in the order `names` lists them. */
  function XorOver(names: seq<string>, values: Values, crc: Crc): bv32
    requires forall i :: 0 <= i < |names| ==> names[i] in values
  {
    if names == [] then 0
    else XorOver(names[..|names| - 1], values, crc) ^ Checksum(values[names[|names| - 1]], crc)
  }

  lemma {:induction false} XorOverFrame(names: seq<string>, values: Values, other: Values, crc: Crc)
    requires forall i :: 0 <= i < |names| ==> names[i] in values && names[i] in other
    requires forall i :: 0 <= i < |names| ==> values[names[i]] == other[names[i]]
    ensures XorOver(names, values, crc) == XorOver(names, other, crc)
  {
    if names != [] {
      XorOverFrame(names[..|names| - 1], values, other, crc);
    }
  }

  /**
   * Whatever order the attributes are visited in, the XOR is the object
   * checksum: it is independent of attribute order.
   */
  lemma {:induction false} ChecksumAnyOrder(names: seq<string>, values: Values, crc: Crc)
    requires forall i, j :: 0 <= i < j < |names| ==> names[i] != names[j]
    requires forall i :: 0 <= i < |names| ==> names[i] in values
    requires forall n :: n in values ==> n in names
    ensures XorOver(names, values, crc) == ValuesChecksum(values, crc)
  {
    if names == [] {
      assert values == map[];
    } else {
      var last := names[|names| - 1];
      var init := names[..|names| - 1];
      var rest := values - {last};
      forall i | 0 <= i < |init| ensures init[i] in rest {
        assert init[i] == names[i] != last;
      }
      forall n | n in rest ensures n in init {
        var i :| 0 <= i < |names| && names[i] == n;
        assert i != |names| - 1;
      }
      ChecksumAnyOrder(init, rest, crc);
      XorOverFrame(init, values, rest, crc);
      ChecksumRemove(values, last, crc);
    }
  }

  /** The checksum ignores the id: objects with equal attributes have equal checksums. */
  lemma ChecksumIgnoresId(a: GameObject, b: GameObject, crc: Crc)
    requires a.values == b.values
    ensures ObjectChecksum(a, crc) == ObjectChecksum(b, crc)
  {
  }

  // ---- serialization and the factory registry ----

  /** serialization::GameObject: the id, the type name and one blob per attribute. */
  datatype ObjectMsg = ObjectMsg(id: Uint32, typeName: string, values: Blobs)

  function SerializeValues(vs: Values): (b: Blobs)
    ensures b.Keys == vs.Keys
    ensures forall n :: n in b ==> |b[n]| == Width(vs[n])
  {
    map n | n in vs :: Serialize(vs[n])
  }

  function SerializeObject(o: GameObject): (m: ObjectMsg)
    ensures m.id == o.id && m.typeName == o.kind && m.values.Keys == o.values.Keys
  {
    ObjectMsg(o.id, o.kind, SerializeValues(o.values))
  }

  /**
   * Deserializes every blob into the slot registered under its name and
   * `change`s the slot to the result; a blob for an unregistered name fails.
   */
  function FillSlots(schema: Values, blobs: Blobs): (r: Result<Values>)
    ensures r.Ok? <==> blobs.Keys <= schema.Keys
    ensures r.Err? ==> r.error == UnknownAttribute
    ensures r.Ok? ==> r.value.Keys == schema.Keys
    ensures r.Ok? ==> forall n :: n in schema ==> SameKind(r.value[n], schema[n])
    ensures r.Ok? ==> forall n :: n in schema && n !in blobs ==> r.value[n] == schema[n]
  {
    if !(blobs.Keys <= schema.Keys) then Err(UnknownAttribute)
    else Ok(map n | n in schema ::
              if n in blobs then Changed(schema[n], Deserialize(schema[n], blobs[n])) else schema[n])
  }

  /** What a registered creator builds: the class name and the slots its add_values registers. */
  datatype Creator = Creator(kind: string, schema: Values)

  /** `registry()`: the static map from type names to creators. */
  class Registry {
    var creators: map<string, Creator>

    constructor ()
      ensures creators == map[]
    {
      creators := map[];
    }

    /** Registrar: `registry()[name] = func`, overwriting an earlier entry. */
    method Register(name: string, c: Creator)
      modifies this
      ensures creators == old(creators)[name := c]
    {
      creators := creators[name := c];
    }
  }

  /** instantiate: calls the creator registered under the name, or throws. */
  function InstantiateObject(creators: map<string, Creator>, typeName: string): (r: Result<GameObject>)
    ensures r.Ok? <==> typeName in creators
    ensures r.Ok? ==> r.value == DefaultObject(creators[typeName].kind)
    ensures r.Err? ==> r.error == UnknownClassType(typeName)
  {
    if typeName in creators then Ok(DefaultObject(creators[typeName].kind))
    else Err(UnknownClassType(typeName))
  }

  /** deserialize: instantiate, register the slots, set the id, fill the slots. */
  function DeserializeObject(creators: map<string, Creator>, msg: ObjectMsg): (r: Result<GameObject>)
    ensures r.Ok? ==> r.value.id == msg.id && msg.typeName in creators
    ensures r.Ok? ==> r.value.kind == creators[msg.typeName].kind
    ensures msg.typeName !in creators ==> r == Err(UnknownClassType(msg.typeName))
  {
    match InstantiateObject(creators, msg.typeName)
    case Err(e) => Err(e)
    case Ok(o) =>
      var c := creators[msg.typeName];
      match FillSlots(c.schema, msg.values)
      case Err(e) => Err(e)
      case Ok(vs) => Ok(o.(id := msg.id, values := vs))
  }

  /** Same names, and the same kind under each name. */
  predicate SameSchema(schema: Values, vs: Values)
  {
    schema.Keys == vs.Keys && forall n :: n in schema ==> SameKind(schema[n], vs[n])
  }

  /** The creator registered under the object's class name rebuilds an object of that class. */
  predicate Registered(creators: map<string, Creator>, kind: string, vs: Values)
  {
    kind in creators && creators[kind].kind == kind && SameSchema(creators[kind].schema, vs)
  }

  lemma FillSlotsRoundTrip(schema: Values, vs: Values)
    requires SameSchema(schema, vs)
    ensures FillSlots(schema, SerializeValues(vs)) == Ok(vs)
  {
    var blobs := SerializeValues(vs);
    forall n | n in schema
      ensures Compatible(schema[n], Deserialize(schema[n], blobs[n]))
      ensures Changed(schema[n], Deserialize(schema[n], blobs[n])) == vs[n]
    {
      ChangeDeserializeRoundTrip(schema[n], vs[n]);
    }
    assert blobs.Keys <= schema.Keys;
    var filled := map n | n in schema ::
      if n in blobs then Changed(schema[n], Deserialize(schema[n], blobs[n])) else schema[n];
    assert filled == vs;
  }

  /** deserialize(serialize(o)) restores the id, the class and every attribute value. */
  lemma ObjectRoundTrip(creators: map<string, Creator>, o: GameObject)
    requires Registered(creators, o.kind, o.values)
    ensures DeserializeObject(creators, SerializeObject(o)) == Ok(o)
  {
    FillSlotsRoundTrip(creators[o.kind].schema, o.values);
  }
}
