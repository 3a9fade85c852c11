/** lib/serialize.js: projects a record through a mapping tree into the
    document that Elasticsearch stores. */
module Serialize {
  import opened JsValue
  import ObjectIdString
  import DateJson

  /** A node of the mapping tree. A node whose `properties` object is present
      is composite (field name to child node); any other node is a leaf, whose
      own contents (the field's type, index options) the serializer ignores. */
  datatype Mapping =
    | Leaf(fieldType: string)
    | Composite(properties: map<string, Mapping>)

  /** The inputs on which the serializer does not throw: a composite node
      with at least one declared field never meets `undefined` or `null`,
      because reading `model[field]` off either throws. A composite node
      without fields reads nothing and yields the empty record. */
  predicate WellFormed(v: Value, m: Mapping)
    decreases m, v
  {
    match m
    case Leaf(_) => true
    case Composite(props) =>
      match v
      case Undefined => props == map[]
      case Null => props == map[]
      case Arr(elems) => forall i | 0 <= i < |elems| :: WellFormed(elems[i], m)
      case _ => forall f | f in props :: WellFormed(Get(v, f), props[f])
  }

  /** `d` is an index document for mapping `m`: under a composite node it is
      an array of such documents, or a record that holds no undeclared field,
      no `undefined` field, and omits only fields whose node is a leaf; under
      a leaf it is a primitive: no ObjectID, Date or other object. */
  predicate Conforms(d: Value, m: Mapping)
    decreases m, d
  {
    match m
    case Leaf(_) => IsPrimitive(d)
    case Composite(props) =>
      match d
      case Arr(elems) => forall i | 0 <= i < |elems| :: Conforms(elems[i], m)
      case Obj(fields) =>
        && fields.Keys <= props.Keys
        && forall f | f in props ::
             if f in fields then fields[f] != Undefined && Conforms(fields[f], props[f])
             else props[f].Leaf?
      case _ => false
  }

  /** The leaf case: an ObjectID becomes its string form, a Date its JSON
      form, any other object `undefined`; primitives pass through. */
  function NormalizeLeaf(v: Value): (r: Value)
    ensures IsPrimitive(r)
    ensures IsPrimitive(v) ==> r == v
    ensures v.Arr? || v.Obj? ==> r == Undefined
  {
    match v
    case ObjectId(bytes) => Str(ObjectIdString.HexString(bytes))
    case Date(t) => DateJson.DateToJson(t)
    case Arr(_) => Undefined
    case Obj(_) => Undefined
    case _ => v
  }

  /** `serialize(model, mapping)`. */
  function Serialize(v: Value, m: Mapping): (r: Value)
    requires WellFormed(v, m)
    ensures Conforms(r, m)
    decreases m, v
  {
    match m
    case Leaf(_) => NormalizeLeaf(v)
    case Composite(props) =>
      if v.Arr? then
        Arr(seq(|v.elems|, i requires 0 <= i < |v.elems| => Serialize(v.elems[i], m)))
      else
        Obj(map f | f in props && Serialize(Get(v, f), props[f]) != Undefined
                 :: Serialize(Get(v, f), props[f]))
  }

  /** Over a record, the output is a record whose keys are declared fields,
      and a declared field is present exactly when its own serialization is
      not `undefined`, holding that serialization. */
  lemma SerializeRecord(v: Value, m: Mapping, f: string)
    requires WellFormed(v, m) && m.Composite? && !v.Arr?
    ensures var r := Serialize(v, m);
      && r.Obj?
      && r.fields.Keys <= m.properties.Keys
      && (f in m.properties ==>
            (f in r.fields <==> Serialize(Get(v, f), m.properties[f]) != Undefined))
      && (f in r.fields ==> r.fields[f] == Serialize(Get(v, f), m.properties[f]))
  {
  }

  /** A field missing from the record is left out of the output, not set to
      `null`, when its node is a leaf; so is a field holding an object that
      is neither an ObjectID nor a Date. A missing field whose node is
      composite can only have a node without fields, and becomes `{}`. */
  lemma OmittedFields(v: Value, m: Mapping, f: string)
    requires WellFormed(v, m) && m.Composite? && v.Obj? && f in m.properties
    ensures m.properties[f].Leaf? && (f !in v.fields || v.fields[f].Obj? || v.fields[f].Arr?) ==>
      Serialize(v, m).Obj? && f !in Serialize(v, m).fields
    ensures m.properties[f].Composite? && f !in v.fields ==>
      m.properties[f].properties == map[] && Serialize(v, m).Obj? && Serialize(v, m).fields[f] == Obj(map[])
  {
  }

  /** Over an array, the output is an array of the same length whose element
      `i` is the serialization of element `i` against the same node. */
  lemma SerializeArray(v: Value, m: Mapping)
    requires WellFormed(v, m) && m.Composite? && v.Arr?
    ensures var r := Serialize(v, m);
      && r.Arr? && |r.elems| == |v.elems|
      && forall i :: 0 <= i < |v.elems| ==> WellFormed(v.elems[i], m) && r.elems[i] == Serialize(v.elems[i], m)
  {
  }

  /** At a leaf, an ObjectID becomes a lower-case hexadecimal string, two
      digits per byte, from which its bytes can be read back. */
  lemma ObjectIdLeaf(bytes: seq<byte>, fieldType: string)
    ensures var r := Serialize(ObjectId(bytes), Leaf(fieldType));
      && r.Str? && |r.s| == 2 * |bytes|
      && ObjectIdString.ParseHex(r.s) == Some(bytes)
  {
    ObjectIdString.ParseHexString(bytes);
  }

  /** At a leaf, a valid Date becomes its ISO string and an invalid one `null`. */
  lemma DateLeaf(t: TimeValue, fieldType: string)
    ensures var r := Serialize(Date(t), Leaf(fieldType));
      && (DateJson.TimeClip(t).NaN? ==> r == Null)
      && (DateJson.TimeClip(t).Time? ==> r == Str(DateJson.IsoString(t.ms)))
      && (r.Str? ==> DateJson.ParseIso(r.s) == Some(t.ms))
  {
    assert Serialize(Date(t), Leaf(fieldType)) == DateJson.DateToJson(t);
  }

  /** At a leaf, primitives (`undefined`, `null`, booleans, numbers, strings)
      are returned unchanged, and any other object that is neither an ObjectID
      nor a Date yields `undefined`. */
  lemma PrimitiveLeaf(v: Value, fieldType: string)
    ensures IsPrimitive(v) ==> Serialize(v, Leaf(fieldType)) == v
    ensures v.Obj? || v.Arr? ==> Serialize(v, Leaf(fieldType)) == Undefined
  {
  }

  /** An index document is left unchanged by serializing it again. */
  lemma {:induction false} ConformingIsFixpoint(d: Value, m: Mapping)
    requires Conforms(d, m)
    ensures WellFormed(d, m) && Serialize(d, m) == d
    decreases m, d
  {
    match m
    case Leaf(_) =>
    case Composite(props) =>
      match d
      case Arr(elems) =>
        forall i | 0 <= i < |elems|
          ensures WellFormed(elems[i], m) && Serialize(elems[i], m) == elems[i]
        {
          ConformingIsFixpoint(elems[i], m);
        }
        assert Serialize(d, m).elems == elems;
      case Obj(fields) =>
        forall f | f in props
          ensures WellFormed(Get(d, f), props[f])
          ensures Serialize(Get(d, f), props[f]) == if f in fields then fields[f] else Undefined
        {
          if f in fields {
            ConformingIsFixpoint(fields[f], props[f]);
          }
        }
        assert Serialize(d, m).fields == fields;
  }

  /** Serializing twice equals serializing once. */
  lemma SerializeIdempotent(v: Value, m: Mapping)
    requires WellFormed(v, m)
    ensures WellFormed(Serialize(v, m), m)
    ensures Serialize(Serialize(v, m), m) == Serialize(v, m)
  {
    ConformingIsFixpoint(Serialize(v, m), m);
  }
}
