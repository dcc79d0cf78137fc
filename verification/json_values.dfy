/**
 * The values a session may hold, and the normalisation that
 * `DataContainer::extractSerializableValue` performs on non-scalar values
 * (a JSON encode followed by an associative JSON decode).
 */
module JsonValues {
  import opened Wrappers

  /** A PHP value as far as session data is concerned. Arrays are ordered
      maps from key to value; PHP integer keys are written as their decimal
      string, which PHP treats as the same key. */
  datatype Value =
    | Null
    | Bool(b: bool)
    | Int(i: int)
    | Str(s: string)
    | Array(entries: seq<(string, Value)>)
    /** A plain object, given by its public properties in declaration order. */
    | Object(props: seq<(string, Value)>)
    /** A value that json_encode cannot represent (a resource, say). */
    | Resource

  /** `is_scalar` (floats are not part of this model). */
  predicate IsScalar(v: Value) {
    v.Bool? || v.Int? || v.Str?
  }

  /** A value built from null, booleans, integers, strings and arrays only:
      what an associative json_decode can produce. */
  predicate IsJsonData(v: Value)
    decreases v
  {
    match v
    case Object(_) => false
    case Resource => false
    case Array(es) => forall i | 0 <= i < |es| :: IsJsonData(es[i].1)
    case _ => true
  }

  /** json_encode succeeds: no resource anywhere inside the value. */
  predicate Encodable(v: Value)
    decreases v
  {
    match v
    case Resource => false
    case Array(es) => forall i | 0 <= i < |es| :: Encodable(es[i].1)
    case Object(ps) => forall i | 0 <= i < |ps| :: Encodable(ps[i].1)
    case _ => true
  }

  /** What the JSON round trip makes of an encodable value: every object
      becomes an array with the same keys in the same order. */
  function Decoded(v: Value): Value
    decreases v
  {
    match v
    case Array(es) => Array(seq(|es|, i requires 0 <= i < |es| => (es[i].0, Decoded(es[i].1))))
    case Object(ps) => Array(seq(|ps|, i requires 0 <= i < |ps| => (ps[i].0, Decoded(ps[i].1))))
    case _ => v
  }

  /** `json_decode(json_encode($value), true)`. A value json_encode cannot
      represent makes it return false, and with strict types in force
      `json_decode(false, true)` raises a TypeError: None. */
  function Normalize(v: Value): Option<Value> {
    if Encodable(v) then Some(Decoded(v)) else None
  }

  /** The value `DataContainer::set` stores: scalars and null as they are,
      everything else normalised (None when the normalisation raises). */
  function Serializable(v: Value): Option<Value> {
    if IsScalar(v) || v == Null then Some(v) else Normalize(v)
  }

  lemma {:induction false} DecodedIsJsonData(v: Value)
    requires Encodable(v)
    ensures IsJsonData(Decoded(v))
    decreases v
  {
    match v
    case Array(es) =>
      forall i | 0 <= i < |es| ensures IsJsonData(Decoded(es[i].1)) {
        DecodedIsJsonData(es[i].1);
      }
    case Object(ps) =>
      forall i | 0 <= i < |ps| ensures IsJsonData(Decoded(ps[i].1)) {
        DecodedIsJsonData(ps[i].1);
      }
    case _ =>
  }

  lemma {:induction false} DecodedFixesJsonData(v: Value)
    requires IsJsonData(v)
    ensures Encodable(v) && Decoded(v) == v
    decreases v
  {
    match v
    case Array(es) =>
      forall i | 0 <= i < |es| ensures Encodable(es[i].1) && Decoded(es[i].1) == es[i].1 {
        DecodedFixesJsonData(es[i].1);
      }
      assert Decoded(v).entries == es;
    case _ =>
  }

  /** The round trip succeeds exactly for encodable values, and what comes
      out is plain JSON data. */
  lemma NormalizeIsJsonData(v: Value)
    ensures Normalize(v).Some? <==> Encodable(v)
    ensures Normalize(v).Some? ==> IsJsonData(Normalize(v).value)
  {
    if Encodable(v) { DecodedIsJsonData(v); }
  }

  /** Plain JSON data survives the round trip unchanged. */
  lemma NormalizeFixesJsonData(v: Value)
    requires IsJsonData(v)
    ensures Normalize(v) == Some(v)
  {
    DecodedFixesJsonData(v);
  }

  /** Normalising what a successful normalisation gave changes nothing. */
  lemma NormalizeIdempotent(v: Value)
    ensures Normalize(v).Some? ==> Normalize(Normalize(v).value) == Normalize(v)
  {
    NormalizeIsJsonData(v);
    if Normalize(v).Some? {
      NormalizeFixesJsonData(Normalize(v).value);
    }
  }

  /** The scalar shortcut in `set` agrees with normalising everything: for
      scalars and null the round trip is the identity. So `set` raises
      exactly for a value that is not encodable, and otherwise stores plain
      JSON data. */
  lemma SerializableIsNormalize(v: Value)
    ensures Serializable(v) == Normalize(v)
    ensures Serializable(v).None? <==> !Encodable(v)
    ensures Serializable(v).Some? ==> IsJsonData(Serializable(v).value)
  {
    NormalizeIsJsonData(v);
  }
}
