/**
 * `DataContainer`: the change-tracked session data of one request.
 */
module Containers {
  import opened Wrappers
  import opened JsonValues
  import opened AssocLists

  /** Session data: a PHP array from string keys to values. */
  type Data = Entries<Value>

  class DataContainer {
    /** The current data, in PHP array order. */
    var data: Data
    /** The presence set (`$keys`, an array of key => true). */
    var keys: set<string>
    /** The data given to the constructor; never reassigned. */
    const originalData: Data

    ghost predicate Valid()
      reads this
    {
      Distinct(data) && Distinct(originalData) && keys == Keys(data)
    }

    /** `new DataContainer($data)`, where `$data` may be null. An empty or null
        argument leaves all three fields at their empty defaults. */
    constructor (init: Option<Data>)
      requires init.Some? ==> Distinct(init.value)
      ensures Valid()
      ensures data == originalData == init.GetOr([])
      ensures !HasChanged()
    {
      var d := init.GetOr([]);
      if d != [] {
        data, originalData := d, d;
        keys := Keys(d);
      } else {
        data, originalData := [], [];
        keys := {};
      }
    }

    /** `$this->data[$key] ?? $default`: a stored null counts as absent. */
    function Get(key: string, default: Value): (r: Value)
      reads this
      ensures key !in Keys(data) ==> r == default
      ensures Lookup(data, key) == Some(Null) ==> r == default
      ensures key in Keys(data) && Lookup(data, key) != Some(Null) ==> Lookup(data, key) == Some(r)
    {
      LookupPresent(data, key);
      match Lookup(data, key)
      case Some(v) => if v == Null then default else v
      case None => default
    }

    /** `isset($this->keys[$key])`: true for a key holding null as well. */
    function Has(key: string): (r: bool)
      reads this
      requires Valid()
      ensures r <==> Lookup(data, key).Some?
    {
      LookupPresent(data, key);
      key in keys
    }

    /** `toArray()`: the data itself, with distinct keys, exactly the keys
        `has` reports. */
    function ToArray(): (r: Data)
      reads this
      requires Valid()
      ensures r == data
      ensures Distinct(r) && Keys(r) == keys
      ensures forall k :: Lookup(r, k).Some? <==> Has(k)
    {
      data
    }

    /** `$this->data !== $this->originalData`: PHP strict array comparison.
        An unchanged container lists the original keys in the original order
        and every key reads its original value (`HasChangedExactly` gives the
        converse). */
    function HasChanged(): (r: bool)
      reads this
      ensures !r ==> KeyOrder(data) == KeyOrder(originalData)
      ensures !r ==> SameValues(data, originalData)
    {
      data != originalData
    }

    /** `set($key, $value)`: overwrites in place or appends. A value that
        json_encode cannot represent raises before anything is stored. */
    method Set(key: string, value: Value) returns (r: Result<(), Error>)
      requires Valid()
      modifies this
      ensures Valid()
      ensures r.Failure? <==> !Encodable(value)
      ensures r.Failure? ==> r.error == NotSerializable && data == old(data) && keys == old(keys)
      ensures r.Success? ==> Serializable(value).Some?
      ensures r.Success? ==> data == Put(old(data), key, Serializable(value).value)
      ensures r.Success? ==> Has(key) && Lookup(data, key) == Serializable(value)
      ensures r.Success? && IsScalar(value) ==> Lookup(data, key) == Some(value)
      ensures r.Success? ==> forall d :: Get(key, d) == if Serializable(value) == Some(Null) then d else Serializable(value).value
      ensures r.Success? ==> forall k | k != key :: Lookup(data, k) == old(Lookup(data, k)) && (Has(k) <==> old(Has(k)))
      ensures r.Success? && key in old(keys) ==> |data| == |old(data)| && forall i | 0 <= i < |data| :: data[i].0 == old(data[i].0)
      ensures old(Lookup(data, key)) == Serializable(value) ==> data == old(data) && HasChanged() == old(HasChanged())
    {
      SerializableIsNormalize(value);
      if Serializable(value).None? {
        return Failure(NotSerializable);
      }
      var stored := Serializable(value).value;
      forall k ensures Lookup(Put(data, key, stored), k) == (if k == key then Some(stored) else Lookup(data, k)) {
        LookupPut(data, key, stored, k);
      }
      PutKeys(data, key, stored);
      if key in keys {
        PutPresentKeepsOrder(data, key, stored);
      }
      if Lookup(data, key) == Some(stored) {
        PutSameValue(data, key, stored);
      }
      data := Put(data, key, stored);
      keys := keys + {key};
      LookupPresent(data, key);
      r := Success(());
    }

    /** `unset($key)`. */
    method Unset(key: string)
      requires Valid()
      modifies this
      ensures Valid()
      ensures data == Remove(old(data), key)
      ensures !Has(key) && key !in Keys(ToArray())
      ensures forall k | k != key :: Lookup(data, k) == old(Lookup(data, k)) && (Has(k) <==> old(Has(k)))
    {
      forall k ensures Lookup(Remove(data, key), k) == (if k == key then None else Lookup(data, k)) {
        LookupRemove(data, key, k);
      }
      RemoveKeys(data, key);
      data := Remove(data, key);
      keys := keys - {key};
      LookupPresent(data, key);
    }

    /** `clear()`: changed afterwards exactly when there was original data. */
    method Clear()
      requires Valid()
      modifies this
      ensures Valid()
      ensures data == [] && keys == {}
      ensures forall k :: !Has(k)
      ensures HasChanged() <==> originalData != []
    {
      data := [];
      keys := {};
    }
  }

  /** A container has changed exactly when some key reads a value other than
      its original one, or the keys stand in another order. */
  lemma HasChangedExactly(c: DataContainer)
    requires c.Valid()
    ensures c.HasChanged() <==> !SameValues(c.data, c.originalData) || KeyOrder(c.data) != KeyOrder(c.originalData)
  {
    SameArray(c.data, c.originalData);
  }

  /** Unsetting an original key and setting it back to its original value
      leaves every key reading its original value, yet the container has
      changed unless that key was the last one. */
  lemma UnsetThenResetHasChanged(c: DataContainer, i: nat)
    requires c.Valid() && i < |c.originalData|
    requires c.data == Put(Remove(c.originalData, c.originalData[i].0), c.originalData[i].0, c.originalData[i].1)
    ensures SameValues(c.data, c.originalData)
    ensures c.HasChanged() <==> i < |c.originalData| - 1
  {
    var d, key := c.originalData, c.originalData[i].0;
    UnsetThenResetReorders(d, i);
    forall k ensures Lookup(c.data, k) == Lookup(d, k) {
      LookupPut(Remove(d, key), key, d[i].1, k);
      LookupRemove(d, key, k);
      LookupAt(d, i);
    }
  }
}
