/**
 * The session facade: `AbstractSession` with its two concrete forms,
 * `LazySession` (the container comes from a factory on first data access)
 * and `Session` (the container is given at construction).
 */
module Sessions {
  import opened Wrappers
  import opened JsonValues
  import opened AssocLists
  import opened Containers
  import opened SessionExt
  import opened ContainerFactory

  /** The `$data` argument of the `Session` constructor: a container, an
      array, or anything else. */
  datatype SessionArgument =
    | ContainerArgument(container: DataContainer)
    | ArrayArgument(entries: Data)
    | OtherArgument

  class AbstractSession {
    const id: string
    const isNew: bool
    /** The lifetime override; None until `persistFor` is called. */
    var lifetime: Option<int>
    var isRegenerated: bool
    /** The container, null until a lazy session first needs it. */
    var data: DataContainer?
    /** The data factory of a `LazySession`; a `Session` has none. */
    const factory: Option<DataFactory>
    /** How many times the factory produced a container. */
    ghost var factoryCalls: nat
    ghost var Repr: set<object>

    ghost predicate Valid()
      reads this, Repr
    {
      && this in Repr
      && (data != null ==> data in Repr && data.Valid())
      && (factory.Some? ==>
            factory.value.ext in Repr && factory.value.ext.Valid()
            && factoryCalls == (if data == null then 0 else 1))
      && (factory.None? ==> data != null && factoryCalls == 0)
    }

    /** `new LazySession($id, $isNew, $dataFactory)`: the factory is not called. */
    constructor LazySession(id: string, isNew: bool, dataFactory: DataFactory)
      requires dataFactory.ext.Valid()
      ensures Valid() && fresh(Repr - {dataFactory.ext})
      ensures this.id == id && this.isNew == isNew && factory == Some(dataFactory)
      ensures data == null && factoryCalls == 0 && !HasChanged()
      ensures lifetime == None && !isRegenerated
    {
      this.id := id;
      this.isNew := isNew;
      factory := Some(dataFactory);
      lifetime := None;
      isRegenerated := false;
      data := null;
      factoryCalls := 0;
      Repr := {this, dataFactory.ext};
    }

    /** The `Session` constructor for a container argument: it is kept as it is. */
    constructor Session(id: string, isNew: bool, container: DataContainer)
      requires container.Valid()
      ensures Valid() && fresh(Repr - {container})
      ensures this.id == id && this.isNew == isNew && factory == None
      ensures data == container
      ensures lifetime == None && !isRegenerated
    {
      this.id := id;
      this.isNew := isNew;
      factory := None;
      lifetime := None;
      isRegenerated := false;
      data := container;
      factoryCalls := 0;
      Repr := {this, container};
    }

    /** What a data call sees: the container as it was before the call, or
        the one the factory has just produced. */
    twostate function Seen(): Data
      reads this, Repr
      requires data != null
    {
      if old(data) != null then old(data.data) else data.originalData
    }

    /** The effect of `data()` on the session and the extension: nothing when
        the container exists; otherwise one factory call, which opens the
        store as `createDataContainer` does and yields a fresh, unchanged
        container (or raises, leaving the session without one). */
    twostate predicate DataAccessed(ok: bool)
      requires Valid()
      reads this, Repr
    {
      && lifetime == old(lifetime) && isRegenerated == old(isRegenerated)
      && (ok ==> data != null)
      && (factory.Some? ==> factory.value.ext.ini == old(factory.value.ext.ini))
      && (old(data) != null ==>
            ok && data == old(data) && factoryCalls == old(factoryCalls)
            && (factory.Some? ==> factory.value.ext.State() == old(factory.value.ext.State())))
      && (old(data) == null && factory.Some? ==>
            var f := factory.value;
            && Consistent(old(f.ext.State()), f.ext.rejected)
            && var (outcome, state) := OpenForRead(old(f.ext.State()), f.ext.rejected, f.requestId, f.nonLocking);
            && f.ext.State() == state
            && (ok <==> outcome.Success?)
            && (ok ==> fresh(data) && data.originalData == state.superglobal.GetOr([]) && factoryCalls == 1)
            && (!ok ==> data == null && factoryCalls == 0))
    }

    /** `data()`: LazySession calls its factory once and memoises the
        result; Session returns the container it was given. */
    method Data() returns (r: Result<DataContainer, Error>)
      requires Valid()
      modifies Repr
      ensures Valid() && fresh(Repr - old(Repr))
      ensures DataAccessed(r.Success?)
      ensures r.Failure? ==> r.error == SessionsDisabled
      ensures r.Success? ==> r.value == data && data.data == Seen()
    {
      if data == null {
        var f := factory.value;
        var c :- CreateDataContainer(f.ext, f.requestId, f.nonLocking);
        data := c;
        factoryCalls := factoryCalls + 1;
        Repr := Repr + {c};
      }
      r := Success(data);
    }

    /** `get($name, $default)`. */
    method Get(name: string, default: Value) returns (r: Result<Value, Error>)
      requires Valid()
      modifies Repr
      ensures Valid() && fresh(Repr - old(Repr)) && DataAccessed(r.Success?)
      ensures r.Failure? ==> r.error == SessionsDisabled
      ensures r.Success? ==> data.data == Seen() && r.value == data.Get(name, default)
    {
      var c :- Data();
      r := Success(c.Get(name, default));
    }

    /** `has($name)`. */
    method Has(name: string) returns (r: Result<bool, Error>)
      requires Valid()
      modifies Repr
      ensures Valid() && fresh(Repr - old(Repr)) && DataAccessed(r.Success?)
      ensures r.Failure? ==> r.error == SessionsDisabled
      ensures r.Success? ==> data.data == Seen() && r.value == data.Has(name)
    {
      var c :- Data();
      r := Success(c.Has(name));
    }

    /** `set($name, $value)`: the container is obtained first, so a value
        json_encode cannot represent raises only after a lazy session has
        opened the store. */
    method Set(name: string, value: Value) returns (r: Result<(), Error>)
      requires Valid()
      modifies Repr
      ensures Valid() && fresh(Repr - old(Repr)) && DataAccessed(data != null)
      ensures data == null ==> r == Failure(SessionsDisabled)
      ensures data != null ==> (r.Failure? <==> !Encodable(value))
      ensures data != null && r.Failure? ==> r.error == NotSerializable && data.data == Seen()
      ensures r.Success? ==> Serializable(value).Some? && data.data == Put(Seen(), name, Serializable(value).value)
    {
      var c :- Data();
      r := c.Set(name, value);
    }

    /** `unset($name)`. */
    method Unset(name: string) returns (r: Result<(), Error>)
      requires Valid()
      modifies Repr
      ensures Valid() && fresh(Repr - old(Repr)) && DataAccessed(r.Success?)
      ensures r.Failure? ==> r.error == SessionsDisabled
      ensures r.Success? ==> data.data == Remove(Seen(), name)
    {
      var c :- Data();
      c.Unset(name);
      r := Success(());
    }

    /** `clear()`. */
    method Clear() returns (r: Result<(), Error>)
      requires Valid()
      modifies Repr
      ensures Valid() && fresh(Repr - old(Repr)) && DataAccessed(r.Success?)
      ensures r.Failure? ==> r.error == SessionsDisabled
      ensures r.Success? ==> data.data == []
    {
      var c :- Data();
      c.Clear();
      r := Success(());
    }

    /** `toArray()`. */
    method ToArray() returns (r: Result<Data, Error>)
      requires Valid()
      modifies Repr
      ensures Valid() && fresh(Repr - old(Repr)) && DataAccessed(r.Success?)
      ensures r.Failure? ==> r.error == SessionsDisabled
      ensures r.Success? ==> data.data == Seen() && r.value == data.data && Distinct(r.value)
    {
      var c :- Data();
      r := Success(c.ToArray());
    }

    /** `jsonSerialize()`: the same array as `toArray()`. */
    method JsonSerialize() returns (r: Result<Data, Error>)
      requires Valid()
      modifies Repr
      ensures Valid() && fresh(Repr - old(Repr)) && DataAccessed(r.Success?)
      ensures r.Failure? ==> r.error == SessionsDisabled
      ensures r.Success? ==> data.data == Seen() && r.value == data.data && Distinct(r.value)
    {
      r := ToArray();
    }

    /** The container's contents, or None while it does not exist. */
    function Contents(): Option<Data>
      reads this, data
    {
      if data == null then None else Some(data.data)
    }

    /** `hasChanged()`: a lazy session whose factory has not run has not
        changed, and asking does not run it. Otherwise the session has
        changed exactly when some key reads a value other than the one its
        container was built with, or the keys stand in another order. */
    function HasChanged(): (r: bool)
      reads this, Repr
      requires Valid()
      ensures factory.Some? && factoryCalls == 0 ==> !r
      ensures data != null ==>
                (r <==> !SameValues(data.data, data.originalData) || KeyOrder(data.data) != KeyOrder(data.originalData))
    {
      if data == null then false else HasChangedExactly(data); data.HasChanged()
    }

    /** `regenerate()`: only marks the session; the new id is chosen when the
        session is persisted. */
    method Regenerate()
      requires Valid()
      modifies this`isRegenerated
      ensures Valid() && isRegenerated
    {
      isRegenerated := true;
    }

    /** `persistFor($lifetime)`. */
    method PersistFor(seconds: int)
      requires Valid()
      modifies this`lifetime
      ensures Valid() && lifetime == Some(seconds)
    {
      lifetime := Some(seconds);
    }
  }

  /** `new Session($id, $isNew, $data)`: a container is kept as it is, an
      array is wrapped in a fresh container, anything else fails. */
  method NewSession(id: string, isNew: bool, arg: SessionArgument) returns (r: Result<AbstractSession, Error>)
    requires arg.ContainerArgument? ==> arg.container.Valid()
    requires arg.ArrayArgument? ==> Distinct(arg.entries)
    ensures r.Failure? <==> arg.OtherArgument?
    ensures r.Failure? ==> r.error == InvalidSessionData
    ensures r.Success? ==>
              && fresh(r.value) && r.value.Valid() && r.value.data != null
              && r.value.id == id && r.value.isNew == isNew && r.value.factory == None
              && r.value.lifetime == None && !r.value.isRegenerated
    ensures arg.ContainerArgument? ==> r.Success? && r.value.data == arg.container
    ensures arg.ArrayArgument? ==>
              && r.Success? && fresh(r.value.data)
              && r.value.data.data == arg.entries && !r.value.HasChanged()
  {
    if arg.ContainerArgument? {
      var s := new AbstractSession.Session(id, isNew, arg.container);
      r := Success(s);
    } else if arg.ArrayArgument? {
      var c := new DataContainer(Some(arg.entries));
      var s := new AbstractSession.Session(id, isNew, c);
      r := Success(s);
    } else {
      r := Failure(InvalidSessionData);
    }
  }
}
