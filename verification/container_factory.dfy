/**
 * The part of `PhpSessionPersistence` that a lazy session's data factory
 * calls back into: `startSession` and `createDataContainer`, with the
 * factory closure itself. (It sits below the session classes because the
 * lazy session holds the closure and the persistence layer builds sessions.)
 */
module ContainerFactory {
  import opened Wrappers
  import opened AssocLists
  import opened Containers
  import opened PhpStrings
  import opened SessionExt

  /** What the extension's state satisfies between calls. */
  predicate Consistent(s: ExtState, rejected: set<string>) {
    WellFormed(s) && (s.status == SessionActive ==> s.id !in rejected && s.superglobal.Some?)
  }

  /** The stored contents `after` the step agree with those `before` on every
      id that had contents; the only id that may be new is `id`, empty. */
  predicate Keeps(before: map<string, Data>, after: map<string, Data>, id: string) {
    && (forall k | k in before :: k in after && after[k] == before[k])
    && (forall k | k in after && k !in before :: k == id && after[k] == [])
  }

  /** `startSession($id, $options)` as a transition of the extension's state:
      the boolean it returns (or the exception it raises) and the new state. */
  function StartSessionSpec(s: ExtState, rejected: set<string>, id: string, readAndClose: bool): (r: (Result<bool, Error>, ExtState))
    requires Consistent(s, rejected)
    ensures Consistent(r.1, rejected)
    ensures r.0.Failure? <==> s.status == SessionDisabled
    ensures r.0.Failure? ==> r.1 == s
    // an open session with the same id is reused as it is
    ensures s.status == SessionActive && s.id == id ==> r == (Success(true), s)
    ensures r.0.Success? ==> (r.0.value <==> id !in rejected)
    ensures r.0 == Success(true) ==> r.1.id == id && r.1.superglobal.Some?
    ensures r.0 == Success(true) && !(s.status == SessionActive && s.id == id) ==>
      r.1.superglobal == Some(Stored(Flushed(s), id)) && (r.1.status == SessionActive <==> !readAndClose)
    // a failed start restores the previous id and leaves no session open
    ensures r.0 == Success(false) ==> r.1.id == s.id && r.1.status == SessionNone && r.1.superglobal == s.superglobal
    // a session open under another id is written and closed first
    ensures r.1.status == SessionActive ==> r.1.id == id
    ensures Keeps(Flushed(s), Flushed(r.1), id)
  {
    if s.status == SessionDisabled then (Failure(SessionsDisabled), s)
    else
      var previousId := s.id;
      if s.status == SessionActive && id == previousId then (Success(true), s)
      else
        var closed := if s.status == SessionActive then WriteClose(s) else s;
        var (started, next) := Start(closed.(id := id), rejected, readAndClose);
        if started then (Success(true), next)
        else (Success(false), next.(id := previousId))
  }

  /** The store access of `createDataContainer($id)`: a session is started
      only for a truthy id, with `read_and_close` set to the non-locking flag. */
  function OpenForRead(s: ExtState, rejected: set<string>, id: string, nonLocking: bool): (r: (Result<bool, Error>, ExtState))
    requires Consistent(s, rejected)
    ensures Consistent(r.1, rejected)
    ensures !Truthy(id) ==> r == (Success(false), s)
    ensures Truthy(id) ==> r == StartSessionSpec(s, rejected, id, nonLocking)
    ensures Keeps(Flushed(s), Flushed(r.1), id)
    ensures Truthy(id) && nonLocking && !(s.status == SessionActive && s.id == id) ==> r.1.status != SessionActive
  {
    if Truthy(id) then StartSessionSpec(s, rejected, id, nonLocking) else (Success(false), s)
  }

  /** `startSession`. */
  method StartSession(ext: SessionExtension, id: string, readAndClose: bool) returns (r: Result<bool, Error>)
    requires ext.Valid()
    modifies ext
    ensures ext.Valid() && ext.ini == old(ext.ini)
    ensures (r, ext.State()) == StartSessionSpec(old(ext.State()), ext.rejected, id, readAndClose)
  {
    if ext.status == SessionDisabled {
      return Failure(SessionsDisabled);
    }
    var previousId := ext.id;
    if ext.status == SessionActive {
      if id == previousId {
        return Success(true);
      }
      ext.SessionWriteClose();
    }
    ext.SetSessionId(id);
    var started := ext.SessionStart(readAndClose);
    if !started {
      ext.SetSessionId(previousId);
    }
    r := Success(started);
  }

  /** `createDataContainer($id)`: starts the session for a truthy id, then
      wraps `$_SESSION ?? []` in a fresh container. */
  method CreateDataContainer(ext: SessionExtension, id: string, nonLocking: bool) returns (r: Result<DataContainer, Error>)
    requires ext.Valid()
    modifies ext
    ensures ext.Valid() && ext.ini == old(ext.ini)
    ensures ext.State() == OpenForRead(old(ext.State()), ext.rejected, id, nonLocking).1
    ensures r.Success? <==> OpenForRead(old(ext.State()), ext.rejected, id, nonLocking).0.Success?
    ensures r.Failure? ==> r.error == SessionsDisabled
    ensures r.Success? ==>
      fresh(r.value) && r.value.Valid() && r.value.data == r.value.originalData == ext.superglobal.GetOr([])
  {
    if Truthy(id) {
      var started :- StartSession(ext, id, nonLocking);
    }
    var c := new DataContainer(ext.superglobal);
    r := Success(c);
  }

  /** The closure a lazy session is given: `createDataContainer($requestId)`
      on the persistence object, which drives the process's extension. */
  datatype DataFactory = DataFactory(ext: SessionExtension, requestId: string, nonLocking: bool)
}
