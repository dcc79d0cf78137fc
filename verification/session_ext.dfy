/**
 * PHP's session extension, reduced to the state the persistence layer
 * drives: the session status, the current session id, the `$_SESSION`
 * superglobal, what the save handler stores per id, and the ini settings.
 */
module SessionExt {
  import opened Wrappers
  import opened AssocLists
  import opened Containers

  /** `session_status()`: PHP_SESSION_DISABLED, PHP_SESSION_NONE, PHP_SESSION_ACTIVE. */
  datatype Status = SessionDisabled | SessionNone | SessionActive

  /** The `session.*` ini settings the core reads. Integer settings are
      given as the integers the `(int)` casts produce. */
  datatype Ini = Ini(
    name: string,
    cookieLifetime: int,
    cookieDomain: string,
    cookiePath: string,
    cookieSecure: string,
    cookieHttpOnly: string,
    cacheLimiter: string,
    cacheExpire: int)

  /** A snapshot of the extension's mutable state. */
  datatype ExtState = ExtState(
    status: Status,
    id: string,
    superglobal: Option<Data>,
    files: map<string, Data>)

  /** Every array the extension holds has distinct keys. */
  predicate WellFormed(s: ExtState) {
    (s.superglobal.Some? ==> Distinct(s.superglobal.value))
    && (forall k | k in s.files :: Distinct(s.files[k]))
  }

  /** What the save handler returns for an id; an unknown id reads as empty. */
  function Stored(files: map<string, Data>, id: string): Data {
    if id in files then files[id] else []
  }

  /** What the handler will hold once the open session, if any, is written
      and closed. */
  function Flushed(s: ExtState): map<string, Data> {
    if s.status == SessionActive then s.files[s.id := s.superglobal.GetOr([])] else s.files
  }

  /** `session_start()` on the id set before, when no session is active. It
      fails for the ids the handler refuses; otherwise it reads the stored
      data into `$_SESSION` and, with `read_and_close`, closes at once
      without writing. */
  function Start(s: ExtState, rejected: set<string>, readAndClose: bool): (bool, ExtState)
    requires s.status == SessionNone
  {
    if s.id in rejected then (false, s)
    else (true, s.(status := if readAndClose then SessionNone else SessionActive,
                   superglobal := Some(Stored(s.files, s.id))))
  }

  /** `session_write_close()`: writes `$_SESSION` for the open session and
      closes it; does nothing when no session is active. */
  function WriteClose(s: ExtState): ExtState {
    if s.status == SessionActive then s.(status := SessionNone, files := Flushed(s)) else s
  }

  class SessionExtension {
    var status: Status
    var id: string
    /** `$_SESSION`; None while it is unset. */
    var superglobal: Option<Data>
    var files: map<string, Data>
    /** The ids for which the save handler fails to open a session. */
    const rejected: set<string>
    var ini: Ini

    function State(): ExtState
      reads this
    {
      ExtState(status, id, superglobal, files)
    }

    ghost predicate Valid()
      reads this
    {
      WellFormed(State()) && (status == SessionActive ==> id !in rejected && superglobal.Some?)
    }

    /** The extension at the start of a request: no session active, no id,
        `$_SESSION` unset. */
    constructor (enabled: bool, files: map<string, Data>, rejected: set<string>, ini: Ini)
      requires forall k | k in files :: Distinct(files[k])
      ensures Valid()
      ensures State() == ExtState(if enabled then SessionNone else SessionDisabled, "", None, files)
      ensures this.rejected == rejected && this.ini == ini
    {
      status := if enabled then SessionNone else SessionDisabled;
      id := "";
      superglobal := None;
      this.files := files;
      this.rejected := rejected;
      this.ini := ini;
    }

    method SessionStart(readAndClose: bool) returns (started: bool)
      requires Valid() && status == SessionNone
      modifies this
      ensures Valid() && ini == old(ini)
      ensures (started, State()) == Start(old(State()), rejected, readAndClose)
    {
      if id in rejected {
        return false;
      }
      superglobal := Some(if id in files then files[id] else []);
      status := if readAndClose then SessionNone else SessionActive;
      started := true;
    }

    method SessionWriteClose()
      requires Valid()
      modifies this
      ensures Valid() && ini == old(ini)
      ensures State() == WriteClose(old(State()))
    {
      if status == SessionActive {
        files := files[id := superglobal.GetOr([])];
        status := SessionNone;
      }
    }

    /** `session_id($newId)`, which PHP allows only while no session is active. */
    method SetSessionId(newId: string)
      requires Valid() && status != SessionActive
      modifies this
      ensures Valid() && ini == old(ini)
      ensures State() == old(State()).(id := newId)
    {
      id := newId;
    }

    /** `$_SESSION = $d`. */
    method AssignSuperglobal(d: Data)
      requires Valid() && Distinct(d)
      modifies this
      ensures Valid() && ini == old(ini)
      ensures State() == old(State()).(superglobal := Some(d))
    {
      superglobal := Some(d);
    }
  }
}
