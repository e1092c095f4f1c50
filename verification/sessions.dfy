/** The session manager of internal/session/sessions.go over the in-memory
    provider: the provider registry, manager construction, starting and
    destroying a session from its cookie, and token renewal after login.

    A cookie is `None` when the request has none; its value is taken to be
    the sid already unescaped. Fresh session ids come from a UUID generator
    and are passed in. */
module Sessions {
  import opened Wrappers
  import opened Memory

  /** `Register`: a nil provider or a name already taken panics (the
      `Failure` carries the panic message); otherwise the name is added. */
  function Register<P>(registry: map<string, P>, name: string, provider: Option<P>): (r: Result<map<string, P>, string>)
    ensures provider.None? ==> r == Failure("session: Register provider is nil")
    ensures provider.Some? && name in registry ==> r == Failure("session: Register called twice for provider " + name)
    ensures r.Success? <==> provider.Some? && name !in registry
    ensures r.Success? ==> r.value == registry[name := provider.value] && r.value.Keys == registry.Keys + {name}
  {
    if provider.None? then Failure("session: Register provider is nil")
    else if name in registry then Failure("session: Register called twice for provider " + name)
    else Success(registry[name := provider.value])
  }

  /** `Manager`, without its lock. */
  datatype Manager<P> = Manager(cookieName: string, provider: P, maxlifetime: int)

  /** `NewManager`: only a registered provider name gives a manager. */
  function NewManager<P>(registry: map<string, P>, provideName: string, cookieName: string,
                         maxlifetime: int): (r: Result<Manager<P>, string>)
    ensures r.Success? <==> provideName in registry
    ensures r.Success? ==> r.value == Manager(cookieName, registry[provideName], maxlifetime)
  {
    if provideName !in registry then
      Failure("session: unknown provide \"" + provideName + "\" (forgotten import?)")
    else Success(Manager(cookieName, registry[provideName], maxlifetime))
  }

  /** A name registered once is found by `NewManager`. */
  lemma RegisterThenNewManager<P>(registry: map<string, P>, name: string, provider: P, cookieName: string,
                                  maxlifetime: int)
    requires name !in registry
    ensures var reg := Register(registry, name, Some(provider));
            reg.Success? && NewManager(reg.value, name, cookieName, maxlifetime) == Success(Manager(cookieName, provider, maxlifetime))
  {
  }

  /** A request has no usable session cookie when it has none or its value is empty. */
  predicate NoSession(cookie: Option<string>) {
    cookie.None? || cookie.value == ""
  }

  /** `SessionStart`: without a usable cookie a new session is created under
      `freshSid`; otherwise the cookie's session is read (and re-created
      empty when the provider has forgotten it). */
  function SessionStart(p: Provider, cookie: Option<string>, freshSid: string, now: int): (r: (Provider, nat))
    requires WellFormed(p)
    ensures WellFormed(r.0) && r.1 in r.0.stores
    ensures NoSession(cookie) ==> r == SessionInit(p, freshSid, now)
    ensures !NoSession(cookie) ==> r.0.stores[r.1].sid == cookie.value && cookie.value in r.0.index && r.0.index[cookie.value] == r.1
    ensures !NoSession(cookie) && cookie.value in p.index ==> r == (p, p.index[cookie.value])
  {
    if NoSession(cookie) then SessionInit(p, freshSid, now)
    else SessionRead(p, cookie.value, now)
  }

  /** `Manager.SessionDestroy`: destroys the cookie's session, if there is a cookie. */
  function ManagerSessionDestroy(p: Provider, cookie: Option<string>): (r: Provider)
    requires WellFormed(p)
    ensures WellFormed(r)
    ensures NoSession(cookie) ==> r == p
    ensures !NoSession(cookie) ==> cookie.value !in r.index && r == SessionDestroy(p, cookie.value)
  {
    if NoSession(cookie) then p else SessionDestroy(p, cookie.value)
  }

  /** `Set` on a store whose sid is indexed: it succeeds, and only the
      caller's values change. */
  function SetOnLive(q: Provider, h: nat, key: Key, value: Value, now: int): (r: Provider)
    requires WellFormed(q) && h in q.stores && q.stores[h].sid in q.index
    ensures WellFormed(r) && h in r.stores && r.stores[h].sid == q.stores[h].sid
    ensures r.index == q.index && r.userSessions == q.userSessions && r.stores.Keys == q.stores.Keys
    ensures r.stores[h].values == q.stores[h].values[key := value]
    ensures forall x :: x in q.stores && x != h ==> r.stores[x].values == q.stores[x].values
  {
    var s := Set(q, h, key, value, now);
    RefreshedFrame(q, s.value, h, now);
    s.value
  }

  /** The copy loop of `RenewToken`: `Set` every old value on the new
      session, in whatever order Go's map iteration yields. */
  method CopyValues(p: Provider, h: nat, values: map<Key, Value>, now: int) returns (q: Provider)
    requires WellFormed(p) && h in p.stores && p.stores[h].sid in p.index && p.index[p.stores[h].sid] == h
    requires p.stores[h].values == map[]
    ensures WellFormed(q) && h in q.stores && q.stores[h].sid == p.stores[h].sid
    ensures q.index == p.index && q.userSessions == p.userSessions
    ensures q.stores[h].values == values
    ensures q.stores.Keys == p.stores.Keys
    ensures forall x :: x in p.stores && x != h ==> q.stores[x].values == p.stores[x].values
  {
    q := p;
    var todo := values.Keys;
    while todo != {}
      invariant WellFormed(q) && h in q.stores && q.stores[h].sid == p.stores[h].sid
      invariant q.index == p.index && q.userSessions == p.userSessions
      invariant q.stores.Keys == p.stores.Keys
      invariant forall x :: x in p.stores && x != h ==> q.stores[x].values == p.stores[x].values
      invariant todo <= values.Keys
      invariant q.stores[h].values == values - todo
      decreases todo
    {
      var k :| k in todo;
      q := SetOnLive(q, h, k, values[k], now);
      CopyOneKey(values, todo, k);
      todo := todo - {k};
    }
  }

  /** Copying key `k` moves it from the keys still to copy to the copied part. */
  lemma CopyOneKey<K, V>(values: map<K, V>, todo: set<K>, k: K)
    requires k in todo && todo <= values.Keys
    ensures (values - todo)[k := values[k]] == values - (todo - {k})
  {
  }

  /** `RenewToken`: after a login the session moves to a fresh id. The old
      session's values are copied into a new session under `newSid`, the old
      sid is destroyed and the user is bound to the new one. `newSid` is a
      fresh UUID: no session, binding or cookie uses it yet. */
  method RenewToken(p: Provider, cookie: Option<string>, userID: int, newSid: string, now: int)
    returns (r: Result<Provider, string>)
    requires WellFormed(p)
    requires !NoSession(cookie) ==> newSid != cookie.value && newSid !in p.index
    requires forall u :: u in p.userSessions ==> p.userSessions[u] != newSid
    ensures NoSession(cookie) <==> r == Failure("session: no existing session")
    ensures r.Success? ==>
              && WellFormed(r.value)
              && newSid in r.value.index
              && r.value.stores[r.value.index[newSid]].values ==
                   (if cookie.value in p.index then p.stores[p.index[cookie.value]].values else map[])
              && cookie.value !in r.value.index
              && r.value.userSessions == p.userSessions[userID := newSid]
    ensures r.Success? ==> forall sid :: sid in r.value.index ==> sid == newSid || sid in p.index
    ensures r.Success? ==>
              forall sid :: sid in p.index && sid != cookie.value && (userID in p.userSessions ==> sid != p.userSessions[userID]) ==>
                sid in r.value.index && r.value.stores[r.value.index[sid]].values == p.stores[p.index[sid]].values
    ensures r.Success? && userID in p.userSessions ==> p.userSessions[userID] !in r.value.index
  {
    if NoSession(cookie) {
      return Failure("session: no existing session");
    }
    var oldSid := cookie.value;
    var q := RenewPrepare(p, oldSid, newSid, now);
    var r4 := DestroyAndBind(q, oldSid, userID, newSid);
    RenewFrame(p, q, r4, oldSid, newSid, userID);
    return Success(r4);
  }

  /** The steps of `RenewToken` up to the destroy: read the old session,
      take its values, create the session `newSid` and copy them into it. */
  method RenewPrepare(p: Provider, oldSid: string, newSid: string, now: int) returns (q: Provider)
    requires WellFormed(p) && newSid != oldSid && newSid !in p.index
    ensures WellFormed(q) && q.userSessions == p.userSessions
    ensures newSid in q.index &&
            q.stores[q.index[newSid]].values == if oldSid in p.index then p.stores[p.index[oldSid]].values else map[]
    ensures forall sid :: sid in q.index ==> sid == newSid || sid == oldSid || sid in p.index
    ensures Untouched(p, q, oldSid)
  {
    var p2, oldValues := TakeOld(p, oldSid, now);
    var (p3, newH) := SessionInit(p2, newSid, now);
    q := CopyValues(p3, newH, oldValues, now);
    UntouchedSteps(p, p2, q, oldSid, newSid, newH);
  }

  /** The first two steps of `RenewToken`: `SessionRead` the old sid, then
      `GetAll` its values. */
  method TakeOld(p: Provider, oldSid: string, now: int) returns (p2: Provider, oldValues: map<Key, Value>)
    requires WellFormed(p)
    ensures WellFormed(p2) && p2.userSessions == p.userSessions
    ensures p2.index.Keys == p.index.Keys + {oldSid}
    ensures oldValues == if oldSid in p.index then p.stores[p.index[oldSid]].values else map[]
    ensures Untouched(p, p2, oldSid)
  {
    var (p1, oldH) := SessionRead(p, oldSid, now);
    ReadUntouched(p, oldSid, now);
    var (r2, vals) := GetAll(p1, oldH, now);
    GetAllKeepsValues(p1, oldH, now);
    p2, oldValues := r2, vals;
  }

  /** `SessionRead` leaves every other session where it was. */
  lemma ReadUntouched(p: Provider, sid: string, now: int)
    requires WellFormed(p)
    ensures Untouched(p, SessionRead(p, sid, now).0, sid)
  {
    var (p1, h) := SessionRead(p, sid, now);
    forall s | s in p.index && s != sid
      ensures s in p1.index && p1.index[s] == p.index[s] && p1.stores[p1.index[s]].values == p.stores[p.index[s]].values
    {
      assert p1.stores[p.index[s]] == p.stores[p.index[s]];
    }
  }

  /** `GetAll` changes no session's values, and an untouched session stays
      untouched across it. */
  lemma GetAllKeepsValues(p1: Provider, h: nat, now: int)
    requires WellFormed(p1) && h in p1.stores
    ensures forall x :: x in p1.stores ==> x in GetAll(p1, h, now).0.stores &&
                                           GetAll(p1, h, now).0.stores[x].values == p1.stores[x].values
    ensures forall p: Provider, sid: string :: WellFormed(p) && Untouched(p, p1, sid) ==> Untouched(p, GetAll(p1, h, now).0, sid)
  {
    var q := GetAll(p1, h, now).0;
    if p1.stores[h].sid in p1.index {
      RefreshedFrame(p1, q, h, now);
    }
  }

  /** The untouched sessions survive the destroy and the new binding, except
      the one the user was bound to. */
  lemma RenewFrame(p: Provider, q: Provider, r: Provider, oldSid: string, newSid: string, userID: int)
    requires WellFormed(p) && WellFormed(q) && WellFormed(r) && Untouched(p, q, oldSid)
    requires q.userSessions == p.userSessions && r.stores == q.stores
    requires forall sid :: sid in q.index && sid != oldSid && (userID in q.userSessions ==> sid != q.userSessions[userID]) ==>
               sid in r.index && r.index[sid] == q.index[sid]
    ensures forall sid :: sid in p.index && sid != oldSid && (userID in p.userSessions ==> sid != p.userSessions[userID]) ==>
              sid in r.index && r.stores[r.index[sid]].values == p.stores[p.index[sid]].values
  {
  }

  /** Every session of `p` other than `oldSid` is in `q` under the same
      element with the same values. */
  predicate Untouched(p: Provider, q: Provider, oldSid: string)
    requires WellFormed(p) && WellFormed(q)
  {
    forall sid :: sid in p.index && sid != oldSid ==>
      sid in q.index && q.index[sid] == p.index[sid] && q.stores[q.index[sid]].values == p.stores[p.index[sid]].values
  }

  /** Creating the session `newSid` and copying into it leave the other
      sessions alone. */
  lemma UntouchedSteps(p: Provider, p2: Provider, q: Provider, oldSid: string, newSid: string, newH: nat)
    requires WellFormed(p) && WellFormed(p2) && WellFormed(q) && Untouched(p, p2, oldSid)
    requires newSid !in p.index && newH !in p2.stores
    requires q.index == p2.index[newSid := newH]
    requires forall x :: x in p2.stores ==> x in q.stores && q.stores[x].values == p2.stores[x].values
    ensures Untouched(p, q, oldSid)
  {
  }

  /** The end of `RenewToken`: destroy the old sid, then bind the user to
      the new one. The new session survives both steps with its store. */
  function DestroyAndBind(q: Provider, oldSid: string, userID: int, newSid: string): (r: Provider)
    requires WellFormed(q) && newSid in q.index && newSid != oldSid
    requires forall u :: u in q.userSessions ==> q.userSessions[u] != newSid
    ensures WellFormed(r) && r.stores == q.stores
    ensures newSid in r.index && r.index[newSid] == q.index[newSid]
    ensures oldSid !in r.index
    ensures r.userSessions == q.userSessions[userID := newSid]
    ensures forall sid :: sid in r.index ==> sid in q.index
    ensures forall sid :: sid in q.index && sid != oldSid && (userID in q.userSessions ==> sid != q.userSessions[userID]) ==>
              sid in r.index && r.index[sid] == q.index[sid]
    ensures userID in q.userSessions ==> q.userSessions[userID] !in r.index
  {
    var p4 := SessionDestroy(q, oldSid);
    assert userID in p4.userSessions ==> p4.userSessions[userID] != newSid;
    SessionBindUser(p4, userID, newSid)
  }
}
