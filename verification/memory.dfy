/** The in-memory session provider of internal/memory/memory.go.

    The Go provider keeps a doubly linked list of `*SessionStore` elements
    (front = most recently used) and an index from session id to list
    element. Elements are pointers: a caller keeps its `*SessionStore` after
    the provider forgets it. Here every element gets a number when it is
    created; `stores` maps numbers to the store contents (alive or not), the
    list is a sequence of numbers with the front at index 0, and the index
    maps session ids to numbers. Time is an integer count of seconds. */
module Memory {
  import opened Wrappers

  /** Session values are `interface{}` in Go; the forum stores user IDs and strings. */
  datatype Value = IntValue(i: int) | StrValue(s: string)

  type Key = string

  /** `SessionStore`. */
  datatype Store = Store(sid: string, accessed: int, values: map<Key, Value>)

  /** `Provider`: the store contents by element number, the recency list,
      the sid index, the user → sid binding, and the next element number. */
  datatype Provider = Provider(
    stores: map<nat, Store>,
    list: seq<nat>,
    index: map<string, nat>,
    userSessions: map<int, string>,
    next: nat)

  /** The package-level provider before any request. */
  function NewProvider(): (p: Provider)
    ensures Consistent(p) && p.index == map[] && p.userSessions == map[]
  {
    Provider(map[], [], map[], map[], 0)
  }

  predicate NoDup(s: seq<nat>) {
    forall i, j :: 0 <= i < j < |s| ==> s[i] != s[j]
  }

  /** What holds of every provider the operations build: list elements and
      indexed elements exist and are distinct, each index entry points at a
      listed element carrying that sid, and numbers are never reused. */
  predicate WellFormed(p: Provider) {
    && NoDup(p.list)
    && (forall e :: e in p.list ==> e in p.stores)
    && (forall sid :: sid in p.index ==> p.index[sid] in p.list && p.index[sid] in p.stores &&
                                         p.stores[p.index[sid]].sid == sid)
    && (forall e :: e in p.stores ==> e < p.next)
  }

  /** The index and the list describe the same sessions: every listed
      element is the one the index holds for its sid. */
  predicate Consistent(p: Provider) {
    && WellFormed(p)
    && (forall e :: e in p.list ==> p.stores[e].sid in p.index && p.index[p.stores[e].sid] == e)
  }

  function ListedSids(p: Provider): set<string>
    requires WellFormed(p)
  {
    set i | 0 <= i < |p.list| :: p.stores[p.list[i]].sid
  }

  /** Under `Consistent`, the sids in the index are exactly the sids in the list. */
  lemma IndexMatchesList(p: Provider)
    requires Consistent(p)
    ensures p.index.Keys == ListedSids(p)
  {
    forall sid | sid in p.index ensures sid in ListedSids(p) {
      var i :| 0 <= i < |p.list| && p.list[i] == p.index[sid];
    }
  }

  /** The list without element `e`, in order. */
  function Without(s: seq<nat>, e: nat): (r: seq<nat>)
    ensures forall x :: x in r <==> x in s && x != e
    ensures NoDup(s) ==> NoDup(r)
    ensures |r| <= |s|
  {
    if s == [] then []
    else
      var rest := Without(s[1..], e);
      if s[0] == e then rest
      else
        assert NoDup(s) ==> NoDup([s[0]] + rest) by {
          if NoDup(s) {
            assert s[0] !in s[1..];
          }
        }
        [s[0]] + rest
  }

  /** The elements of `s` run from the most to the least recently used. */
  predicate RecentOrder(s: seq<nat>, stores: map<nat, Store>)
    requires forall x :: x in s ==> x in stores
  {
    forall i, j :: 0 <= i < j < |s| ==> stores[s[i]].accessed >= stores[s[j]].accessed
  }

  /** Removing an element keeps the others in recency order. */
  lemma {:induction false} WithoutKeepsOrder(s: seq<nat>, e: nat, stores: map<nat, Store>)
    requires forall x :: x in s ==> x in stores
    requires RecentOrder(s, stores)
    ensures RecentOrder(Without(s, e), stores)
  {
    if s != [] {
      assert RecentOrder(s[1..], stores) by {
        forall i, j | 0 <= i < j < |s[1..]| ensures stores[s[1..][i]].accessed >= stores[s[1..][j]].accessed {
          assert s[1..][i] == s[i + 1] && s[1..][j] == s[j + 1];
        }
      }
      WithoutKeepsOrder(s[1..], e, stores);
      var rest := Without(s[1..], e);
      if s[0] != e {
        var r := [s[0]] + rest;
        forall j | 0 <= j < |rest| ensures stores[s[0]].accessed >= stores[rest[j]].accessed {
          assert rest[j] in s[1..];
          var k :| 0 <= k < |s[1..]| && s[1..][k] == rest[j];
          assert s[k + 1] == rest[j];
        }
        forall i, j | 0 <= i < j < |r| ensures stores[r[i]].accessed >= stores[r[j]].accessed {
          if i > 0 {
            assert r[i] == rest[i - 1] && r[j] == rest[j - 1];
          } else {
            assert r[j] == rest[j - 1];
          }
        }
      }
    }
  }

  // ---------------------------------------------------------------------------
  // Provider operations
  // ---------------------------------------------------------------------------

  /** `SessionInit`, corrected: the new element goes to the FRONT of the list,
      where `SessionUpdate` puts the most recently used one. Returns the
      provider and the new store's element number. */
  function SessionInit(p: Provider, sid: string, now: int): (r: (Provider, nat))
    requires WellFormed(p)
    ensures WellFormed(r.0)
    ensures r.1 !in p.stores && r.0.stores == p.stores[r.1 := Store(sid, now, map[])]
    ensures r.0.list == [r.1] + p.list
    ensures r.0.index == p.index[sid := r.1]
    ensures r.0.userSessions == p.userSessions
  {
    var e := p.next;
    assert e !in p.list;
    (p.(stores := p.stores[e := Store(sid, now, map[])], list := [e] + p.list,
        index := p.index[sid := e], next := p.next + 1), e)
  }

  /** `SessionInit` as written: the new element goes to the BACK of the
      list, which is the end `SessionGC` treats as least recently used. */
  function SessionInitAsWritten(p: Provider, sid: string, now: int): (r: (Provider, nat))
    requires WellFormed(p)
    ensures WellFormed(r.0)
    ensures r.1 !in p.stores && r.0.stores == p.stores[r.1 := Store(sid, now, map[])]
    ensures r.0.list == p.list + [r.1]
    ensures r.0.index == p.index[sid := r.1]
  {
    var e := p.next;
    assert e !in p.list;
    (p.(stores := p.stores[e := Store(sid, now, map[])], list := p.list + [e],
        index := p.index[sid := e], next := p.next + 1), e)
  }

  /** `SessionRead`: the indexed store, or a fresh empty one for an unknown sid. */
  function SessionRead(p: Provider, sid: string, now: int): (r: (Provider, nat))
    requires WellFormed(p)
    ensures WellFormed(r.0)
    ensures sid in p.index ==> r == (p, p.index[sid])
    ensures sid !in p.index ==> r == SessionInit(p, sid, now)
    ensures r.1 in r.0.stores && r.0.stores[r.1].sid == sid && sid in r.0.index && r.0.index[sid] == r.1
    ensures r.0.index == p.index[sid := r.1] && r.0.userSessions == p.userSessions
    ensures r.0.stores[r.1].values == if sid in p.index then p.stores[p.index[sid]].values else map[]
  {
    if sid in p.index then (p, p.index[sid]) else SessionInit(p, sid, now)
  }

  /** `SessionDestroy`: forgets the sid and unlinks its element; an unknown
      sid changes nothing. It never fails, so no error is returned. */
  function SessionDestroy(p: Provider, sid: string): (r: Provider)
    requires WellFormed(p)
    ensures WellFormed(r)
    ensures sid !in r.index
    ensures r.index == p.index - {sid} && r.stores == p.stores && r.userSessions == p.userSessions
    ensures sid !in p.index ==> r == p
    ensures sid in p.index ==>
              r == p.(index := p.index - {sid}, list := r.list) &&
              forall e :: e in r.list <==> e in p.list && e != p.index[sid]
  {
    if sid in p.index then
      var e := p.index[sid];
      var r := p.(index := p.index - {sid}, list := Without(p.list, e));
      assert forall s :: s in r.index ==> r.index[s] != e;
      r
    else p
  }

  /** The element at the back of the list has been idle longer than `maxlifetime`. */
  predicate Expired(st: Store, maxlifetime: int, now: int) {
    st.accessed + maxlifetime < now
  }

  /** `SessionGC`: repeatedly drops the back element while it is expired,
      stopping at the first one that is not. */
  function SessionGC(p: Provider, maxlifetime: int, now: int): (r: Provider)
    requires WellFormed(p)
    ensures WellFormed(r)
    ensures r.stores == p.stores && r.userSessions == p.userSessions && r.next == p.next
    ensures |r.list| <= |p.list| && r.list == p.list[..|r.list|]
    ensures forall j :: |r.list| <= j < |p.list| ==> Expired(p.stores[p.list[j]], maxlifetime, now)
    ensures |r.list| > 0 ==> !Expired(p.stores[p.list[|r.list| - 1]], maxlifetime, now)
    ensures forall sid :: sid in r.index ==> sid in p.index && r.index[sid] == p.index[sid]
    decreases |p.list|
  {
    if p.list == [] then p
    else
      var e := p.list[|p.list| - 1];
      if Expired(p.stores[e], maxlifetime, now) then
        var q := p.(list := p.list[..|p.list| - 1], index := p.index - {p.stores[e].sid});
        DropBackWellFormed(p);
        var r := SessionGC(q, maxlifetime, now);
        assert p.list[..|r.list|] == q.list[..|r.list|];
        r
      else p
  }

  /** Unlinking the back element and forgetting its sid keeps the provider well formed. */
  lemma DropBackWellFormed(p: Provider)
    requires WellFormed(p) && p.list != []
    ensures var e := p.list[|p.list| - 1];
            WellFormed(p.(list := p.list[..|p.list| - 1], index := p.index - {p.stores[e].sid}))
  {
    var e := p.list[|p.list| - 1];
    var q := p.(list := p.list[..|p.list| - 1], index := p.index - {p.stores[e].sid});
    forall s | s in q.index ensures q.index[s] in q.list {
      assert p.stores[p.index[s]].sid == s;
      var k :| 0 <= k < |p.list| && p.list[k] == q.index[s];
      assert k != |p.list| - 1;
      assert q.list[k] == p.list[k];
    }
  }

  /** `SessionUpdate`: stamps the indexed element with `now` and moves it to
      the front; an unknown sid is an error and changes nothing. */
  function SessionUpdate(p: Provider, sid: string, now: int): (r: Result<Provider, string>)
    requires WellFormed(p)
    ensures sid !in p.index <==> r == Failure("session not found")
    ensures r.Success? ==> WellFormed(r.value)
    ensures r.Success? ==>
              var e := p.index[sid];
              && r.value.list == [e] + Without(p.list, e)
              && r.value.stores == p.stores[e := p.stores[e].(accessed := now)]
              && r.value.index == p.index && r.value.userSessions == p.userSessions
  {
    if sid in p.index then
      var e := p.index[sid];
      assert e !in Without(p.list, e);
      Success(p.(stores := p.stores[e := p.stores[e].(accessed := now)], list := [e] + Without(p.list, e)))
    else Failure("session not found")
  }

  /** `SessionBindUser`: destroys the session the user was bound to, if
      any, then binds the user to `sid`. */
  function SessionBindUser(p: Provider, userID: int, sid: string): (r: Provider)
    requires WellFormed(p)
    ensures WellFormed(r)
    ensures r.userSessions == p.userSessions[userID := sid]
    ensures r.stores == p.stores
    ensures r.index == if userID in p.userSessions then p.index - {p.userSessions[userID]} else p.index
    ensures userID in p.userSessions ==> p.userSessions[userID] !in r.index
    ensures userID in p.userSessions ==> r == SessionDestroy(p, p.userSessions[userID]).(userSessions := r.userSessions)
    ensures userID !in p.userSessions ==> r == p.(userSessions := r.userSessions)
  {
    var q := if userID in p.userSessions then SessionDestroy(p, p.userSessions[userID]) else p;
    q.(userSessions := p.userSessions[userID := sid])
  }

  // ---------------------------------------------------------------------------
  // SessionStore operations: `h` is the caller's store (an element number)
  // ---------------------------------------------------------------------------

  /** `q` is `p` after the caller's store `h` went through a store
      operation: the element the index holds for its sid (which is `h`
      unless `h` was replaced) is stamped with `now` and moved to the front,
      and no store other than `h` changes its values. */
  predicate Refreshed(p: Provider, q: Provider, h: nat, now: int)
    requires WellFormed(p) && h in p.stores && p.stores[h].sid in p.index
  {
    var e := p.index[p.stores[h].sid];
    && q.list == [e] + Without(p.list, e)
    && q.index == p.index && q.userSessions == p.userSessions && q.next == p.next
    && q.stores.Keys == p.stores.Keys
    && q.stores[e].accessed == now
    && (forall x :: x in p.stores && x != e ==> q.stores[x].accessed == p.stores[x].accessed)
    && (forall x :: x in p.stores ==> q.stores[x].sid == p.stores[x].sid)
    && (forall x :: x in p.stores && x != h ==> q.stores[x].values == p.stores[x].values)
  }

  /** What a refresh leaves alone: the index, the bindings, the element
      numbers, every sid, and the values of every store but the caller's. */
  lemma RefreshedFrame(p: Provider, q: Provider, h: nat, now: int)
    requires WellFormed(p) && h in p.stores && p.stores[h].sid in p.index
    requires Refreshed(p, q, h, now)
    ensures q.index == p.index && q.userSessions == p.userSessions && q.stores.Keys == p.stores.Keys
    ensures forall x :: x in p.stores ==> q.stores[x].sid == p.stores[x].sid
    ensures forall x :: x in p.stores && x != h ==> q.stores[x].values == p.stores[x].values
  {
  }

  /** `SessionUpdate` on the sid of the caller's store refreshes it. */
  lemma UpdateRefreshed(p: Provider, h: nat, now: int)
    requires WellFormed(p) && h in p.stores && p.stores[h].sid in p.index
    ensures SessionUpdate(p, p.stores[h].sid, now).Success?
    ensures Refreshed(p, SessionUpdate(p, p.stores[h].sid, now).value, h, now)
  {
  }

  /** Writing new values into the caller's store keeps a refreshed provider
      well formed and refreshed. */
  lemma WriteRefreshed(p: Provider, q: Provider, h: nat, now: int, values: map<Key, Value>)
    requires WellFormed(p) && h in p.stores && p.stores[h].sid in p.index
    requires WellFormed(q) && Refreshed(p, q, h, now)
    ensures var w := q.(stores := q.stores[h := q.stores[h].(values := values)]);
            WellFormed(w) && Refreshed(p, w, h, now) && w.stores[h].values == values
  {
    WriteWellFormed(q, h, values);
  }

  /** Replacing the values of a store keeps a provider well formed. */
  lemma WriteWellFormed(q: Provider, h: nat, values: map<Key, Value>)
    requires WellFormed(q) && h in q.stores
    ensures WellFormed(q.(stores := q.stores[h := q.stores[h].(values := values)]))
  {
    var w := q.(stores := q.stores[h := q.stores[h].(values := values)]);
    assert forall x :: x in w.stores ==> w.stores[x].sid == q.stores[x].sid;
    assert w.stores.Keys == q.stores.Keys;
  }

  /** `Set`: refreshes the store's sid, then writes the value into the
      caller's store; fails, changing nothing, once the sid is forgotten. */
  function Set(p: Provider, h: nat, key: Key, value: Value, now: int): (r: Result<Provider, string>)
    requires WellFormed(p) && h in p.stores
    ensures r.Failure? <==> p.stores[h].sid !in p.index
    ensures r.Success? ==> WellFormed(r.value) && h in r.value.stores
    ensures r.Success? ==> r.value.stores[h].values == p.stores[h].values[key := value]
    ensures r.Success? ==> r.value.index == p.index && r.value.userSessions == p.userSessions
    ensures r.Success? ==> Refreshed(p, r.value, h, now)
  {
    var u :- SessionUpdate(p, p.stores[h].sid, now);
    UpdateRefreshed(p, h, now);
    WriteRefreshed(p, u, h, now, p.stores[h].values[key := value]);
    Success(u.(stores := u.stores[h := u.stores[h].(values := p.stores[h].values[key := value])]))
  }

  /** `Get`: refreshes the sid (an error is only logged), then reads the
      caller's store; an absent key gives nil. */
  function Get(p: Provider, h: nat, key: Key, now: int): (r: (Provider, Option<Value>))
    requires WellFormed(p) && h in p.stores
    ensures WellFormed(r.0) && h in r.0.stores && r.0.stores[h].values == p.stores[h].values
    ensures r.0.index == p.index && r.0.userSessions == p.userSessions
    ensures p.stores[h].sid in p.index ==> Refreshed(p, r.0, h, now)
    ensures p.stores[h].sid !in p.index ==> r.0 == p
    ensures key in p.stores[h].values <==> r.1.Some?
    ensures key in p.stores[h].values ==> r.1 == Some(p.stores[h].values[key])
  {
    var q := match SessionUpdate(p, p.stores[h].sid, now)
      case Success(u) => u
      case Failure(_) => p;
    (q, if key in p.stores[h].values then Some(p.stores[h].values[key]) else None)
  }

  /** `GetAll`: refreshes the sid and returns every value of the caller's store. */
  function GetAll(p: Provider, h: nat, now: int): (r: (Provider, map<Key, Value>))
    requires WellFormed(p) && h in p.stores
    ensures WellFormed(r.0) && h in r.0.stores && r.0.stores[h].values == p.stores[h].values
    ensures r.0.index == p.index && r.0.userSessions == p.userSessions
    ensures p.stores[h].sid in p.index ==> Refreshed(p, r.0, h, now)
    ensures p.stores[h].sid !in p.index ==> r.0 == p
    ensures r.1 == p.stores[h].values
  {
    var q := match SessionUpdate(p, p.stores[h].sid, now)
      case Success(u) => u
      case Failure(_) => p;
    (q, p.stores[h].values)
  }

  /** `Delete`: like `Set`, removing the key instead. */
  function Delete(p: Provider, h: nat, key: Key, now: int): (r: Result<Provider, string>)
    requires WellFormed(p) && h in p.stores
    ensures r.Failure? <==> p.stores[h].sid !in p.index
    ensures r.Success? ==> WellFormed(r.value) && h in r.value.stores
    ensures r.Success? ==> r.value.stores[h].values == p.stores[h].values - {key}
    ensures r.Success? ==> r.value.index == p.index && r.value.userSessions == p.userSessions
    ensures r.Success? ==> Refreshed(p, r.value, h, now)
  {
    var u :- SessionUpdate(p, p.stores[h].sid, now);
    UpdateRefreshed(p, h, now);
    WriteRefreshed(p, u, h, now, p.stores[h].values - {key});
    Success(u.(stores := u.stores[h := u.stores[h].(values := p.stores[h].values - {key})]))
  }

  // ---------------------------------------------------------------------------
  // Properties
  // ---------------------------------------------------------------------------

  /** A new session is found by the next read, empty. */
  lemma InitThenRead(p: Provider, sid: string, now: int, later: int)
    requires WellFormed(p)
    ensures var (p1, h) := SessionInit(p, sid, now);
            SessionRead(p1, sid, later) == (p1, h) && p1.stores[h].values == map[]
  {
  }

  /** Destroying twice is destroying once. */
  lemma DestroyIdempotent(p: Provider, sid: string)
    requires WellFormed(p)
    ensures SessionDestroy(SessionDestroy(p, sid), sid) == SessionDestroy(p, sid)
  {
  }

  /** A value set is read back; a deleted key reads as nil. */
  lemma SetThenGet(p: Provider, h: nat, key: Key, value: Value, now: int, later: int)
    requires WellFormed(p) && h in p.stores && p.stores[h].sid in p.index
    ensures Set(p, h, key, value, now).Success?
    ensures Get(Set(p, h, key, value, now).value, h, key, later).1 == Some(value)
  {
  }

  lemma DeleteThenGet(p: Provider, h: nat, key: Key, now: int, later: int)
    requires WellFormed(p) && h in p.stores && p.stores[h].sid in p.index
    ensures Delete(p, h, key, now).Success?
    ensures Get(Delete(p, h, key, now).value, h, key, later).1 == None
  {
  }

  /** A write through a destroyed session fails and leaves the provider alone. */
  lemma SetAfterDestroyFails(p: Provider, h: nat, key: Key, value: Value, now: int)
    requires WellFormed(p) && h in p.stores
    ensures Set(SessionDestroy(p, p.stores[h].sid), h, key, value, now).Failure?
  {
  }

  /** Each operation keeps the index and the list in step (`SessionInit` when
      the sid is new, as it always is for generated ids). */
  lemma InitConsistent(p: Provider, sid: string, now: int)
    requires Consistent(p) && sid !in p.index
    ensures Consistent(SessionInit(p, sid, now).0)
  {
  }

  lemma DestroyConsistent(p: Provider, sid: string)
    requires Consistent(p)
    ensures Consistent(SessionDestroy(p, sid))
  {
  }

  lemma UpdateConsistent(p: Provider, sid: string, now: int)
    requires Consistent(p) && sid in p.index
    ensures Consistent(SessionUpdate(p, sid, now).value)
  {
  }

  lemma BindConsistent(p: Provider, userID: int, sid: string)
    requires Consistent(p)
    ensures Consistent(SessionBindUser(p, userID, sid))
  {
    if userID in p.userSessions {
      DestroyConsistent(p, p.userSessions[userID]);
    }
  }

  lemma {:induction false} GCConsistent(p: Provider, maxlifetime: int, now: int)
    requires Consistent(p)
    ensures Consistent(SessionGC(p, maxlifetime, now))
    decreases |p.list|
  {
    if p.list != [] {
      var e := p.list[|p.list| - 1];
      if Expired(p.stores[e], maxlifetime, now) {
        var q := p.(list := p.list[..|p.list| - 1], index := p.index - {p.stores[e].sid});
        assert Consistent(q) by {
          forall x | x in q.list ensures q.stores[x].sid in q.index && q.index[q.stores[x].sid] == x {
            var k :| 0 <= k < |q.list| && q.list[k] == x;
            assert x == p.list[k] && k != |p.list| - 1;
            assert p.stores[x].sid != p.stores[e].sid;
          }
        }
        GCConsistent(q, maxlifetime, now);
      }
    }
  }

  // ---------------------------------------------------------------------------
  // Recency order and garbage collection
  // ---------------------------------------------------------------------------

  /** The list runs from the most to the least recently used session. */
  predicate Recent(p: Provider)
    requires WellFormed(p)
  {
    RecentOrder(p.list, p.stores)
  }

  /** No listed session was touched after `now`. */
  predicate ClockAfter(p: Provider, now: int)
    requires WellFormed(p)
  {
    forall i :: 0 <= i < |p.list| ==> p.stores[p.list[i]].accessed <= now
  }

  /** In recency order, every element before a live one is live. */
  lemma LiveBefore(s: seq<nat>, stores: map<nat, Store>, n: nat, maxlifetime: int, now: int)
    requires forall x :: x in s ==> x in stores
    requires RecentOrder(s, stores)
    requires 0 < n <= |s| && !Expired(stores[s[n - 1]], maxlifetime, now)
    ensures forall i :: 0 <= i < n ==> !Expired(stores[s[i]], maxlifetime, now)
  {
  }

  /** With the list in recency order, GC removes exactly the expired sessions. */
  lemma GCRemovesExactlyExpired(p: Provider, maxlifetime: int, now: int)
    requires WellFormed(p) && Recent(p)
    ensures var r := SessionGC(p, maxlifetime, now);
            && (forall i :: 0 <= i < |r.list| ==> !Expired(r.stores[r.list[i]], maxlifetime, now))
            && (forall j :: |r.list| <= j < |p.list| ==> Expired(p.stores[p.list[j]], maxlifetime, now))
  {
    var r := SessionGC(p, maxlifetime, now);
    var n := |r.list|;
    if n > 0 {
      assert r.list == p.list[..n] && r.stores == p.stores;
      LiveBefore(p.list, p.stores, n, maxlifetime, now);
    }
  }

  /** The corrected `SessionInit` keeps the recency order. */
  lemma InitKeepsRecent(p: Provider, sid: string, now: int)
    requires WellFormed(p) && Recent(p) && ClockAfter(p, now)
    ensures Recent(SessionInit(p, sid, now).0) && ClockAfter(SessionInit(p, sid, now).0, now)
  {
    var (r, e) := SessionInit(p, sid, now);
    assert forall i :: 1 <= i < |r.list| ==> r.list[i] == p.list[i - 1] && r.list[i] != e;
  }

  /** Putting an element stamped `now` in front of a recency-ordered list
      of elements no later than `now` keeps the order. */
  lemma FrontKeepsOrder(e: nat, rest: seq<nat>, stores: map<nat, Store>, now: int)
    requires e in stores && e !in rest && forall x :: x in rest ==> x in stores
    requires RecentOrder(rest, stores)
    requires forall x :: x in rest ==> stores[x].accessed <= now
    ensures var st := stores[e := stores[e].(accessed := now)];
            && RecentOrder([e] + rest, st)
            && forall x :: x in [e] + rest ==> st[x].accessed <= now
  {
    var st := stores[e := stores[e].(accessed := now)];
    var s := [e] + rest;
    forall i, j | 0 <= i < j < |s| ensures st[s[i]].accessed >= st[s[j]].accessed {
      assert s[j] == rest[j - 1] && s[j] in rest;
      if i > 0 {
        assert s[i] == rest[i - 1] && s[i] in rest;
      }
    }
  }

  /** `SessionUpdate` keeps the recency order. */
  lemma UpdateKeepsRecent(p: Provider, sid: string, now: int)
    requires WellFormed(p) && Recent(p) && ClockAfter(p, now) && sid in p.index
    ensures var r := SessionUpdate(p, sid, now).value;
            Recent(r) && ClockAfter(r, now)
  {
    var r := SessionUpdate(p, sid, now).value;
    var e := p.index[sid];
    var rest := Without(p.list, e);
    WithoutKeepsOrder(p.list, e, p.stores);
    forall x | x in rest ensures p.stores[x].accessed <= now {
      var k :| 0 <= k < |p.list| && p.list[k] == x;
    }
    FrontKeepsOrder(e, rest, p.stores, now);
    assert r.list == [e] + rest && r.stores == p.stores[e := p.stores[e].(accessed := now)];
    forall i | 0 <= i < |r.list| ensures r.stores[r.list[i]].accessed <= now {
      assert r.list[i] in [e] + rest;
    }
  }

  /** The scenario the as-written `SessionInit` gets wrong: session "a" is
      created at time 0 and "b" at time 100; a GC at time 105 with a lifetime
      of 10 seconds stops at "b", the back element, and leaves the expired "a". */
  lemma GCKeepsExpiredAsWritten()
    ensures var p1 := SessionInitAsWritten(NewProvider(), "a", 0).0;
            var p2 := SessionInitAsWritten(p1, "b", 100).0;
            var r := SessionGC(p2, 10, 105);
            "a" in r.index && Expired(r.stores[r.index["a"]], 10, 105)
  {
    var p1 := SessionInitAsWritten(NewProvider(), "a", 0).0;
    var p2 := SessionInitAsWritten(p1, "b", 100).0;
    assert p2.list == [0, 1];
    assert p2.stores[1] == Store("b", 100, map[]);
  }

  /** The same scenario with the corrected `SessionInit`: "a" is collected and "b" kept. */
  lemma GCCollectsExpiredCorrected()
    ensures var p1 := SessionInit(NewProvider(), "a", 0).0;
            var p2 := SessionInit(p1, "b", 100).0;
            var r := SessionGC(p2, 10, 105);
            "a" !in r.index && "b" in r.index
  {
    var p1 := SessionInit(NewProvider(), "a", 0).0;
    var p2 := SessionInit(p1, "b", 100).0;
    assert p2.list == [1, 0];
    assert p2.stores[0] == Store("a", 0, map[]);
    assert p2.stores[1] == Store("b", 100, map[]);
    var q := p2.(list := [1], index := p2.index - {"a"});
    assert SessionGC(p2, 10, 105) == SessionGC(q, 10, 105);
    assert "a" != "b";
  }
}
