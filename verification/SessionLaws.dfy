/** What the operations do to the store, stated outright: renewing, logging in, renewing
    automatically, and synchronising a user. */
module SessionLaws {
  import opened Text
  import opened Sids
  import opened Stores
  import opened SessionSteps

  /** The successor a stored session records. */
  function Next(db: Db, sid: string): Option<string>
  {
    match HGet(db, sid, NEW_SID_FIELD)
    case Some(Plain(next)) => Some(next)
    case _ => None
  }

  /** The id that the next renewal makes. */
  function NewSid(st: St, digest: string): string
  {
    GenSid(digest, st.s.meta.ttlMinutes, st.db.now)
  }

  /** Nothing stored has the id, or refers to it. */
  ghost predicate FreshIn(db: Db, sid: string)
  {
    sid !in db.hashes && forall other :: Next(db, other) != Some(sid)
  }

  // ----- renewing -----

  /** The fields that a renewal carries over. */
  function Carried(st: St, filters: Filters): Fields
  {
    Filtered(HGetAll(st.db, st.s.meta.sid), filters)
  }

  /** The user in hand after a renewal: the one carried over, else the one before. */
  function UserAfter(st: St, filters: Filters): Option<User>
  {
    var carried := Carried(st, filters);
    if st.s.meta.ttlMinutes > 0 && USER_FIELD in carried && carried[USER_FIELD].Json?
    then Some(carried[USER_FIELD].user)
    else st.s.user
  }

  /** The store after the carried fields went under the new id. */
  function Stored(db: Db, sid: string, carried: Fields, seconds: nat): Db
  {
    if carried == map[] || seconds == 0 then db
    else db.(hashes := db.hashes[sid := Hash(carried, Until(db.now + seconds, db.now))])
  }

  lemma RenewSessionMeans(st: St, filters: Filters, digest: string)
    requires NewSid(st, digest) !in st.db.hashes
    ensures
      var carried := Carried(st, filters);
      var meta := FreshMeta(st.s.meta.ttlMinutes, digest, st.db.now);
      RenewSession(st, filters, digest)
      == St(Stored(st.db, meta.sid, carried, TtlSeconds(st.s.meta)),
            st.s.(meta := meta.(touches := if carried == map[] then None else Some(true))))
  {
    hide GenSid, Filtered;
    var sid, carried := NewSid(st, digest), Carried(st, filters);
    if carried != map[] {
      var stored := HSetAll(st.db, sid, carried);
      assert map[] + carried == carried;
      assert stored.hashes[sid] == Hash(carried, Never);
      assert stored.hashes - {sid} == st.db.hashes;
    }
  }

  lemma MappingMeans(st: St)
    requires !st.s.tryLoaded
    ensures
      var stored := StoredUser(st.db, st.s.meta.sid);
      var user := if stored.Some? then stored else st.s.user;
      Mapping(st)
      == St(if user.None? then st.db else SAdd(st.db, user.value.id, st.s.meta.sid),
            st.s.(tryLoaded := true, user := user))
  {
  }

  lemma StoredUserOf(db: Db, sid: string, carried: Fields, seconds: nat)
    requires sid !in db.hashes
    ensures StoredUser(Stored(db, sid, carried, seconds), sid)
         == if carried != map[] && seconds != 0 && USER_FIELD in carried && carried[USER_FIELD].Json?
            then Some(carried[USER_FIELD].user)
            else None
  {
  }

  /** A renewal stores the carried fields under the new id, to live as long as its time to live
      says, and lists it under its user. Nothing else changes. */
  lemma RenewMeans(st: St, filters: Filters, digest: string)
    requires NewSid(st, digest) !in st.db.hashes
    ensures
      var sid, carried, user := NewSid(st, digest), Carried(st, filters), UserAfter(st, filters);
      var r, stored := Renew(st, filters, digest), Stored(st.db, sid, carried, TtlSeconds(st.s.meta));
      && r.db == (if user.None? then stored else SAdd(stored, user.value.id, sid))
      && r.s.meta == FreshMeta(st.s.meta.ttlMinutes, digest, st.db.now)
                     .(touches := if carried == map[] then None else Some(true))
      && r.s.user == user && r.s.tryLoaded && r.s.cloned == st.s.cloned
  {
    var renewed := RenewSession(st, filters, digest);
    RenewSessionMeans(st, filters, digest);
    MappingMeans(renewed.(s := renewed.s.(tryLoaded := false)));
    StoredUserOf(st.db, NewSid(st, digest), Carried(st, filters), TtlSeconds(st.s.meta));
    hide GenSid, Filtered, RenewSession, Mapping, StoredUser, Stored, SAdd;
  }

  // ----- logging in -----

  /** The session right before `log_in` renews it. */
  function LoggingIn(st: St, user: Option<User>, ttlMinutes: Option<nat>): St
  {
    var meta := if ttlMinutes.Some? then st.s.meta.(ttlMinutes := ttlMinutes.value) else st.s.meta;
    st.(s := SessionView(meta, st.s.tryLoaded, if user.Some? then user else st.s.user, Some(SnapshotOf(st.s))))
  }

  /** The fields of the old session with the user in hand written over. */
  function LoginFields(st: St, user: Option<User>): Fields
  {
    var fields := HGetAll(st.db, st.s.meta.sid);
    if user.Some? then fields[USER_FIELD := Json(user.value)]
    else if st.s.user.Some? then fields[USER_FIELD := Json(st.s.user.value)]
    else fields
  }

  /** The filters of `log_in`: the user in hand, if any. */
  function UserFilter(user: Option<User>): Filters
  {
    if user.Some? then map[USER_FIELD := Some(Json(user.value))] else map[]
  }

  lemma CarriedAtLogin(st: St, user: Option<User>, ttlMinutes: Option<nat>)
    ensures
      var ready := LoggingIn(st, user, ttlMinutes);
      Carried(ready, UserFilter(ready.s.user)) == LoginFields(st, user)
  {
  }

  /** An id leaves its user's set and its key dies. */
  function Gone(db: Db, user: Option<User>, sid: string): Db
  {
    Del(if user.Some? then SRem(db, user.value.id, sid) else db, sid)
  }

  /** `log_in`, told by its parts. */
  lemma LogInMeans(st: St, user: Option<User>, ttlMinutes: Option<nat>, digest: string)
    requires NewSid(LoggingIn(st, user, ttlMinutes), digest) !in st.db.hashes
    ensures
      var ready := LoggingIn(st, user, ttlMinutes);
      var (r, ok) := LogIn(st, user, ttlMinutes, digest);
      var renewed := Renew(ready, UserFilter(ready.s.user), digest);
      && ok == Ok(true)
      && Carried(ready, UserFilter(ready.s.user)) == LoginFields(st, user)
      && r.s == renewed.s
      && r.db == Gone(renewed.db, st.s.user, st.s.meta.sid)
  {
    var ready := LoggingIn(st, user, ttlMinutes);
    CarriedAtLogin(st, user, ttlMinutes);
    RenewMeans(ready, UserFilter(ready.s.user), digest);
    hide Renew, Carried, LoginFields, UserAfter, GenSid, Del, SRem;
  }

  /** A new session stored and listed, and an old one gone. */
  lemma MovedDb(db: Db, oldSid: string, sid: string, fields: Fields, seconds: nat, user: User, previous: Option<User>)
    requires sid !in db.hashes && sid != oldSid && fields != map[]
    ensures
      var r := Gone(SAdd(Stored(db, sid, fields, seconds), user.id, sid), previous, oldSid);
      && (if seconds == 0 then sid !in r.hashes else sid in r.hashes && r.hashes[sid].fields == fields)
      && oldSid !in r.hashes
      && (forall other | other != oldSid && other != sid ::
            && (other in r.hashes <==> other in db.hashes)
            && (other in r.hashes ==> r.hashes[other] == db.hashes[other]))
      && sid in SMembers(r, user.id)
      && (previous.Some? ==> oldSid !in SMembers(r, previous.value.id))
      && (forall uid, other | other != oldSid && other != sid ::
            other in SMembers(r, uid) <==> other in SMembers(db, uid))
  {
  }

  /** Login conserves data: the new key holds the old fields with the user written over, the old
      key is gone, the new id is listed under the user and the old one no longer under the user it
      had in hand, and every other session and listing is as before. With no time to live the
      fields are lost. */
  lemma LoginConserves(st: St, user: User, ttlMinutes: Option<nat>, digest: string)
    requires
      var sid := NewSid(LoggingIn(st, Some(user), ttlMinutes), digest);
      sid !in st.db.hashes && sid != st.s.meta.sid
    ensures
      var oldSid, sid := st.s.meta.sid, NewSid(LoggingIn(st, Some(user), ttlMinutes), digest);
      var (r, ok) := LogIn(st, Some(user), ttlMinutes, digest);
      && ok == Ok(true) && r.s.meta.sid == sid && r.s.user == Some(user)
      && (sid in r.db.hashes && r.db.hashes[sid].fields == HGetAll(st.db, oldSid)[USER_FIELD := Json(user)]
          <==> LoggingIn(st, Some(user), ttlMinutes).s.meta.ttlMinutes != 0)
      && oldSid !in r.db.hashes
      && (forall other | other != oldSid && other != sid ::
            && (other in r.db.hashes <==> other in st.db.hashes)
            && (other in r.db.hashes ==> r.db.hashes[other] == st.db.hashes[other]))
      && sid in SMembers(r.db, user.id)
      && (st.s.user.Some? ==> oldSid !in SMembers(r.db, st.s.user.value.id))
      && (forall uid, other | other != oldSid && other != sid ::
            other in SMembers(r.db, uid) <==> other in SMembers(st.db, uid))
  {
    hide Renew, LogIn, Carried, Stored, Gone, SAdd, HGetAll, SMembers, GenSid;
    var ready := LoggingIn(st, Some(user), ttlMinutes);
    LogInMeans(st, Some(user), ttlMinutes, digest);
    RenewMeans(ready, UserFilter(ready.s.user), digest);
    var fields := HGetAll(st.db, st.s.meta.sid)[USER_FIELD := Json(user)];
    assert fields[USER_FIELD] == Json(user);
    MovedDb(st.db, st.s.meta.sid, NewSid(ready, digest), fields, TtlSeconds(ready.s.meta), user, st.s.user);
  }

  /** A new session stored, and listed if it has a time to live, and an old one gone unlisted. */
  lemma MovedUnlisted(db: Db, oldSid: string, sid: string, fields: Fields, seconds: nat, user: User)
    requires sid !in db.hashes && sid != oldSid && fields != map[]
    ensures
      var stored := Stored(db, sid, fields, seconds);
      var r := Gone(if seconds == 0 then stored else SAdd(stored, user.id, sid), None, oldSid);
      && (if seconds == 0 then sid !in r.hashes else sid in r.hashes && r.hashes[sid].fields == fields)
      && oldSid !in r.hashes
      && (forall other | other != oldSid && other != sid ::
            && (other in r.hashes <==> other in db.hashes)
            && (other in r.hashes ==> r.hashes[other] == db.hashes[other]))
      && (sid in SMembers(r, user.id) <==> seconds != 0 || sid in SMembers(db, user.id))
      && (forall uid :: oldSid in SMembers(r, uid) <==> oldSid in SMembers(db, uid))
  {
  }

  /** Logging in again without naming the user, from a session that never looked for it: the
      fields and the stored user move to the new id, which is listed; but the old id stays listed
      until somebody filters it out. With no time to live the fields are lost, and the user is not
      found. */
  lemma AutoLoginMoves(st: St, digest: string)
    requires NewSid(st, digest) !in st.db.hashes && NewSid(st, digest) != st.s.meta.sid
    requires st.s.user.None? && StoredUser(st.db, st.s.meta.sid).Some?
    ensures
      var oldSid, sid, user := st.s.meta.sid, NewSid(st, digest), StoredUser(st.db, st.s.meta.sid).value;
      var lives := st.s.meta.ttlMinutes != 0;
      var (r, ok) := LogIn(st, None, None, digest);
      && ok == Ok(true) && r.s.meta.sid == sid && r.s.user == (if lives then Some(user) else None)
      && (sid in r.db.hashes && r.db.hashes[sid].fields == HGetAll(st.db, oldSid) <==> lives)
      && oldSid !in r.db.hashes
      && (forall other | other != oldSid && other != sid ::
            && (other in r.db.hashes <==> other in st.db.hashes)
            && (other in r.db.hashes ==> r.db.hashes[other] == st.db.hashes[other]))
      && (sid in SMembers(r.db, user.id) <==> lives || sid in SMembers(st.db, user.id))
      && forall uid :: oldSid in SMembers(r.db, uid) <==> oldSid in SMembers(st.db, uid)
  {
    hide Renew, LogIn, GenSid, Filtered;
    var ready := LoggingIn(st, None, None);
    LogInMeans(st, None, None, digest);
    RenewMeans(ready, UserFilter(ready.s.user), digest);
    hide UserFilter, Carried;
    var sid, fields := NewSid(st, digest), HGetAll(st.db, st.s.meta.sid);
    MovedUnlisted(st.db, st.s.meta.sid, sid, fields, TtlSeconds(st.s.meta), StoredUser(st.db, st.s.meta.sid).value);
  }

  // ----- touching, logging out, destroying -----

  /** The user is looked for once: what the store holds later does not show. */
  lemma LookedForOnce(st: St, later: Db)
    ensures LoadUser(LoadUser(st).(db := later)) == LoadUser(st).(db := later)
    ensures LoadUser(st).db == st.db && LoadUser(st).s.meta == st.s.meta && LoadUser(st).s.cloned == st.s.cloned
    ensures LoadUser(st).s.user
         == if !st.s.tryLoaded && StoredUser(st.db, st.s.meta.sid).Some? then StoredUser(st.db, st.s.meta.sid)
            else st.s.user
  {
  }

  /** Every other key is as it was. */
  ghost predicate SameElsewhere(db: Db, db': Db, sid: string)
  {
    forall other | other != sid ::
      (other in db'.hashes <==> other in db.hashes)
      && (other in db'.hashes ==> db'.hashes[other] == db.hashes[other])
  }

  /** The first touch since the last renewal sets the time to live anew, from now on; without one
      the key dies. Whether there was a key is remembered, and nothing is touched again. */
  lemma TouchMeans(st: St)
    ensures
      var r, sid, seconds := TryTouch(st), st.s.meta.sid, 60 * st.s.meta.ttlMinutes;
      if st.s.meta.touches.Some? then r == st
      else
        && r.s == st.s.(meta := st.s.meta.(touches := Some(sid in st.db.hashes)))
        && (sid in r.db.hashes <==> sid in st.db.hashes && seconds > 0)
        && (sid in r.db.hashes ==>
              r.db.hashes[sid] == Hash(st.db.hashes[sid].fields, Until(st.db.now + seconds, st.db.now)))
        && r.db.index == st.db.index && r.db.now == st.db.now
        && SameElsewhere(st.db, r.db, sid)
  {
  }

  /** Every listing is as it was, but that of the id under the user, which is gone. */
  ghost predicate Unlisted(db: Db, db': Db, uid: nat, sid: string)
  {
    && sid !in SMembers(db', uid)
    && forall u, other | u != uid || other != sid :: other in SMembers(db', u) <==> other in SMembers(db, u)
  }

  /** The user a session acts for: the stored one if it was not looked for yet, else the one in hand. */
  function ActingUser(st: St): Option<User>
  {
    if !st.s.tryLoaded && StoredUser(st.db, st.s.meta.sid).Some? then StoredUser(st.db, st.s.meta.sid) else st.s.user
  }

  lemma OnlyField(fields: Fields, field: string)
    requires field in fields
    ensures fields - {field} == map[] <==> fields.Keys == {field}
  {
    if fields - {field} == map[] {
      forall k | k in fields ensures k == field {
        assert k != field ==> k in fields - {field};
      }
    }
  }

  /** What deleting a field leaves. */
  lemma FieldDeleted(db: Db, sid: string, field: string)
    ensures
      var r, fields := HDel(db, sid, field), HGetAll(db, sid);
      && HGetAll(r, sid) == fields - {field} && SameElsewhere(db, r, sid) && r.index == db.index && r.now == db.now
      && (sid in r.hashes <==> sid in db.hashes && fields.Keys != {field})
      && (sid in r.hashes ==> r.hashes[sid].expiry == db.hashes[sid].expiry)
  {
    var fields := HGetAll(db, sid);
    if field in fields { OnlyField(fields, field); } else { assert fields - {field} == fields; }
  }

  lemma ListingRemoved(db: Db, uid: nat, sid: string)
    ensures Unlisted(db, SRem(db, uid, sid), uid, sid)
    ensures SRem(db, uid, sid).hashes == db.hashes && SRem(db, uid, sid).now == db.now
  {
  }

  /** After a logout nobody is logged in: the user is gone from the session, from its key and from
      the listing. All else stays, down to the time to live; a key with nothing but the user is
      gone. The call says whether a user was stored. */
  lemma LogoutForgets(st: St)
    requires ActingUser(st).Some?
    ensures
      var sid, fields, user := st.s.meta.sid, HGetAll(st.db, st.s.meta.sid), ActingUser(st).value;
      var (r, ok) := Logout(st);
      && r.s == st.s.(tryLoaded := true, user := None)
      && USER_FIELD !in HGetAll(r.db, sid) && HGetAll(r.db, sid) == fields - {USER_FIELD}
      && (sid in r.db.hashes <==> sid in st.db.hashes && fields.Keys != {USER_FIELD})
      && (sid in r.db.hashes ==> r.db.hashes[sid].expiry == st.db.hashes[sid].expiry)
      && SameElsewhere(st.db, r.db, sid) && Unlisted(st.db, r.db, user.id, sid) && r.db.now == st.db.now
      && (ok <==> USER_FIELD in fields)
  {
    var sid, user := st.s.meta.sid, ActingUser(st).value;
    var unlisted := SRem(st.db, user.id, sid);
    ListingRemoved(st.db, user.id, sid);
    FieldDeleted(unlisted, sid, USER_FIELD);
    assert Logout(st).0.db == HDel(unlisted, sid, USER_FIELD);
    hide HDel, SRemAll;
  }

  /** Nobody logged in: a logout changes nothing in the store, and says so. */
  lemma NobodyLogsOut(st: St)
    requires ActingUser(st).None?
    ensures Logout(st) == (st.(s := st.s.(tryLoaded := true)), false)
  {
  }

  /** A session destroyed is gone, and so is its listing; nothing else changes. The call says whether
      there was a key. */
  lemma DestroyRemoves(st: St)
    ensures
      var sid, user := st.s.meta.sid, ActingUser(st);
      var (r, ok) := Destroy(st);
      && sid !in r.db.hashes && (ok <==> sid in st.db.hashes) && SameElsewhere(st.db, r.db, sid)
      && (if user.Some? then Unlisted(st.db, r.db, user.value.id, sid) else r.db.index == st.db.index)
      && r.db.now == st.db.now && r.s == st.s.(tryLoaded := true, user := user)
  {
  }

  // ----- renewing automatically -----

  /** `do_clone`, told by its parts: the carried fields are under the new id, and the old key
      records it. */
  lemma DoCloneMeans(st: St, filters: Filters, digest: string)
    requires NewSid(st, digest) !in st.db.hashes && NewSid(st, digest) != st.s.meta.sid
    ensures
      var oldSid, sid := st.s.meta.sid, NewSid(st, digest);
      var renewed := Renew(st, filters, digest);
      var (r, ok) := DoClone(st, filters, digest);
      && ok == Ok(true) && r.s == renewed.s.(cloned := Some(SnapshotOf(st.s)))
      && r.db == HSet(Expire(renewed.db, oldSid, TtlSeconds(st.s.meta)), oldSid, NEW_SID_FIELD, Plain(sid))
  {
    var ready := st.(s := st.s.(cloned := Some(SnapshotOf(st.s))));
    RenewMeans(st, filters, digest);
    RenewMeans(ready, filters, digest);
    hide Renew;
    assert Carried(ready, filters) == Carried(st, filters) && UserAfter(ready, filters) == UserAfter(st, filters);
  }

  /** The old key with a new time to live and the pointer; without time to live the pointer alone. */
  lemma PointedAt(db: Db, oldSid: string, seconds: nat, sid: string)
    ensures
      var r := HSet(Expire(db, oldSid, seconds), oldSid, NEW_SID_FIELD, Plain(sid));
      && HGetAll(r, oldSid) == (if seconds == 0 then map[] else HGetAll(db, oldSid))[NEW_SID_FIELD := Plain(sid)]
      && oldSid in r.hashes && Next(r, oldSid) == Some(sid)
      && r.hashes[oldSid].expiry
          == (if oldSid in db.hashes && seconds > 0 then Until(db.now + seconds, db.now) else Never)
      && r.index == db.index && r.now == db.now
      && forall other | other != oldSid ::
           && (other in r.hashes <==> other in db.hashes)
           && (other in r.hashes ==> r.hashes[other] == db.hashes[other])
           && HGetAll(r, other) == HGetAll(db, other)
  {
  }

  /** After `do_clone` the current key holds the carried fields, or nothing without a time to live. */
  lemma CloneKeeps(st: St, filters: Filters, digest: string)
    requires NewSid(st, digest) !in st.db.hashes && NewSid(st, digest) != st.s.meta.sid
    ensures
      var (r, ok) := DoClone(st, filters, digest);
      && ok == Ok(true) && r.s.meta.sid == NewSid(st, digest)
      && HGetAll(r.db, r.s.meta.sid) == (if st.s.meta.ttlMinutes == 0 then map[] else Carried(st, filters))
      && Next(r.db, st.s.meta.sid) == Some(r.s.meta.sid)
      && HGetAll(r.db, st.s.meta.sid)
         == (if st.s.meta.ttlMinutes == 0 then map[] else HGetAll(st.db, st.s.meta.sid))
              [NEW_SID_FIELD := Plain(r.s.meta.sid)]
      && forall other | other != st.s.meta.sid && other != r.s.meta.sid ::
           (other in r.db.hashes <==> other in st.db.hashes) && HGetAll(r.db, other) == HGetAll(st.db, other)
  {
    DoCloneMeans(st, filters, digest);
    RenewMeans(st, filters, digest);
    hide Renew, DoClone, Carried, UserAfter, NewSid, HSet, Expire, Next;
    PointedAt(Renew(st, filters, digest).db, st.s.meta.sid, TtlSeconds(st.s.meta), NewSid(st, digest));
  }

  /** What is left of the fields without the pointer. */
  function WithoutPointer(fields: Fields): Fields
  {
    fields - {NEW_SID_FIELD}
  }

  lemma CarriedWithoutPointer(st: St)
    ensures Carried(st, map[NEW_SID_FIELD := None]) == WithoutPointer(HGetAll(st.db, st.s.meta.sid))
    ensures Carried(st, map[]) == HGetAll(st.db, st.s.meta.sid)
  {
  }

  /** The current key holds everything the session had, up to the pointer. */
  ghost predicate KeepsFields(st: St, r: St)
  {
    WithoutPointer(HGetAll(r.db, r.s.meta.sid)) == WithoutPointer(HGetAll(st.db, st.s.meta.sid))
  }

  /** The session was given up for its stored successor. */
  ghost predicate LeftToSuccessor(st: St, r: St)
  {
    var next := Next(st.db, st.s.meta.sid);
    next.Some? && next.value in r.db.hashes && next.value in st.db.hashes
        && r.db.hashes[next.value] == st.db.hashes[next.value]
  }

  /** The store is as it was. */
  ghost predicate Untouched(st: St, r: St)
  {
    r.db == st.db
  }

  /** Nothing is lost: the call succeeds and keeps the fields, or it fails and the recorded
      successor is stored, or it fails and nothing changed. */
  ghost predicate Safe(st: St, r: St, ok: Result<bool>)
  {
    if ok.Ok? then KeepsFields(st, r) else LeftToSuccessor(st, r) || Untouched(st, r)
  }

  /** A session that has nothing but the pointer has nothing to lose. */
  ghost predicate NothingToLose(st: St)
  {
    WithoutPointer(HGetAll(st.db, st.s.meta.sid)) == map[]
  }

  lemma NoPointerInNothing()
    ensures WithoutPointer(map[]) == map[]
  {
  }

  /** Touching keeps the fields, unless it is the first touch of a session without a time to live. */
  lemma TouchKeeps(st: St)
    ensures KeepsFields(st, TryTouch(st)) <==> st.s.meta.ttlMinutes > 0 || st.s.meta.touches.Some? || NothingToLose(st)
    ensures TryTouch(st).s.meta.sid == st.s.meta.sid
    ensures forall other | other != st.s.meta.sid ::
              && (other in TryTouch(st).db.hashes <==> other in st.db.hashes)
              && HGetAll(TryTouch(st).db, other) == HGetAll(st.db, other)
  {
    hide WithoutPointer;
    assert WithoutPointer(map[]) == map[] by { NoPointerInNothing(); }
  }

  /** Destroying another session leaves this one's fields alone. */
  lemma DestroyedAnother(st: St, next: string)
    requires next != st.s.meta.sid && st.s.cloned == CloneWithId(st.s, next)
    ensures
      var (r, ok) := ClonedDestroy(st);
      && r.s == st.s && (ok.Err? ==> r == st) && (ok.Err? <==> st.s.cloned.None?)
      && (ok.Ok? ==> r.db == Del(st.db, next))
      && HGetAll(r.db, st.s.meta.sid) == HGetAll(st.db, st.s.meta.sid)
  {
  }

  /** A time to live that is known belongs to a stored key. */
  lemma ActiveIsStored(st: St, intervals: Intervals)
    requires NewerIsActive(st, intervals) && intervals.inactive <= U32_MAX
    ensures st.s.cloned.Some? && st.s.cloned.value.meta.sid in st.db.hashes
  {
  }

  /** It is not yet time, or the successor is still young: the call only touches. */
  predicate OnlyTouches(st: St, intervals: Intervals)
  {
    var seconds := SecondsFromRenew(st, intervals);
    seconds < 0 || (Next(st.db, st.s.meta.sid).Some? && seconds <= intervals.original)
  }

  /** The session with its recorded successor as its clone. */
  function WithSuccessor(st: St, next: string): St
  {
    st.(s := st.s.(cloned := CloneWithId(st.s, next)))
  }

  /** The recorded successor is in use, or no id at all: the call fails. */
  predicate GivesUp(st: St, intervals: Intervals)
  {
    var next := Next(st.db, st.s.meta.sid);
    && !OnlyTouches(st, intervals)
    && next.Some? && (NewerIsActive(WithSuccessor(st, next.value), intervals) || MetaOf(next.value).Err?)
  }

  lemma NextIsPlain(db: Db, sid: string)
    ensures Next(db, sid).Some? ==> HGet(db, sid, NEW_SID_FIELD) == Some(Plain(Next(db, sid).value))
  {
  }

  lemma CloneHasId(s: SessionView, found: SessionView, next: string)
    ensures CloneWithId(s, next).Some? ==>
              CloneWithId(s, next).value.meta.sid == next && CloneWithId(s, next).value.user == None
    ensures CloneWithId(found, next) == CloneWithId(s, next)
    ensures CloneWithId(s, next).None? <==> MetaOf(next).Err?
  {
  }

  /** Sessions other than this one, its successor and the new one keep their fields. */
  ghost predicate AllButTwo(st: St, r: St, next: string, digest: string)
  {
    forall other | other != st.s.meta.sid && other != NewSid(st, digest) && other != next ::
      (other in r.db.hashes <==> other in st.db.hashes) && HGetAll(r.db, other) == HGetAll(st.db, other)
  }

  lemma PointerOnce(fields: Fields)
    ensures WithoutPointer(WithoutPointer(fields)) == WithoutPointer(fields)
  {
  }

  /** What becomes of a session whose recorded successor is old enough: it is destroyed for a
      successor in use, or the successor is replaced by another copy. */
  lemma ReplacedOrLeft(st: St, next: string, intervals: Intervals, digest: string)
    requires st.s.meta.sid in st.db.hashes && intervals.inactive <= U16_MAX
    requires NewSid(st, digest) !in st.db.hashes && Next(st.db, st.s.meta.sid) == Some(next) && next != st.s.meta.sid
    ensures
      var found := WithSuccessor(st, next);
      var (destroyed, ok) := ClonedDestroy(found);
      if NewerIsActive(found, intervals) then
        LeftToSuccessor(st, Destroy(found).0) && AllButTwo(st, Destroy(found).0, next, digest)
      else if ok.Err? then Untouched(st, destroyed) && MetaOf(next).Err?
      else
        var r := DoClone(destroyed, map[NEW_SID_FIELD := None], digest);
        && r.1.Ok? && MetaOf(next).Ok?
        && (KeepsFields(st, r.0) <==> st.s.meta.ttlMinutes > 0 || NothingToLose(st))
        && AllButTwo(st, r.0, next, digest)
  {
    hide DoClone, Filtered, WithoutPointer, ClonedDestroy, NewerIsActive, CloneWithId, MetaOf;
    var found := WithSuccessor(st, next);
    CloneHasId(st.s, found.s, next);
    DestroyedAnother(found, next);
    if NewerIsActive(found, intervals) {
      ActiveIsStored(found, intervals);
    } else {
      var (destroyed, ok) := ClonedDestroy(found);
      if ok.Ok? {
        CloneKeeps(destroyed, map[NEW_SID_FIELD := None], digest);
        CarriedWithoutPointer(destroyed);
        PointerOnce(HGetAll(st.db, st.s.meta.sid));
        NoPointerInNothing();
      }
    }
  }

  /** Automatic renewal loses nothing of a stored session exactly when the session has a time to
      live, or nothing to lose, or the call only touches and the session was touched before, or the
      call fails. At most the session and its successor are touched. This rests on no session
      recording itself as its successor. */
  lemma TryRenewKeeps(st: St, intervals: Intervals, digest: string)
    requires st.s.meta.sid in st.db.hashes && intervals.inactive <= U16_MAX
    requires NewSid(st, digest) !in st.db.hashes
    requires Next(st.db, st.s.meta.sid) != Some(st.s.meta.sid)
    ensures
      var (r, ok) := TryRenew(st, intervals, digest);
      Safe(st, r, ok) <==>
        || st.s.meta.ttlMinutes > 0 || NothingToLose(st)
        || (if OnlyTouches(st, intervals) then st.s.meta.touches.Some? else GivesUp(st, intervals))
    ensures
      var r := TryRenew(st, intervals, digest).0;
      forall other |
          other != st.s.meta.sid && other != NewSid(st, digest) && Next(st.db, st.s.meta.sid) != Some(other) ::
        (other in r.db.hashes <==> other in st.db.hashes) && HGetAll(r.db, other) == HGetAll(st.db, other)
  {
    hide DoClone, TryTouch, Filtered, SecondsFromRenew, TtlPassed, WithoutPointer, ClonedDestroy, NewerIsActive,
         Destroy, CloneWithId;
    NextIsPlain(st.db, st.s.meta.sid);
    if OnlyTouches(st, intervals) {
      TouchKeeps(st);
    } else {
      match Next(st.db, st.s.meta.sid) {
        case Some(next) => ReplacedOrLeft(st, next, intervals, digest);
        case None =>
          CarriedWithoutPointer(st);
          CloneKeeps(st, map[], digest);
          NoPointerInNothing();
      }
    }
  }

  /** Whom the session acts for after an automatic renewal. */
  function RenewedUser(st: St): Option<User>
  {
    var stored := StoredUser(st.db, st.s.meta.sid);
    if st.s.meta.ttlMinutes > 0 && stored.Some? then stored else st.s.user
  }

  /** The listings after an id joined those of a user. */
  ghost predicate Listed(db: Db, db': Db, user: Option<User>, sid: string)
  {
    forall uid :: SMembers(db', uid)
               == SMembers(db, uid) + (if user.Some? && user.value.id == uid then {sid} else {})
  }

  lemma CarriesUser(st: St, filters: Filters)
    requires filters == map[] || filters == map[NEW_SID_FIELD := None]
    ensures UserAfter(st, filters) == RenewedUser(st)
  {
  }

  lemma StoredLists(db: Db, sid: string, carried: Fields, seconds: nat, user: Option<User>)
    ensures
      var stored := Stored(db, sid, carried, seconds);
      Listed(db, if user.None? then stored else SAdd(stored, user.value.id, sid), user, sid)
  {
  }

  lemma CloneLists(st: St, filters: Filters, digest: string)
    requires NewSid(st, digest) !in st.db.hashes && NewSid(st, digest) != st.s.meta.sid
    requires filters == map[] || filters == map[NEW_SID_FIELD := None]
    ensures
      var (r, ok) := DoClone(st, filters, digest);
      ok == Ok(true) && r.s.user == RenewedUser(st) && Listed(st.db, r.db, RenewedUser(st), NewSid(st, digest))
  {
    DoCloneMeans(st, filters, digest);
    RenewMeans(st, filters, digest);
    CarriesUser(st, filters);
    var sid, seconds, renewed := NewSid(st, digest), TtlSeconds(st.s.meta), Renew(st, filters, digest);
    StoredLists(st.db, sid, Carried(st, filters), seconds, RenewedUser(st));
    PointedAt(renewed.db, st.s.meta.sid, seconds, sid);
    hide Renew, DoClone, Carried, UserAfter, NewSid, RenewedUser, StoredUser, Stored, SAdd, Expire, HSet, Next;
  }

  /** The successor destroyed, for want of a user, stays listed. */
  lemma ReplacedLists(st: St, next: string, digest: string)
    requires NewSid(st, digest) !in st.db.hashes && NewSid(st, digest) != st.s.meta.sid && next != st.s.meta.sid
    requires MetaOf(next).Ok?
    ensures
      var destroyed := ClonedDestroy(WithSuccessor(st, next)).0;
      var (r, ok) := DoClone(destroyed, map[NEW_SID_FIELD := None], digest);
      && ClonedDestroy(WithSuccessor(st, next)).1.Ok?
      && ok == Ok(true) && r.s.user == RenewedUser(st) && Listed(st.db, r.db, RenewedUser(st), NewSid(st, digest))
  {
    CloneHasId(st.s, st.s, next);
    hide DoClone, MetaOf, CloneWithId;
    var destroyed := ClonedDestroy(WithSuccessor(st, next)).0;
    assert destroyed.db == Del(st.db, next) && destroyed.s == WithSuccessor(st, next).s;
    CloneLists(destroyed, map[NEW_SID_FIELD := None], digest);
    hide NewSid;
    assert RenewedUser(destroyed) == RenewedUser(st);
  }

  lemma SuccessorMissing(st: St, next: string)
    requires MetaOf(next).Err?
    ensures ClonedDestroy(WithSuccessor(st, next)) == (WithSuccessor(st, next), Err)
  {
    hide MetaOf;
  }

  lemma GivenUp(st: St, next: string)
    ensures
      var r := Destroy(WithSuccessor(st, next)).0;
      && st.s.meta.sid !in r.db.hashes
      && if ActingUser(st).Some? then Unlisted(st.db, r.db, ActingUser(st).value.id, st.s.meta.sid)
         else r.db.index == st.db.index
  {
    hide Destroy, CloneWithId;
    DestroyRemoves(WithSuccessor(st, next));
  }

  /** What automatic renewal answers, and whom it lists. It answers no when it only touches, with
      an error when the session gives way or the recorded successor is no id, and yes otherwise.
      A new copy is listed under the user; a session that gives way to a successor in use is gone,
      listing included; and no other listing changes, not even that of a successor replaced. */
  lemma TryRenewLists(st: St, intervals: Intervals, digest: string)
    requires NewSid(st, digest) !in st.db.hashes && NewSid(st, digest) != st.s.meta.sid
    requires Next(st.db, st.s.meta.sid) != Some(st.s.meta.sid)
    ensures
      var sid, next := st.s.meta.sid, Next(st.db, st.s.meta.sid);
      var (r, ok) := TryRenew(st, intervals, digest);
      if OnlyTouches(st, intervals) then ok == Ok(false) && r == TryTouch(st)
      else if next.Some? && NewerIsActive(WithSuccessor(st, next.value), intervals) then
        && ok == Err && sid !in r.db.hashes
        && if ActingUser(st).Some? then Unlisted(st.db, r.db, ActingUser(st).value.id, sid)
           else r.db.index == st.db.index
      else if next.Some? && MetaOf(next.value).Err? then ok == Err && r.db == st.db
      else ok == Ok(true) && r.s.user == RenewedUser(st) && Listed(st.db, r.db, RenewedUser(st), NewSid(st, digest))
  {
    hide DoClone, TryTouch, SecondsFromRenew, ClonedDestroy, NewerIsActive, Destroy, CloneWithId, RenewedUser,
         ActingUser, MetaOf, Listed, Unlisted;
    NextIsPlain(st.db, st.s.meta.sid);
    if !OnlyTouches(st, intervals) {
      match Next(st.db, st.s.meta.sid) {
        case None => CloneLists(st, map[], digest);
        case Some(next) =>
          GivenUp(st, next);
          if MetaOf(next).Ok? { ReplacedLists(st, next, digest); } else { SuccessorMissing(st, next); }
      }
    }
  }

  /** A session recorded as its own successor would be destroyed with it: its fields are lost. */
  lemma SelfPointerLoses(st: St, intervals: Intervals, digest: string)
    requires NewSid(st, digest) !in st.db.hashes && NewSid(st, digest) != st.s.meta.sid
    requires Next(st.db, st.s.meta.sid) == Some(st.s.meta.sid) && MetaOf(st.s.meta.sid).Ok?
    requires SecondsFromRenew(st, intervals) > intervals.original >= 0
    requires !NewerIsActive(st.(s := st.s.(cloned := CloneWithId(st.s, st.s.meta.sid))), intervals)
    ensures HGetAll(TryRenew(st, intervals, digest).0.db, NewSid(st, digest)) == map[]
    ensures HGetAll(TryRenew(st, intervals, digest).0.db, st.s.meta.sid)
        == map[NEW_SID_FIELD := Plain(NewSid(st, digest))]
  {
    var found := st.(s := st.s.(cloned := CloneWithId(st.s, st.s.meta.sid)));
    var destroyed := ClonedDestroy(found).0;
    assert destroyed.db == Del(st.db, st.s.meta.sid) && destroyed.s == found.s;
    CarriedWithoutPointer(destroyed);
    DoCloneMeans(destroyed, map[NEW_SID_FIELD := None], digest);
    RenewMeans(destroyed, map[NEW_SID_FIELD := None], digest);
    hide DoClone, NewerIsActive, SecondsFromRenew, Renew, Carried;
    var renewed := Renew(destroyed, map[NEW_SID_FIELD := None], digest);
    PointedAt(renewed.db, st.s.meta.sid, TtlSeconds(st.s.meta), NewSid(st, digest));
  }

  // ----- a user's sessions -----

  /** Every stored session of a user is listed under the user. */
  ghost predicate Indexed(db: Db)
  {
    forall sid | sid in db.hashes && StoredUser(db, sid).Some? :: sid in SMembers(db, StoredUser(db, sid).value.id)
  }

  /** Listing a user's sessions gives those that are stored, and only they stay listed. */
  lemma SidsMean(db: Db, uid: nat)
    ensures
      var (r, sids) := UserSids(db, uid);
      && r.hashes == db.hashes && r.now == db.now && sids == SMembers(r, uid)
      && (forall sid :: sid in sids <==> sid in SMembers(db, uid) && sid in db.hashes)
      && forall other | other != uid :: SMembers(r, other) == SMembers(db, other)
  {
  }

  /** What `sync` does to one key. */
  lemma SyncAt(db: Db, user: User, sid: string)
    ensures
      var r := Sync(db, user);
      && (sid in r.hashes <==> sid in db.hashes)
      && (sid in db.hashes ==>
            r.hashes[sid] == if sid in SMembers(db, user.id)
                             then Hash(db.hashes[sid].fields[USER_FIELD := Json(user)], db.hashes[sid].expiry)
                             else db.hashes[sid])
      && forall uid :: sid in db.hashes ==> (sid in SMembers(r, uid) <==> sid in SMembers(db, uid))
  {
    if sid in db.hashes {
      assert db.hashes[sid].fields + map[USER_FIELD := Json(user)] == db.hashes[sid].fields[USER_FIELD := Json(user)];
    }
  }

  /** After `sync`, every stored session of the user holds the new record; no session appears or
      dies, and the fields of other sessions, and other fields, are as before. */
  lemma SyncReachesAll(db: Db, user: User)
    requires Indexed(db)
    ensures
      var r := Sync(db, user);
      && r.hashes.Keys == db.hashes.Keys && Indexed(r)
      && (forall sid | sid in db.hashes && StoredUser(db, sid).Some? && StoredUser(db, sid).value.id == user.id ::
            StoredUser(r, sid) == Some(user))
      && (forall sid | sid in db.hashes && sid !in SMembers(db, user.id) :: r.hashes[sid] == db.hashes[sid])
      && (forall sid, field | field != USER_FIELD :: HGet(r, sid, field) == HGet(db, sid, field))
  {
    hide Sync, SMembers;
    var r := Sync(db, user);
    forall sid ensures
        && (sid in r.hashes <==> sid in db.hashes)
        && (sid in r.hashes && sid in SMembers(db, user.id)
            ==> StoredUser(r, sid) == Some(user) && sid in SMembers(r, user.id))
        && (sid in r.hashes && sid !in SMembers(db, user.id)
            ==> StoredUser(r, sid) == StoredUser(db, sid) && r.hashes[sid] == db.hashes[sid])
        && forall field | field != USER_FIELD :: HGet(r, sid, field) == HGet(db, sid, field)
    {
      SyncAt(db, user, sid);
    }
    forall sid, uid | sid in r.hashes ensures sid in SMembers(r, uid) <==> sid in SMembers(db, uid) {
      SyncAt(db, user, sid);
    }
    hide HGet, StoredUser;
  }
}
