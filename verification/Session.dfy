/** What every session operation does to the store and to the session, as functions of both. */
module SessionSteps {
  import opened Text
  import opened Sids
  import opened Stores

  const USER_FIELD: string := "$user"
  const NEW_SID_FIELD: string := "$newid"
  const U32: nat := 4294967296
  const U32_MAX: nat := 4294967295

  /** What `clone` copies of a session: the meta data and the user, not the store, not the clone. */
  datatype Snapshot = Snapshot(meta: MetaView, tryLoaded: bool, user: Option<User>)

  datatype SessionView = SessionView(meta: MetaView, tryLoaded: bool, user: Option<User>, cloned: Option<Snapshot>)

  /** The store and one of the sessions over it. */
  datatype St = St(db: Db, s: SessionView)

  type Filters = map<string, Option<Value>>

  // ----- the user of a session -----

  function StoredUser(db: Db, sid: string): Option<User>
  {
    match HGet(db, sid, USER_FIELD)
    case Some(Json(user)) => Some(user)
    case _ => None
  }

  /** `user`: loaded at most once; a stored user replaces the one in hand, a missing one does not. */
  function LoadUser(st: St): St
  {
    if st.s.tryLoaded then st
    else
      var stored := StoredUser(st.db, st.s.meta.sid);
      st.(s := st.s.(tryLoaded := true, user := if stored.Some? then stored else st.s.user))
  }

  /** `mapping`: the id joins the set of its user, if there is one. */
  function Mapping(st: St): St
  {
    var loaded := LoadUser(st);
    match loaded.s.user
    case None => loaded
    case Some(user) => loaded.(db := SAdd(loaded.db, user.id, loaded.s.meta.sid))
  }

  /** `unmapping`: the id leaves the set of its user, if there is one. */
  function Unmapping(st: St): St
  {
    var loaded := LoadUser(st);
    match loaded.s.user
    case None => loaded
    case Some(user) => loaded.(db := SRem(loaded.db, user.id, loaded.s.meta.sid))
  }

  // ----- touching -----

  function TtlSeconds(m: MetaView): nat
  {
    m.ttlMinutes * 60
  }

  /** `try_touch`: at most one touch between renewals. */
  function TryTouch(st: St): St
  {
    if st.s.meta.touches.Some? then st
    else
      St(Expire(st.db, st.s.meta.sid, TtlSeconds(st.s.meta)),
         st.s.(meta := st.s.meta.(touches := Some(st.s.meta.sid in st.db.hashes))))
  }

  /** `ttl_passed` of a key, with the unsigned subtraction of the source. */
  function TtlPassed(db: Db, sid: string, ttlSeconds: nat): Option<nat>
  {
    if Ttl(db, sid) > 0 then Some((ttlSeconds - Ttl(db, sid)) % U32) else None
  }

  // ----- renewing -----

  /** The fields after the filters: a value replaces or adds, no value removes. */
  function Filtered(raw: Fields, filters: Filters): Fields
  {
    map k | k in raw.Keys + filters.Keys && (k in filters ==> filters[k].Some?) ::
      if k in filters then filters[k].value else raw[k]
  }

  /** `renew` of the basic session: the fields move to a new id; without fields there is nothing to store. */
  function RenewSession(st: St, filters: Filters, digest: string): St
  {
    var raw := Filtered(HGetAll(st.db, st.s.meta.sid), filters);
    var meta := FreshMeta(st.s.meta.ttlMinutes, digest, st.db.now);
    var renewed := st.(s := st.s.(meta := meta));
    if raw == map[] then renewed else TryTouch(renewed.(db := HSetAll(st.db, meta.sid, raw)))
  }

  /** `renew` of the user session: the user is looked for again, and mapped. */
  function Renew(st: St, filters: Filters, digest: string): St
  {
    var renewed := RenewSession(st, filters, digest);
    Mapping(renewed.(s := renewed.s.(tryLoaded := false)))
  }

  function SnapshotOf(s: SessionView): Snapshot
  {
    Snapshot(s.meta, s.tryLoaded, s.user)
  }

  // ----- the old session beside the new one -----

  /** `cloned_unmapping`, for the user the clone has in hand. */
  function ClonedUnmapping(st: St): St
  {
    match st.s.cloned
    case Some(Snapshot(meta, _, Some(user))) => st.(db := SRem(st.db, user.id, meta.sid))
    case _ => st
  }

  /** `cloned_destroy`: without a clone it fails, and changes nothing. */
  function ClonedDestroy(st: St): (St, Result<bool>)
  {
    match st.s.cloned
    case None => (st, Err)
    case Some(cloned) =>
      var unmapped := ClonedUnmapping(st);
      (unmapped.(db := Del(unmapped.db, cloned.meta.sid)), Ok(true))
  }

  // ----- users logging in and out -----

  /** `log_in`: a new id for the user, and the old key destroyed. */
  function LogIn(st: St, user: Option<User>, ttlMinutes: Option<nat>, digest: string): (St, Result<bool>)
  {
    var meta := if ttlMinutes.Some? then st.s.meta.(ttlMinutes := ttlMinutes.value) else st.s.meta;
    var now := if user.Some? then user else st.s.user;
    var ready := st.(s := SessionView(meta, st.s.tryLoaded, now, Some(SnapshotOf(st.s))));
    var filters: Filters := if now.Some? then map[USER_FIELD := Some(Json(now.value))] else map[];
    ClonedDestroy(Renew(ready, filters, digest))
  }

  /** `logout`. */
  function Logout(st: St): (St, bool)
  {
    var loaded := LoadUser(st);
    if loaded.s.user.None? then (loaded, false)
    else
      var unmapped := Unmapping(loaded);
      var out := unmapped.(s := unmapped.s.(user := None));
      (out.(db := HDel(out.db, out.s.meta.sid, USER_FIELD)), HGet(out.db, out.s.meta.sid, USER_FIELD).Some?)
  }

  /** `destroy`. */
  function Destroy(st: St): (St, bool)
  {
    var unmapped := Unmapping(st);
    (unmapped.(db := Del(unmapped.db, unmapped.s.meta.sid)), unmapped.s.meta.sid in unmapped.db.hashes)
  }

  /** `filter_sids`: ids without a session leave the user's set. */
  function FilterSids(db: Db, uid: nat, sids: set<string>): (Db, set<string>)
  {
    (SRemAll(db, uid, set sid | sid in sids && sid !in db.hashes), set sid | sid in sids && sid in db.hashes)
  }

  /** `sids`. */
  function UserSids(db: Db, uid: nat): (Db, set<string>)
  {
    FilterSids(db, uid, SMembers(db, uid))
  }

  /** The same field written to many keys. */
  function HSetEach(db: Db, sids: set<string>, field: string, value: Value): Db
  {
    db.(hashes := map sid | sid in db.hashes.Keys + sids ::
        if sid in sids then HSet(db, sid, field, value).hashes[sid] else db.hashes[sid])
  }

  /** `sync`: every session of the user gets the record. */
  function Sync(db: Db, user: User): Db
  {
    var (filtered, sids) := UserSids(db, user.id);
    HSetEach(filtered, sids, USER_FIELD, Json(user))
  }

  // ----- renewing automatically -----

  /** `clone_with_id`: another session's id, its user unknown. */
  function CloneWithId(s: SessionView, sid: string): Option<Snapshot>
  {
    match MetaOf(sid)
    case Err => None
    case Ok(meta) => Some(Snapshot(meta, false, None))
  }

  /** `do_clone`: a renewed copy; the old session lives on, and records its successor. */
  function DoClone(st: St, filters: Filters, digest: string): (St, Result<bool>)
  {
    var oldSid := st.s.meta.sid;
    var renewed := Renew(st.(s := st.s.(cloned := Some(SnapshotOf(st.s)))), filters, digest);
    var touched := Expire(renewed.db, oldSid, TtlSeconds(renewed.s.meta));
    (renewed.(db := HSet(touched, oldSid, NEW_SID_FIELD, Plain(renewed.s.meta.sid))), Ok(true))
  }

  /** The intervals of automatic renewal, in seconds. */
  datatype Intervals = Intervals(renewal: nat, original: nat, inactive: nat)

  /** `as isize`. */
  function Signed(n: int): int
  {
    (n + 0x8000_0000_0000_0000) % 0x1_0000_0000_0000_0000 - 0x8000_0000_0000_0000
  }

  /** How long the session should have been renewed, negative before its time. */
  function SecondsFromRenew(st: St, intervals: Intervals): int
  {
    Signed(Signed(st.db.now) - Signed(st.s.meta.createStamp) - intervals.renewal)
  }

  /** The successor is in use: touched lately, and later than the session itself. */
  function NewerIsActive(st: St, intervals: Intervals): bool
  {
    var ttlSeconds := TtlSeconds(st.s.meta);
    var passed := if st.s.cloned.None? then None else TtlPassed(st.db, st.s.cloned.value.meta.sid, ttlSeconds);
    var newPassed := if passed.Some? then passed.value else U32_MAX;
    var oldPassed := TtlPassed(st.db, st.s.meta.sid, ttlSeconds);
    newPassed < intervals.inactive && (oldPassed.Some? ==> newPassed < oldPassed.value)
  }

  /** `try_renew`. */
  function TryRenew(st: St, intervals: Intervals, digest: string): (St, Result<bool>)
  {
    var seconds := SecondsFromRenew(st, intervals);
    if seconds < 0 then (TryTouch(st), Ok(false))
    else
      match HGet(st.db, st.s.meta.sid, NEW_SID_FIELD)
      case Some(Plain(newSid)) =>
        if seconds > intervals.original then
          var found := st.(s := st.s.(cloned := CloneWithId(st.s, newSid)));
          if NewerIsActive(found, intervals) then (Destroy(found).0, Err)
          else
            var (destroyed, r) := ClonedDestroy(found);
            if r.Err? then (destroyed, Err) else DoClone(destroyed, map[NEW_SID_FIELD := None], digest)
        else (TryTouch(st), Ok(false))
      case _ => DoClone(st, map[], digest)
  }
}
