/** The session objects themselves: their fields and the store change step by step, and each
    method does what the functions of the store and the session say. */
module SessionObjects {
  import opened Text
  import opened Sids
  import opened Stores
  import opened SessionSteps

  /** The filters that are not still to be applied. */
  function Without(filters: Filters, todo: set<string>): Filters
  {
    map k | k in filters && k !in todo :: filters[k]
  }

  lemma NothingFiltered(raw: Fields, filters: Filters)
    ensures raw == Filtered(raw, Without(filters, filters.Keys))
  {
    assert Without(filters, filters.Keys) == map[];
  }

  /** One more filter applied. */
  lemma OneMoreFilter(raw: Fields, filters: Filters, todo: set<string>, k: string)
    requires todo <= filters.Keys && k in todo
    ensures
      var done := Filtered(raw, Without(filters, todo));
      Filtered(raw, Without(filters, todo - {k}))
      == if filters[k].Some? then done[k := filters[k].value] else done - {k}
  {
  }

  lemma NothingRemoved(db: Db, uid: nat, sids: set<string>)
    ensures SRemAll(db, uid, set sid | sid in sids - sids && sid !in db.hashes) == db
  {
    var none := set sid | sid in sids - sids && sid !in db.hashes;
    assert none == {};
    if uid in db.index { assert db.index[uid] - none == db.index[uid]; }
  }

  /** One more id looked at. */
  lemma RemovedOneMore(db: Db, uid: nat, sids: set<string>, todo: set<string>, sid: string)
    requires todo <= sids && sid in todo
    ensures
      var removed := SRemAll(db, uid, set x | x in sids - todo && x !in db.hashes);
      SRemAll(db, uid, set x | x in sids - (todo - {sid}) && x !in db.hashes)
      == if sid in db.hashes then removed else SRem(removed, uid, sid)
  {
    var done := set x | x in sids - todo && x !in db.hashes;
    var next := set x | x in sids - (todo - {sid}) && x !in db.hashes;
    assert next == if sid in db.hashes then done else done + {sid};
    if uid in db.index {
      assert (db.index[uid] - done) - {sid} == db.index[uid] - (done + {sid});
    }
  }

  /** One more key written. */
  lemma WrittenOneMore(db: Db, sids: set<string>, sid: string, value: Value)
    requires sid !in sids
    ensures HSetEach(db, sids + {sid}, USER_FIELD, value)
        == HSet(HSetEach(db, sids, USER_FIELD, value), sid, USER_FIELD, value)
  {
  }

  class RedisSession {
    const meta: Meta
    const redis: Redis
    var tryLoaded: bool
    var user: Option<User>
    var cloned: Option<Snapshot>

    ghost function View(): SessionView
      reads this, meta
    {
      SessionView(meta.View(), tryLoaded, user, cloned)
    }

    ghost function State(): St
      reads this, meta, redis
    {
      St(redis.db, View())
    }

    /** `new`. */
    constructor (ttlMinutes: nat, digest: string, redis: Redis)
      ensures this.redis == redis && fresh(meta)
      ensures View() == SessionView(FreshMeta(ttlMinutes, digest, redis.db.now), false, None, None)
    {
      this.meta := new Meta(FreshMeta(ttlMinutes, digest, redis.db.now));
      this.redis := redis;
      tryLoaded, user, cloned := false, None, None;
    }

    constructor Over(m: MetaView, redis: Redis)
      ensures this.redis == redis && fresh(meta) && View() == SessionView(m, false, None, None)
    {
      this.meta := new Meta(m);
      this.redis := redis;
      tryLoaded, user, cloned := false, None, None;
    }

    /** `new_with_id`: null for an id that does not parse. */
    static method NewWithId(sid: string, redis: Redis) returns (r: RedisSession?)
      ensures r == null <==> MetaOf(sid).Err?
      ensures r != null ==> fresh(r) && r.redis == redis && fresh(r.meta)
      ensures r != null ==> r.View() == SessionView(MetaOf(sid).value, false, None, None)
    {
      var parsed := ParseSid(sid);
      if parsed.Err? { return null; }
      r := new RedisSession.Over(MetaView(parsed.value.0, parsed.value.1, sid, None), redis);
    }

    // ----- fields -----

    method SilentSet(field: string, value: Value)
      modifies redis
      ensures State() == old(State()).(db := HSet(old(redis.db), meta.sid, field, value))
    {
      redis.db := HSet(redis.db, meta.sid, field, value);
    }

    method SilentGet(field: string) returns (value: Option<Value>)
      ensures value == HGet(redis.db, meta.sid, field)
    {
      value := HGet(redis.db, meta.sid, field);
    }

    method SilentDel(field: string) returns (deleted: bool)
      modifies redis
      ensures State() == old(State()).(db := HDel(old(redis.db), meta.sid, field))
      ensures deleted == HGet(old(redis.db), meta.sid, field).Some?
    {
      deleted := HGet(redis.db, meta.sid, field).Some?;
      redis.db := HDel(redis.db, meta.sid, field);
    }

    method Touch() returns (touched: bool)
      modifies redis
      ensures State() == old(State()).(db := Expire(old(redis.db), meta.sid, TtlSeconds(meta.View())))
      ensures touched == (meta.sid in old(redis.db).hashes)
    {
      touched := meta.sid in redis.db.hashes;
      redis.db := Expire(redis.db, meta.sid, meta.ttlMinutes * 60);
    }

    /** `try_touch`. */
    method TryTouch() returns (touched: bool)
      modifies redis, meta`touches
      ensures State() == SessionSteps.TryTouch(old(State()))
      ensures touched == (meta.touches == Some(true))
    {
      if meta.touches == None {
        var touches := Touch();
        meta.touches := Some(touches);
      }
      touched := meta.touches == Some(true);
    }

    /** `set`. */
    method Set(field: string, text: string) returns (touched: bool)
      modifies redis, meta`touches
      ensures
        var written := HSet(old(redis.db), old(meta.sid), field, Plain(text));
        State() == SessionSteps.TryTouch(old(State()).(db := written))
      ensures touched == (meta.touches == Some(true))
    {
      SilentSet(field, Plain(text));
      touched := TryTouch();
    }

    /** `get`, up to reading the JSON. */
    method Get(field: string) returns (value: Option<Value>)
      modifies redis, meta`touches
      ensures value == HGet(old(redis.db), old(meta.sid), field)
      ensures State() == if value.Some? then SessionSteps.TryTouch(old(State())) else old(State())
    {
      value := SilentGet(field);
      if value.Some? {
        var _ := TryTouch();
      }
    }

    /** `del`. */
    method Delete(field: string) returns (touched: bool)
      modifies redis, meta`touches
      ensures
        var deleted := old(State()).(db := HDel(old(redis.db), old(meta.sid), field));
        State() == if HGet(old(redis.db), old(meta.sid), field).Some? then SessionSteps.TryTouch(deleted) else deleted
      ensures touched == (HGet(old(redis.db), old(meta.sid), field).Some? && meta.touches == Some(true))
    {
      touched := SilentDel(field);
      if touched {
        touched := TryTouch();
      }
    }

    method TtlPassed() returns (seconds: Option<nat>)
      ensures seconds == SessionSteps.TtlPassed(redis.db, meta.sid, TtlSeconds(meta.View()))
    {
      var ttl := Ttl(redis.db, meta.sid);
      seconds := if ttl > 0 then Some((meta.ttlMinutes * 60 - ttl) % U32) else None;
    }

    // ----- the user -----

    /** `user`. */
    method LookForUser() returns (r: Option<User>)
      modifies this`user, this`tryLoaded
      ensures State() == LoadUser(old(State())) && r == user
    {
      if tryLoaded { return user; }
      var value := SilentGet(USER_FIELD);
      match value {
        case Some(Json(stored)) => user := Some(stored);
        case _ =>
      }
      tryLoaded := true;
      r := user;
    }

    /** `mapping`: it fails for a session without a user. */
    method Mapping() returns (ok: bool)
      modifies this`user, this`tryLoaded, redis
      ensures State() == SessionSteps.Mapping(old(State()))
      ensures ok == LoadUser(old(State())).s.user.Some?
    {
      var found := LookForUser();
      if found.None? { return false; }
      redis.db := SAdd(redis.db, found.value.id, meta.sid);
      ok := true;
    }

    /** `unmapping`. */
    method Unmapping() returns (removed: bool)
      modifies this`user, this`tryLoaded, redis
      ensures State() == SessionSteps.Unmapping(old(State()))
      ensures removed <==> user.Some? && meta.sid in SMembers(old(redis.db), user.value.id)
    {
      var found := LookForUser();
      if found.None? { return false; }
      removed := meta.sid in SMembers(redis.db, found.value.id);
      redis.db := SRem(redis.db, found.value.id, meta.sid);
    }

    // ----- renewing -----

    /** `renew` of the basic session; the filters are applied in no particular order. */
    method RenewBasic(filters: Filters, digest: string) returns (r: bool)
      modifies meta, redis
      ensures State() == RenewSession(old(State()), filters, digest)
      ensures r == (Filtered(HGetAll(old(redis.db), old(meta.sid)), filters) == map[] || meta.touches == Some(true))
    {
      ghost var before := HGetAll(redis.db, meta.sid);
      var raw := HGetAll(redis.db, meta.sid);
      var todo := filters.Keys;
      NothingFiltered(before, filters);
      while todo != {}
        invariant todo <= filters.Keys
        invariant raw == Filtered(before, Without(filters, todo))
        modifies {}
      {
        var k :| k in todo;
        OneMoreFilter(before, filters, todo, k);
        if filters[k].Some? {
          raw := raw[k := filters[k].value];
        } else {
          raw := raw - {k};
        }
        todo := todo - {k};
      }
      assert raw == Filtered(before, filters) by { assert Without(filters, todo) == filters; }
      meta.Renew(digest, redis.db.now);
      if raw == map[] { return true; }
      redis.db := HSetAll(redis.db, meta.sid, raw);
      r := TryTouch();
    }

    /** `renew` of the user session. */
    method Renew(filters: Filters, digest: string) returns (r: bool)
      modifies this`user, this`tryLoaded, meta, redis
      ensures State() == SessionSteps.Renew(old(State()), filters, digest)
      ensures r == (Filtered(HGetAll(old(redis.db), old(meta.sid)), filters) == map[] || meta.touches == Some(true))
    {
      r := RenewBasic(filters, digest);
      tryLoaded := false;
      var _ := Mapping();
    }

    /** `clone`, as far as it is used. */
    method Clone() returns (s: Snapshot)
      ensures s == SnapshotOf(View())
    {
      s := Snapshot(MetaView(meta.ttlMinutes, meta.createStamp, meta.sid, meta.touches), tryLoaded, user);
    }

    /** `clone_with_id`. */
    method CloneWithId(id: string) returns (s: Option<Snapshot>)
      ensures s == SessionSteps.CloneWithId(View(), id)
    {
      var copied := Clone();
      var cloned := new Meta(copied.meta);
      var ok := cloned.RenewWith(id);
      if !ok { return None; }
      s := Some(Snapshot(MetaView(cloned.ttlMinutes, cloned.createStamp, cloned.sid, cloned.touches), false, None));
    }

    // ----- the old session beside the new one -----

    method ClonedSilentSet(field: string, value: Value) returns (r: Result<bool>)
      modifies redis
      ensures r == if cloned.None? then Err else Ok(true)
      ensures State() == if cloned.None? then old(State())
                         else old(State()).(db := HSet(old(redis.db), cloned.value.meta.sid, field, value))
    {
      if cloned.None? { return Err; }
      redis.db := HSet(redis.db, cloned.value.meta.sid, field, value);
      r := Ok(true);
    }

    method ClonedTouch() returns (r: Result<bool>)
      modifies redis
      ensures State() == if cloned.None? then old(State())
                         else old(State()).(db := Expire(old(redis.db), cloned.value.meta.sid, TtlSeconds(meta.View())))
    {
      if cloned.None? { return Err; }
      r := Ok(cloned.value.meta.sid in redis.db.hashes);
      redis.db := Expire(redis.db, cloned.value.meta.sid, meta.ttlMinutes * 60);
    }

    method ClonedTtlPassed() returns (seconds: Option<nat>)
      ensures seconds == if cloned.None? then None
                         else SessionSteps.TtlPassed(redis.db, cloned.value.meta.sid, TtlSeconds(meta.View()))
    {
      if cloned.None? { return None; }
      var ttl := Ttl(redis.db, cloned.value.meta.sid);
      seconds := if ttl > 0 then Some((meta.ttlMinutes * 60 - ttl) % U32) else None;
    }

    method ClonedUnmapping() returns (removed: bool)
      modifies redis
      ensures State() == SessionSteps.ClonedUnmapping(old(State()))
      ensures removed <==>
                cloned.Some? && cloned.value.user.Some?
                && cloned.value.meta.sid in SMembers(old(redis.db), cloned.value.user.value.id)
    {
      if cloned.None? || cloned.value.user.None? { return false; }
      var uid, sid := cloned.value.user.value.id, cloned.value.meta.sid;
      removed := sid in SMembers(redis.db, uid);
      redis.db := SRem(redis.db, uid, sid);
    }

    /** `cloned_destroy`. */
    method ClonedDestroy() returns (r: Result<bool>)
      modifies redis
      ensures (State(), r) == SessionSteps.ClonedDestroy(old(State()))
    {
      var _ := ClonedUnmapping();
      if cloned.None? { return Err; }
      redis.db := Del(redis.db, cloned.value.meta.sid);
      r := Ok(true);
    }

    // ----- users -----

    /** `log_in`. */
    method LogIn(newUser: Option<User>, ttlMinutes: Option<nat>, digest: string) returns (r: Result<bool>)
      modifies this, meta, redis
      ensures (State(), r) == SessionSteps.LogIn(old(State()), newUser, ttlMinutes, digest)
    {
      var copied := Clone();
      cloned := Some(copied);
      meta.Config(ttlMinutes);
      if newUser.Some? { user := newUser; }
      var filters: Filters := map[];
      if user.Some? {
        filters := filters[USER_FIELD := Some(Json(user.value))];
      }
      var _ := Renew(filters, digest);
      r := ClonedDestroy();
    }

    /** `login`. */
    method Login(newUser: User, ttlMinutes: nat, digest: string) returns (r: Result<bool>)
      modifies this, meta, redis
      ensures (State(), r) == SessionSteps.LogIn(old(State()), Some(newUser), Some(ttlMinutes), digest)
    {
      r := LogIn(Some(newUser), Some(ttlMinutes), digest);
    }

    /** `auto_login`. */
    method AutoLogin(digest: string) returns (r: Result<bool>)
      modifies this, meta, redis
      ensures (State(), r) == SessionSteps.LogIn(old(State()), None, None, digest)
    {
      r := LogIn(None, None, digest);
    }

    /** `logout`. */
    method Logout() returns (r: bool)
      modifies this`user, this`tryLoaded, redis
      ensures (State(), r) == SessionSteps.Logout(old(State()))
    {
      var found := LookForUser();
      if found.None? { return false; }
      var _ := Unmapping();
      user := None;
      r := SilentDel(USER_FIELD);
    }

    /** `destroy`. */
    method Destroy() returns (r: bool)
      modifies this`user, this`tryLoaded, redis
      ensures (State(), r) == SessionSteps.Destroy(old(State()))
    {
      var _ := Unmapping();
      r := meta.sid in redis.db.hashes;
      redis.db := Del(redis.db, meta.sid);
    }

    /** `filter_sids`. */
    method FilterSids(uid: nat, sids: set<string>) returns (filtered: set<string>)
      modifies redis
      ensures (redis.db, filtered) == SessionSteps.FilterSids(old(redis.db), uid, sids)
    {
      ghost var before := redis.db;
      filtered := {};
      var todo := sids;
      NothingRemoved(before, uid, sids);
      while todo != {}
        invariant todo <= sids
        invariant filtered == set sid | sid in sids - todo && sid in before.hashes
        invariant redis.db == SRemAll(before, uid, set sid | sid in sids - todo && sid !in before.hashes)
      {
        var sid :| sid in todo;
        if sid in redis.db.hashes {
          filtered := filtered + {sid};
        } else {
          redis.db := SRem(redis.db, uid, sid);
        }
        RemovedOneMore(before, uid, sids, todo, sid);
        todo := todo - {sid};
      }
      assert sids - todo == sids;
    }

    /** `sids`. */
    method Sids(uid: nat) returns (sids: set<string>)
      modifies redis
      ensures (redis.db, sids) == UserSids(old(redis.db), uid)
    {
      sids := FilterSids(uid, SMembers(redis.db, uid));
    }

    /** `sync`. */
    method Sync(record: User)
      modifies redis
      ensures State() == old(State()).(db := SessionSteps.Sync(old(redis.db), record))
    {
      var sids := Sids(record.id);
      ghost var before := redis.db;
      var todo := sids;
      assert HSetEach(before, sids - todo, USER_FIELD, Json(record)) == before;
      while todo != {}
        invariant todo <= sids
        invariant redis.db == HSetEach(before, sids - todo, USER_FIELD, Json(record))
      {
        var sid :| sid in todo;
        WrittenOneMore(before, sids - todo, sid, Json(record));
        redis.db := HSet(redis.db, sid, USER_FIELD, Json(record));
        assert sids - (todo - {sid}) == sids - todo + {sid};
        todo := todo - {sid};
      }
      assert sids - todo == sids;
    }
  }

  /** A session that renews itself. */
  class AutoRenew {
    const session: RedisSession
    var intervals: Intervals

    constructor (session: RedisSession)
      ensures this.session == session && intervals == Intervals(600, 120, 60)
    {
      this.session := session;
      intervals := Intervals(600, 120, 60);
    }

    /** `do_clone`. */
    method DoClone(filters: Filters, digest: string) returns (r: Result<bool>)
      modifies session, session.meta, session.redis
      ensures (session.State(), r) == SessionSteps.DoClone(old(session.State()), filters, digest)
    {
      var copied := session.Clone();
      session.cloned := Some(copied);
      var _ := session.Renew(filters, digest);
      var _ := session.ClonedTouch();
      r := session.ClonedSilentSet(NEW_SID_FIELD, Plain(session.meta.sid));
    }

    /** `try_renew`. */
    method TryRenew(digest: string) returns (r: Result<bool>)
      modifies session, session.meta, session.redis
      ensures (session.State(), r) == SessionSteps.TryRenew(old(session.State()), intervals, digest)
    {
      hide SessionSteps.DoClone, SessionSteps.ClonedDestroy, SessionSteps.Destroy, SessionSteps.TryTouch,
           SessionSteps.TtlPassed, Signed,
           SessionSteps.CloneWithId, HGet;
      var age := Signed(session.redis.db.now) - Signed(session.meta.createStamp);
      var secondsFromRenew := Signed(age - intervals.renewal);
      if secondsFromRenew < 0 {
        var _ := session.TryTouch();
        return Ok(false);
      }
      var pointer := session.SilentGet(NEW_SID_FIELD);
      if pointer.Some? && pointer.value.Plain? {
        if secondsFromRenew > intervals.original {
          var successor := session.CloneWithId(pointer.value.text);
          session.cloned := successor;
          var passed := session.ClonedTtlPassed();
          var newPassed := if passed.Some? then passed.value else U32_MAX;
          var inUse := newPassed < intervals.inactive;
          if inUse {
            var oldPassed := session.TtlPassed();
            inUse := oldPassed.Some? ==> newPassed < oldPassed.value;
          }
          if inUse {
            var _ := session.Destroy();
            return Err;
          }
          r := session.ClonedDestroy();
          if r.Err? { return; }
          r := DoClone(map[NEW_SID_FIELD := None], digest);
        } else {
          var _ := session.TryTouch();
          r := Ok(false);
        }
      } else {
        r := DoClone(map[], digest);
      }
    }
  }
}
