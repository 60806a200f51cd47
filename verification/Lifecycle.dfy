/** Many sessions, some of them stale, over one store: what every run keeps. */
module Lifecycle {
  import opened Text
  import opened Sids
  import opened Stores
  import opened SessionSteps
  import opened SessionLaws
  import opened StoreInvariants

  // ----- one operation -----

  /** The operations on one session. */
  datatype Action =
    | LoggingInAs(user: Option<User>, ttlMinutes: Option<nat>, digest: string)
    | LoggingOut
    | Destroying
    | Syncing(record: User)
    | ListingSids(uid: nat)
    | Renewing(filters: Filters, digest: string)
    | AutoRenewing(intervals: Intervals, digest: string)
    | SettingField(field: string, text: string)
    | DeletingField(field: string)
    | GettingField(field: string)
    | LookingForUser

  function Perform(st: St, a: Action): St
  {
    match a
    case LoggingInAs(user, ttlMinutes, digest) => LogIn(st, user, ttlMinutes, digest).0
    case LoggingOut => Logout(st).0
    case Destroying => Destroy(st).0
    case Syncing(record) => st.(db := Sync(st.db, record))
    case ListingSids(uid) => st.(db := UserSids(st.db, uid).0)
    case Renewing(filters, digest) => Renew(st, filters, digest)
    case AutoRenewing(intervals, digest) => TryRenew(st, intervals, digest).0
    case SettingField(field, text) => TryTouch(st.(db := HSet(st.db, st.s.meta.sid, field, Plain(text))))
    case DeletingField(field) =>
      var deleted := st.(db := HDel(st.db, st.s.meta.sid, field));
      if HGet(st.db, st.s.meta.sid, field).Some? then TryTouch(deleted) else deleted
    case GettingField(field) => if HGet(st.db, st.s.meta.sid, field).Some? then TryTouch(st) else st
    case LookingForUser => LoadUser(st)
  }

  /** The meta data in hand is what the ids encode. */
  ghost predicate SessionOk(s: SessionView)
  {
    MetaOk(s.meta) && (s.cloned.Some? ==> MetaOk(s.cloned.value.meta))
  }

  ghost predicate ClockOk(now: nat)
  {
    Pow16(7) <= now <= U64_MAX
  }

  /** A new id is new: nothing stored has it or refers to it, and it is not the session's own. */
  ghost predicate Fresh(st: St, digest: string)
  {
    |digest| == 64 && FreshIn(st.db, NewSid(st, digest)) && NewSid(st, digest) != st.s.meta.sid
  }

  ghost predicate NoReserved(filters: Filters)
  {
    forall field | field in filters :: !Reserved(field)
  }

  /** What is asked of a caller: new ids are new, and the two reserved fields are left alone. */
  ghost predicate Allowed(st: St, a: Action)
  {
    match a
    case LoggingInAs(user, ttlMinutes, digest) =>
      (ttlMinutes.Some? ==> ttlMinutes.value <= U16_MAX) && Fresh(LoggingIn(st, user, ttlMinutes), digest)
    case Renewing(filters, digest) => NoReserved(filters) && Fresh(st, digest)
    case AutoRenewing(intervals, digest) => Fresh(st, digest)
    case SettingField(field, _) => !Reserved(field)
    case DeletingField(field) => !Reserved(field)
    case _ => true
  }

  lemma MetaOkMeans(m: MetaView)
    requires MetaOk(m)
    ensures ParseSid(m.sid).Ok? && ParseSid(m.sid).value == (m.ttlMinutes, m.createStamp) && m.ttlMinutes <= U16_MAX
  {
  }

  lemma NewSidParses(st: St, digest: string)
    requires |digest| == 64 && ClockOk(st.db.now) && st.s.meta.ttlMinutes <= U16_MAX
    ensures ParseSid(NewSid(st, digest)) == Ok((st.s.meta.ttlMinutes, st.db.now))
    ensures MetaOk(FreshMeta(st.s.meta.ttlMinutes, digest, st.db.now))
  {
    hide Pow16, ParseSid;
    SidRoundTrip(digest, st.s.meta.ttlMinutes, st.db.now);
  }

  lemma StoredKeeps(db: Db, r: Ranking, from: string, sid: string, carried: Fields, seconds: nat) returns (r': Ranking)
    requires Sane(db, r, None) && r.low <= r.high && FreshIn(db, sid)
    requires ParseSid(sid).Ok? && 60 * ParseSid(sid).value.0 == seconds
    requires NEW_SID_FIELD in carried ==> HGet(db, from, NEW_SID_FIELD) == Some(carried[NEW_SID_FIELD])
    ensures r'.low <= r'.high
    ensures Sane(Stored(db, sid, carried, seconds), r', if carried == map[] || seconds == 0 then None else Some(sid))
  {
    hide ParseSid, Sane, FreshIn;
    if carried == map[] || seconds == 0 {
      r' := r;
    } else {
      NewSessionKeeps(db, r, from, sid, carried);
      r' := AsSource(r, sid);
    }
  }

  /** A session without a user need not be listed. */
  lemma NobodyToList(db: Db, r: Ranking, sid: string)
    requires Sane(db, r, Some(sid)) && StoredUser(db, sid) == None
    ensures Sane(db, r, None)
  {
    hide HashesOk, Ranked, StoredUser;
  }

  /** What the filters of the operations leave of the reserved fields. */
  ghost predicate FiltersOk(st: St, filters: Filters)
  {
    && (NEW_SID_FIELD in filters ==> filters[NEW_SID_FIELD] == None)
    && (USER_FIELD in filters ==> st.s.user.Some? && filters[USER_FIELD] == Some(Json(st.s.user.value)))
  }

  lemma CarriedPointer(st: St, filters: Filters)
    requires FiltersOk(st, filters)
    ensures
      var carried := Carried(st, filters);
      NEW_SID_FIELD in carried ==>
        NEW_SID_FIELD !in filters && HGet(st.db, st.s.meta.sid, NEW_SID_FIELD) == Some(carried[NEW_SID_FIELD])
  {
  }

  lemma FreshIsMissing(db: Db, sid: string)
    ensures FreshIn(db, sid) ==> sid !in db.hashes
  {
  }

  lemma RenewKeeps(st: St, filters: Filters, digest: string, r: Ranking) returns (r': Ranking)
    requires Sane(st.db, r, None) && r.low <= r.high && ClockOk(st.db.now)
    requires st.s.meta.ttlMinutes <= U16_MAX && FiltersOk(st, filters) && Fresh(st, digest)
    ensures r'.low <= r'.high && Sane(Renew(st, filters, digest).db, r', None)
  {
    hide Pow16, ParseSid, Sane, FreshIn, Renew, Filtered, SAdd;
    var sid, carried, seconds := NewSid(st, digest), Carried(st, filters), TtlSeconds(st.s.meta);
    FreshIsMissing(st.db, sid);
    RenewMeans(st, filters, digest);
    NewSidParses(st, digest);
    CarriedPointer(st, filters);
    r' := StoredKeeps(st.db, r, st.s.meta.sid, sid, carried, seconds);
    var db, user := Stored(st.db, sid, carried, seconds), UserAfter(st, filters);
    StoredUserOf(st.db, sid, carried, seconds);
    hide Stored, Carried, StoredUser;
    if user.Some? {
      SAddKeeps(db, r', if carried == map[] || seconds == 0 then None else Some(sid), user.value.id, sid);
    } else if carried != map[] && seconds != 0 {
      NobodyToList(db, r', sid);
    }
  }

  // ----- each operation keeps the store sane -----

  /** A session leaves its user's set and dies. */
  lemma UnlistedAndGone(db: Db, r: Ranking, user: Option<User>, sid: string)
    requires Sane(db, r, None)
    ensures Sane(Gone(db, user, sid), r, None)
  {
    hide Sane, Del, SRem;
    if user.Some? {
      SRemKeeps(db, r, user.value.id, sid);
      DelKeeps(SRem(db, user.value.id, sid), r, Some(sid), sid);
    } else {
      DelKeeps(db, r, None, sid);
    }
  }

  lemma LogInKeeps(st: St, user: Option<User>, ttlMinutes: Option<nat>, digest: string, r: Ranking)
    returns (r': Ranking)
    requires Sane(st.db, r, None) && r.low <= r.high && ClockOk(st.db.now) && MetaOk(st.s.meta)
    requires Allowed(st, LoggingInAs(user, ttlMinutes, digest))
    ensures r'.low <= r'.high && Sane(LogIn(st, user, ttlMinutes, digest).0.db, r', None)
    ensures SessionOk(LogIn(st, user, ttlMinutes, digest).0.s)
  {
    hide Pow16, ParseSid, Sane, FreshIn, Renew, LogIn, ClockOk, Del, SRem, Filtered;
    MetaOkMeans(st.s.meta);
    var ready := LoggingIn(st, user, ttlMinutes);
    var filters := UserFilter(ready.s.user);
    FreshIsMissing(st.db, NewSid(ready, digest));
    LogInMeans(st, user, ttlMinutes, digest);
    r' := RenewKeeps(ready, filters, digest, r);
    var renewed := Renew(ready, filters, digest);
    UnlistedAndGone(renewed.db, r', st.s.user, st.s.meta.sid);
    RenewMeans(ready, filters, digest);
    NewSidParses(ready, digest);
  }

  lemma LogoutKeeps(st: St, r: Ranking)
    requires Sane(st.db, r, None)
    ensures Sane(Logout(st).0.db, r, None) && Logout(st).0.s.meta == st.s.meta && Logout(st).0.s.cloned == st.s.cloned
  {
    hide Sane, SRem, HDel;
    var loaded := LoadUser(st);
    if loaded.s.user.Some? {
      var uid, sid := loaded.s.user.value.id, st.s.meta.sid;
      SRemKeeps(st.db, r, uid, sid);
      HDelKeeps(SRem(st.db, uid, sid), r, Some(sid), sid, USER_FIELD);
    }
  }

  lemma DestroyKeeps(st: St, r: Ranking)
    requires Sane(st.db, r, None)
    ensures Sane(Destroy(st).0.db, r, None) && Destroy(st).0.s.meta == st.s.meta
        && Destroy(st).0.s.cloned == st.s.cloned
  {
    hide Sane, SRem, Del;
    UnlistedAndGone(st.db, r, LoadUser(st).s.user, st.s.meta.sid);
  }

  lemma TouchKeepsSane(st: St, r: Ranking)
    requires Sane(st.db, r, None) && MetaOk(st.s.meta)
    ensures Sane(TryTouch(st).db, r, None) && TryTouch(st).s.cloned == st.s.cloned && MetaOk(TryTouch(st).s.meta)
  {
    hide Sane, Expire, ParseSid;
    MetaOkMeans(st.s.meta);
    ExpireKeeps(st.db, r, None, st.s.meta.sid, TtlSeconds(st.s.meta));
  }

  lemma StoredPointers(db: Db, sid: string, carried: Fields, seconds: nat)
    requires sid !in db.hashes
    ensures forall other | other != sid :: Next(Stored(db, sid, carried, seconds), other) == Next(db, other)
    ensures (NEW_SID_FIELD in carried ==> !carried[NEW_SID_FIELD].Plain?)
        ==> Next(Stored(db, sid, carried, seconds), sid) == None
  {
  }

  lemma ListedPointers(db: Db, uid: nat, sid: string)
    ensures forall other :: Next(SAdd(db, uid, sid), other) == Next(db, other)
  {
  }

  /** Pointers of the renewed store: none to the new session, and none from it. */
  lemma RenewedPointers(st: St, filters: Filters, digest: string)
    requires Fresh(st, digest)
    requires NEW_SID_FIELD in Carried(st, filters) ==> !Carried(st, filters)[NEW_SID_FIELD].Plain?
    ensures
      var db, sid := Renew(st, filters, digest).db, NewSid(st, digest);
      Next(db, sid) == None && forall other :: Next(db, other) != Some(sid)
  {
    hide Renew, Carried, NewSid, UserAfter, SAdd, Stored, Next;
    var sid, user := NewSid(st, digest), UserAfter(st, filters);
    RenewMeans(st, filters, digest);
    StoredPointers(st.db, sid, Carried(st, filters), TtlSeconds(st.s.meta));
    if user.Some? {
      ListedPointers(Stored(st.db, sid, Carried(st, filters), TtlSeconds(st.s.meta)), user.value.id, sid);
    }
  }

  lemma ExpiredPointers(db: Db, sid: string, seconds: nat)
    ensures forall other ::
              Next(Expire(db, sid, seconds), other) == None || Next(Expire(db, sid, seconds), other) == Next(db, other)
  {
  }

  lemma DoCloneKeeps(st: St, filters: Filters, digest: string, r: Ranking) returns (r': Ranking)
    requires Sane(st.db, r, None) && r.low <= r.high && ClockOk(st.db.now) && MetaOk(st.s.meta)
    requires FiltersOk(st, filters) && Fresh(st, digest)
    requires NEW_SID_FIELD in Carried(st, filters) ==> !Carried(st, filters)[NEW_SID_FIELD].Plain?
    ensures r'.low <= r'.high && Sane(DoClone(st, filters, digest).0.db, r', None)
        && SessionOk(DoClone(st, filters, digest).0.s)
  {
    hide Pow16, ParseSid, Sane, FreshIn, Renew, DoClone, ClockOk, HSet, Expire, Next, FiltersOk, Carried, UserAfter;
    MetaOkMeans(st.s.meta);
    FreshIsMissing(st.db, NewSid(st, digest));
    var oldSid, sid, seconds := st.s.meta.sid, NewSid(st, digest), TtlSeconds(st.s.meta);
    DoCloneMeans(st, filters, digest);
    RenewMeans(st, filters, digest);
    NewSidParses(st, digest);
    var r1 := RenewKeeps(st, filters, digest, r);
    var renewed := Renew(st, filters, digest).db;
    ExpireKeeps(renewed, r1, None, oldSid, seconds);
    RenewedPointers(st, filters, digest);
    ExpiredPointers(renewed, oldSid, seconds);
    PointerKeeps(Expire(renewed, oldSid, seconds), r1, None, oldSid, sid);
    r' := AsSink(r1, oldSid, sid);
  }

  lemma FreshStays(db: Db, gone: string, sid: string)
    requires FreshIn(db, sid)
    ensures FreshIn(Del(db, gone), sid)
  {
    assert forall other :: Next(Del(db, gone), other) == None || Next(Del(db, gone), other) == Next(db, other);
  }

  lemma CloneIsOk(s: SessionView, next: string)
    ensures CloneWithId(s, next).Some? ==>
              MetaOk(CloneWithId(s, next).value.meta) && CloneWithId(s, next).value.meta.sid == next
                  && CloneWithId(s, next).value.user == None
  {
  }

  lemma SameNow(db: Db, sid: string)
    ensures Del(db, sid).now == db.now
  {
  }

  /** The successor is destroyed and a new copy made. */
  lemma ReplaceSuccessorKeeps(st: St, next: string, digest: string, r: Ranking) returns (r': Ranking)
    requires Sane(st.db, r, None) && r.low <= r.high && ClockOk(st.db.now) && MetaOk(st.s.meta) && Fresh(st, digest)
    requires st.s.cloned == CloneWithId(st.s, next)
    ensures
      var (destroyed, ok) := ClonedDestroy(st);
      if ok.Err? then Sane(destroyed.db, r, None) && destroyed == st
      else
        var result := DoClone(destroyed, map[NEW_SID_FIELD := None], digest).0;
        r'.low <= r'.high && Sane(result.db, r', None) && SessionOk(result.s)
  {
    hide Pow16, ParseSid, Sane, FreshIn, DoClone, ClockOk, Del, MetaOk, Filtered;
    CloneIsOk(st.s, next);
    var (destroyed, ok) := ClonedDestroy(st);
    r' := r;
    if ok.Ok? {
      DelKeeps(st.db, r, None, next);
      FreshStays(st.db, next, NewSid(st, digest));
      SameNow(st.db, next);
      assert destroyed == st.(db := Del(st.db, next));
      assert Fresh(destroyed, digest);
      CarriedWithoutPointer(destroyed);
      r' := DoCloneKeeps(destroyed, map[NEW_SID_FIELD := None], digest, r);
    }
  }

  lemma SameFresh(st: St, found: St, digest: string)
    requires Fresh(st, digest) && found.db == st.db && found.s.meta == st.s.meta
    ensures Fresh(found, digest)
  {
  }

  lemma SameClone(s: SessionView, found: SessionView, next: string)
    ensures CloneWithId(found, next) == CloneWithId(s, next)
  {
  }

  lemma NoPointerCarried(st: St)
    requires Next(st.db, st.s.meta.sid) == None
    ensures NEW_SID_FIELD in Carried(st, map[]) ==> !Carried(st, map[])[NEW_SID_FIELD].Plain?
    ensures FiltersOk(st, map[])
  {
  }

  lemma AutoRenewKeeps(st: St, intervals: Intervals, digest: string, r: Ranking) returns (r': Ranking)
    requires Sane(st.db, r, None) && r.low <= r.high && ClockOk(st.db.now) && SessionOk(st.s) && Fresh(st, digest)
    ensures r'.low <= r'.high && Sane(TryRenew(st, intervals, digest).0.db, r', None)
        && SessionOk(TryRenew(st, intervals, digest).0.s)
  {
    hide Pow16, ParseSid, Sane, Fresh, DoClone, ClockOk, MetaOk, SecondsFromRenew, NewerIsActive, ClonedDestroy,
         TryTouch, Destroy, HGet, CloneWithId, Carried;
    r' := r;
    TouchKeepsSane(st, r);
    if SecondsFromRenew(st, intervals) >= 0 {
      match HGet(st.db, st.s.meta.sid, NEW_SID_FIELD) {
        case Some(Plain(next)) =>
          if SecondsFromRenew(st, intervals) > intervals.original {
            var found := st.(s := st.s.(cloned := CloneWithId(st.s, next)));
            CloneIsOk(st.s, next);
            DestroyKeeps(found, r);
            SameFresh(st, found, digest);
            SameClone(st.s, found.s, next);
            r' := ReplaceSuccessorKeeps(found, next, digest, r);
            if NewerIsActive(found, intervals) || ClonedDestroy(found).1.Err? { r' := r; }
          }
        case _ =>
          NoPointerCarried(st);
          r' := DoCloneKeeps(st, map[], digest, r);
      }
    }
  }

  lemma FieldSetKeeps(st: St, field: string, text: string, r: Ranking)
    requires Sane(st.db, r, None) && MetaOk(st.s.meta) && !Reserved(field)
    ensures
      var r' := Perform(st, SettingField(field, text));
      Sane(r'.db, r, None) && MetaOk(r'.s.meta) && r'.s.cloned == st.s.cloned
  {
    hide Sane, MetaOk, TryTouch, HSet;
    HSetKeeps(st.db, r, None, st.s.meta.sid, field, text);
    TouchKeepsSane(st.(db := HSet(st.db, st.s.meta.sid, field, Plain(text))), r);
  }

  lemma FieldDeletedKeeps(st: St, field: string, r: Ranking)
    requires Sane(st.db, r, None) && MetaOk(st.s.meta) && !Reserved(field)
    ensures
      var r' := Perform(st, DeletingField(field));
      Sane(r'.db, r, None) && MetaOk(r'.s.meta) && r'.s.cloned == st.s.cloned
  {
    hide Sane, MetaOk, TryTouch, HDel;
    HDelKeeps(st.db, r, None, st.s.meta.sid, field);
    TouchKeepsSane(st.(db := HDel(st.db, st.s.meta.sid, field)), r);
  }

  lemma PlainRenewKeeps(st: St, filters: Filters, digest: string, r: Ranking) returns (r': Ranking)
    requires Sane(st.db, r, None) && r.low <= r.high && ClockOk(st.db.now) && MetaOk(st.s.meta)
    requires NoReserved(filters) && Fresh(st, digest)
    ensures r'.low <= r'.high && Sane(Renew(st, filters, digest).db, r', None)
    ensures MetaOk(Renew(st, filters, digest).s.meta) && Renew(st, filters, digest).s.cloned == st.s.cloned
  {
    hide Pow16, ParseSid, Sane, Renew, ClockOk, FreshIn;
    MetaOkMeans(st.s.meta);
    FreshIsMissing(st.db, NewSid(st, digest));
    r' := RenewKeeps(st, filters, digest, r);
    RenewMeans(st, filters, digest);
    NewSidParses(st, digest);
  }

  lemma ListingKeeps(db: Db, uid: nat, r: Ranking)
    requires Sane(db, r, None)
    ensures Sane(UserSids(db, uid).0, r, None)
  {
    hide Sane, SRemAll;
    SRemDeadKeeps(db, r, uid, set sid | sid in SMembers(db, uid) && sid !in db.hashes);
  }

  /** Any operation of any session, however stale, keeps the store sane and the session's meta
      data in agreement with its ids. */
  lemma PerformKeeps(st: St, a: Action, r: Ranking) returns (r': Ranking)
    requires Sane(st.db, r, None) && r.low <= r.high && ClockOk(st.db.now) && SessionOk(st.s) && Allowed(st, a)
    ensures r'.low <= r'.high && Sane(Perform(st, a).db, r', None) && SessionOk(Perform(st, a).s)
  {
    hide Sane, ClockOk, MetaOk, LogIn, Logout, Destroy, Sync, UserSids, Renew, TryRenew, TryTouch, HSet, HDel, Fresh,
         NoReserved;
    r' := r;
    TouchKeepsSane(st, r);
    match a
    case LoggingInAs(user, ttlMinutes, digest) => r' := LogInKeeps(st, user, ttlMinutes, digest, r);
    case LoggingOut => LogoutKeeps(st, r);
    case Destroying => DestroyKeeps(st, r);
    case Syncing(record) => SyncKeeps(st.db, r, record);
    case ListingSids(uid) => ListingKeeps(st.db, uid, r);
    case Renewing(filters, digest) => r' := PlainRenewKeeps(st, filters, digest, r);
    case AutoRenewing(intervals, digest) => r' := AutoRenewKeeps(st, intervals, digest, r);
    case SettingField(field, text) => FieldSetKeeps(st, field, text, r);
    case DeletingField(field) => FieldDeletedKeeps(st, field, r);
    case GettingField(_) =>
    case LookingForUser =>
  }

  // ----- runs -----

  /** Session objects by handle, over one store. */
  datatype World = World(db: Db, objects: map<nat, SessionView>)

  datatype Event =
    | Creating(h: nat, ttlMinutes: nat, digest: string)
    | Attaching(h: nat, sid: string)
    | Duplicating(h: nat, other: nat)
    | Acting(h: nat, action: Action)
    | Passing(seconds: nat)

  function Untried(meta: MetaView): SessionView
  {
    SessionView(meta, false, None, None)
  }

  ghost predicate Enabled(w: World, e: Event)
  {
    match e
    case Creating(_, ttlMinutes, digest) => |digest| == 64 && ttlMinutes <= U16_MAX
    case Attaching(_, _) => true
    case Duplicating(_, other) => other in w.objects
    case Acting(h, action) => h in w.objects && Allowed(St(w.db, w.objects[h]), action)
    case Passing(seconds) => ClockOk(w.db.now + seconds)
  }

  function Apply(w: World, e: Event): World
  {
    match e
    case Creating(h, ttlMinutes, digest) =>
      w.(objects := w.objects[h := Untried(FreshMeta(ttlMinutes, digest, w.db.now))])
    case Attaching(h, sid) =>
      (match MetaOf(sid)
       case Ok(meta) => w.(objects := w.objects[h := Untried(meta)])
       case Err => w)
    case Duplicating(h, other) =>
      if other in w.objects then w.(objects := w.objects[h := w.objects[other].(cloned := None)]) else w
    case Acting(h, action) =>
      if h !in w.objects then w
      else
        var st := Perform(St(w.db, w.objects[h]), action);
        World(st.db, w.objects[h := st.s])
    case Passing(seconds) => w.(db := Tick(w.db, seconds))
  }

  function RunOf(w: World, events: seq<Event>): World
    decreases |events|
  {
    if events == [] then w else RunOf(Apply(w, events[0]), events[1..])
  }

  ghost predicate AllEnabled(w: World, events: seq<Event>)
    decreases |events|
  {
    events == [] || (Enabled(w, events[0]) && AllEnabled(Apply(w, events[0]), events[1..]))
  }

  ghost predicate WorldOk(w: World)
  {
    && ClockOk(w.db.now)
    && (forall h | h in w.objects :: SessionOk(w.objects[h]))
    && exists r: Ranking :: Sane(w.db, r, None) && r.low <= r.high
  }

  lemma CreatedIsOk(now: nat, ttlMinutes: nat, digest: string)
    requires |digest| == 64 && ttlMinutes <= U16_MAX && ClockOk(now)
    ensures MetaOk(FreshMeta(ttlMinutes, digest, now))
  {
    hide Pow16;
    SidRoundTrip(digest, ttlMinutes, now);
  }

  lemma AttachedIsOk(sid: string)
    ensures MetaOf(sid).Ok? ==> MetaOk(MetaOf(sid).value)
  {
  }

  lemma TickTime(db: Db, seconds: nat)
    ensures Tick(db, seconds).now == db.now + seconds
  {
  }

  lemma RenewKeepsTime(st: St, filters: Filters, digest: string)
    ensures Renew(st, filters, digest).db.now == st.db.now
  {
  }

  lemma DoCloneKeepsTime(st: St, filters: Filters, digest: string)
    ensures DoClone(st, filters, digest).0.db.now == st.db.now
  {
    RenewKeepsTime(st.(s := st.s.(cloned := Some(SnapshotOf(st.s)))), filters, digest);
    hide Renew;
  }

  lemma TryRenewKeepsTime(st: St, intervals: Intervals, digest: string)
    ensures TryRenew(st, intervals, digest).0.db.now == st.db.now
  {
    hide DoClone, SecondsFromRenew, NewerIsActive, CloneWithId, HGet;
    DoCloneKeepsTime(st, map[], digest);
    forall next: string
      ensures DoClone(ClonedDestroy(st.(s := st.s.(cloned := CloneWithId(st.s, next)))).0,
                      map[NEW_SID_FIELD := None], digest).0.db.now == st.db.now
    {
      DoCloneKeepsTime(ClonedDestroy(st.(s := st.s.(cloned := CloneWithId(st.s, next)))).0,
                       map[NEW_SID_FIELD := None], digest);
    }
  }

  lemma LogInKeepsTime(st: St, user: Option<User>, ttlMinutes: Option<nat>, digest: string)
    ensures LogIn(st, user, ttlMinutes, digest).0.db.now == st.db.now
  {
    var ready := LoggingIn(st, user, ttlMinutes);
    RenewKeepsTime(ready, UserFilter(ready.s.user), digest);
    hide Renew;
  }

  lemma PerformKeepsTime(st: St, a: Action)
    ensures Perform(st, a).db.now == st.db.now
  {
    hide LogIn, TryRenew, Renew;
    match a {
      case LoggingInAs(user, ttlMinutes, digest) => LogInKeepsTime(st, user, ttlMinutes, digest);
      case Renewing(filters, digest) => RenewKeepsTime(st, filters, digest);
      case AutoRenewing(intervals, digest) => TryRenewKeepsTime(st, intervals, digest);
      case _ =>
    }
  }

  lemma ApplyKeeps(w: World, e: Event)
    requires WorldOk(w) && Enabled(w, e)
    ensures WorldOk(Apply(w, e))
  {
    hide Sane, ClockOk, MetaOk, Perform, Allowed, FreshMeta, Tick;
    var r: Ranking :| Sane(w.db, r, None) && r.low <= r.high;
    match e {
      case Creating(h, ttlMinutes, digest) => CreatedIsOk(w.db.now, ttlMinutes, digest);
      case Attaching(h, sid) => AttachedIsOk(sid);
      case Duplicating(h, other) =>
      case Acting(h, action) =>
        var r' := PerformKeeps(St(w.db, w.objects[h]), action, r);
        PerformKeepsTime(St(w.db, w.objects[h]), action);
      case Passing(seconds) =>
        TickKeeps(w.db, r, seconds);
        TickTime(w.db, seconds);
    }
  }

  /** Every run keeps the world in order. */
  lemma {:induction false} RunKeeps(w: World, events: seq<Event>)
    requires WorldOk(w) && AllEnabled(w, events)
    ensures WorldOk(RunOf(w, events))
    decreases |events|
  {
    hide WorldOk, Enabled, Apply;
    if events != [] {
      ApplyKeeps(w, events[0]);
      RunKeeps(Apply(w, events[0]), events[1..]);
    }
  }

  function Empty(now: nat): World
  {
    World(Db(map[], map[], now), map[])
  }

  lemma EmptyIsOk(now: nat)
    requires ClockOk(now)
    ensures WorldOk(Empty(now))
  {
    assert Sane(Empty(now).db, Ranking(map[], 0, 0), None);
  }

  // ----- what holds after every run -----

  /** Successors never form a cycle, whoever logged in, renewed or destroyed what before. */
  lemma NoPointerCycle(now: nat, events: seq<Event>)
    requires ClockOk(now) && AllEnabled(Empty(now), events)
    ensures forall sid, n: nat | n > 0 :: Follow(RunOf(Empty(now), events).db, sid, n) != Some(sid)
  {
    EmptyIsOk(now);
    RunKeeps(Empty(now), events);
    var db := RunOf(Empty(now), events).db;
    var r: Ranking :| Sane(db, r, None) && r.low <= r.high;
    NoCycle(db, r);
  }

  lemma IndexedAlways(db: Db)
    requires exists r: Ranking :: Sane(db, r, None) && r.low <= r.high
    ensures Indexed(db)
  {
    hide HashesOk, Ranked;
  }

  /** Every stored session that carries a user is listed under that user; so `sync` reaches all
      of the user's sessions. */
  lemma UserIndexHolds(now: nat, events: seq<Event>, user: User)
    requires ClockOk(now) && AllEnabled(Empty(now), events)
    ensures Indexed(RunOf(Empty(now), events).db)
    ensures
      var db := RunOf(Empty(now), events).db;
      forall sid | sid in db.hashes && StoredUser(db, sid).Some? && StoredUser(db, sid).value.id == user.id ::
        StoredUser(Sync(db, user), sid) == Some(user)
  {
    EmptyIsOk(now);
    RunKeeps(Empty(now), events);
    var db := RunOf(Empty(now), events).db;
    IndexedAlways(db);
    SyncReachesAll(db, user);
  }

  lemma TtlOfKey(db: Db, sid: string)
    requires sid in db.hashes && HashOk(db, sid) && db.hashes[sid].expiry.Until?
    ensures ParseSid(sid).Ok? && 0 < Ttl(db, sid) <= 60 * ParseSid(sid).value.0
    ensures TtlPassed(db, sid, 60 * ParseSid(sid).value.0) == Some(db.now - db.hashes[sid].expiry.setAt)
  {
    hide ParseSid;
    assert ParseSid(sid).value.0 <= U16_MAX;
  }

  /** The meta data of every session is what its id encodes, no stored key outlives the time to
      live in its id, and `ttl_passed` is the time since that was last set, without underflow. */
  lemma TtlHolds(now: nat, events: seq<Event>)
    requires ClockOk(now) && AllEnabled(Empty(now), events)
    ensures
      var w := RunOf(Empty(now), events);
      && (forall h | h in w.objects :: MetaOk(w.objects[h].meta))
      && (forall sid | sid in w.db.hashes && w.db.hashes[sid].expiry.Until? ::
            && ParseSid(sid).Ok? && 0 < Ttl(w.db, sid) <= 60 * ParseSid(sid).value.0
            && TtlPassed(w.db, sid, 60 * ParseSid(sid).value.0) == Some(w.db.now - w.db.hashes[sid].expiry.setAt))
  {
    hide ParseSid, TtlPassed, Ttl, AllEnabled, RunOf, ClockOk;
    EmptyIsOk(now);
    RunKeeps(Empty(now), events);
    var w := RunOf(Empty(now), events);
    forall sid | sid in w.db.hashes && w.db.hashes[sid].expiry.Until?
      ensures ParseSid(sid).Ok? && 0 < Ttl(w.db, sid) <= 60 * ParseSid(sid).value.0
      ensures TtlPassed(w.db, sid, 60 * ParseSid(sid).value.0) == Some(w.db.now - w.db.hashes[sid].expiry.setAt)
    {
      assert HashOk(w.db, sid);
      TtlOfKey(w.db, sid);
    }
  }

  /** The time since a key's time to live was set comes out right exactly when it is measured with
      the time to live in the key's own id: a successor kept through a login with another time to
      live is measured wrong. */
  lemma TtlPassedExactly(db: Db, sid: string, ttlMinutes: nat)
    requires sid in db.hashes && HashOk(db, sid) && db.hashes[sid].expiry.Until? && ttlMinutes <= U16_MAX
    ensures TtlPassed(db, sid, 60 * ttlMinutes) == Some(db.now - db.hashes[sid].expiry.setAt)
        <==> ttlMinutes == ParseSid(sid).value.0
  {
    hide ParseSid;
    assert ParseSid(sid).value.0 <= U16_MAX;
  }

  /** A key was touched this many seconds ago. */
  ghost predicate TouchedAgo(db: Db, sid: string, seconds: int)
  {
    sid in db.hashes && db.hashes[sid].expiry.Until? && db.now - db.hashes[sid].expiry.setAt == seconds
  }

  /** What comes out when the seconds since a touch are measured with another time to live than
      the key's own. */
  function Measured(ago: int, ttlMinutes: nat, ownTtlMinutes: nat): int
  {
    (ago + 60 * ttlMinutes - 60 * ownTtlMinutes) % U32
  }

  lemma TtlPassedMeans(db: Db, sid: string, ttlMinutes: nat)
    requires HashesOk(db) && ParseSid(sid).Ok?
    ensures
      var passed := TtlPassed(db, sid, 60 * ttlMinutes);
      if passed.Some? then
        exists ago: nat :: TouchedAgo(db, sid, ago) && passed.value == Measured(ago, ttlMinutes, ParseSid(sid).value.0)
      else
        forall ago :: !TouchedAgo(db, sid, ago)
  {
    hide ParseSid;
    if sid in db.hashes {
      assert HashOk(db, sid);
      if db.hashes[sid].expiry.Until? {
        assert TouchedAgo(db, sid, db.now - db.hashes[sid].expiry.setAt);
      }
    }
  }

  /** Measured with its own time to live, a key gives the seconds since its touch. */
  lemma OwnPassedMeans(db: Db, sid: string, ttlMinutes: nat)
    requires HashesOk(db) && ParseSid(sid).Ok? && ParseSid(sid).value.0 == ttlMinutes
    ensures
      var passed := TtlPassed(db, sid, 60 * ttlMinutes);
      if passed.Some? then TouchedAgo(db, sid, passed.value) else forall ago :: !TouchedAgo(db, sid, ago)
  {
    hide ParseSid, TtlPassed, Ttl;
    TtlPassedMeans(db, sid, ttlMinutes);
    assert ParseSid(sid).value.0 <= U16_MAX;
    if sid in db.hashes && db.hashes[sid].expiry.Until? {
      assert HashOk(db, sid);
    }
  }

  /** The successor is in use, by the times of the last touches: it seems to have been touched less
      than the interval ago, and later than the session. With another time to live than the
      session's own, these seconds are measured wrong. */
  ghost predicate InUse(db: Db, next: string, m: MetaView, inactive: nat)
  {
    ParseSid(next).Ok?
    && exists ago: nat :: TouchedAgo(db, next, ago)
         && Measured(ago, m.ttlMinutes, ParseSid(next).value.0) < inactive
         && forall own :: TouchedAgo(db, m.sid, own) ==> Measured(ago, m.ttlMinutes, ParseSid(next).value.0) < own
  }

  lemma TouchedOnce(db: Db, sid: string, a: int, b: int)
    requires TouchedAgo(db, sid, a) && TouchedAgo(db, sid, b)
    ensures a == b
  {
  }

  lemma CloneParses(s: SessionView, next: string)
    ensures CloneWithId(s, next).Some? <==> ParseSid(next).Ok?
    ensures CloneWithId(s, next).Some? ==> CloneWithId(s, next).value.meta.sid == next
  {
  }

  lemma InUseMeans(st: St, next: string, intervals: Intervals)
    requires HashesOk(st.db) && MetaOk(st.s.meta) && intervals.inactive <= U16_MAX
    ensures NewerIsActive(WithSuccessor(st, next), intervals) <==> InUse(st.db, next, st.s.meta, intervals.inactive)
  {
    hide ParseSid, TtlPassed, Measured, TouchedAgo;
    CloneParses(st.s, next);
    MetaOkMeans(st.s.meta);
    var ttl, sid := st.s.meta.ttlMinutes, st.s.meta.sid;
    assert TtlSeconds(st.s.meta) == 60 * ttl;
    if ParseSid(next).Ok? {
      TtlPassedMeans(st.db, next, ttl);
      OwnPassedMeans(st.db, sid, ttl);
      forall a, b | TouchedAgo(st.db, next, a) && TouchedAgo(st.db, next, b) ensures a == b {
        TouchedOnce(st.db, next, a, b);
      }
      forall a, b | TouchedAgo(st.db, sid, a) && TouchedAgo(st.db, sid, b) ensures a == b {
        TouchedOnce(st.db, sid, a, b);
      }
      hide HashesOk, MetaOk;
    }
  }

  lemma SuccessorReplaced(st: St, next: string, digest: string)
    requires st.s.cloned == CloneWithId(st.s, next)
    ensures ClonedDestroy(st).1.Ok? <==> ParseSid(next).Ok?
    ensures DoClone(ClonedDestroy(st).0, map[NEW_SID_FIELD := None], digest).1 == Ok(true)
  {
    hide ParseSid;
  }

  /** A session that records a successor gives way exactly when it is due for longer than the
      interval for originals, and the successor is in use or no id. */
  lemma GivesWayExactly(st: St, next: string, intervals: Intervals, digest: string)
    requires HashesOk(st.db) && MetaOk(st.s.meta) && intervals.inactive <= U16_MAX
    requires Next(st.db, st.s.meta.sid) == Some(next)
    ensures
      var (r, ok) := TryRenew(st, intervals, digest);
      ok.Err? <==>
        SecondsFromRenew(st, intervals) >= 0 && SecondsFromRenew(st, intervals) > intervals.original
        && (InUse(st.db, next, st.s.meta, intervals.inactive) || ParseSid(next).Err?)
  {
    hide ParseSid, NewerIsActive, SecondsFromRenew, HashesOk, MetaOk, DoClone, TryTouch, Destroy, ClonedDestroy,
         CloneWithId, InUse;
    var found := WithSuccessor(st, next);
    InUseMeans(st, next, intervals);
    NextIsPlain(st.db, st.s.meta.sid);
    SameClone(st.s, found.s, next);
    SuccessorReplaced(found, next, digest);
  }

  /** For times within reach of the clock, how long a renewal is due is plain subtraction. */
  lemma DueIsPlain(st: St, intervals: Intervals)
    requires st.db.now < 0x4000_0000_0000_0000 && st.s.meta.createStamp < 0x4000_0000_0000_0000
        && intervals.renewal <= U16_MAX
    ensures SecondsFromRenew(st, intervals) == st.db.now - st.s.meta.createStamp - intervals.renewal
  {
  }

  lemma NotItsOwnSuccessor(db: Db, sid: string)
    requires forall other, n: nat | n > 0 :: Follow(db, other, n) != Some(other)
    ensures Next(db, sid) != Some(sid)
  {
    assert Follow(db, sid, 1) != Some(sid);
    assert Next(db, sid).Some? ==> Follow(db, Next(db, sid).value, 0) == Next(db, sid);
  }

  /** In every reachable state, automatic renewal loses nothing of a stored session exactly when
      the session has a time to live, or nothing to lose, or was touched before and is only touched
      again, or gives up. */
  lemma AutoRenewalIsSafe(now: nat, events: seq<Event>, h: nat, intervals: Intervals, digest: string)
    requires ClockOk(now) && AllEnabled(Empty(now), events)
    requires
      var w := RunOf(Empty(now), events);
      h in w.objects && w.objects[h].meta.sid in w.db.hashes && Fresh(St(w.db, w.objects[h]), digest)
    requires intervals.inactive <= U16_MAX
    ensures
      var w := RunOf(Empty(now), events);
      var st := St(w.db, w.objects[h]);
      var (r, ok) := TryRenew(st, intervals, digest);
      Safe(st, r, ok) <==>
        || st.s.meta.ttlMinutes > 0 || NothingToLose(st)
        || (if OnlyTouches(st, intervals) then st.s.meta.touches.Some? else GivesUp(st, intervals))
  {
    hide ClockOk, AllEnabled, RunOf, TryRenew, Safe, NothingToLose, OnlyTouches, GivesUp, FreshIn, Next;
    var w := RunOf(Empty(now), events);
    var st := St(w.db, w.objects[h]);
    NoPointerCycle(now, events);
    NotItsOwnSuccessor(w.db, st.s.meta.sid);
    FreshIsMissing(w.db, NewSid(st, digest));
    TryRenewKeeps(st, intervals, digest);
  }
}
