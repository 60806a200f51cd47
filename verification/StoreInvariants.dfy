/** What every change of the store keeps: times to live that their ids allow, sessions listed
    under their users, and successors without a cycle. */
module StoreInvariants {
  import opened Text
  import opened Sids
  import opened Stores
  import opened SessionSteps
  import opened SessionLaws

  // ----- times to live -----

  /** A hash has fields, and lives no longer than the time to live in its id, from when that was set. */
  ghost predicate HashOk(db: Db, sid: string)
    requires sid in db.hashes
  {
    var hash := db.hashes[sid];
    && hash.fields != map[]
    && (hash.expiry.Until? ==>
          && ParseSid(sid).Ok?
          && hash.expiry.deadline == hash.expiry.setAt + 60 * ParseSid(sid).value.0
          && hash.expiry.setAt <= db.now < hash.expiry.deadline)
  }

  ghost predicate HashesOk(db: Db)
  {
    forall sid | sid in db.hashes :: HashOk(db, sid)
  }

  // ----- successors -----

  /** A ranking of ids, within bounds. */
  datatype Ranking = Ranking(of: map<string, int>, low: int, high: int)

  /** Successors rank higher. */
  ghost predicate Ranked(db: Db, r: Ranking)
  {
    && (forall sid | sid in r.of :: r.low <= r.of[sid] <= r.high)
    && forall sid | Next(db, sid).Some? ::
         sid in r.of && Next(db, sid).value in r.of && r.of[sid] < r.of[Next(db, sid).value]
  }

  /** The session reached by following successors `n` times. */
  ghost function Follow(db: Db, sid: string, n: nat): Option<string>
    decreases n
  {
    if n == 0 then Some(sid)
    else match Next(db, sid)
      case None => None
      case Some(next) => Follow(db, next, n - 1)
  }

  lemma {:induction false} FollowingClimbs(db: Db, r: Ranking, sid: string, n: nat)
    requires Ranked(db, r) && n > 0 && Follow(db, sid, n).Some?
    ensures sid in r.of && Follow(db, sid, n).value in r.of && r.of[sid] < r.of[Follow(db, sid, n).value]
    decreases n
  {
    hide Next;
    if n > 1 {
      FollowingClimbs(db, r, Next(db, sid).value, n - 1);
    } else {
      assert Follow(db, Next(db, sid).value, 0) == Next(db, sid);
    }
  }

  /** Following successors never leads back. */
  lemma NoCycle(db: Db, r: Ranking)
    requires Ranked(db, r)
    ensures forall sid, n: nat | n > 0 :: Follow(db, sid, n) != Some(sid)
  {
    forall sid, n: nat | n > 0 ensures Follow(db, sid, n) != Some(sid) {
      if Follow(db, sid, n) == Some(sid) { FollowingClimbs(db, r, sid, n); }
    }
  }

  // ----- users -----

  /** Stored sessions are listed under their users, but perhaps the one that is just changing. */
  ghost predicate IndexedBut(db: Db, changing: Option<string>)
  {
    forall sid | sid in db.hashes && Some(sid) != changing && StoredUser(db, sid).Some? ::
      sid in SMembers(db, StoredUser(db, sid).value.id)
  }

  ghost predicate Sane(db: Db, r: Ranking, changing: Option<string>)
  {
    HashesOk(db) && Ranked(db, r) && IndexedBut(db, changing)
  }

  // ----- one change at a time -----

  /** At most the key `sid` differs, and others may be gone. */
  ghost predicate OnlyAt(db: Db, db': Db, sid: string)
  {
    && db'.now == db.now && db'.index == db.index
    && forall other | other != sid && other in db'.hashes :: other in db.hashes && db'.hashes[other] == db.hashes[other]
  }

  lemma ElsewhereSame(db: Db, db': Db, sid: string)
    requires OnlyAt(db, db', sid)
    ensures forall other | other != sid :: Next(db', other) == None || Next(db', other) == Next(db, other)
    ensures forall other | other != sid && other in db'.hashes :: StoredUser(db', other) == StoredUser(db, other)
  {
  }

  lemma HashesStayOk(db: Db, db': Db, sid: string)
    requires OnlyAt(db, db', sid) && HashesOk(db) && (sid in db'.hashes ==> HashOk(db', sid))
    ensures HashesOk(db')
  {
    hide ParseSid;
    forall other | other in db'.hashes ensures HashOk(db', other) {
      if other != sid { assert HashOk(db, other); }
    }
  }

  lemma IndexStays(db: Db, db': Db, changing: Option<string>, changing': Option<string>, sid: string)
    requires OnlyAt(db, db', sid) && IndexedBut(db, changing)
    requires sid in db'.hashes && StoredUser(db', sid).Some? ==>
               (sid in db.hashes && StoredUser(db', sid) == StoredUser(db, sid) && changing' == changing)
                   || changing' == Some(sid)
    requires changing' == changing || changing' == Some(sid) || changing == Some(sid)
    requires changing' == Some(sid) ==> changing == None || changing == Some(sid)
    ensures IndexedBut(db', changing')
  {
    ElsewhereSame(db, db', sid);
    hide StoredUser;
  }

  lemma RankStays(db: Db, db': Db, r: Ranking, sid: string)
    requires OnlyAt(db, db', sid) && Ranked(db, r) && (Next(db', sid) == None || Next(db', sid) == Next(db, sid))
    ensures Ranked(db', r)
  {
    ElsewhereSame(db, db', sid);
    hide Next;
  }

  /** A change at one key that neither moves its pointer nor changes its user. */
  lemma ChangeKeeps(db: Db, db': Db, r: Ranking, changing: Option<string>, changing': Option<string>, sid: string)
    requires Sane(db, r, changing) && OnlyAt(db, db', sid)
    requires sid in db'.hashes ==> HashOk(db', sid)
    requires Next(db', sid) == None || Next(db', sid) == Next(db, sid)
    requires sid in db'.hashes && StoredUser(db', sid).Some?
        ==> sid in db.hashes && StoredUser(db', sid) == StoredUser(db, sid) && changing' == changing
    requires changing' == changing || (changing == Some(sid) && changing' == None)
    ensures Sane(db', r, changing')
  {
    hide HashOk, Next, StoredUser, OnlyAt, Ranked, HashesOk;
    HashesStayOk(db, db', sid);
    IndexStays(db, db', changing, changing', sid);
    RankStays(db, db', r, sid);
  }

  lemma DelKeeps(db: Db, r: Ranking, changing: Option<string>, sid: string)
    requires Sane(db, r, changing) && (changing == None || changing == Some(sid))
    ensures Sane(Del(db, sid), r, None)
  {
    hide Sane;
    ChangeKeeps(db, Del(db, sid), r, changing, None, sid);
  }

  lemma HashAt(db: Db, r: Ranking, changing: Option<string>, sid: string)
    requires Sane(db, r, changing) && sid in db.hashes
    ensures HashOk(db, sid)
  {
  }

  lemma HDelKeeps(db: Db, r: Ranking, changing: Option<string>, sid: string, field: string)
    requires Sane(db, r, changing) && (changing == None || (changing == Some(sid) && field == USER_FIELD))
    ensures Sane(HDel(db, sid, field), r, None)
  {
    hide Sane, ParseSid;
    if sid in db.hashes { HashAt(db, r, changing, sid); }
    ChangeKeeps(db, HDel(db, sid, field), r, changing, None, sid);
  }

  lemma ExpireKeeps(db: Db, r: Ranking, changing: Option<string>, sid: string, seconds: nat)
    requires Sane(db, r, changing) && ParseSid(sid).Ok? && seconds == 60 * ParseSid(sid).value.0
    ensures Sane(Expire(db, sid, seconds), r, changing)
  {
    hide Sane, ParseSid;
    if sid in db.hashes { HashAt(db, r, changing, sid); }
    ChangeKeeps(db, Expire(db, sid, seconds), r, changing, changing, sid);
  }

  predicate Reserved(field: string)
  {
    field == USER_FIELD || field == NEW_SID_FIELD
  }

  lemma HSetKeeps(db: Db, r: Ranking, changing: Option<string>, sid: string, field: string, text: string)
    requires Sane(db, r, changing) && !Reserved(field)
    ensures Sane(HSet(db, sid, field, Plain(text)), r, changing)
  {
    hide Sane, ParseSid;
    if sid in db.hashes { HashAt(db, r, changing, sid); }
    assert field in HSet(db, sid, field, Plain(text)).hashes[sid].fields;
    ChangeKeeps(db, HSet(db, sid, field, Plain(text)), r, changing, changing, sid);
  }

  /** The index alone changes. */
  lemma SameHashes(db: Db, db': Db, r: Ranking)
    requires HashesOk(db) && Ranked(db, r) && db'.hashes == db.hashes && db'.now == db.now
    ensures HashesOk(db') && Ranked(db', r)
    ensures forall sid :: Next(db', sid) == Next(db, sid) && StoredUser(db', sid) == StoredUser(db, sid)
  {
    hide ParseSid;
    assert forall sid :: Next(db', sid) == Next(db, sid);
    assert forall sid | sid in db.hashes :: HashOk(db, sid) ==> HashOk(db', sid);
  }

  lemma SAddKeeps(db: Db, r: Ranking, changing: Option<string>, uid: nat, sid: string)
    requires Sane(db, r, changing)
    ensures Sane(SAdd(db, uid, sid), r, changing)
    ensures changing == Some(sid) && (StoredUser(db, sid).Some? ==> StoredUser(db, sid).value.id == uid)
        ==> Sane(SAdd(db, uid, sid), r, None)
  {
    SameHashes(db, SAdd(db, uid, sid), r);
    hide HashesOk, Ranked;
  }

  /** An id leaves a set: only that session may be missing there now. */
  lemma SRemKeeps(db: Db, r: Ranking, uid: nat, sid: string)
    requires Sane(db, r, None)
    ensures Sane(SRem(db, uid, sid), r, Some(sid))
  {
    SameHashes(db, SRem(db, uid, sid), r);
    hide HashesOk, Ranked;
  }

  lemma SRemDeadKeeps(db: Db, r: Ranking, uid: nat, sids: set<string>)
    requires Sane(db, r, None) && forall sid | sid in sids :: sid !in db.hashes
    ensures Sane(SRemAll(db, uid, sids), r, None)
  {
    SameHashes(db, SRemAll(db, uid, sids), r);
    hide HashesOk, Ranked;
  }

  /** A new session, with a pointer copied from another at most: a new source. */
  function AsSource(r: Ranking, sid: string): Ranking
  {
    Ranking(r.of[sid := r.low - 1], r.low - 1, if r.high < r.low - 1 then r.low - 1 else r.high)
  }

  lemma SourceRanked(db: Db, db': Db, r: Ranking, from: string, sid: string)
    requires OnlyAt(db, db', sid) && Ranked(db, r) && FreshIn(db, sid)
    requires Next(db', sid).Some? ==> Next(db', sid) == Next(db, from)
    ensures Ranked(db', AsSource(r, sid))
  {
    ElsewhereSame(db, db', sid);
    assert Next(db, sid) == None;
    hide Next;
  }

  lemma NewSessionKeeps(db: Db, r: Ranking, from: string, sid: string, fields: Fields)
    requires Sane(db, r, None) && FreshIn(db, sid) && fields != map[]
    requires ParseSid(sid).Ok? && ParseSid(sid).value.0 > 0
    requires NEW_SID_FIELD in fields ==> HGet(db, from, NEW_SID_FIELD) == Some(fields[NEW_SID_FIELD])
    ensures Sane(db.(hashes := db.hashes[sid := Hash(fields, Until(db.now + 60 * ParseSid(sid).value.0, db.now))]),
        AsSource(r, sid), Some(sid))
  {
    hide ParseSid, Ranked, HashesOk, IndexedBut, FreshIn;
    var db' := db.(hashes := db.hashes[sid := Hash(fields, Until(db.now + 60 * ParseSid(sid).value.0, db.now))]);
    HashesStayOk(db, db', sid);
    IndexStays(db, db', None, Some(sid), sid);
    SourceRanked(db, db', r, from, sid);
  }

  /** A pointer to a session nobody points to, and that points to nobody: a new sink. */
  function AsSink(r: Ranking, from: string, sid: string): Ranking
  {
    Ranking(r.of[from := if from in r.of then r.of[from] else r.high][sid := r.high + 1], r.low, r.high + 1)
  }

  lemma SinkParts(db: Db, db': Db, r: Ranking, changing: Option<string>, from: string, sid: string)
    requires Sane(db, r, changing) && sid != from && r.low <= r.high
    requires OnlyAt(db, db', from) && (from in db'.hashes ==> HashOk(db', from))
        && StoredUser(db', from) == StoredUser(db, from)
    requires from in db'.hashes && StoredUser(db', from).Some? ==> from in db.hashes
    requires Next(db', from) == Some(sid)
    requires Next(db, sid) == None && forall other :: Next(db, other) != Some(sid)
    ensures Sane(db', AsSink(r, from, sid), changing)
  {
    hide HashOk, StoredUser, Next;
    HashesStayOk(db, db', from);
    IndexStays(db, db', changing, changing, from);
    ElsewhereSame(db, db', from);
  }

  lemma PointerKeeps(db: Db, r: Ranking, changing: Option<string>, from: string, sid: string)
    requires Sane(db, r, changing) && sid != from && r.low <= r.high
    requires Next(db, sid) == None && forall other :: Next(db, other) != Some(sid)
    ensures Sane(HSet(db, from, NEW_SID_FIELD, Plain(sid)), AsSink(r, from, sid), changing)
  {
    hide ParseSid, Sane;
    var db' := HSet(db, from, NEW_SID_FIELD, Plain(sid));
    if from in db.hashes { HashAt(db, r, changing, from); }
    assert NEW_SID_FIELD in db'.hashes[from].fields;
    SinkParts(db, db', r, changing, from, sid);
  }

  lemma SyncLeaves(db: Db, user: User)
    ensures
      var r := Sync(db, user);
      && r.hashes.Keys == db.hashes.Keys && r.now == db.now
      && (forall sid :: HGet(r, sid, NEW_SID_FIELD) == HGet(db, sid, NEW_SID_FIELD))
      && (forall sid | sid in db.hashes :: r.hashes[sid].expiry == db.hashes[sid].expiry)
      && (forall sid | sid in db.hashes && r.hashes[sid].fields == map[] :: db.hashes[sid].fields == map[])
  {
    var r := Sync(db, user);
    forall sid | sid in db.hashes && r.hashes[sid].fields == map[] ensures db.hashes[sid].fields == map[] {
      assert r.hashes[sid] == db.hashes[sid] || USER_FIELD in r.hashes[sid].fields;
    }
  }

  lemma SameTimes(db: Db, db': Db)
    requires HashesOk(db) && db'.hashes.Keys == db.hashes.Keys && db'.now == db.now
    requires forall sid | sid in db.hashes :: db'.hashes[sid].expiry == db.hashes[sid].expiry
    requires forall sid | sid in db.hashes && db'.hashes[sid].fields == map[] :: db.hashes[sid].fields == map[]
    ensures HashesOk(db')
  {
    hide ParseSid;
    forall sid | sid in db'.hashes ensures HashOk(db', sid) {
      assert HashOk(db, sid);
    }
  }

  lemma SamePointers(db: Db, db': Db, r: Ranking)
    requires Ranked(db, r) && forall sid :: HGet(db', sid, NEW_SID_FIELD) == HGet(db, sid, NEW_SID_FIELD)
    ensures Ranked(db', r)
  {
    hide HGet;
    assert forall sid :: Next(db', sid) == Next(db, sid);
    hide Next;
  }

  lemma SyncKeeps(db: Db, r: Ranking, user: User)
    requires Sane(db, r, None)
    ensures Sane(Sync(db, user), r, None)
  {
    hide HashesOk, Ranked, Sync, StoredUser, HGet;
    SyncLeaves(db, user);
    SyncReachesAll(db, user);
    SameTimes(db, Sync(db, user));
    SamePointers(db, Sync(db, user), r);
  }

  lemma TickLeaves(db: Db, seconds: nat)
    ensures
      var r := Tick(db, seconds);
      && (forall sid | sid in r.hashes ::
            sid in db.hashes && r.hashes[sid] == db.hashes[sid] && StoredUser(r, sid) == StoredUser(db, sid))
      && (forall sid :: Next(r, sid) == None || Next(r, sid) == Next(db, sid))
  {
  }

  lemma TickTimes(db: Db, seconds: nat)
    requires HashesOk(db)
    ensures HashesOk(Tick(db, seconds))
  {
    hide ParseSid;
    var r := Tick(db, seconds);
    forall sid | sid in r.hashes ensures HashOk(r, sid) {
      assert HashOk(db, sid);
    }
  }

  lemma SameSets(db: Db, seconds: nat)
    ensures forall uid :: SMembers(Tick(db, seconds), uid) == SMembers(db, uid)
  {
  }

  lemma TickKeeps(db: Db, r: Ranking, seconds: nat)
    requires Sane(db, r, None)
    ensures Sane(Tick(db, seconds), r, None)
  {
    hide HashesOk, Tick, Next, StoredUser, SMembers;
    TickTimes(db, seconds);
    TickLeaves(db, seconds);
    SameSets(db, seconds);
  }
}
