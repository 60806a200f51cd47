/** Runs that show what the conditions on times to live are for: a stored session that is lost,
    and a successor whose last touch is measured wrong. */
module SessionRuns {
  import opened Text
  import opened Sids
  import opened Stores
  import opened SessionSteps
  import opened SessionLaws
  import opened Lifecycle

  const DEFAULTS: Intervals := Intervals(600, 120, 60)

  lemma OneEvent(w: World, e: Event)
    ensures RunOf(w, [e]) == Apply(w, e) && (AllEnabled(w, [e]) <==> Enabled(w, e))
  {
    assert [e][1..] == [];
  }

  /** A run goes on. */
  lemma {:induction false} RunConcat(w: World, a: seq<Event>, b: seq<Event>)
    ensures RunOf(w, a + b) == RunOf(RunOf(w, a), b)
    ensures AllEnabled(w, a + b) <==> AllEnabled(w, a) && AllEnabled(RunOf(w, a), b)
    decreases |a|
  {
    hide Apply, Enabled;
    if a == [] {
      assert a + b == b;
    } else {
      assert (a + b)[0] == a[0] && (a + b)[1..] == a[1..] + b;
      RunConcat(Apply(w, a[0]), a[1..], b);
    }
  }

  /** One more event at the end of a run. */
  lemma RunSnoc(w: World, events: seq<Event>, e: Event)
    ensures RunOf(w, events + [e]) == Apply(RunOf(w, events), e)
    ensures AllEnabled(w, events + [e]) <==> AllEnabled(w, events) && Enabled(RunOf(w, events), e)
  {
    RunConcat(w, events, [e]);
    OneEvent(RunOf(w, events), e);
  }

  // ----- a session without a time to live -----

  /** A session without a time to live is set twice: the second value stays, for it is only touched
      once. Another object takes up its id. */
  function ZeroRun(now: nat, digest: string): seq<Event>
  {
    [Creating(0, 0, digest)] + [Acting(0, SettingField("f", "a"))] + [Acting(0, SettingField("f", "b"))]
    + [Attaching(1, GenSid(digest, 0, now))]
  }

  /** Touching a key that was just written without a time to live deletes it again. */
  lemma FirstSetIsLost(db: Db, s: SessionView, text: string)
    requires s.meta.ttlMinutes == 0 && s.meta.touches == None && s.meta.sid !in db.hashes
    ensures Perform(St(db, s), SettingField("f", text)) == St(db, s.(meta := s.meta.(touches := Some(true))))
  {
    assert db.hashes[s.meta.sid := Hash(HGetAll(db, s.meta.sid) + map["f" := Plain(text)], Never)] - {s.meta.sid}
        == db.hashes;
  }

  lemma SecondSetStays(db: Db, s: SessionView, text: string)
    requires s.meta.touches == Some(true) && s.meta.sid !in db.hashes
    ensures Perform(St(db, s), SettingField("f", text))
         == St(db.(hashes := db.hashes[s.meta.sid := Hash(map["f" := Plain(text)], Never)]), s)
  {
    assert map[] + map["f" := Plain(text)] == map["f" := Plain(text)];
  }

  lemma EmptyRun(w: World)
    ensures RunOf(w, []) == w && AllEnabled(w, [])
  {
  }

  lemma NewIdParses(digest: string, ttlMinutes: nat, now: nat)
    requires ClockOk(now) && |digest| == 64 && ttlMinutes <= U16_MAX
    ensures ParseSid(GenSid(digest, ttlMinutes, now)) == Ok((ttlMinutes, now))
    ensures MetaOf(GenSid(digest, ttlMinutes, now))
        == Ok(MetaView(ttlMinutes, now, GenSid(digest, ttlMinutes, now), None))
  {
    hide Pow16, ParseSid;
    SidRoundTrip(digest, ttlMinutes, now);
  }

  /** The world after that run. */
  lemma ZeroRunMeans(now: nat, digest: string)
    requires ClockOk(now) && |digest| == 64
    ensures AllEnabled(Empty(now), ZeroRun(now, digest))
    ensures
      var w := RunOf(Empty(now), ZeroRun(now, digest));
      var sid := GenSid(digest, 0, now);
      && w.db == Db(map[sid := Hash(map["f" := Plain("b")], Never)], map[], now)
      && 1 in w.objects && w.objects[1] == Untried(MetaView(0, now, sid, None))
  {
    hide ClockOk, GenSid, ParseSid, Pow16, Perform, RunOf, AllEnabled;
    var sid, w0 := GenSid(digest, 0, now), Empty(now);
    EmptyRun(w0);
    var made := Untried(FreshMeta(0, digest, now));
    var touched := made.(meta := made.meta.(touches := Some(true)));
    var e1, e2, e3, e4 :=
      Creating(0, 0, digest), Acting(0, SettingField("f", "a")), Acting(0, SettingField("f", "b")), Attaching(1, sid);
    RunSnoc(w0, [], e1);
    assert [] + [e1] == [e1];
    var w1 := RunOf(w0, [e1]);
    assert w1 == World(w0.db, map[0 := made]);
    FirstSetIsLost(w1.db, made, "a");
    RunSnoc(w0, [e1], e2);
    var w2 := RunOf(w0, [e1] + [e2]);
    assert w2 == World(w0.db, map[0 := touched]);
    SecondSetStays(w2.db, touched, "b");
    RunSnoc(w0, [e1] + [e2], e3);
    var w3 := RunOf(w0, [e1] + [e2] + [e3]);
    assert w3 == World(Db(map[sid := Hash(map["f" := Plain("b")], Never)], map[], now), map[0 := touched]);
    RunSnoc(w0, [e1] + [e2] + [e3], e4);
    NewIdParses(digest, 0, now);
  }

  /** A reachable stored session that automatic renewal loses: the call succeeds, and the key is gone. */
  lemma ZeroSessionIsLost(now: nat, digest: string, other: string)
    requires ClockOk(now) && now < 0x4000_0000_0000_0000 && |digest| == 64
    ensures AllEnabled(Empty(now), ZeroRun(now, digest))
    ensures
      var w := RunOf(Empty(now), ZeroRun(now, digest));
      && 1 in w.objects && w.objects[1].meta.sid in w.db.hashes
      && var (r, ok) := TryRenew(St(w.db, w.objects[1]), DEFAULTS, other);
         ok == Ok(false) && w.objects[1].meta.sid !in r.db.hashes && !Safe(St(w.db, w.objects[1]), r, ok)
  {
    ZeroRunMeans(now, digest);
    hide ClockOk, GenSid, RunOf, AllEnabled, Pow16;
    var w := RunOf(Empty(now), ZeroRun(now, digest));
    var st := St(w.db, w.objects[1]);
    DueIsPlain(st, DEFAULTS);
    hide SecondsFromRenew, Signed;
    TouchKeeps(st);
    assert HGetAll(st.db, st.s.meta.sid) == map["f" := Plain("b")];
    assert "f" in WithoutPointer(map["f" := Plain("b")]);
  }

  // ----- a successor with another time to live -----

  const HOUR: nat := 60
  const HALF: nat := 30
  const FIELDS: Fields := map["f" := Plain("a")]

  function SetRun(d0: string): seq<Event>
  {
    [Creating(0, HOUR, d0)] + [Acting(0, SettingField("f", "a"))] + [Passing(600)]
  }

  function RenewedRun(now: nat, d0: string, d1: string): seq<Event>
  {
    SetRun(d0) + [Acting(0, AutoRenewing(DEFAULTS, d1))]
  }

  /** A session is set and renews itself; an object that took up the old id logs in for half the time. */
  function LoginRun(now: nat, d0: string, d1: string, d2: string, user: User): seq<Event>
  {
    RenewedRun(now, d0, d1)
    + [Attaching(1, GenSid(d0, HOUR, now))] + [Acting(1, LoggingInAs(Some(user), Some(HALF), d2))]
  }

  /** The ids of the run are different: they have another time, or another time to live. */
  lemma IdsDiffer(now: nat, d0: string, d1: string, d2: string)
    requires ClockOk(now) && ClockOk(now + 600) && |d0| == 64 && |d1| == 64 && |d2| == 64
    ensures
      var s0, s1, s2 := GenSid(d0, HOUR, now), GenSid(d1, HOUR, now + 600), GenSid(d2, HALF, now + 600);
      s0 != s1 && s0 != s2 && s1 != s2
  {
    hide ClockOk, GenSid, ParseSid;
    NewIdParses(d0, HOUR, now);
    NewIdParses(d1, HOUR, now + 600);
    NewIdParses(d2, HALF, now + 600);
  }

  lemma FirstSetStays(db: Db, s: SessionView)
    requires s.meta.ttlMinutes == HOUR && s.meta.touches == None && s.meta.sid !in db.hashes
    ensures Perform(St(db, s), SettingField("f", "a"))
         == St(db.(hashes := db.hashes[s.meta.sid := Hash(FIELDS, Until(db.now + 3600, db.now))]),
               s.(meta := s.meta.(touches := Some(true))))
  {
    assert map[] + FIELDS == FIELDS;
  }

  /** The session after it was set, when it is due for renewal. */
  lemma SetRunMeans(now: nat, d0: string)
    requires ClockOk(now) && ClockOk(now + 600) && |d0| == 64
    ensures AllEnabled(Empty(now), SetRun(d0))
    ensures
      var w := RunOf(Empty(now), SetRun(d0));
      var sid := GenSid(d0, HOUR, now);
      && w.db == Db(map[sid := Hash(FIELDS, Until(now + 3600, now))], map[], now + 600)
      && 0 in w.objects && w.objects[0] == Untried(MetaView(HOUR, now, sid, Some(true)))
  {
    hide ClockOk, GenSid, ParseSid, Pow16, Perform, RunOf, AllEnabled;
    var sid, w0 := GenSid(d0, HOUR, now), Empty(now);
    EmptyRun(w0);
    var made := Untried(FreshMeta(HOUR, d0, now));
    var e1, e2, e3 := Creating(0, HOUR, d0), Acting(0, SettingField("f", "a")), Passing(600);
    RunSnoc(w0, [], e1);
    assert [] + [e1] == [e1];
    var w1 := RunOf(w0, [e1]);
    assert w1 == World(w0.db, map[0 := made]);
    FirstSetStays(w1.db, made);
    RunSnoc(w0, [e1], e2);
    RunSnoc(w0, [e1] + [e2], e3);
  }

  /** The store after the session renewed itself: the old id records the new one. */
  ghost predicate Renewed(w: World, s0: string, s1: string, now: nat)
  {
    && w.db.hashes.Keys == {s0, s1} && w.db.now == now
    && w.db.hashes[s1] == Hash(FIELDS, Until(now + 3600, now))
    && w.db.hashes[s0].fields == FIELDS[NEW_SID_FIELD := Plain(s1)]
  }

  lemma RenewalStores(st: St, d1: string)
    requires st.s.meta.ttlMinutes == HOUR && st.s.user == None && st.db.hashes.Keys == {st.s.meta.sid}
    requires st.db.hashes[st.s.meta.sid].fields == FIELDS && NewSid(st, d1) != st.s.meta.sid
    ensures
      var r := DoClone(st, map[], d1).0;
      Renewed(World(r.db, map[]), st.s.meta.sid, NewSid(st, d1), st.db.now)
  {
    var sid, next := st.s.meta.sid, NewSid(st, d1);
    hide GenSid, DoClone, Renew, Carried, HSet, Expire, NewSid;
    DoCloneMeans(st, map[], d1);
    RenewMeans(st, map[], d1);
    CarriedWithoutPointer(st);
    assert "f" in FIELDS && USER_FIELD !in FIELDS;
    var renewed, r := Renew(st, map[], d1).db, DoClone(st, map[], d1).0.db;
    assert renewed.hashes == st.db.hashes[next := Hash(FIELDS, Until(st.db.now + 3600, st.db.now))];
    PointedAt(renewed, sid, TtlSeconds(st.s.meta), next);
    forall other ensures other in r.hashes <==> other == sid || other == next {}
    assert r.hashes.Keys == {sid, next};
  }

  lemma NoPointers(db: Db, sid: string)
    requires forall s | s in db.hashes :: NEW_SID_FIELD !in db.hashes[s].fields
    requires sid !in db.hashes
    ensures FreshIn(db, sid)
  {
  }

  lemma RenewedRunMeans(now: nat, d0: string, d1: string)
    requires ClockOk(now) && ClockOk(now + 600) && now < 0x3FFF_FFFF_FFFF_0000 && |d0| == 64 && |d1| == 64
    ensures AllEnabled(Empty(now), RenewedRun(now, d0, d1))
    ensures Renewed(RunOf(Empty(now), RenewedRun(now, d0, d1)), GenSid(d0, HOUR, now), GenSid(d1, HOUR, now + 600),
        now + 600)
  {
    SetRunMeans(now, d0);
    IdsDiffer(now, d0, d1, d1);
    hide ClockOk, GenSid, ParseSid, Pow16, RunOf, AllEnabled, SetRun, DoClone;
    var w := RunOf(Empty(now), SetRun(d0));
    var st := St(w.db, w.objects[0]);
    RunSnoc(Empty(now), SetRun(d0), Acting(0, AutoRenewing(DEFAULTS, d1)));
    NoPointers(w.db, NewSid(st, d1));
    DueIsPlain(st, DEFAULTS);
    hide SecondsFromRenew, FreshIn;
    assert SecondsFromRenew(st, DEFAULTS) == 0;
    assert HGet(st.db, st.s.meta.sid, NEW_SID_FIELD) == None;
    RenewalStores(st, d1);
  }

  /** An object on the old id logs in: the new session keeps the pointer, with a time to live of its own. */
  lemma LoginKeepsPointer(st: St, s1: string, user: User, d2: string)
    requires Renewed(World(st.db, map[]), st.s.meta.sid, s1, st.db.now) && s1 != st.s.meta.sid && st.s.user == None
    requires
      var s2 := NewSid(LoggingIn(st, Some(user), Some(HALF)), d2);
      s2 != s1 && s2 != st.s.meta.sid
    ensures
      var s2 := NewSid(LoggingIn(st, Some(user), Some(HALF)), d2);
      var r := LogIn(st, Some(user), Some(HALF), d2).0;
      && r.s.meta.sid == s2 && r.s.meta.ttlMinutes == HALF && r.db.now == st.db.now
      && Next(r.db, s2) == Some(s1)
      && s1 in r.db.hashes && r.db.hashes[s1] == st.db.hashes[s1]
  {
    var ready := LoggingIn(st, Some(user), Some(HALF));
    var s2, fields := NewSid(ready, d2), HGetAll(st.db, st.s.meta.sid)[USER_FIELD := Json(user)];
    hide GenSid, LogIn, Renew, Gone;
    LogInKeepsTime(st, Some(user), Some(HALF), d2);
    LogInMeans(st, Some(user), Some(HALF), d2);
    RenewMeans(ready, UserFilter(ready.s.user), d2);
    assert fields[USER_FIELD] == Json(user) && fields[NEW_SID_FIELD] == Plain(s1);
    assert fields == LoginFields(st, Some(user));
    hide Carried, Stored, SAdd, LoginFields;
    MovedDb(st.db, st.s.meta.sid, s2, fields, TtlSeconds(ready.s.meta), user, None);
    var r := LogIn(st, Some(user), Some(HALF), d2).0;
    assert s2 in r.db.hashes && r.db.hashes[s2].fields == fields;
  }

  lemma PointersOfRenewed(db: Db, s0: string, s1: string, sid: string, now: nat)
    requires Renewed(World(db, map[]), s0, s1, now) && sid != s0 && sid != s1 && s0 != s1
    ensures FreshIn(db, sid)
  {
  }

  lemma RenewedAnyway(w: World, other: World, s0: string, s1: string, now: nat)
    requires Renewed(w, s0, s1, now) && other.db == w.db
    ensures Renewed(other, s0, s1, now)
  {
  }

  lemma HalfMeasured(db: Db, sid: string, now: nat)
    requires db.now == now && sid in db.hashes && db.hashes[sid] == Hash(FIELDS, Until(now + 3600, now))
    ensures TouchedAgo(db, sid, 0) && TtlPassed(db, sid, 60 * HALF) == Some(U32 - 1800)
  {
  }

  lemma AttachedWorld(w: World, s0: string, now: nat)
    requires MetaOf(s0) == Ok(MetaView(HOUR, now, s0, None))
    ensures Apply(w, Attaching(1, s0)) == w.(objects := w.objects[1 := Untried(MetaView(HOUR, now, s0, None))])
    ensures Enabled(w, Attaching(1, s0))
  {
  }

  lemma LoggedInWorld(w: World, st: St, user: User, d2: string)
    requires 1 in w.objects && St(w.db, w.objects[1]) == st && Fresh(LoggingIn(st, Some(user), Some(HALF)), d2)
    ensures
      var e := Acting(1, LoggingInAs(Some(user), Some(HALF), d2));
      var r := LogIn(st, Some(user), Some(HALF), d2).0;
      Enabled(w, e) && Apply(w, e) == World(r.db, w.objects[1 := r.s])
  {
    hide LogIn, Fresh;
  }

  lemma RenewedParts(w: World, s0: string, s1: string, now: nat)
    requires Renewed(w, s0, s1, now)
    ensures w.db.now == now && s1 in w.db.hashes && w.db.hashes[s1] == Hash(FIELDS, Until(now + 3600, now))
  {
  }

  /** The world after the login. */
  lemma LoginRunMeans(now: nat, d0: string, d1: string, d2: string, user: User)
    requires ClockOk(now) && ClockOk(now + 600) && now < 0x3FFF_FFFF_FFFF_0000 && |d0| == 64 && |d1| == 64 && |d2| == 64
    ensures AllEnabled(Empty(now), LoginRun(now, d0, d1, d2, user))
    ensures
      var w := RunOf(Empty(now), LoginRun(now, d0, d1, d2, user));
      var s1 := GenSid(d1, HOUR, now + 600);
      && 1 in w.objects && w.objects[1].meta.ttlMinutes == HALF && w.db.now == now + 600
      && Next(w.db, w.objects[1].meta.sid) == Some(s1)
      && s1 in w.db.hashes && w.db.hashes[s1] == Hash(FIELDS, Until(now + 4200, now + 600))
  {
    hide ClockOk, GenSid, ParseSid, Pow16, RunOf, AllEnabled, RenewedRun, LogIn, Renewed, FreshIn, Next;
    var s0, s1 := GenSid(d0, HOUR, now), GenSid(d1, HOUR, now + 600);
    RenewedRunMeans(now, d0, d1);
    IdsDiffer(now, d0, d1, d2);
    NewIdParses(d0, HOUR, now);
    var before, e5, e6 := RenewedRun(now, d0, d1), Attaching(1, s0), Acting(1, LoggingInAs(Some(user), Some(HALF), d2));
    RunSnoc(Empty(now), before, e5);
    RunSnoc(Empty(now), before + [e5], e6);
    var w4, w5 := RunOf(Empty(now), before), RunOf(Empty(now), before + [e5]);
    AttachedWorld(w4, s0, now);
    var st := St(w4.db, Untried(MetaView(HOUR, now, s0, None)));
    RenewedAnyway(w4, World(st.db, map[]), s0, s1, now + 600);
    RenewedParts(w4, s0, s1, now + 600);
    PointersOfRenewed(st.db, s0, s1, NewSid(LoggingIn(st, Some(user), Some(HALF)), d2), now + 600);
    LoginKeepsPointer(st, s1, user, d2);
    LoggedInWorld(w5, st, user, d2);
  }

  /** A run that every caller may make ends with a session whose successor carries another time to
      live. The successor was touched just now; measured with the session's time to live, that is
      half an hour before now, which wraps around. */
  lemma SuccessorMeasuredWrong(now: nat, d0: string, d1: string, d2: string, user: User)
    requires ClockOk(now) && ClockOk(now + 600) && now < 0x3FFF_FFFF_FFFF_0000 && |d0| == 64 && |d1| == 64 && |d2| == 64
    ensures AllEnabled(Empty(now), LoginRun(now, d0, d1, d2, user))
    ensures
      var w := RunOf(Empty(now), LoginRun(now, d0, d1, d2, user));
      var s1 := GenSid(d1, HOUR, now + 600);
      && 1 in w.objects && w.objects[1].meta.ttlMinutes == HALF
      && Next(w.db, w.objects[1].meta.sid) == Some(s1) && ParseSid(s1) == Ok((HOUR, now + 600))
      && TouchedAgo(w.db, s1, 0)
      && TtlPassed(w.db, s1, 60 * HALF) == Some(U32 - 1800)
  {
    hide ClockOk, GenSid, ParseSid, Pow16, RunOf, AllEnabled, LoginRun, TtlPassed, TouchedAgo, Next;
    NewIdParses(d1, HOUR, now + 600);
    LoginRunMeans(now, d0, d1, d2, user);
    HalfMeasured(RunOf(Empty(now), LoginRun(now, d0, d1, d2, user)).db, GenSid(d1, HOUR, now + 600), now + 600);
  }
}
