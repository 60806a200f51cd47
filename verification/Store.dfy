/** The part of Redis that sessions rely on: hashes with a remaining time to live, and the sets
    of session ids by user. A key that is dead is not in the map; dying is a step of its own. */
module Stores {
  import opened Text

  /** A user record: its id, and everything else of it. */
  datatype User = User(id: nat, record: string)

  /** A field's value: the JSON of a user, or some other text. */
  datatype Value = Json(user: User) | Plain(text: string)

  /** When a key dies; `setAt` records when that was decided. */
  datatype Expiry = Never | Until(deadline: nat, setAt: nat)

  type Fields = map<string, Value>

  datatype Hash = Hash(fields: Fields, expiry: Expiry)

  /** Sessions by id (their keys have one constant prefix), ids by user id, and the time in seconds. */
  datatype Db = Db(hashes: map<string, Hash>, index: map<nat, set<string>>, now: nat)

  // ----- commands -----

  function HGetAll(db: Db, sid: string): Fields
  {
    if sid in db.hashes then db.hashes[sid].fields else map[]
  }

  function HGet(db: Db, sid: string, field: string): Option<Value>
  {
    if field in HGetAll(db, sid) then Some(HGetAll(db, sid)[field]) else None
  }

  /** A key that `HSET` makes has no time to live; one it finds keeps its own. */
  function HSetAll(db: Db, sid: string, fields: Fields): Db
  {
    var expiry := if sid in db.hashes then db.hashes[sid].expiry else Never;
    db.(hashes := db.hashes[sid := Hash(HGetAll(db, sid) + fields, expiry)])
  }

  function HSet(db: Db, sid: string, field: string, value: Value): Db
  {
    HSetAll(db, sid, map[field := value])
  }

  function Del(db: Db, sid: string): Db
  {
    db.(hashes := db.hashes - {sid})
  }

  /** A hash without fields does not exist. */
  function HDel(db: Db, sid: string, field: string): Db
  {
    if field !in HGetAll(db, sid) then db
    else
      var left := db.hashes[sid].fields - {field};
      if left == map[] then Del(db, sid) else db.(hashes := db.hashes[sid := Hash(left, db.hashes[sid].expiry)])
  }

  /** `EXPIRE`: nothing on a missing key, and without time left the key dies at once. */
  function Expire(db: Db, sid: string, seconds: nat): Db
  {
    if sid !in db.hashes then db
    else if seconds == 0 then Del(db, sid)
    else db.(hashes := db.hashes[sid := db.hashes[sid].(expiry := Until(db.now + seconds, db.now))])
  }

  /** `TTL`: -2 for a missing key, -1 for one without a time to live. */
  function Ttl(db: Db, sid: string): int
  {
    if sid !in db.hashes then -2
    else
      match db.hashes[sid].expiry
      case Never => -1
      case Until(deadline, _) => deadline - db.now
  }

  function SMembers(db: Db, uid: nat): set<string>
  {
    if uid in db.index then db.index[uid] else {}
  }

  function SAdd(db: Db, uid: nat, sid: string): Db
  {
    db.(index := db.index[uid := SMembers(db, uid) + {sid}])
  }

  function SRemAll(db: Db, uid: nat, sids: set<string>): Db
  {
    if uid in db.index then db.(index := db.index[uid := db.index[uid] - sids]) else db
  }

  function SRem(db: Db, uid: nat, sid: string): Db
  {
    SRemAll(db, uid, {sid})
  }

  /** Time passes, and keys die. */
  function Tick(db: Db, seconds: nat): Db
  {
    var now := db.now + seconds;
    Db(map sid | sid in db.hashes && (db.hashes[sid].expiry.Until? ==> now < db.hashes[sid].expiry.deadline) ::
         db.hashes[sid],
       db.index, now)
  }

  /** A connection to the store. */
  class Redis {
    var db: Db

    constructor (db: Db)
      ensures this.db == db
    {
      this.db := db;
    }
  }
}
