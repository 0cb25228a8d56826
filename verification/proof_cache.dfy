/**
 * The cache of remote proof check results (go/libkb/proof_cache.go): a
 * result is the error a check found (or none) and the time of the check;
 * results are kept in memory and, packed as JSON, in the local database,
 * both keyed by signature ID, and a stale result is never handed out.
 *
 * Times are nanoseconds since the Unix epoch. The current time, the two
 * freshness durations of the environment and the rule telling soft errors
 * apart (ProofErrorIsSoft, which is not part of this model) are passed in.
 */
module ProofCache {
  import opened Wrappers
  import opened JsonValue

  const NanosPerSecond: int := 1_000_000_000

  /** A signature ID, as the key both stores use. */
  type SigID = string

  /** A ProofError: its proof status code and description. */
  datatype ProofError = ProofError(code: int, desc: string)

  /** A CheckResult: the error of the check, None for success, and when it ran. */
  datatype CheckResult = CheckResult(status: Option<ProofError>, time: int)

  /** The environment's freshness settings and the soft-error rule on status codes. */
  datatype Freshness = Freshness(longDur: int, mediumDur: int, isSoft: int -> bool)

  /** time.Time.Unix: whole seconds, rounded down. */
  function Unix(t: int): (secs: int)
    ensures secs * NanosPerSecond <= t < (secs + 1) * NanosPerSecond
  {
    t / NanosPerSecond
  }

  /** time.Unix(secs, 0). */
  function FromUnix(secs: int): (t: int)
    ensures Unix(t) == secs
  {
    secs * NanosPerSecond
  }

  /** Pack: "status" with "code" and "desc" when there is an error, and always "time" in seconds. */
  function Pack(cr: CheckResult): (j: Json)
    ensures j.JObject?
    ensures "time" in j.fields && j.fields["time"] == JInt(Unix(cr.time))
    ensures "status" in j.fields <==> cr.status.Some?
    ensures cr.status.Some? ==>
              j.fields["status"] == JObject(map["code" := JInt(cr.status.value.code), "desc" := JString(cr.status.value.desc)])
    ensures j.fields.Keys <= {"status", "time"}
  {
    var withStatus := if cr.status.Some? then
                        map["status" := JObject(map["code" := JInt(cr.status.value.code),
                                                    "desc" := JString(cr.status.value.desc)])]
                      else map[];
    JObject(withStatus["time" := JInt(Unix(cr.time))])
  }

  /** GetInt64/GetInt: the integer there, or an error. */
  function GetInt(j: Option<Json>): Option<int> {
    if j.Some? && j.value.JInt? then Some(j.value.i) else None
  }

  /** GetString: the string there, or an error. */
  function GetString(j: Option<Json>): Option<string> {
    if j.Some? && j.value.JString? then Some(j.value.s) else None
  }

  /**
   * NewCheckResult: read "time", then, unless "status" is missing or null,
   * its "desc" and "code"; any failed read gives no result.
   */
  function NewCheckResult(j: Json): (cr: Option<CheckResult>)
    ensures cr.Some? ==> GetInt(AtKey(j, "time")).Some? && cr.value.time == FromUnix(GetInt(AtKey(j, "time")).value)
    ensures cr.Some? ==> (cr.value.status.None? <==> AtKey(j, "status") in {None, Some(JNull)})
    ensures GetInt(AtKey(j, "time")).None? ==> cr.None?
    ensures AtKey(j, "status").Some? && AtKey(j, "status") != Some(JNull) ==>
      (cr.Some? <==>
         && GetInt(AtKey(j, "time")).Some?
         && GetString(AtKey(AtKey(j, "status").value, "desc")).Some?
         && GetInt(AtKey(AtKey(j, "status").value, "code")).Some?)
    ensures cr.Some? && cr.value.status.Some? ==>
      cr.value.status.value == ProofError(GetInt(AtKey(AtKey(j, "status").value, "code")).value,
                                          GetString(AtKey(AtKey(j, "status").value, "desc")).value)
  {
    var t := GetInt(AtKey(j, "time"));
    var status := AtKey(j, "status");
    if t.None? then None
    else if status.None? || status == Some(JNull) then Some(CheckResult(None, FromUnix(t.value)))
    else
      var desc := GetString(AtKey(status.value, "desc"));
      var code := GetInt(AtKey(status.value, "code"));
      if desc.None? || code.None? then None
      else Some(CheckResult(Some(ProofError(code.value, desc.value)), FromUnix(t.value)))
  }

  /** A time cut down to its whole second. */
  function Truncated(t: int): (s: int)
    ensures s <= t < s + NanosPerSecond
  {
    FromUnix(Unix(t))
  }

  /**
   * Unpacking a packed result gives it back with the same status, code and
   * description, and its time cut to the second.
   */
  lemma PackRoundTrip(cr: CheckResult)
    ensures NewCheckResult(Pack(cr)) == Some(CheckResult(cr.status, Truncated(cr.time)))
  {
  }

  /** Packing is stable after one round: what is read back packs to the same JSON. */
  lemma PackIdempotent(cr: CheckResult)
    ensures Pack(NewCheckResult(Pack(cr)).value) == Pack(cr)
  {
    PackRoundTrip(cr);
    assert Unix(Truncated(cr.time)) == Unix(cr.time);
  }

  /**
   * IsFresh: a success is fresh for the long duration, a soft error never,
   * any other error for the medium duration.
   */
  function IsFresh(cr: CheckResult, now: int, f: Freshness): (current: bool)
    ensures cr.status.None? ==> (current <==> now - cr.time < f.longDur)
    ensures cr.status.Some? && f.isSoft(cr.status.value.code) ==> !current
    ensures cr.status.Some? && !f.isSoft(cr.status.value.code) ==> (current <==> now - cr.time < f.mediumDur)
  {
    if cr.status.None? then now - cr.time < f.longDur
    else if f.isSoft(cr.status.value.code) then false
    else now - cr.time < f.mediumDur
  }

  /** An older check is never fresher: freshness only runs out as time passes. */
  lemma FreshnessRunsOut(cr: CheckResult, now: int, later: int, f: Freshness)
    requires now <= later && IsFresh(cr, later, f)
    ensures IsFresh(cr, now, f)
  {
  }

  /** The two stores: the in-memory cache and the local database of packed results. */
  datatype Stores = Stores(mem: map<SigID, CheckResult>, db: map<SigID, Json>)

  /**
   * memGet: a memory hit that is fresh; a stale hit is removed. With a
   * non-positive capacity the LRU cannot be set up and memory is never
   * used.
   */
  function MemLookup(capac: int, s: Stores, sid: SigID, now: int, f: Freshness): (r: (Option<CheckResult>, Stores))
    ensures r.1.db == s.db
    ensures r.0.Some? ==> capac > 0 && sid in s.mem && r.0.value == s.mem[sid] && IsFresh(r.0.value, now, f)
    ensures r.0.Some? ==> r.1 == s
  {
    if capac <= 0 || sid !in s.mem then (None, s)
    else if !IsFresh(s.mem[sid], now, f) then (None, s.(mem := s.mem - {sid}))
    else (Some(s.mem[sid]), s)
  }

  /**
   * dbGet: a stored result that unpacks and is fresh; a stale one is
   * deleted, one that does not unpack is left in place.
   */
  function DbLookup(s: Stores, sid: SigID, now: int, f: Freshness): (r: (Option<CheckResult>, Stores))
    ensures r.1.mem == s.mem
    ensures r.0.Some? ==> sid in s.db && NewCheckResult(s.db[sid]) == r.0 && IsFresh(r.0.value, now, f)
    ensures r.0.Some? ==> r.1 == s
    ensures sid in s.db && NewCheckResult(s.db[sid]).Some? && IsFresh(NewCheckResult(s.db[sid]).value, now, f) ==>
      r == (NewCheckResult(s.db[sid]), s)
    ensures sid in s.db && NewCheckResult(s.db[sid]).Some? && !IsFresh(NewCheckResult(s.db[sid]).value, now, f) ==>
      r == (None, s.(db := s.db - {sid}))
  {
    if sid !in s.db then (None, s)
    else
      match NewCheckResult(s.db[sid])
      case None => (None, s)
      case Some(cr) =>
        if !IsFresh(cr, now, f) then (None, s.(db := s.db - {sid}))
        else (Some(cr), s)
  }

  /** Get on a cache: memory first, the database only on a memory miss. */
  function GetFrom(capac: int, s: Stores, sid: SigID, now: int, f: Freshness): (r: (Option<CheckResult>, Stores))
  {
    var (fromMem, s1) := MemLookup(capac, s, sid, now, f);
    if fromMem.Some? then (fromMem, s1) else DbLookup(s1, sid, now, f)
  }

  /** Put on a cache: the result stamped now, in memory (when usable) and packed in the database. */
  function PutInto(capac: int, s: Stores, sid: SigID, pe: Option<ProofError>, now: int): (s': Stores)
  {
    var cr := CheckResult(pe, now);
    Stores(if capac > 0 then s.mem[sid := cr] else s.mem, s.db[sid := Pack(cr)])
  }

  /**
   * What Get hands out is fresh, and came from memory when memory had a
   * fresh result (the database is then left untouched).
   */
  lemma GetIsFresh(capac: int, s: Stores, sid: SigID, now: int, f: Freshness)
    ensures var r := GetFrom(capac, s, sid, now, f);
            r.0.Some? ==> IsFresh(r.0.value, now, f)
    ensures capac > 0 && sid in s.mem && IsFresh(s.mem[sid], now, f) ==>
              GetFrom(capac, s, sid, now, f) == (Some(s.mem[sid]), s)
  {
  }

  /**
   * After Get no stale result for the key is left where Get looked: a
   * stale memory entry is gone, and so is a stale database entry when the
   * database was consulted.
   */
  lemma GetRemovesStale(capac: int, s: Stores, sid: SigID, now: int, f: Freshness)
    ensures var r := GetFrom(capac, s, sid, now, f);
            && (capac > 0 && sid in r.1.mem ==> IsFresh(r.1.mem[sid], now, f))
            && (r.0.None? && sid in r.1.db && NewCheckResult(r.1.db[sid]).Some? ==>
                  IsFresh(NewCheckResult(r.1.db[sid]).value, now, f))
            && r.1.mem.Keys <= s.mem.Keys && r.1.db.Keys <= s.db.Keys
            && (forall k :: k in r.1.mem ==> r.1.mem[k] == s.mem[k])
            && (forall k :: k in r.1.db ==> r.1.db[k] == s.db[k])
  {
  }

  /**
   * A Put followed by a Get while the result is still fresh returns it:
   * from memory as stored, or, with memory unusable, from the database
   * with its time cut to the second.
   */
  lemma PutThenGet(capac: int, s: Stores, sid: SigID, pe: Option<ProofError>, now: int, later: int, f: Freshness)
    ensures capac > 0 && IsFresh(CheckResult(pe, now), later, f) ==>
              GetFrom(capac, PutInto(capac, s, sid, pe, now), sid, later, f).0 == Some(CheckResult(pe, now))
    ensures capac <= 0 && IsFresh(CheckResult(pe, Truncated(now)), later, f) ==>
              GetFrom(capac, PutInto(capac, s, sid, pe, now), sid, later, f).0 == Some(CheckResult(pe, Truncated(now)))
  {
    PackRoundTrip(CheckResult(pe, now));
  }

  /**
   * A ProofCache: the LRU capacity it was made with, the in-memory results
   * and the local database's proof-check entries.
   */
  class Cache {
    const capac: int
    var mem: map<SigID, CheckResult>
    var db: map<SigID, Json>

    constructor (capac: int, db: map<SigID, Json>)
      ensures this.capac == capac && mem == map[] && this.db == db
    {
      this.capac := capac;
      mem := map[];
      this.db := db;
    }

    function State(): Stores
      reads this
    {
      Stores(mem, db)
    }

    /** memGet. */
    method MemGet(sid: SigID, now: int, f: Freshness) returns (cr: Option<CheckResult>)
      modifies this
      ensures (cr, State()) == MemLookup(capac, old(State()), sid, now, f)
    {
      if capac <= 0 {
        return None;
      }
      if sid !in mem {
        return None;
      }
      var found := mem[sid];
      if !IsFresh(found, now, f) {
        mem := mem - {sid};
        return None;
      }
      return Some(found);
    }

    /** memPut: add to the LRU when it could be set up. */
    method MemPut(sid: SigID, cr: CheckResult)
      modifies this
      ensures db == old(db)
      ensures mem == if capac > 0 then old(mem)[sid := cr] else old(mem)
    {
      if capac <= 0 {
        return;
      }
      mem := mem[sid := cr];
    }

    /** dbGet. */
    method DbGet(sid: SigID, now: int, f: Freshness) returns (cr: Option<CheckResult>)
      modifies this
      ensures (cr, State()) == DbLookup(old(State()), sid, now, f)
    {
      if sid !in db {
        return None;
      }
      cr := NewCheckResult(db[sid]);
      if cr.None? {
        return None;
      }
      if !IsFresh(cr.value, now, f) {
        db := db - {sid};
        return None;
      }
    }

    /** dbPut: store the packed result. */
    method DbPut(sid: SigID, cr: CheckResult)
      modifies this
      ensures mem == old(mem) && db == old(db)[sid := Pack(cr)]
    {
      db := db[sid := Pack(cr)];
    }
  }

  /** Get: nothing from a nil cache; otherwise memory first, then the database. */
  method Get(pc: Cache?, sid: SigID, now: int, f: Freshness) returns (cr: Option<CheckResult>)
    modifies pc
    ensures pc == null ==> cr.None?
    ensures pc != null ==> (cr, pc.State()) == GetFrom(pc.capac, old(pc.State()), sid, now, f)
  {
    if pc == null {
      return None;
    }
    cr := pc.MemGet(sid, now, f);
    if cr.None? {
      cr := pc.DbGet(sid, now, f);
    }
  }

  /** Put: nothing on a nil cache; otherwise the result stamped now goes to both stores. */
  method Put(pc: Cache?, sid: SigID, pe: Option<ProofError>, now: int)
    modifies pc
    ensures pc != null ==> pc.State() == PutInto(pc.capac, old(pc.State()), sid, pe, now)
  {
    if pc == null {
      return;
    }
    var cr := CheckResult(pe, now);
    pc.MemPut(sid, cr);
    pc.DbPut(sid, cr);
  }
}
