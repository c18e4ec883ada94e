/**
 Cache-aside link resolution: the TTL cache, the metadata repository and the service that sits over
 both (src/core/link_service.cpp, src/storage/inmemory/in_memory_cache_store.cpp,
 src/storage/inmemory/in_memory_metadata_repository.cpp).

 Times are clock ticks (nanoseconds).  Every place where the source reads the clock is a field of
 `Readings`, so that a call may see any clock, even one that runs backwards.
 */
module CacheAside {
  import opened Clock
  import opened Wrappers

  datatype LinkRecord = LinkRecord(
    id: string, shortCode: string, targetUrl: string, createdAt: int, updatedAt: int,
    expiresAt: Option<int>, deletedAt: Option<int>, owner: Option<string>,
    attributes: map<string, string>, isActive: bool, version: nat)

  datatype CreateLinkRequest = CreateLinkRequest(
    shortCode: string, targetUrl: string, expiresAt: Option<int>, owner: Option<string>,
    attributes: map<string, string>, isActive: bool)

  datatype CacheValue = CacheValue(targetUrl: string, expiresAt: Option<int>, isActive: bool, version: Option<nat>)

  datatype Entry = Entry(value: CacheValue, expiresAt: Option<int>)

  datatype RepoError = NoRepoError | NotFound | AlreadyExists | InvalidArgument

  datatype ResolveStatus = Redirect | Missing | Inactive | Expired

  datatype ResolveResult = ResolveResult(status: ResolveStatus, target: Option<string>, cacheHit: bool)

  datatype AccessEvent = AccessEvent(shortCode: string, occurredAt: int, statusCode: int, cacheHit: bool)

  /** The clock readings of one Resolve call, in the order the source takes them. */
  datatype Readings = Readings(atGet: int, atHit: int, atLookup: int, atTtl: int, atSet: int, atEmit: int)

  predicate Due(expiresAt: Option<int>, now: int) {
    expiresAt.Some? && expiresAt.value <= now
  }

  // ----- the TTL cache -----

  function Erase<V>(m: map<string, V>, key: string): map<string, V> {
    m - {key}
  }

  function CacheGet(entries: map<string, Entry>, key: string, now: int): (map<string, Entry>, Option<CacheValue>) {
    if key !in entries then (entries, None)
    else if Due(entries[key].expiresAt, now) then (Erase(entries, key), None)
    else (entries, Some(entries[key].value))
  }

  /** `ttl` is in seconds. */
  function CacheSet(entries: map<string, Entry>, key: string, value: CacheValue, ttl: Option<int>, now: int): map<string, Entry> {
    match ttl
    case None => entries[key := Entry(value, None)]
    case Some(s) =>
      if s <= 0 then Erase(entries, key)
      else entries[key := Entry(value, Some(now + s * TICKS_PER_SECOND))]
  }

  class CacheStore {
    var entries: map<string, Entry>

    constructor ()
      ensures entries == map[]
    {
      entries := map[];
    }

    method Get(key: string, now: int) returns (value: Option<CacheValue>)
      modifies this
      ensures (entries, value) == CacheGet(old(entries), key, now)
    {
      if key !in entries {
        return None;
      }
      var entry := entries[key];
      if entry.expiresAt.Some? && entry.expiresAt.value <= now {
        entries := entries - {key};
        return None;
      }
      return Some(entry.value);
    }

    method Set(key: string, value: CacheValue, ttl: Option<int>, now: int)
      modifies this
      ensures entries == CacheSet(old(entries), key, value, ttl, now)
    {
      var entry := Entry(value, None);
      if ttl.Some? {
        if ttl.value <= 0 {
          entries := entries - {key};
          return;
        }
        entry := entry.(expiresAt := Some(now + ttl.value * TICKS_PER_SECOND));
      }
      entries := entries[key := entry];
    }

    method Delete(key: string)
      modifies this
      ensures entries == Erase(old(entries), key)
    {
      entries := entries - {key};
    }

    /** Visits the entries in any order and erases those whose key starts with the prefix. */
    method ClearByPrefix(prefix: string)
      modifies this
      ensures forall key :: key in entries <==> key in old(entries) && !(prefix <= key)
      ensures forall key :: key in entries ==> entries[key] == old(entries)[key]
    {
      var todo := entries.Keys;
      while todo != {}
        invariant todo <= entries.Keys <= old(entries).Keys
        invariant forall key :: key in old(entries) && !(prefix <= key) ==> key in entries
        invariant forall key :: key in entries && prefix <= key ==> key in todo
        invariant forall key :: key in entries ==> entries[key] == old(entries)[key]
        decreases todo
      {
        var key :| key in todo;
        if prefix <= key {
          entries := entries - {key};
        }
        todo := todo - {key};
      }
    }
  }

  // ----- the repository -----

  predicate IsCodeChar(c: char) {
    'A' <= c <= 'Z' || 'a' <= c <= 'z' || '0' <= c <= '9' || c == '_' || c == '-'
  }

  predicate IsValidRequest(r: CreateLinkRequest) {
    r.targetUrl != "" && 3 <= |r.shortCode| <= 64 && forall c :: c in r.shortCode ==> IsCodeChar(c)
  }

  function NewRecord(r: CreateLinkRequest, id: string, now: int): LinkRecord {
    LinkRecord(id, r.shortCode, r.targetUrl, now, now, r.expiresAt, None, r.owner, r.attributes, r.isActive, 1)
  }

  function RepoCreate(repo: map<string, LinkRecord>, r: CreateLinkRequest, id: string, now: int): map<string, LinkRecord> {
    if !IsValidRequest(r) || r.shortCode in repo then repo else repo[r.shortCode := NewRecord(r, id, now)]
  }

  function RepoUpdate(repo: map<string, LinkRecord>, record: LinkRecord): map<string, LinkRecord> {
    if record.shortCode in repo then repo[record.shortCode := record] else repo
  }

  function RepoGet(repo: map<string, LinkRecord>, code: string): Option<LinkRecord> {
    if code in repo then Some(repo[code]) else None
  }

  class MetadataRepository {
    var byCode: map<string, LinkRecord>

    constructor ()
      ensures byCode == map[]
    {
      byCode := map[];
    }

    method CreateLink(request: CreateLinkRequest, id: string, now: int) returns (ok: bool, error: RepoError)
      modifies this
      ensures byCode == RepoCreate(old(byCode), request, id, now)
      ensures ok == error.NoRepoError?
      ensures error == if !IsValidRequest(request) then InvalidArgument
                       else if request.shortCode in old(byCode) then AlreadyExists else NoRepoError
    {
      if !IsValidRequest(request) {
        return false, InvalidArgument;
      }
      if request.shortCode in byCode {
        return false, AlreadyExists;
      }
      byCode := byCode[request.shortCode := NewRecord(request, id, now)];
      return true, NoRepoError;
    }

    method GetByShortCode(code: string) returns (record: Option<LinkRecord>, error: RepoError)
      ensures record == RepoGet(byCode, code)
      ensures error == if code in byCode then NoRepoError else NotFound
    {
      if code in byCode {
        return Some(byCode[code]), NoRepoError;
      }
      return None, NotFound;
    }

    method UpdateLink(record: LinkRecord) returns (ok: bool, error: RepoError)
      modifies this
      ensures byCode == RepoUpdate(old(byCode), record)
      ensures ok == (record.shortCode in old(byCode))
      ensures error == if ok then NoRepoError else NotFound
    {
      if record.shortCode !in byCode {
        return false, NotFound;
      }
      byCode := byCode[record.shortCode := record];
      return true, NoRepoError;
    }

    method DeleteLink(code: string) returns (ok: bool, error: RepoError)
      modifies this
      ensures byCode == Erase(old(byCode), code)
      ensures ok && error == NoRepoError
    {
      byCode := byCode - {code};
      return true, NoRepoError;
    }
  }

  // ----- the service -----

  /** The answer the repository alone gives at time `now`: the lookup that the cache speeds up. */
  function Uncached(repo: map<string, LinkRecord>, code: string, now: int): (ResolveStatus, Option<string>) {
    if code !in repo then (Missing, None)
    else if !repo[code].isActive then (Inactive, None)
    else if Due(repo[code].expiresAt, now) then (Expired, None)
    else (Redirect, Some(repo[code].targetUrl))
  }

  function StatusCode(status: ResolveStatus): int {
    match status
    case Redirect => 302
    case Missing => 404
    case Inactive => 410
    case Expired => 410
  }

  function FillTtl(record: LinkRecord, now: int): Option<int> {
    if record.expiresAt.Some? && record.expiresAt.value - now > 0
    then Some((record.expiresAt.value - now) / TICKS_PER_SECOND) else None
  }

  function FillValue(record: LinkRecord): CacheValue {
    CacheValue(record.targetUrl, record.expiresAt, record.isActive, Some(record.version))
  }

  datatype State = State(repo: map<string, LinkRecord>, entries: map<string, Entry>, events: seq<AccessEvent>)

  predicate IsUsable(cached: Option<CacheValue>, now: int) {
    cached.Some? && cached.value.isActive && !Due(cached.value.expiresAt, now)
  }

  /** Which of the cache operations of a Resolve call reach the cache: its read, its removal of an unusable value, its fill. */
  datatype Reach = Reach(get: bool, drop: bool, fill: bool)

  const EVERYTHING := Reach(true, true, true)

  /** One Resolve call; a read that does not reach the cache counts as a miss, and other failures go unnoticed. */
  function ResolveStep(s: State, code: string, clock: Readings, reach: Reach): (State, ResolveResult) {
    var (entries1, cached) := if reach.get then CacheGet(s.entries, code, clock.atGet) else (s.entries, None);
    if IsUsable(cached, clock.atHit) then
      Emit(s.(entries := entries1), code, ResolveResult(Redirect, Some(cached.value.targetUrl), true), clock)
    else
      MissStep(s.(entries := if cached.Some? && reach.drop then Erase(entries1, code) else entries1), code, clock, reach.fill)
  }

  /** The part of Resolve after the cache gave no usable value: look the code up and fill the cache. */
  function MissStep(s: State, code: string, clock: Readings, reachable: bool): (State, ResolveResult) {
    var (status, target) := Uncached(s.repo, code, clock.atLookup);
    var entries := if status == Redirect && reachable
                   then CacheSet(s.entries, code, FillValue(s.repo[code]), FillTtl(s.repo[code], clock.atTtl), clock.atSet)
                   else s.entries;
    Emit(s.(entries := entries), code, ResolveResult(status, target, false), clock)
  }

  function Emit(s: State, code: string, result: ResolveResult, clock: Readings): (State, ResolveResult) {
    (s.(events := s.events + [AccessEvent(code, clock.atEmit, StatusCode(result.status), result.cacheHit)]), result)
  }

  class LinkService {
    const repo: MetadataRepository
    const cache: CacheStore
    var events: seq<AccessEvent>

    constructor (repo: MetadataRepository, cache: CacheStore)
      ensures this.repo == repo && this.cache == cache && events == []
    {
      this.repo, this.cache, events := repo, cache, [];
    }

    ghost function Abstract(): State
      reads this, repo, cache
    {
      State(repo.byCode, cache.entries, events)
    }

    method Resolve(code: string, clock: Readings, reach: Reach) returns (result: ResolveResult)
      modifies this`events, cache
      ensures (Abstract(), result) == ResolveStep(old(Abstract()), code, clock, reach)
    {
      var cached := None;
      if reach.get {
        cached := cache.Get(code, clock.atGet);
      }
      if cached.Some? {
        var expired := cached.value.expiresAt.Some? && cached.value.expiresAt.value <= clock.atHit;
        if cached.value.isActive && !expired {
          result := ResolveResult(Redirect, Some(cached.value.targetUrl), true);
          EmitAnalytics(code, result, clock.atEmit);
          return;
        }
        if reach.drop {
          cache.Delete(code);
        }
      }
      result := LookUp(code, clock, reach.fill);
    }

    /** The second half of Resolve, on a miss. */
    method LookUp(code: string, clock: Readings, reachable: bool) returns (result: ResolveResult)
      modifies this`events, cache
      ensures (Abstract(), result) == MissStep(old(Abstract()), code, clock, reachable)
    {
      var record, _ := repo.GetByShortCode(code);
      if record.None? {
        result := ResolveResult(Missing, None, false);
        EmitAnalytics(code, result, clock.atEmit);
        return;
      }
      if !record.value.isActive {
        result := ResolveResult(Inactive, None, false);
        EmitAnalytics(code, result, clock.atEmit);
        return;
      }
      if record.value.expiresAt.Some? && record.value.expiresAt.value <= clock.atLookup {
        result := ResolveResult(Expired, None, false);
        EmitAnalytics(code, result, clock.atEmit);
        return;
      }
      var ttl := None;
      if record.value.expiresAt.Some? {
        var duration := record.value.expiresAt.value - clock.atTtl;
        if duration > 0 {
          ttl := Some(duration / TICKS_PER_SECOND);
        }
      }
      if reachable {
        cache.Set(code, FillValue(record.value), ttl, clock.atSet);
      }
      result := ResolveResult(Redirect, Some(record.value.targetUrl), false);
      EmitAnalytics(code, result, clock.atEmit);
    }

    method EmitAnalytics(code: string, result: ResolveResult, now: int)
      modifies this`events
      ensures events == old(events) + [AccessEvent(code, now, StatusCode(result.status), result.cacheHit)]
      ensures events[|events| - 1].statusCode
           == if result.status == Redirect then 302 else if result.status == Missing then 404 else 410
    {
      var statusCode := match result.status
        case Redirect => 302
        case Missing => 404
        case Inactive | Expired => 410;
      events := events + [AccessEvent(code, now, statusCode, result.cacheHit)];
    }

    method Update(record: LinkRecord, reachable: bool) returns (updated: bool, error: RepoError)
      modifies repo, cache
      ensures Abstract() == UpdateStep(old(Abstract()), record, reachable)
      ensures updated == (record.shortCode in old(repo.byCode))
    {
      updated, error := repo.UpdateLink(record);
      if reachable {
        cache.Delete(record.shortCode);
      }
    }

    method Delete(code: string, reachable: bool) returns (deleted: bool, error: RepoError)
      modifies repo, cache
      ensures Abstract() == DeleteStep(old(Abstract()), code, reachable)
      ensures deleted
    {
      deleted, error := repo.DeleteLink(code);
      if reachable {
        cache.Delete(code);
      }
    }
  }

  /** `reachable` is false when the invalidation does not reach the cache, which the service does not notice. */
  function UpdateStep(s: State, record: LinkRecord, reachable: bool): State {
    s.(repo := RepoUpdate(s.repo, record), entries := if reachable then Erase(s.entries, record.shortCode) else s.entries)
  }

  function DeleteStep(s: State, code: string, reachable: bool): State {
    s.(repo := Erase(s.repo, code), entries := if reachable then Erase(s.entries, code) else s.entries)
  }

  // ----- sequential runs -----

  /**
   What can happen in a run.  `Forget` lets the cache lose an entry at will (eviction, flush,
   ClearByPrefix); `Shorten` lets it hand back an earlier expiry than it was given, as a store that
   keeps whole seconds does.
   */
  datatype Op =
    | DoResolve(code: string, clock: Readings, reach: Reach)
    | DoUpdate(record: LinkRecord, reachable: bool)
    | DoDelete(code: string, reachable: bool)
    | DoCreate(request: CreateLinkRequest, id: string, now: int)
    | Forget(code: string)
    | Shorten(code: string, expiresAt: int)

  function Apply(s: State, op: Op): State {
    match op
    case DoResolve(code, clock, reach) => ResolveStep(s, code, clock, reach).0
    case DoUpdate(record, reachable) => UpdateStep(s, record, reachable)
    case DoDelete(code, reachable) => DeleteStep(s, code, reachable)
    case DoCreate(request, id, now) => s.(repo := RepoCreate(s.repo, request, id, now))
    case Forget(code) => s.(entries := Erase(s.entries, code))
    case Shorten(code, e) =>
      if code in s.entries && s.entries[code].value.expiresAt.Some? && e <= s.entries[code].value.expiresAt.value
      then s.(entries := s.entries[code := s.entries[code].(value := s.entries[code].value.(expiresAt := Some(e)))])
      else s
  }

  function RunFrom(repo: map<string, LinkRecord>, ops: seq<Op>): State {
    if ops == [] then State(repo, map[], [])
    else Apply(RunFrom(repo, ops[..|ops| - 1]), ops[|ops| - 1])
  }

  /** The reference system: the same run with no cache at all. */
  function RepoAfter(repo: map<string, LinkRecord>, ops: seq<Op>): map<string, LinkRecord> {
    if ops == [] then repo else
      var before := RepoAfter(repo, ops[..|ops| - 1]);
      match ops[|ops| - 1]
      case DoUpdate(record, _) => RepoUpdate(before, record)
      case DoDelete(code, _) => Erase(before, code)
      case DoCreate(request, id, now) => RepoCreate(before, request, id, now)
      case _ => before
  }

  /** A cached value may stand in for a record: same target and state, and never a later expiry. */
  predicate Covers(value: CacheValue, record: LinkRecord) {
    && value.targetUrl == record.targetUrl
    && value.isActive == record.isActive
    && (value.expiresAt.Some? <==> record.expiresAt.Some?)
    && (value.expiresAt.Some? ==> value.expiresAt.value <= record.expiresAt.value)
  }

  ghost predicate Coherent(repo: map<string, LinkRecord>, entries: map<string, Entry>) {
    forall code :: code in entries ==> code in repo && Covers(entries[code].value, repo[code])
  }

  /** An invalidation of the code that the operation makes, and whether it reaches the cache. */
  predicate Invalidates(op: Op) {
    op.DoUpdate? || op.DoDelete?
  }

  lemma ApplyKeepsCoherent(s: State, op: Op)
    requires Coherent(s.repo, s.entries) && (Invalidates(op) ==> op.reachable)
    ensures Coherent(Apply(s, op).repo, Apply(s, op).entries)
  {
  }

  /** The cache never changes what is in the repository; and with no invalidation lost, it stays coherent. */
  lemma {:induction false} RunIsCoherent(repo: map<string, LinkRecord>, ops: seq<Op>)
    ensures var s := RunFrom(repo, ops);
            && s.repo == RepoAfter(repo, ops)
            && ((forall j :: 0 <= j < |ops| && Invalidates(ops[j]) ==> ops[j].reachable) ==> Coherent(s.repo, s.entries))
  {
    if ops != [] {
      var n := |ops| - 1;
      RunIsCoherent(repo, ops[..n]);
      if forall j :: 0 <= j < |ops| && Invalidates(ops[j]) ==> ops[j].reachable {
        assert forall j :: 0 <= j < n ==> ops[..n][j] == ops[j];
        ApplyKeepsCoherent(RunFrom(repo, ops[..n]), ops[n]);
      }
    }
  }

  // ----- where a cache entry comes from -----

  /** A Resolve call that sets the cache. */
  predicate Fills(s: State, op: Op, code: string) {
    op.DoResolve? && op.code == code && op.reach.fill
    && var r := ResolveStep(s, code, op.clock, op.reach).1; !r.cacheHit && r.status == Redirect
  }

  /** The operation of a run that filled the present entry of a code. */
  function FillOf(repo: map<string, LinkRecord>, ops: seq<Op>, code: string): Option<nat> {
    if ops == [] then None else
      var n := |ops| - 1;
      var s := RunFrom(repo, ops[..n]);
      if code !in Apply(s, ops[n]).entries then None
      else if Fills(s, ops[n], code) then Some(n) else FillOf(repo, ops[..n], code)
  }

  /** A later value of an entry: the same, with the expiry perhaps shortened. */
  predicate ShortenedFrom(later: CacheValue, earlier: CacheValue) {
    && later == earlier.(expiresAt := later.expiresAt) && (later.expiresAt.Some? <==> earlier.expiresAt.Some?)
    && (later.expiresAt.Some? ==> later.expiresAt.value <= earlier.expiresAt.value)
  }

  lemma EntryKept(s: State, op: Op, code: string)
    requires code in Apply(s, op).entries && !Fills(s, op, code)
    ensures code in s.entries && ShortenedFrom(Apply(s, op).entries[code].value, s.entries[code].value)
    ensures Invalidates(op) && CodeOf(op) == code ==> !op.reachable
  {
  }

  lemma EntryFilled(s: State, op: Op, code: string)
    requires code in Apply(s, op).entries && Fills(s, op, code)
    ensures code in s.repo && Apply(s, op).entries[code].value == FillValue(s.repo[code])
  {
  }

  /** What is known of an entry that operation `i` of the run filled. */
  ghost predicate ComesFrom(repo: map<string, LinkRecord>, ops: seq<Op>, code: string, i: nat, value: CacheValue) {
    && i < |ops| && code in RepoAfter(repo, ops[..i]) && Covers(value, RepoAfter(repo, ops[..i])[code])
    && ops[i].DoResolve? && forall j :: i < j < |ops| && Invalidates(ops[j]) && CodeOf(ops[j]) == code ==> !ops[j].reachable
  }

  lemma StillComesFrom(repo: map<string, LinkRecord>, ops: seq<Op>, code: string, i: nat, earlier: CacheValue, later: CacheValue)
    requires ops != [] && ComesFrom(repo, ops[..|ops| - 1], code, i, earlier) && ShortenedFrom(later, earlier)
    requires var op := ops[|ops| - 1]; Invalidates(op) && CodeOf(op) == code ==> !op.reachable
    ensures ComesFrom(repo, ops, code, i, later)
  {
    assert ops[..|ops| - 1][..i] == ops[..i];
  }

  /** Every entry stands for the record its fill read, and every invalidation of its code since then was lost. */
  lemma {:induction false} EntryHistory(repo: map<string, LinkRecord>, ops: seq<Op>, code: string)
    requires code in RunFrom(repo, ops).entries
    ensures var i := FillOf(repo, ops, code);
            i.Some? && ComesFrom(repo, ops, code, i.value, RunFrom(repo, ops).entries[code].value)
  {
    var n := |ops| - 1;
    var s := RunFrom(repo, ops[..n]);
    if Fills(s, ops[n], code) {
      RunIsCoherent(repo, ops[..n]);
      EntryFilled(s, ops[n], code);
    } else {
      EntryKept(s, ops[n], code);
      EntryHistory(repo, ops[..n], code);
      StillComesFrom(repo, ops, code, FillOf(repo, ops[..n], code).value, s.entries[code].value, Apply(s, ops[n]).entries[code].value);
    }
  }

  // ----- what Resolve answers -----

  /** An update or removal that found a record of the code. */
  predicate Supersedes(repo: map<string, LinkRecord>, op: Op, code: string) {
    Invalidates(op) && CodeOf(op) == code && code in repo
  }

  /** No record of the code was updated or removed since its present entry was filled. */
  ghost predicate UpToDate(repo: map<string, LinkRecord>, ops: seq<Op>, code: string) {
    var i := FillOf(repo, ops, code);
    i.Some? ==> forall j :: i.value < j < |ops| ==> !Supersedes(RepoAfter(repo, ops[..j]), ops[j], code)
  }

  /** From a point where the code has a record, and with none superseded, the record stays. */
  lemma {:induction false} RecordStays(repo: map<string, LinkRecord>, ops: seq<Op>, code: string, i: nat)
    requires i <= |ops| && code in RepoAfter(repo, ops[..i])
    requires forall j :: i <= j < |ops| ==> !Supersedes(RepoAfter(repo, ops[..j]), ops[j], code)
    ensures RepoGet(RepoAfter(repo, ops), code) == RepoGet(RepoAfter(repo, ops[..i]), code)
  {
    if i < |ops| {
      var n := |ops| - 1;
      assert ops[..n][..i] == ops[..i];
      forall j | i <= j < n
        ensures !Supersedes(RepoAfter(repo, ops[..n][..j]), ops[..n][j], code)
      {
        assert ops[..n][..j] == ops[..j];
      }
      RecordStays(repo, ops[..n], code, i);
    } else {
      assert ops[..i] == ops;
    }
  }

  /**
   After any run, whatever cache operations were lost, Resolve answers as the system without a cache did at
   one point of the run: a hit as of the call that filled its entry, any other answer as of now.  It
   also reports that answer, once, to the analytics sink.
   */
  lemma {:induction false} AnswersFromRun(repo: map<string, LinkRecord>, ops: seq<Op>, code: string, clock: Readings, reach: Reach)
    ensures var s := RunFrom(repo, ops);
            var (s', result) := ResolveStep(s, code, clock, reach);
            && (result.cacheHit ==> FillOf(repo, ops, code).Some? && FillOf(repo, ops, code).value < |ops|)
            && var asOf := if result.cacheHit then ops[..FillOf(repo, ops, code).value] else ops;
               var (status, target) := Uncached(RepoAfter(repo, asOf), code, if result.cacheHit then clock.atHit else clock.atLookup);
               && result.status == status && result.target == target
               && s'.events == s.events + [AccessEvent(code, clock.atEmit, StatusCode(status), result.cacheHit)]
  {
    RunIsCoherent(repo, ops);
    if ResolveStep(RunFrom(repo, ops), code, clock, reach).1.cacheHit {
      EntryHistory(repo, ops, code);
    }
  }

  /**
   After any run, for a code that is up to date, Resolve answers exactly as the reference system without a
   cache does at a reading taken inside the call: the one that checked the cached expiry on a hit,
   the one that checked the stored expiry otherwise.
   */
  lemma {:induction false} ResolveIsTransparent(repo: map<string, LinkRecord>, ops: seq<Op>, code: string, clock: Readings, reach: Reach)
    requires UpToDate(repo, ops, code)
    ensures var s := RunFrom(repo, ops);
            var (s', result) := ResolveStep(s, code, clock, reach);
            var (status, target) := Uncached(RepoAfter(repo, ops), code, if result.cacheHit then clock.atHit else clock.atLookup);
            && result.status == status && result.target == target
            && s'.events == s.events + [AccessEvent(code, clock.atEmit, StatusCode(status), result.cacheHit)]
  {
    AnswersFromRun(repo, ops, code, clock, reach);
    if ResolveStep(RunFrom(repo, ops), code, clock, reach).1.cacheHit {
      EntryHistory(repo, ops, code);
      FilledRecordStays(repo, ops, code, FillOf(repo, ops, code).value);
    }
  }

  lemma {:induction false} FilledRecordStays(repo: map<string, LinkRecord>, ops: seq<Op>, code: string, i: nat)
    requires i < |ops| && ops[i].DoResolve? && code in RepoAfter(repo, ops[..i])
    requires forall j :: i < j < |ops| ==> !Supersedes(RepoAfter(repo, ops[..j]), ops[j], code)
    ensures RepoGet(RepoAfter(repo, ops), code) == RepoGet(RepoAfter(repo, ops[..i]), code)
  {
    assert !Supersedes(RepoAfter(repo, ops[..i]), ops[i], code);
    RecordStays(repo, ops, code, i);
  }

  /** How often the record of a code was created, updated or removed. */
  function Versions(repo: map<string, LinkRecord>, ops: seq<Op>, code: string): nat {
    if ops == [] then 0 else
      var n := |ops| - 1;
      var before := RepoAfter(repo, ops[..n]);
      Versions(repo, ops[..n], code) + (if Supersedes(before, ops[n], code) || Creates(before, ops[n], code) then 1 else 0)
  }

  predicate Creates(repo: map<string, LinkRecord>, op: Op, code: string) {
    op.DoCreate? && CodeOf(op) == code && IsValidRequest(op.request) && code !in repo
  }

  /** No record of the code was updated or removed from operation `i` on. */
  ghost predicate NoneSuperseded(repo: map<string, LinkRecord>, ops: seq<Op>, code: string, i: nat) {
    forall j :: i <= j < |ops| ==> !Supersedes(RepoAfter(repo, ops[..j]), ops[j], code)
  }

  lemma {:induction false} NoneSupersededLast(repo: map<string, LinkRecord>, ops: seq<Op>, code: string, i: nat)
    requires i < |ops|
    ensures var n := |ops| - 1;
            NoneSuperseded(repo, ops, code, i) <==>
              NoneSuperseded(repo, ops[..n], code, i) && !Supersedes(RepoAfter(repo, ops[..n]), ops[n], code)
  {
    var n := |ops| - 1;
    assert forall j :: i <= j < n ==> ops[..n][..j] == ops[..j] && ops[..n][j] == ops[j];
    if NoneSuperseded(repo, ops, code, i) {
      forall j | i <= j < n
        ensures !Supersedes(RepoAfter(repo, ops[..n][..j]), ops[..n][j], code)
      {
        assert !Supersedes(RepoAfter(repo, ops[..j]), ops[j], code);
      }
    }
    if NoneSuperseded(repo, ops[..n], code, i) {
      forall j | i <= j < n
        ensures !Supersedes(RepoAfter(repo, ops[..j]), ops[j], code)
      {
        assert !Supersedes(RepoAfter(repo, ops[..n][..j]), ops[..n][j], code);
      }
    }
  }

  lemma {:induction false} VersionsSince(repo: map<string, LinkRecord>, ops: seq<Op>, code: string, i: nat)
    requires i <= |ops| && code in RepoAfter(repo, ops[..i])
    ensures Versions(repo, ops[..i], code) <= Versions(repo, ops, code)
    ensures Versions(repo, ops[..i], code) == Versions(repo, ops, code) <==> NoneSuperseded(repo, ops, code, i)
  {
    if i == |ops| {
      assert ops[..i] == ops;
    } else {
      var before := ops[..|ops| - 1];
      assert before[..i] == ops[..i];
      VersionsSince(repo, before, code, i);
      VersionsSinceLast(repo, ops, before, code, i);
    }
  }

  lemma {:induction false} VersionsSinceLast(repo: map<string, LinkRecord>, ops: seq<Op>, before: seq<Op>, code: string, i: nat)
    requires i < |ops| && before == ops[..|ops| - 1] && before[..i] == ops[..i] && code in RepoAfter(repo, before[..i])
    requires Versions(repo, before[..i], code) <= Versions(repo, before, code)
    requires Versions(repo, before[..i], code) == Versions(repo, before, code) <==> NoneSuperseded(repo, before, code, i)
    ensures Versions(repo, ops[..i], code) <= Versions(repo, ops, code)
    ensures Versions(repo, ops[..i], code) == Versions(repo, ops, code) <==> NoneSuperseded(repo, ops, code, i)
  {
    NoneSupersededLast(repo, ops, code, i);
    NoCreationMeanwhile(repo, before, code, i, ops[|ops| - 1]);
    VersionsLast(repo, ops, code);
  }

  lemma {:induction false} VersionsLast(repo: map<string, LinkRecord>, ops: seq<Op>, code: string)
    requires ops != []
    ensures var n := |ops| - 1;
            var before := RepoAfter(repo, ops[..n]);
            Versions(repo, ops, code)
            == Versions(repo, ops[..n], code) + (if Supersedes(before, ops[n], code) || Creates(before, ops[n], code) then 1 else 0)
  {
  }

  /** A code that kept its record cannot be created. */
  lemma {:induction false} NoCreationMeanwhile(repo: map<string, LinkRecord>, ops: seq<Op>, code: string, i: nat, op: Op)
    requires i <= |ops| && code in RepoAfter(repo, ops[..i])
    ensures NoneSuperseded(repo, ops, code, i) ==> !Creates(RepoAfter(repo, ops), op, code)
  {
    if NoneSuperseded(repo, ops, code, i) {
      RecordStays(repo, ops, code, i);
    }
  }

  /** The record an entry stands for is still the present version exactly when its code is up to date. */
  lemma {:induction false} EntryIsPresentExactly(repo: map<string, LinkRecord>, ops: seq<Op>, code: string)
    requires code in RunFrom(repo, ops).entries
    ensures FillOf(repo, ops, code).Some? && FillOf(repo, ops, code).value < |ops|
    ensures Versions(repo, ops[..FillOf(repo, ops, code).value], code) == Versions(repo, ops, code) <==> UpToDate(repo, ops, code)
  {
    EntryHistory(repo, ops, code);
    var i := FillOf(repo, ops, code).value;
    VersionsSince(repo, ops, code, i);
    assert !Supersedes(RepoAfter(repo, ops[..i]), ops[i], code);
  }

  /** A code is up to date unless an invalidation of it was lost, so always on a cache that can be reached. */
  lemma {:induction false} OnlyLostInvalidations(repo: map<string, LinkRecord>, ops: seq<Op>, code: string)
    requires code in RunFrom(repo, ops).entries
    ensures UpToDate(repo, ops, code) || exists j :: 0 <= j < |ops| && Invalidates(ops[j]) && CodeOf(ops[j]) == code && !ops[j].reachable
  {
    EntryHistory(repo, ops, code);
  }

  /** An update whose invalidation is lost: the old target is served from then on. */
  lemma StaleAfterLostInvalidation(code: string, before: LinkRecord, after: LinkRecord, clock: Readings)
    requires before.shortCode == after.shortCode == code && before.isActive && before.expiresAt.None?
    ensures var ops := [DoResolve(code, clock, EVERYTHING), DoUpdate(after, false)];
            var s := RunFrom(map[code := before], ops);
            && !UpToDate(map[code := before], ops, code) && s.repo == map[code := after]
            && ResolveStep(s, code, clock, EVERYTHING).1 == ResolveResult(Redirect, Some(before.targetUrl), true)
  {
    var repo := map[code := before];
    var ops := [DoResolve(code, clock, EVERYTHING), DoUpdate(after, false)];
    var s1 := State(repo, map[code := Entry(FillValue(before), None)], [AccessEvent(code, clock.atEmit, 302, false)]);
    assert ops[..1] == [ops[0]] && [ops[0]][..0] == [];
    assert RunFrom(repo, ops[..1]) == s1 && RepoAfter(repo, ops[..1]) == repo;
    assert FillOf(repo, ops[..1], code) == Some(0);
    assert Supersedes(RepoAfter(repo, ops[..1]), ops[1], code);
  }

  /** How long the cache keeps what it was given: exactly until `ttl` seconds after the write. */
  lemma CachedUntilTtl(entries: map<string, Entry>, key: string, value: CacheValue, ttl: Option<int>, written: int, now: int, other: string)
    ensures var after := CacheSet(entries, key, value, ttl, written);
            && CacheGet(after, key, now).1 == (if ttl.None? || (ttl.value > 0 && now < written + ttl.value * TICKS_PER_SECOND)
                                               then Some(value) else None)
            && (other != key ==> CacheGet(after, other, now).1 == CacheGet(entries, other, now).1)
    ensures CacheGet(Erase(entries, key), key, now).1 == None
    ensures other != key ==> CacheGet(Erase(entries, key), other, now).1 == CacheGet(entries, other, now).1
  {
  }

  /**
   How long a filled entry stays.  Its time to live is what the record has left at one reading of the
   clock, in whole seconds, and starts at a later reading; with nothing left it stays for good.  So
   it may outlive the record by what the clock moved in between, but never as a hit: from the expiry
   on, the check of the cached expiry turns the entry away.
   */
  lemma FilledUntilExpiry(s: State, code: string, clock: Readings, now: int)
    requires code in s.repo && s.repo[code].isActive && s.repo[code].expiresAt.Some?
    requires !IsUsable(CacheGet(s.entries, code, clock.atGet).1, clock.atHit) && clock.atLookup < s.repo[code].expiresAt.value
    ensures var expiry := s.repo[code].expiresAt.value;
            var left := expiry - clock.atTtl;
            var ttl := left / TICKS_PER_SECOND * TICKS_PER_SECOND;
            var cached := CacheGet(ResolveStep(s, code, clock, EVERYTHING).0.entries, code, now).1;
            && (cached == if left <= 0 || (ttl > 0 && now < clock.atSet + ttl) then Some(FillValue(s.repo[code])) else None)
            && clock.atSet + ttl <= expiry + (clock.atSet - clock.atTtl) < clock.atSet + ttl + TICKS_PER_SECOND
            && forall atHit :: expiry <= atHit ==> !IsUsable(cached, atHit)
  {
    var record := s.repo[code];
    var left := record.expiresAt.value - clock.atTtl;
    var ttl := left / TICKS_PER_SECOND;
    assert ttl * TICKS_PER_SECOND <= left < ttl * TICKS_PER_SECOND + TICKS_PER_SECOND;
    var (entries1, cached) := CacheGet(s.entries, code, clock.atGet);
    var entries := if cached.Some? then Erase(entries1, code) else entries1;
    assert ResolveStep(s, code, clock, EVERYTHING).0.entries
        == CacheSet(entries, code, FillValue(record), if left > 0 then Some(ttl) else None, clock.atSet);
    CachedUntilTtl(entries, code, FillValue(record), if left > 0 then Some(ttl) else None, clock.atSet, now, code);
  }

  function CodeOf(op: Op): string {
    match op
    case DoUpdate(record, _) => record.shortCode
    case DoCreate(request, _, _) => request.shortCode
    case _ => op.code
  }

  /** The operations of a run that concern one code. */
  function About(ops: seq<Op>, code: string): seq<Op> {
    if ops == [] then [] else
      About(ops[..|ops| - 1], code) + (if CodeOf(ops[|ops| - 1]) == code then [ops[|ops| - 1]] else [])
  }

  /** Two states hold the same record and the same cache entry for a code. */
  predicate SameFor(s: State, t: State, code: string) {
    && RepoGet(s.repo, code) == RepoGet(t.repo, code)
    && (code in s.entries <==> code in t.entries) && (code in s.entries ==> s.entries[code] == t.entries[code])
  }

  lemma ApplySame(s: State, t: State, op: Op, code: string)
    requires SameFor(s, t, code)
    ensures if CodeOf(op) == code then SameFor(Apply(s, op), Apply(t, op), code) else SameFor(Apply(s, op), t, code)
  {
  }

  /** After any run, the record and the cache entry of a code are those of the run of its own operations alone. */
  lemma {:induction false} CodesAreIndependent(repo: map<string, LinkRecord>, ops: seq<Op>, code: string)
    ensures SameFor(RunFrom(repo, ops), RunFrom(repo, About(ops, code)), code)
  {
    if ops != [] {
      var n := |ops| - 1;
      CodesAreIndependent(repo, ops[..n], code);
      var before := About(ops[..n], code);
      ApplySame(RunFrom(repo, ops[..n]), RunFrom(repo, before), ops[n], code);
      if CodeOf(ops[n]) == code {
        assert (before + [ops[n]])[..|before|] == before;
      } else {
        assert before + [] == before;
      }
    }
  }

  /** A record made from a request: the request's own fields, the given id and time, and version 1. */
  ghost predicate IsRecordOf(record: LinkRecord, r: CreateLinkRequest, id: string, now: int) {
    && record.id == id && record.shortCode == r.shortCode && record.targetUrl == r.targetUrl && record.isActive == r.isActive
    && record.expiresAt == r.expiresAt && record.owner == r.owner && record.attributes == r.attributes
    && record.createdAt == now && record.updatedAt == now && record.deletedAt == None && record.version == 1
  }

  /** A request the repository takes: a target, and a code of 3 to 64 letters, digits, underscores or hyphens. */
  ghost predicate IsGoodRequest(r: CreateLinkRequest) {
    && |r.targetUrl| > 0 && 3 <= |r.shortCode| <= 64
    && forall i :: 0 <= i < |r.shortCode| ==>
         var c := r.shortCode[i]; 'A' <= c <= 'Z' || 'a' <= c <= 'z' || '0' <= c <= '9' || c in {'_', '-'}
  }

  lemma {:induction false} GoodRequestExactly(r: CreateLinkRequest)
    ensures IsValidRequest(r) <==> IsGoodRequest(r)
  {
    if IsValidRequest(r) {
      assert forall i :: 0 <= i < |r.shortCode| ==> r.shortCode[i] in r.shortCode;
    }
  }

  /** The repository contract: what each operation makes visible, and that it touches no other code. */
  lemma RepositoryLaws(repo: map<string, LinkRecord>, request: CreateLinkRequest, id: string, now: int, record: LinkRecord, code: string)
    ensures var created := RepoCreate(repo, request, id, now);
            if code == request.shortCode && IsGoodRequest(request) && RepoGet(repo, code).None?
            then RepoGet(created, code).Some? && IsRecordOf(RepoGet(created, code).value, request, id, now)
            else RepoGet(created, code) == RepoGet(repo, code)
    ensures RepoGet(RepoUpdate(repo, record), code) ==
              if code == record.shortCode && RepoGet(repo, code).Some? then Some(record) else RepoGet(repo, code)
    ensures RepoGet(Erase(repo, record.shortCode), code) == if code == record.shortCode then None else RepoGet(repo, code)
  {
    GoodRequestExactly(request);
  }

  /** What Resolve answers right after a creation for a new code, from the request's own fields. */
  lemma ResolveAfterCreate(s: State, request: CreateLinkRequest, id: string, now: int, clock: Readings, reach: Reach)
    requires Coherent(s.repo, s.entries) && request.shortCode !in s.repo
    ensures var r := ResolveStep(Apply(s, DoCreate(request, id, now)), request.shortCode, clock, reach).1;
            r == if !IsGoodRequest(request) then ResolveResult(Missing, None, false)
                 else if !request.isActive then ResolveResult(Inactive, None, false)
                 else if request.expiresAt.Some? && request.expiresAt.value <= clock.atLookup then ResolveResult(Expired, None, false)
                 else ResolveResult(Redirect, Some(request.targetUrl), false)
  {
    GoodRequestExactly(request);
  }

  /** After a Resolve that reached the cache and was no hit, what the cache has for the code is the record just read, or nothing. */
  lemma ResolveLeaves(s: State, code: string, clock: Readings)
    requires !ResolveStep(s, code, clock, EVERYTHING).1.cacheHit
    ensures var (s', result) := ResolveStep(s, code, clock, EVERYTHING);
            code in s'.entries ==>
              && result.status == Redirect && code in s.repo
              && var (value, record) := (s'.entries[code].value, s.repo[code]);
                 && value.targetUrl == record.targetUrl && value.expiresAt == record.expiresAt && value.isActive == record.isActive
                 && value.version == Some(record.version)
  {
  }

  /** The cache does get used: a second Resolve within the expiry is a hit. */
  lemma SecondResolveHits(s: State, code: string, first: Readings, second: Readings)
    requires code in s.repo && s.repo[code].isActive
    requires s.repo[code].expiresAt.Some? ==>
               && first.atLookup <= first.atTtl <= first.atSet <= second.atGet <= second.atHit
               && second.atHit + TICKS_PER_SECOND <= s.repo[code].expiresAt.value
    requires code !in s.entries
    ensures var (s1, r1) := ResolveStep(s, code, first, EVERYTHING);
            !r1.cacheHit && ResolveStep(s1, code, second, EVERYTHING).1 == r1.(cacheHit := true)
  {
    var record := s.repo[code];
    if record.expiresAt.Some? {
      var ttl := (record.expiresAt.value - first.atTtl) / TICKS_PER_SECOND;
      assert ttl > 0;
    }
  }
}
