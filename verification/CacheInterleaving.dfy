/**
 The cache-aside protocol under interleaving (src/core/link_service.cpp).

 Each operation of the repository and of the cache holds its own lock, so it is one atomic step; a
 Resolve, Update or Delete call is several such steps, and steps of other calls may come between.
 The world carries history next to the two stores: the superseded versions of every record, and for
 each cache entry which version it was read from and which one was current when it was set.  No
 step's effect on the stores depends on the history.
 */
module CacheInterleaving {
  import opened Wrappers
  import opened CacheAside

  type CallId = nat

  /** Where a call stands between its atomic steps. */
  datatype Call =
    | DropStale(code: string)                               // Resolve saw an unusable cached value, will delete it
    | Lookup(code: string)                                  // Resolve will read the repository
    | Fill(code: string, record: LinkRecord, readAt: nat)   // Resolve read version `readAt`, will set the cache
    | Invalidate(code: string, wrote: Option<nat>)          // Update/Delete will delete the cache entry; it made version `wrote`

  /** History of a cache entry: the version it holds, and the version current when it was set. */
  datatype Stamp = Stamp(readAt: nat, setAt: nat)

  datatype World = World(
    repo: map<string, LinkRecord>, entries: map<string, Entry>, calls: map<CallId, Call>,
    past: map<string, seq<Option<LinkRecord>>>, stamps: map<string, Stamp>)

  function Past(w: World, code: string): seq<Option<LinkRecord>> {
    if code in w.past then w.past[code] else []
  }

  /** Number of the current version of a code: how often its record was created, replaced or removed. */
  function Current(w: World, code: string): nat {
    |Past(w, code)|
  }

  function Version(w: World, code: string, k: nat): Option<LinkRecord>
    requires k <= Current(w, code)
  {
    (Past(w, code) + [RepoGet(w.repo, code)])[k]
  }

  function Initial(repo: map<string, LinkRecord>): World {
    World(repo, map[], map[], map[], map[])
  }

  // ----- the atomic steps -----

  datatype Step =
    | CacheRead(call: CallId, code: string, atGet: int, atHit: int)
    | CacheDrop(call: CallId)
    | RepoRead(call: CallId, now: int)
    | CacheFill(call: CallId, atTtl: int, atSet: int)
    | RepoWrite(call: CallId, record: LinkRecord)
    | RepoRemove(call: CallId, code: string)
    | CacheInvalidate(call: CallId)
    | RepoInsert(request: CreateLinkRequest, id: string, now: int)

  predicate Enabled(w: World, step: Step) {
    match step
    case CacheRead(c, _, _, _) => c !in w.calls
    case CacheDrop(c) => c in w.calls && w.calls[c].DropStale?
    case RepoRead(c, _) => c in w.calls && w.calls[c].Lookup?
    case CacheFill(c, _, _) => c in w.calls && w.calls[c].Fill?
    case RepoWrite(c, _) => c !in w.calls
    case RepoRemove(c, _) => c !in w.calls
    case CacheInvalidate(c) => c in w.calls && w.calls[c].Invalidate?
    case RepoInsert(_, _, _) => true
  }

  /** Replaces the repository where only `code` may differ, and records the superseded version. */
  function Supersede(w: World, code: string, repo: map<string, LinkRecord>): World {
    w.(repo := repo, past := w.past[code := Past(w, code) + [RepoGet(w.repo, code)]])
  }

  function End(w: World, c: CallId): World {
    w.(calls := w.calls - {c})
  }

  function At(w: World, c: CallId, call: Call): World {
    w.(calls := w.calls[c := call])
  }

  function Write(w: World, c: CallId, code: string, repo: map<string, LinkRecord>): World {
    if code in w.repo
    then At(Supersede(w, code, repo), c, Invalidate(code, Some(Current(w, code) + 1)))
    else At(w, c, Invalidate(code, None))
  }

  /** A step that is not enabled does nothing. */
  function Next(w: World, step: Step): World {
    if !Enabled(w, step) then w else
      match step
      case CacheRead(c, code, atGet, atHit) =>
        var (entries, cached) := CacheGet(w.entries, code, atGet);
        var w1 := w.(entries := entries);
        if IsUsable(cached, atHit) then w1
        else At(w1, c, if cached.Some? then DropStale(code) else Lookup(code))
      case CacheDrop(c) =>
        At(w.(entries := Erase(w.entries, w.calls[c].code)), c, Lookup(w.calls[c].code))
      case RepoRead(c, now) =>
        var code := w.calls[c].code;
        if Uncached(w.repo, code, now).0 == Redirect then At(w, c, Fill(code, w.repo[code], Current(w, code)))
        else End(w, c)
      case CacheFill(c, atTtl, atSet) =>
        var Fill(code, record, readAt) := w.calls[c];
        End(w.(entries := CacheSet(w.entries, code, FillValue(record), FillTtl(record, atTtl), atSet),
               stamps := w.stamps[code := Stamp(readAt, Current(w, code))]), c)
      case RepoWrite(c, record) => Write(w, c, record.shortCode, RepoUpdate(w.repo, record))
      case RepoRemove(c, code) => Write(w, c, code, Erase(w.repo, code))
      case CacheInvalidate(c) => End(w.(entries := Erase(w.entries, w.calls[c].code)), c)
      case RepoInsert(request, id, now) =>
        if IsValidRequest(request) && request.shortCode !in w.repo
        then Supersede(w, request.shortCode, RepoCreate(w.repo, request, id, now)) else w
  }

  function After(w: World, steps: seq<Step>): World {
    if steps == [] then w else Next(After(w, steps[..|steps| - 1]), steps[|steps| - 1])
  }

  // ----- steps that nothing comes between are the calls of the service -----

  lemma LookupRunsAlone(w: World, w1: World, w2: World, c: CallId, code: string, clock: Readings)
    requires c in w.calls && w.calls[c] == Lookup(code)
    requires w1 == Next(w, RepoRead(c, clock.atLookup))
    requires w2 == Next(w1, CacheFill(c, clock.atTtl, clock.atSet))
    ensures w2.calls == w.calls - {c} && w2.repo == w.repo
    ensures w2.entries == MissStep(State(w.repo, w.entries, []), code, clock, true).0.entries
  {
    if Uncached(w.repo, code, clock.atLookup).0 == Redirect {
      var fill := Fill(code, w.repo[code], Current(w, code));
      assert w1 == At(w, c, fill);
      assert w.calls[c := fill] - {c} == w.calls - {c};
    } else {
      assert w1 == End(w, c);
      assert w2 == w1;
    }
  }

  lemma CacheReadRunsAlone(w: World, w1: World, w2: World, c: CallId, code: string, clock: Readings)
    requires c !in w.calls
    requires w1 == Next(w, CacheRead(c, code, clock.atGet, clock.atHit))
    requires w2 == Next(w1, CacheDrop(c))
    ensures var (entries, cached) := CacheGet(w.entries, code, clock.atGet);
            w2 == if IsUsable(cached, clock.atHit) then w.(entries := entries)
                  else w.(entries := if cached.Some? then Erase(entries, code) else entries, calls := w.calls[c := Lookup(code)])
  {
  }

  lemma ResolveRunsAlone(w: World, w1: World, w2: World, w3: World, w4: World, c: CallId, code: string, clock: Readings)
    requires c !in w.calls
    requires w1 == Next(w, CacheRead(c, code, clock.atGet, clock.atHit))
    requires w2 == Next(w1, CacheDrop(c))
    requires w3 == Next(w2, RepoRead(c, clock.atLookup))
    requires w4 == Next(w3, CacheFill(c, clock.atTtl, clock.atSet))
    ensures w4.calls == w.calls && w4.repo == w.repo
    ensures w4.entries == ResolveStep(State(w.repo, w.entries, []), code, clock, EVERYTHING).0.entries
  {
    CacheReadRunsAlone(w, w1, w2, c, code, clock);
    MissedResolveRunsAlone(w, w2, w3, w4, c, code, clock);
  }

  lemma MissedResolveRunsAlone(w: World, w2: World, w3: World, w4: World, c: CallId, code: string, clock: Readings)
    requires c !in w.calls
    requires var (entries, cached) := CacheGet(w.entries, code, clock.atGet);
             w2 == if IsUsable(cached, clock.atHit) then w.(entries := entries)
                   else w.(entries := if cached.Some? then Erase(entries, code) else entries, calls := w.calls[c := Lookup(code)])
    requires w3 == Next(w2, RepoRead(c, clock.atLookup))
    requires w4 == Next(w3, CacheFill(c, clock.atTtl, clock.atSet))
    ensures w4.calls == w.calls && w4.repo == w.repo
    ensures w4.entries == ResolveStep(State(w.repo, w.entries, []), code, clock, EVERYTHING).0.entries
  {
    if c in w2.calls {
      LookupRunsAlone(w2, w3, w4, c, code, clock);
      assert w.calls[c := Lookup(code)] - {c} == w.calls;
    } else {
      assert w4 == w3 == w2;
    }
  }

  lemma UpdateRunsAlone(w: World, w1: World, w2: World, c: CallId, record: LinkRecord)
    requires c !in w.calls
    requires w1 == Next(w, RepoWrite(c, record))
    requires w2 == Next(w1, CacheInvalidate(c))
    ensures w2.calls == w.calls
    ensures State(w2.repo, w2.entries, []) == UpdateStep(State(w.repo, w.entries, []), record, true)
  {
    WriteRunsAlone(w, w1, w2, c, record.shortCode, RepoUpdate(w.repo, record));
  }

  lemma WriteRunsAlone(w: World, w1: World, w2: World, c: CallId, code: string, repo: map<string, LinkRecord>)
    requires c !in w.calls
    requires w1 == Write(w, c, code, repo) && (code !in w.repo ==> repo == w.repo)
    requires w2 == Next(w1, CacheInvalidate(c))
    ensures w2.calls == w.calls && w2.repo == repo && w2.entries == Erase(w.entries, code)
  {
    AddRemove(w.calls, c, w1.calls[c]);
  }

  lemma AddRemove(calls: map<CallId, Call>, c: CallId, call: Call)
    requires c !in calls
    ensures calls[c := call] - {c} == calls
  {
  }

  lemma DeleteRunsAlone(w: World, w1: World, w2: World, c: CallId, code: string)
    requires c !in w.calls
    requires w1 == Next(w, RepoRemove(c, code))
    requires w2 == Next(w1, CacheInvalidate(c))
    ensures w2.calls == w.calls
    ensures State(w2.repo, w2.entries, []) == DeleteStep(State(w.repo, w.entries, []), code, true)
  {
    WriteRunsAlone(w, w1, w2, c, code, Erase(w.repo, code));
  }

  // ----- what every interleaving keeps -----

  ghost predicate FillsReadHistory(w: World) {
    forall c :: c in w.calls && w.calls[c].Fill? ==>
      && w.calls[c].readAt <= Current(w, w.calls[c].code)
      && Version(w, w.calls[c].code, w.calls[c].readAt) == Some(w.calls[c].record)
  }

  ghost predicate Pending(w: World, code: string, version: nat) {
    exists c :: c in w.calls && w.calls[c] == Invalidate(code, Some(version))
  }

  /** What an entry's stamp says: a past value, and why it is still there. */
  ghost predicate EntryExplained(w: World, code: string)
    requires code in w.entries
  {
    && code in w.stamps
    && w.stamps[code].readAt <= w.stamps[code].setAt <= Current(w, code)
    && Version(w, code, w.stamps[code].readAt).Some?
    && w.entries[code].value == FillValue(Version(w, code, w.stamps[code].readAt).value)
    && (w.stamps[code].readAt == w.stamps[code].setAt < Current(w, code) ==> Pending(w, code, w.stamps[code].setAt + 1))
  }

  ghost predicate EntriesExplained(w: World) {
    forall code :: code in w.entries ==> EntryExplained(w, code)
  }

  ghost predicate CacheAccount(w: World) {
    FillsReadHistory(w) && EntriesExplained(w)
  }

  lemma SupersedeKeepsVersion(w: World, code: string, repo: map<string, LinkRecord>, other: string, k: nat)
    requires other != code ==> RepoGet(repo, other) == RepoGet(w.repo, other)
    requires k <= Current(w, other)
    ensures var w' := Supersede(w, code, repo);
            && Current(w', other) == Current(w, other) + (if other == code then 1 else 0)
            && Version(w', other, k) == Version(w, other, k)
  {
  }

  lemma SupersedeKeepsFills(w: World, code: string, repo: map<string, LinkRecord>)
    requires FillsReadHistory(w)
    requires forall other :: other != code ==> RepoGet(repo, other) == RepoGet(w.repo, other)
    ensures FillsReadHistory(Supersede(w, code, repo))
  {
    var w' := Supersede(w, code, repo);
    forall c | c in w'.calls && w'.calls[c].Fill?
      ensures w'.calls[c].readAt <= Current(w', w'.calls[c].code)
      ensures Version(w', w'.calls[c].code, w'.calls[c].readAt) == Some(w'.calls[c].record)
    {
      SupersedeKeepsVersion(w, code, repo, w.calls[c].code, w.calls[c].readAt);
    }
  }

  /** An entry stays explained when a version is superseded, if a needed invalidation is pending. */
  lemma SupersedeKeepsEntry(w: World, code: string, repo: map<string, LinkRecord>, w': World, other: string)
    requires other in w.entries && EntryExplained(w, other)
    requires other != code ==> RepoGet(repo, other) == RepoGet(w.repo, other)
    requires w' == Supersede(w, code, repo).(calls := w'.calls)
    requires w.stamps[other].readAt == w.stamps[other].setAt < Current(w', other) ==> Pending(w', other, w.stamps[other].setAt + 1)
    ensures EntryExplained(w', other)
  {
    SupersedeKeepsVersion(w, code, repo, other, w.stamps[other].readAt);
  }

  lemma PendingKept(w: World, w': World, code: string, version: nat)
    requires Pending(w, code, version)
    requires forall c :: c in w.calls ==> c in w'.calls && w'.calls[c] == w.calls[c]
    ensures Pending(w', code, version)
  {
  }

  lemma WriteKeepsAccount(w: World, c: CallId, code: string, repo: map<string, LinkRecord>)
    requires CacheAccount(w) && c !in w.calls
    requires forall other :: other != code ==> RepoGet(repo, other) == RepoGet(w.repo, other)
    ensures CacheAccount(Write(w, c, code, repo))
  {
    var w' := Write(w, c, code, repo);
    if code in w.repo {
      SupersedeKeepsFills(w, code, repo);
      assert w'.calls[c] == Invalidate(code, Some(Current(w, code) + 1));
      forall other | other in w'.entries
        ensures EntryExplained(w', other)
      {
        assert EntryExplained(w, other);
        var stamp := w.stamps[other];
        if stamp.readAt == stamp.setAt < Current(w, other) {
          PendingKept(w, w', other, stamp.setAt + 1);
        }
        SupersedeKeepsEntry(w, code, repo, w', other);
      }
    } else {
      MoreCallsKeepAccount(w, c, Invalidate(code, None));
    }
  }

  lemma MoreCallsKeepAccount(w: World, c: CallId, call: Call)
    requires CacheAccount(w) && c !in w.calls && !call.Fill?
    ensures CacheAccount(At(w, c, call))
  {
    var w' := At(w, c, call);
    forall other | other in w'.entries
      ensures EntryExplained(w', other)
    {
      assert EntryExplained(w, other);
      if w.stamps[other].readAt == w.stamps[other].setAt < Current(w, other) {
        PendingKept(w, w', other, w.stamps[other].setAt + 1);
      }
    }
  }

  /** An entry that was current when a record is created is impossible, so no invalidation is missed. */
  lemma InsertKeepsAccount(w: World, request: CreateLinkRequest, id: string, now: int)
    requires CacheAccount(w)
    ensures CacheAccount(Next(w, RepoInsert(request, id, now)))
  {
    var code := request.shortCode;
    var repo := RepoCreate(w.repo, request, id, now);
    var w' := Next(w, RepoInsert(request, id, now));
    if w' != w {
      SupersedeKeepsFills(w, code, repo);
      forall other | other in w'.entries
        ensures EntryExplained(w', other)
      {
        assert EntryExplained(w, other);
        SupersedeKeepsEntry(w, code, repo, w', other);
      }
    }
  }

  /** A step of call `c` that leaves the repository alone and at most removes cache entries. */
  lemma ShrinkKeepsAccount(w: World, w': World, c: CallId)
    requires CacheAccount(w)
    requires w'.repo == w.repo && w'.past == w.past && w'.stamps == w.stamps
    requires forall code :: code in w'.entries ==> code in w.entries && w'.entries[code] == w.entries[code]
    requires forall d :: d != c && d in w'.calls ==> d in w.calls && w'.calls[d] == w.calls[d]
    requires forall d :: d != c && d in w.calls ==> d in w'.calls
    requires c in w.calls && w.calls[c].Invalidate? ==> w.calls[c].code !in w'.entries
    requires c in w'.calls && w'.calls[c].Fill? ==>
               var Fill(code, record, readAt) := w'.calls[c];
               readAt == Current(w, code) && RepoGet(w.repo, code) == Some(record)
    ensures CacheAccount(w')
  {
    forall code | code in w'.entries
      ensures EntryExplained(w', code)
    {
      assert EntryExplained(w, code);
      var stamp := w.stamps[code];
      if stamp.readAt == stamp.setAt < Current(w, code) {
        var d :| d in w.calls && w.calls[d] == Invalidate(code, Some(stamp.setAt + 1));
        assert w'.calls[d] == Invalidate(code, Some(stamp.setAt + 1));
      }
    }
  }

  lemma FillKeepsAccount(w: World, c: CallId, atTtl: int, atSet: int)
    requires CacheAccount(w) && c in w.calls && w.calls[c].Fill?
    ensures CacheAccount(Next(w, CacheFill(c, atTtl, atSet)))
  {
    var w' := Next(w, CacheFill(c, atTtl, atSet));
    var Fill(code, record, readAt) := w.calls[c];
    forall other | other in w'.entries
      ensures EntryExplained(w', other)
    {
      if other != code {
        assert EntryExplained(w, other);
        EntryUntouched(w, w', c, other);
      } else {
        assert w'.stamps[code] == Stamp(readAt, Current(w, code));
        assert w'.entries[code].value == FillValue(record);
      }
    }
  }

  /** An entry that a fill of another code leaves alone. */
  lemma EntryUntouched(w: World, w': World, c: CallId, other: string)
    requires other in w.entries && EntryExplained(w, other)
    requires w'.repo == w.repo && w'.past == w.past && w'.calls == w.calls - {c}
    requires c in w.calls && w.calls[c].Fill?
    requires other in w'.entries && w'.entries[other] == w.entries[other]
    requires other in w'.stamps && w'.stamps[other] == w.stamps[other]
    ensures EntryExplained(w', other)
  {
    var stamp := w.stamps[other];
    if stamp.readAt == stamp.setAt < Current(w, other) {
      var d :| d in w.calls && w.calls[d] == Invalidate(other, Some(stamp.setAt + 1));
      assert w'.calls[d] == Invalidate(other, Some(stamp.setAt + 1));
    }
  }

  lemma NextKeepsAccount(w: World, step: Step)
    requires CacheAccount(w)
    ensures CacheAccount(Next(w, step))
  {
    if Enabled(w, step) {
      match step
      case RepoWrite(c, record) => WriteKeepsAccount(w, c, record.shortCode, RepoUpdate(w.repo, record));
      case RepoRemove(c, code) => WriteKeepsAccount(w, c, code, Erase(w.repo, code));
      case RepoInsert(request, id, now) => InsertKeepsAccount(w, request, id, now);
      case CacheFill(c, atTtl, atSet) => FillKeepsAccount(w, c, atTtl, atSet);
      case CacheRead(c, code, atGet, atHit) => CacheReadKeepsAccount(w, c, code, atGet, atHit);
      case CacheDrop(c) => ShrinkKeepsAccount(w, Next(w, step), c);
      case RepoRead(c, now) => RepoReadKeepsAccount(w, c, now);
      case CacheInvalidate(c) => ShrinkKeepsAccount(w, Next(w, step), c);
    }
  }

  lemma CacheReadKeepsAccount(w: World, c: CallId, code: string, atGet: int, atHit: int)
    requires CacheAccount(w) && c !in w.calls
    ensures CacheAccount(Next(w, CacheRead(c, code, atGet, atHit)))
  {
    ShrinkKeepsAccount(w, Next(w, CacheRead(c, code, atGet, atHit)), c);
  }

  lemma RepoReadKeepsAccount(w: World, c: CallId, now: int)
    requires CacheAccount(w) && c in w.calls && w.calls[c].Lookup?
    ensures CacheAccount(Next(w, RepoRead(c, now)))
  {
    ShrinkKeepsAccount(w, Next(w, RepoRead(c, now)), c);
  }

  /** A pending invalidation is of a version that has been made. */
  ghost predicate WritersCounted(w: World) {
    forall c :: c in w.calls && w.calls[c].Invalidate? && w.calls[c].wrote.Some? ==>
      w.calls[c].wrote.value <= Current(w, w.calls[c].code)
  }

  ghost predicate Inv(w: World) {
    CacheAccount(w) && WritersCounted(w)
  }

  lemma NextKeepsWriters(w: World, step: Step)
    requires WritersCounted(w)
    ensures WritersCounted(Next(w, step))
  {
  }

  lemma NextKeepsInv(w: World, step: Step)
    requires Inv(w)
    ensures Inv(Next(w, step))
  {
    NextKeepsAccount(w, step);
    NextKeepsWriters(w, step);
  }

  lemma {:induction false} EveryInterleavingKeepsInv(repo: map<string, LinkRecord>, steps: seq<Step>)
    ensures Inv(After(Initial(repo), steps))
  {
    if steps != [] {
      EveryInterleavingKeepsInv(repo, steps[..|steps| - 1]);
      NextKeepsInv(After(Initial(repo), steps[..|steps| - 1]), steps[|steps| - 1]);
    }
  }

  // ----- what follows for the cache -----

  /** The cache agrees with the repository about a code. */
  ghost predicate Agrees(w: World, code: string)
    requires code in w.entries
  {
    code in w.repo && w.entries[code].value == FillValue(w.repo[code])
  }

  /** The entry was set by a Resolve whose repository read was older than a later write. */
  ghost predicate Overtaken(w: World, code: string) {
    code in w.stamps && w.stamps[code].readAt < w.stamps[code].setAt
  }

  /** A writer has replaced or removed the record and has not yet deleted the cache entry. */
  ghost predicate WriterPending(w: World, code: string) {
    exists c :: c in w.calls && w.calls[c].Invalidate? && w.calls[c].code == code && w.calls[c].wrote.Some?
  }

  /** Every stale entry, in every interleaving of any number of calls, has one of the two causes. */
  lemma {:induction false} StaleEntriesExplained(repo: map<string, LinkRecord>, steps: seq<Step>, code: string)
    ensures var w := After(Initial(repo), steps);
            code in w.entries && !Agrees(w, code) ==> WriterPending(w, code) || Overtaken(w, code)
  {
    EveryInterleavingKeepsInv(repo, steps);
    var w := After(Initial(repo), steps);
    if code in w.entries && !Agrees(w, code) && !Overtaken(w, code) {
      assert EntryExplained(w, code);
      assert Pending(w, code, w.stamps[code].setAt + 1);
    }
  }

  /** Even a stale entry only ever holds what the repository once held for that code. */
  lemma {:induction false} EntriesHoldStoredVersions(repo: map<string, LinkRecord>, steps: seq<Step>, code: string)
    requires code in After(Initial(repo), steps).entries
    ensures var w := After(Initial(repo), steps);
            exists k :: 0 <= k <= Current(w, code) && Version(w, code, k).Some?
                        && w.entries[code].value == FillValue(Version(w, code, k).value)
  {
    EveryInterleavingKeepsInv(repo, steps);
    assert EntryExplained(After(Initial(repo), steps), code);
  }

  lemma CurrentByStamp(w: World, code: string)
    requires Inv(w) && code in w.entries
    ensures code in w.stamps
    ensures w.stamps[code].readAt == Current(w, code) <==> !Overtaken(w, code) && !Pending(w, code, w.stamps[code].setAt + 1)
  {
    assert EntryExplained(w, code);
  }

  /**
   In every interleaving, an entry holds the current version exactly when its fill was not overtaken and
   the writer that superseded the version it was set at, if any, has already invalidated.
   */
  lemma {:induction false} EntryIsCurrentExactly(repo: map<string, LinkRecord>, steps: seq<Step>, w: World, code: string)
    requires w == After(Initial(repo), steps) && code in w.entries
    ensures code in w.stamps
    ensures w.stamps[code].readAt == Current(w, code) <==> !Overtaken(w, code) && !Pending(w, code, w.stamps[code].setAt + 1)
  {
    EveryInterleavingKeepsInv(repo, steps);
    CurrentByStamp(w, code);
  }

  /**
   When no call is under way, an entry holds the current version exactly when its fill was not
   overtaken; with no overtaken fill the whole cache agrees with the repository.
   */
  lemma {:induction false} QuiescentCache(repo: map<string, LinkRecord>, steps: seq<Step>)
    requires After(Initial(repo), steps).calls == map[]
    ensures var w := After(Initial(repo), steps);
            forall code :: code in w.entries ==>
              code in w.stamps && (w.stamps[code].readAt == Current(w, code) <==> !Overtaken(w, code))
    ensures var w := After(Initial(repo), steps);
            forall code :: code in w.entries && !Overtaken(w, code) ==> Agrees(w, code)
  {
    EveryInterleavingKeepsInv(repo, steps);
    var w := After(Initial(repo), steps);
    forall code | code in w.entries
      ensures code in w.stamps && (w.stamps[code].readAt == Current(w, code) <==> !Overtaken(w, code))
      ensures !Overtaken(w, code) ==> Agrees(w, code)
    {
      CurrentByStamp(w, code);
      assert EntryExplained(w, code);
    }
  }

  /**
   Overtaken fills do happen, and outlive every call: a Resolve reads the record, an Update replaces
   it and invalidates, and only then the Resolve sets the cache.  The old target stays cached.
   */
  lemma StaleAfterOvertakenFill(code: string, before: LinkRecord, after: LinkRecord)
    requires before.shortCode == after.shortCode == code
    requires before.isActive && before.expiresAt.None? && before.targetUrl != after.targetUrl
    ensures exists steps ::
              var w := After(Initial(map[code := before]), steps);
              w.calls == map[] && code in w.entries && !Agrees(w, code) && Overtaken(w, code)
  {
    var w0 := Initial(map[code := before]);
    var steps := StaleSteps(code, after);
    StaleRead(code, before, after);
    StaleWrite(code, before, after);
    AfterLast(w0, steps[..4], steps[4]);
    assert steps[..4] + [steps[4]] == steps;
    assert After(w0, steps)
        == World(map[code := after], map[code := Entry(FillValue(before), None)], map[], map[code := [Some(before)]],
                 map[code := Stamp(0, 1)]);
  }

  /** Resolve misses and reads, Update writes and invalidates, Resolve fills. */
  function StaleSteps(code: string, after: LinkRecord): seq<Step> {
    [CacheRead(0, code, 0, 0), RepoRead(0, 0), RepoWrite(1, after), CacheInvalidate(1), CacheFill(0, 0, 0)]
  }

  lemma StaleRead(code: string, before: LinkRecord, after: LinkRecord)
    requires before.isActive && before.expiresAt.None?
    ensures After(Initial(map[code := before]), StaleSteps(code, after)[..2])
         == World(map[code := before], map[], map[0 := Fill(code, before, 0)], map[], map[])
  {
    var w0 := Initial(map[code := before]);
    var steps := StaleSteps(code, after);
    AfterLast(w0, [], steps[0]);
    AfterLast(w0, steps[..1], steps[1]);
    assert [] + [steps[0]] == steps[..1] && steps[..1] + [steps[1]] == steps[..2];
    assert After(w0, steps[..1]) == World(map[code := before], map[], map[0 := Lookup(code)], map[], map[]);
  }

  lemma StaleWrite(code: string, before: LinkRecord, after: LinkRecord)
    requires after.shortCode == code && before.isActive && before.expiresAt.None?
    ensures After(Initial(map[code := before]), StaleSteps(code, after)[..4])
         == World(map[code := after], map[], map[0 := Fill(code, before, 0)], map[code := [Some(before)]], map[])
  {
    var w0 := Initial(map[code := before]);
    var steps := StaleSteps(code, after);
    StaleRead(code, before, after);
    AfterLast(w0, steps[..2], steps[2]);
    AfterLast(w0, steps[..3], steps[3]);
    assert steps[..2] + [steps[2]] == steps[..3] && steps[..3] + [steps[3]] == steps[..4];
    var w3 := After(w0, steps[..3]);
    assert w3.repo == map[code := after];
    assert w3.past == map[code := [Some(before)]] by { assert [] + [Some(before)] == [Some(before)]; }
    assert w3.calls == map[0 := Fill(code, before, 0), 1 := Invalidate(code, Some(1))];
  }

  lemma {:induction false} AfterLast(w: World, steps: seq<Step>, step: Step)
    ensures After(w, steps + [step]) == Next(After(w, steps), step)
  {
    assert (steps + [step])[..|steps|] == steps;
  }

  // ----- what follows for the answers -----

  /** What a call of Resolve answers, settled at the cache read on a hit and at the repository read otherwise. */
  function AnswerAt(w: World, step: Step): Option<ResolveResult> {
    if !Enabled(w, step) then None else
      match step
      case CacheRead(_, code, atGet, atHit) =>
        var cached := CacheGet(w.entries, code, atGet).1;
        if IsUsable(cached, atHit) then Some(ResolveResult(Redirect, Some(cached.value.targetUrl), true)) else None
      case RepoRead(c, now) =>
        var (status, target) := Uncached(w.repo, w.calls[c].code, now);
        Some(ResolveResult(status, target, false))
      case _ => None
  }

  /** The answer that one version of a record calls for. */
  function Outcome(record: Option<LinkRecord>, now: int): (ResolveStatus, Option<string>) {
    if record.None? then (Missing, None)
    else if !record.value.isActive then (Inactive, None)
    else if Due(record.value.expiresAt, now) then (Expired, None)
    else (Redirect, Some(record.value.targetUrl))
  }

  /** Version `k` calls for the answer `a`. */
  ghost predicate AnswersFrom(w: World, code: string, k: nat, now: int, a: ResolveResult) {
    k <= Current(w, code) && (a.status, a.target) == Outcome(Version(w, code, k), now)
  }

  /**
   Every hit, in every interleaving, answers from the version its entry was filled from.  That version is
   the current one exactly when the fill was not overtaken and no writer of the next version is still
   inside its call.
   */
  lemma {:induction false} HitsServeStoredVersions(repo: map<string, LinkRecord>, steps: seq<Step>, w: World, c: CallId, code: string, atGet: int, atHit: int)
    requires w == After(Initial(repo), steps) && AnswerAt(w, CacheRead(c, code, atGet, atHit)).Some?
    ensures code in w.stamps
    ensures var k := w.stamps[code].readAt;
            && AnswersFrom(w, code, k, atHit, AnswerAt(w, CacheRead(c, code, atGet, atHit)).value)
            && (k == Current(w, code) <==> !Overtaken(w, code) && !Pending(w, code, k + 1))
  {
    EveryInterleavingKeepsInv(repo, steps);
    HitByStamp(w, c, code, atGet, atHit);
    CurrentByStamp(w, code);
  }

  lemma HitByStamp(w: World, c: CallId, code: string, atGet: int, atHit: int)
    requires Inv(w) && AnswerAt(w, CacheRead(c, code, atGet, atHit)).Some?
    ensures code in w.entries && code in w.stamps && w.stamps[code].readAt <= w.stamps[code].setAt
    ensures AnswersFrom(w, code, w.stamps[code].readAt, atHit, AnswerAt(w, CacheRead(c, code, atGet, atHit)).value)
  {
    assert EntryExplained(w, code);
  }

  /** Every other answer is from the version current at the repository read. */
  lemma MissesServeCurrentVersion(w: World, c: CallId, now: int)
    requires AnswerAt(w, RepoRead(c, now)).Some?
    ensures var code := w.calls[c].code;
            AnswersFrom(w, code, Current(w, code), now, AnswerAt(w, RepoRead(c, now)).value)
  {
  }

  /** With nothing in between, the answer is that of Resolve. */
  lemma AnswerRunsAlone(w: World, w2: World, c: CallId, code: string, clock: Readings)
    requires c !in w.calls && w2 == Next(Next(w, CacheRead(c, code, clock.atGet, clock.atHit)), CacheDrop(c))
    ensures var hit := AnswerAt(w, CacheRead(c, code, clock.atGet, clock.atHit));
            Some(ResolveStep(State(w.repo, w.entries, []), code, clock, EVERYTHING).1)
            == if hit.Some? then hit else AnswerAt(w2, RepoRead(c, clock.atLookup))
  {
    CacheReadRunsAlone(w, Next(w, CacheRead(c, code, clock.atGet, clock.atHit)), w2, c, code, clock);
  }

  /**
   The writer's call is the limit of what can be said: while it lasts, a Resolve that missed earlier sees
   that the record is gone, and a later Resolve still hits the old target.
   */
  lemma OldTargetAfterMissing(code: string, record: LinkRecord)
    requires record.isActive && record.expiresAt.None?
    ensures exists steps ::
              var w := After(Initial(map[code := record]), steps);
              && AnswerAt(w, RepoRead(0, 0)) == Some(ResolveResult(Missing, None, false))
              && !Overtaken(w, code)
              && AnswerAt(Next(w, RepoRead(0, 0)), CacheRead(3, code, 0, 0))
                 == Some(ResolveResult(Redirect, Some(record.targetUrl), true))
  {
    var w0 := Initial(map[code := record]);
    var steps := [CacheRead(0, code, 0, 0), CacheRead(1, code, 0, 0), RepoRead(1, 0), CacheFill(1, 0, 0), RepoRemove(2, code)];
    var w1 := w0.(calls := map[0 := Lookup(code)]);
    var w2 := w0.(calls := map[0 := Lookup(code), 1 := Lookup(code)]);
    var w3 := w0.(calls := map[0 := Lookup(code), 1 := Fill(code, record, 0)]);
    var w4 := w1.(entries := map[code := Entry(FillValue(record), None)], stamps := map[code := Stamp(0, 0)]);
    TwoMisses(w0, w1, w2, w3, code, record);
    FillAlone(w3, w4, code, record);
    FiveSteps(w0, steps, w1, w2, w3, w4);
    RemovedWhileCached(w4, Next(w4, steps[4]), code, record);
  }

  lemma TwoMisses(w0: World, w1: World, w2: World, w3: World, code: string, record: LinkRecord)
    requires record.isActive && record.expiresAt.None? && w0 == Initial(map[code := record])
    requires w1 == w0.(calls := map[0 := Lookup(code)])
    requires w2 == w0.(calls := map[0 := Lookup(code), 1 := Lookup(code)])
    requires w3 == w0.(calls := map[0 := Lookup(code), 1 := Fill(code, record, 0)])
    ensures Next(w0, CacheRead(0, code, 0, 0)) == w1 && Next(w1, CacheRead(1, code, 0, 0)) == w2 && Next(w2, RepoRead(1, 0)) == w3
  {
  }

  lemma FillAlone(w3: World, w4: World, code: string, record: LinkRecord)
    requires record.isActive && record.expiresAt.None?
    requires w3 == Initial(map[code := record]).(calls := map[0 := Lookup(code), 1 := Fill(code, record, 0)])
    requires w4 == w3.(calls := map[0 := Lookup(code)], entries := map[code := Entry(FillValue(record), None)],
                       stamps := map[code := Stamp(0, 0)])
    ensures Next(w3, CacheFill(1, 0, 0)) == w4
  {
    assert w3.calls - {1} == map[0 := Lookup(code)];
  }

  lemma {:induction false} FiveSteps(w0: World, steps: seq<Step>, w1: World, w2: World, w3: World, w4: World)
    requires |steps| == 5 && Next(w0, steps[0]) == w1 && Next(w1, steps[1]) == w2 && Next(w2, steps[2]) == w3 && Next(w3, steps[3]) == w4
    ensures After(w0, steps) == Next(w4, steps[4])
  {
    AfterLast(w0, [], steps[0]);
    AfterLast(w0, steps[..1], steps[1]);
    AfterLast(w0, steps[..2], steps[2]);
    AfterLast(w0, steps[..3], steps[3]);
    AfterLast(w0, steps[..4], steps[4]);
    assert [] + [steps[0]] == steps[..1] && steps[..1] + [steps[1]] == steps[..2] && steps[..2] + [steps[2]] == steps[..3];
    assert steps[..3] + [steps[3]] == steps[..4] && steps[..4] + [steps[4]] == steps;
  }

  lemma RemovedWhileCached(w4: World, w5: World, code: string, record: LinkRecord)
    requires record.isActive && record.expiresAt.None?
    requires w4.repo == map[code := record] && w4.entries == map[code := Entry(FillValue(record), None)]
    requires w4.calls == map[0 := Lookup(code)] && w4.stamps == map[code := Stamp(0, 0)]
    requires w5 == Next(w4, RepoRemove(2, code))
    ensures AnswerAt(w5, RepoRead(0, 0)) == Some(ResolveResult(Missing, None, false)) && !Overtaken(w5, code)
    ensures AnswerAt(Next(w5, RepoRead(0, 0)), CacheRead(3, code, 0, 0)) == Some(ResolveResult(Redirect, Some(record.targetUrl), true))
  {
  }
}
