/**
 The live link store and the lifecycle commands on it: two indexes and a slug cache
 (src/storage/link_repository.cpp), the read-modify-write commands (src/app/link_command_service.cpp,
 over src/app/legacy_adapters.cpp) and the redirect handler (src/http/handlers/redirect_handlers.cpp).
 The server runs them on one thread.

 Timestamps, generated ids and slugs, and clock readings are inputs of a call.  The validation rules
 are collected in `Rules`; what is proved here holds for any rules, and `ServerRules` gives the
 source's own.
 */
module LinkStore {
  import opened ClickEvents
  import opened Text
  import opened Wrappers
  import Decimal
  import Tags
  import TargetUrl

  datatype RedirectType = Temporary | Permanent

  datatype Campaign = Campaign(
    name: Option<string>, source: Option<string>, medium: Option<string>, term: Option<string>,
    content: Option<string>, id: Option<string>)

  datatype Counters = Counters(totalRedirects: nat, redirects24h: nat, redirects7d: nat, lastAccessedAt: Option<string>)

  datatype Link = Link(
    id: string, slug: string, targetUrl: string, createdAt: string, updatedAt: string,
    expiresAt: Option<string>, deletedAt: Option<string>, enabled: bool, tags: seq<string>,
    metadata: map<string, string>, campaign: Option<Campaign>, stats: Counters, redirectType: RedirectType)

  datatype LinkStatus = Active | Disabled | Expired | Deleted

  datatype Rules = Rules(
    normalizeUrl: string -> Option<string>, isValidSlug: string -> bool, isReserved: string -> bool,
    parseTime: string -> Option<int>, validateTags: seq<string> -> Option<seq<string>>,
    isValidMetadata: map<string, string> -> bool, isValidCampaign: Campaign -> bool,
    defaultRedirectType: RedirectType, analyticsEnabled: bool)

  // ----- the source's own rules -----

  predicate IsSlugTail(c: char) {
    IsAlnum(c) || c == '_' || c == '-'
  }

  predicate IsValidSlug(slug: string) {
    3 <= |slug| <= 64 && IsAlnum(slug[0]) && forall i :: 1 <= i < |slug| ==> IsSlugTail(slug[i])
  }

  predicate IsReservedSlug(slug: string) {
    Lower(slug) in {"api", "health", "metrics", "admin", "login", "logout", "r", "preview", "stats"}
  }

  predicate IsValidMetadata(metadata: map<string, string>) {
    |metadata| <= 50 && forall k :: k in metadata ==> 0 < |k| <= 64 && |metadata[k]| <= 512
  }

  predicate IsShort(field: Option<string>) {
    field.Some? ==> |field.value| <= 128
  }

  predicate IsValidCampaign(c: Campaign) {
    IsShort(c.name) && IsShort(c.source) && IsShort(c.medium) && IsShort(c.term) && IsShort(c.content) && IsShort(c.id)
  }

  function ServerRules(allowPrivate: bool, parseTime: string -> Option<int>, defaultRedirectType: RedirectType, analyticsEnabled: bool): Rules {
    Rules(url => TargetUrl.Normalize(url, TargetUrl.Blocked(allowPrivate)), IsValidSlug, IsReservedSlug, parseTime,
          Tags.Validated, IsValidMetadata, IsValidCampaign, defaultRedirectType, analyticsEnabled)
  }

  // ----- status -----

  predicate IsExpired(expiresAt: Option<string>, parseTime: string -> Option<int>, now: int) {
    expiresAt.Some? && parseTime(expiresAt.value).Some? && parseTime(expiresAt.value).value <= now
  }

  function ResolveStatus(link: Link, parseTime: string -> Option<int>, now: int): LinkStatus {
    if link.deletedAt.Some? then Deleted
    else if !link.enabled then Disabled
    else if IsExpired(link.expiresAt, parseTime, now) then Expired
    else Active
  }

  // ----- the two indexes and the cache -----

  datatype Store = Store(slugToId: map<string, string>, byId: map<string, Link>, cache: map<string, Link>, events: seq<ClickEvent>)

  function InsertLink(s: Store, link: Link): (Store, bool) {
    if link.slug in s.slugToId || link.id in s.byId then (s, false)
    else (s.(slugToId := s.slugToId[link.slug := link.id], byId := s.byId[link.id := link]), true)
  }

  function GetBySlug(s: Store, slug: string): Option<Link> {
    if slug in s.slugToId && s.slugToId[slug] in s.byId then Some(s.byId[s.slugToId[slug]]) else None
  }

  /** A read goes through the cache and fills it. */
  function ReadLink(s: Store, slug: string): (Store, Option<Link>) {
    if slug in s.cache then (s, Some(s.cache[slug])) else
      var link := GetBySlug(s, slug);
      (if link.Some? then s.(cache := s.cache[slug := link.value]) else s, link)
  }

  /** Replaces the whole record; the slug index is not touched. */
  function WriteBack(s: Store, link: Link): (Store, bool) {
    if link.id !in s.byId then (s, false)
    else (s.(byId := s.byId[link.id := link], cache := s.cache - {link.slug}), true)
  }

  // ----- commands -----

  type TenSlugs = s: seq<string> | |s| == 10 witness seq(10, _ => "")

  datatype CreateCommand = CreateCommand(
    targetUrl: string, slug: Option<string>, redirectType: Option<RedirectType>, expiresAt: Option<string>,
    enabled: Option<bool>, tags: seq<string>, metadata: map<string, string>, campaign: Option<Campaign>)

  /** What the service draws while creating: ten candidate slugs, an id, the time and the default expiry. */
  datatype Draws = Draws(slugs: TenSlugs, id: string, now: string, defaultExpiresAt: Option<string>)

  datatype PatchCommand = PatchCommand(
    enabled: Option<bool>, expiresAt: Option<Option<string>>, tags: Option<seq<string>>,
    metadata: Option<map<string, string>>, campaign: Option<Option<Campaign>>)

  datatype AppError = InvalidUrl | InvalidSlug | ReservedSlug | SlugConflict | InvalidField | Internal | NotFound | StorageFailure

  datatype Reply = Accepted(link: Link) | Failed(error: AppError) | Redirected(status: int, target: string) | Refused(status: int)

  function FirstFree(slugs: seq<string>, s: Store, rules: Rules): Option<string> {
    if slugs == [] then None
    else if slugs[0] !in s.slugToId && !rules.isReserved(slugs[0]) then Some(slugs[0])
    else FirstFree(slugs[1..], s, rules)
  }

  datatype SlugChoice = Chosen(slug: string) | NoSlug(error: AppError)

  function SlugFor(c: CreateCommand, slugs: seq<string>, s: Store, rules: Rules): SlugChoice {
    match c.slug
    case Some(slug) =>
      if !rules.isValidSlug(slug) then NoSlug(InvalidSlug)
      else if rules.isReserved(slug) then NoSlug(ReservedSlug)
      else if slug in s.slugToId then NoSlug(SlugConflict)
      else Chosen(slug)
    case None =>
      var free := FirstFree(slugs, s, rules);
      if free.Some? then Chosen(free.value) else NoSlug(Internal)
  }

  function ExpiryOf(c: CreateCommand, d: Draws): Option<string> {
    if c.expiresAt.Some? then c.expiresAt else d.defaultExpiresAt
  }

  function EnabledOf(c: CreateCommand): bool {
    if c.enabled.Some? then c.enabled.value else true
  }

  function NewLink(c: CreateCommand, d: Draws, slug: string, url: string, tags: seq<string>, rules: Rules): Link {
    Link(d.id, slug, url, d.now, d.now, ExpiryOf(c, d), None, EnabledOf(c), tags, c.metadata, c.campaign,
         Counters(0, 0, 0, None), if c.redirectType.Some? then c.redirectType.value else rules.defaultRedirectType)
  }

  predicate FieldsAreValid(c: CreateCommand, rules: Rules) {
    && (c.expiresAt.Some? ==> rules.parseTime(c.expiresAt.value).Some?)
    && rules.validateTags(c.tags).Some? && rules.isValidMetadata(c.metadata)
    && (c.campaign.Some? ==> rules.isValidCampaign(c.campaign.value))
  }

  function DoCreate(s: Store, c: CreateCommand, d: Draws, rules: Rules): (Store, Reply) {
    var url := rules.normalizeUrl(c.targetUrl);
    if url.None? then (s, Failed(InvalidUrl)) else
      match SlugFor(c, d.slugs, s, rules)
      case NoSlug(error) => (s, Failed(error))
      case Chosen(slug) =>
        if !FieldsAreValid(c, rules) then (s, Failed(InvalidField)) else
          var link := NewLink(c, d, slug, url.value, rules.validateTags(c.tags).value, rules);
          var (s1, ok) := InsertLink(s, link);
          if ok then (s1.(cache := s1.cache - {slug}), Accepted(link)) else (s1, Failed(SlugConflict))
  }

  /** The patched record, or `None` when a field is refused; the record is then not written at all. */
  function Patched(link: Link, p: PatchCommand, now: string, rules: Rules): Option<Link> {
    if p.expiresAt.Some? && p.expiresAt.value.Some? && rules.parseTime(p.expiresAt.value.value).None? then None
    else if p.tags.Some? && rules.validateTags(p.tags.value).None? then None
    else if p.metadata.Some? && !rules.isValidMetadata(p.metadata.value) then None
    else if p.campaign.Some? && p.campaign.value.Some? && !rules.isValidCampaign(p.campaign.value.value) then None
    else Some(link.(
      enabled := if p.enabled.Some? then p.enabled.value else link.enabled,
      expiresAt := if p.expiresAt.Some? then p.expiresAt.value else link.expiresAt,
      tags := if p.tags.Some? then rules.validateTags(p.tags.value).value else link.tags,
      metadata := if p.metadata.Some? then p.metadata.value else link.metadata,
      campaign := if p.campaign.Some? then p.campaign.value else link.campaign,
      updatedAt := now))
  }

  /** Writes an edited copy of a record back. */
  function Save(s: Store, link: Option<Link>): (Store, Reply) {
    if link.None? then (s, Failed(InvalidField)) else
      var (s1, ok) := WriteBack(s, link.value);
      (s1, if ok then Accepted(link.value) else Failed(StorageFailure))
  }

  function DoPatch(s: Store, slug: string, p: PatchCommand, now: string, rules: Rules): (Store, Reply) {
    var (s1, link) := ReadLink(s, slug);
    if link.None? then (s1, Failed(NotFound)) else Save(s1, Patched(link.value, p, now, rules))
  }

  function DoSetEnabled(s: Store, slug: string, enabled: bool, now: string): (Store, Reply) {
    var (s1, link) := ReadLink(s, slug);
    if link.None? then (s1, Failed(NotFound)) else Save(s1, Some(link.value.(enabled := enabled, updatedAt := now)))
  }

  function DoDelete(s: Store, slug: string, now: string): (Store, Reply) {
    var (s1, link) := ReadLink(s, slug);
    if link.None? then (s1, Failed(NotFound)) else Save(s1, Some(link.value.(deletedAt := Some(now), updatedAt := now)))
  }

  function DoRestore(s: Store, slug: string, now: string): (Store, Reply) {
    var (s1, link) := ReadLink(s, slug);
    if link.None? then (s1, Failed(NotFound)) else Save(s1, Some(link.value.(deletedAt := None, updatedAt := now)))
  }

  function DoGet(s: Store, slug: string): (Store, Reply) {
    var (s1, link) := ReadLink(s, slug);
    (s1, if link.None? then Failed(NotFound) else Accepted(link.value))
  }

  // ----- redirects -----

  /** What one redirect request brings along; `atCheck` and `atError` are its two clock readings of the status. */
  datatype Visit = Visit(
    eventId: string, atCheck: int, atError: int, occurredAt: int, timestamp: string, domain: string,
    referrer: string, userAgent: string, clientIdHash: string)

  function RedirectCode(link: Link): int {
    if link.redirectType == Permanent then 301 else 302
  }

  /** 64-bit counters wrap around. */
  function Increment(n: nat): nat {
    (n + 1) % Decimal.TWO_TO_64
  }

  function Visited(link: Link, timestamp: string): Link {
    link.(stats := Counters(Increment(link.stats.totalRedirects), Increment(link.stats.redirects24h), Increment(link.stats.redirects7d), Some(timestamp)))
  }

  function EmitEvent(s: Store, slug: string, link: Option<Link>, code: int, v: Visit, rules: Rules): Store {
    if !rules.analyticsEnabled then s
    else s.(events := s.events + [ClickEvent(v.eventId, v.occurredAt, slug, if link.Some? then link.value.id else "", v.domain, code,
                                             v.referrer, v.userAgent, v.clientIdHash)])
  }

  function ErrorCode(link: Option<Link>, rules: Rules, now: int): int {
    if link.None? then 404 else
      match ResolveStatus(link.value, rules.parseTime, now)
      case Deleted => 404
      case Disabled => 410
      case Expired => 410
      case Active => 404
  }

  function DoRedirect(s: Store, slug: string, v: Visit, rules: Rules): (Store, Reply) {
    if !rules.isValidSlug(slug) then (EmitEvent(s, slug, None, 404, v, rules), Refused(404)) else
      var (s1, link) := ReadLink(s, slug);
      if link.None? || ResolveStatus(link.value, rules.parseTime, v.atCheck) != Active then
        var code := ErrorCode(link, rules, v.atError);
        (EmitEvent(s1, slug, link, code, v, rules), Refused(code))
      else
        var s2 := WriteBack(s1, Visited(link.value, v.timestamp)).0;
        var code := RedirectCode(link.value);
        (EmitEvent(s2, slug, link, code, v, rules), Redirected(code, link.value.targetUrl))
  }

  // ----- the same as the source writes it: methods that update the maps -----

  class LiveStore {
    const rules: Rules
    var slugToId: map<string, string>
    var byId: map<string, Link>
    var cache: map<string, Link>
    var events: seq<ClickEvent>

    constructor (rules: Rules)
      ensures Abstract() == Store(map[], map[], map[], [])
    {
      this.rules, slugToId, byId, cache, events := rules, map[], map[], map[], [];
    }

    ghost function Abstract(): Store
      reads this
    {
      Store(slugToId, byId, cache, events)
    }

    method Insert(link: Link) returns (ok: bool)
      modifies this
      ensures (Abstract(), ok) == InsertLink(old(Abstract()), link)
    {
      if link.slug in slugToId || link.id in byId {
        return false;
      }
      slugToId := slugToId[link.slug := link.id];
      byId := byId[link.id := link];
      return true;
    }

    method FindBySlug(slug: string) returns (link: Option<Link>)
      modifies this`cache
      ensures (Abstract(), link) == ReadLink(old(Abstract()), slug)
    {
      if slug in cache {
        return Some(cache[slug]);
      }
      if slug in slugToId {
        if slugToId[slug] in byId {
          var found := byId[slugToId[slug]];
          cache := cache[slug := found];
          return Some(found);
        }
      }
      return None;
    }

    method Update(link: Link) returns (ok: bool)
      modifies this
      ensures (Abstract(), ok) == WriteBack(old(Abstract()), link)
    {
      if link.id !in byId {
        return false;
      }
      byId := byId[link.id := link];
      cache := cache - {link.slug};
      return true;
    }

    method ChooseSlug(c: CreateCommand, slugs: TenSlugs) returns (choice: SlugChoice)
      ensures choice == SlugFor(c, slugs, Abstract(), rules)
    {
      if c.slug.Some? {
        var slug := c.slug.value;
        if !rules.isValidSlug(slug) {
          return NoSlug(InvalidSlug);
        }
        if rules.isReserved(slug) {
          return NoSlug(ReservedSlug);
        }
        if slug in slugToId {
          return NoSlug(SlugConflict);
        }
        return Chosen(slug);
      }
      for attempt := 0 to 10
        invariant FirstFree(slugs, Abstract(), rules) == FirstFree(slugs[attempt..], Abstract(), rules)
      {
        assert slugs[attempt..][1..] == slugs[attempt + 1..];
        if slugs[attempt] !in slugToId && !rules.isReserved(slugs[attempt]) {
          return Chosen(slugs[attempt]);
        }
      }
      return NoSlug(Internal);
    }

    method CreateLink(c: CreateCommand, d: Draws) returns (reply: Reply)
      modifies this
      ensures (Abstract(), reply) == DoCreate(old(Abstract()), c, d, rules)
    {
      var url := rules.normalizeUrl(c.targetUrl);
      if url.None? {
        return Failed(InvalidUrl);
      }
      var choice := ChooseSlug(c, d.slugs);
      if choice.NoSlug? {
        return Failed(choice.error);
      }
      if c.expiresAt.Some? && rules.parseTime(c.expiresAt.value).None? {
        return Failed(InvalidField);
      }
      var tags := rules.validateTags(c.tags);
      if tags.None? || !rules.isValidMetadata(c.metadata) {
        return Failed(InvalidField);
      }
      if c.campaign.Some? && !rules.isValidCampaign(c.campaign.value) {
        return Failed(InvalidField);
      }
      var link := NewLink(c, d, choice.slug, url.value, tags.value, rules);
      var ok := Insert(link);
      if !ok {
        return Failed(SlugConflict);
      }
      cache := cache - {link.slug};
      return Accepted(link);
    }

    method UpdateLink(slug: string, p: PatchCommand, now: string) returns (reply: Reply)
      modifies this
      ensures (Abstract(), reply) == DoPatch(old(Abstract()), slug, p, now, rules)
    {
      var found := FindBySlug(slug);
      if found.None? {
        return Failed(NotFound);
      }
      var link := found.value;
      if p.enabled.Some? {
        link := link.(enabled := p.enabled.value);
      }
      if p.expiresAt.Some? {
        var value := p.expiresAt.value;
        if value.Some? && rules.parseTime(value.value).None? {
          return Failed(InvalidField);
        }
        link := link.(expiresAt := value);
      }
      if p.tags.Some? {
        var normalized := rules.validateTags(p.tags.value);
        if normalized.None? {
          return Failed(InvalidField);
        }
        link := link.(tags := normalized.value);
      }
      if p.metadata.Some? {
        if !rules.isValidMetadata(p.metadata.value) {
          return Failed(InvalidField);
        }
        link := link.(metadata := p.metadata.value);
      }
      if p.campaign.Some? {
        var value := p.campaign.value;
        if value.Some? && !rules.isValidCampaign(value.value) {
          return Failed(InvalidField);
        }
        link := link.(campaign := value);
      }
      link := link.(updatedAt := now);
      var ok := Update(link);
      return if ok then Accepted(link) else Failed(StorageFailure);
    }

    method DeleteLink(slug: string, now: string) returns (reply: Reply)
      modifies this
      ensures (Abstract(), reply) == DoDelete(old(Abstract()), slug, now)
    {
      var found := FindBySlug(slug);
      if found.None? {
        return Failed(NotFound);
      }
      var link := found.value.(deletedAt := Some(now), updatedAt := now);
      var ok := Update(link);
      return if ok then Accepted(link) else Failed(StorageFailure);
    }

    method SetLinkEnabled(slug: string, enabled: bool, now: string) returns (reply: Reply)
      modifies this
      ensures (Abstract(), reply) == DoSetEnabled(old(Abstract()), slug, enabled, now)
    {
      var found := FindBySlug(slug);
      if found.None? {
        return Failed(NotFound);
      }
      var link := found.value.(enabled := enabled, updatedAt := now);
      var ok := Update(link);
      return if ok then Accepted(link) else Failed(StorageFailure);
    }

    method RestoreLink(slug: string, now: string) returns (reply: Reply)
      modifies this
      ensures (Abstract(), reply) == DoRestore(old(Abstract()), slug, now)
    {
      var found := FindBySlug(slug);
      if found.None? {
        return Failed(NotFound);
      }
      var link := found.value.(deletedAt := None, updatedAt := now);
      var ok := Update(link);
      return if ok then Accepted(link) else Failed(StorageFailure);
    }

    method Emit(slug: string, link: Option<Link>, code: int, v: Visit)
      modifies this`events
      ensures Abstract() == EmitEvent(old(Abstract()), slug, link, code, v, rules)
    {
      if !rules.analyticsEnabled {
        return;
      }
      var linkId := if link.Some? then link.value.id else "";
      events := events + [ClickEvent(v.eventId, v.occurredAt, slug, linkId, v.domain, code, v.referrer, v.userAgent, v.clientIdHash)];
    }

    /** The refusal of a missing, deleted, disabled or expired link; the status is looked at anew. */
    method LinkStateError(slug: string, link: Option<Link>, v: Visit) returns (reply: Reply)
      modifies this`events
      ensures Abstract() == EmitEvent(old(Abstract()), slug, link, ErrorCode(link, rules, v.atError), v, rules)
      ensures reply == Refused(ErrorCode(link, rules, v.atError))
    {
      if link.Some? {
        var status := ResolveStatus(link.value, rules.parseTime, v.atError);
        if status == Deleted {
          Emit(slug, link, 404, v);
          return Refused(404);
        }
        if status == Disabled {
          Emit(slug, link, 410, v);
          return Refused(410);
        }
        if status == Expired {
          Emit(slug, link, 410, v);
          return Refused(410);
        }
      }
      Emit(slug, link, 404, v);
      return Refused(404);
    }

    method HandleRedirect(slug: string, v: Visit) returns (reply: Reply)
      modifies this
      ensures (Abstract(), reply) == DoRedirect(old(Abstract()), slug, v, rules)
    {
      if !rules.isValidSlug(slug) {
        Emit(slug, None, 404, v);
        return Refused(404);
      }
      var link := FindBySlug(slug);
      if link.None? || ResolveStatus(link.value, rules.parseTime, v.atCheck) != Active {
        reply := LinkStateError(slug, link, v);
        return;
      }
      var stats := link.value.stats;
      var total, day, week := Increment(stats.totalRedirects), Increment(stats.redirects24h), Increment(stats.redirects7d);
      var updated := link.value.(stats := Counters(total, day, week, Some(v.timestamp)));
      var _ := Update(updated);
      var code := RedirectCode(link.value);
      Emit(slug, link, code, v);
      return Redirected(code, link.value.targetUrl);
    }
  }
}
