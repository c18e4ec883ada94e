/**
 Runs of the live link store: what every sequence of create, patch, enable, disable, delete, restore,
 read and redirect keeps and computes.
 */
module LinkRuns {
  import opened ClickAggregates
  import opened ClickEvents
  import opened LinkStore
  import opened Text
  import opened Wrappers
  import Decimal
  import Tags
  import TargetUrl

  datatype Command =
    | Create(create: CreateCommand, draws: Draws)
    | Patch(slug: string, patch: PatchCommand, now: string)
    | SetEnabled(slug: string, enabled: bool, now: string)
    | Delete(slug: string, now: string)
    | Restore(slug: string, now: string)
    | Get(slug: string)
    | Redirect(slug: string, visit: Visit)

  function Step(s: Store, cmd: Command, rules: Rules): (Store, Reply) {
    match cmd
    case Create(c, d) => DoCreate(s, c, d, rules)
    case Patch(slug, p, now) => DoPatch(s, slug, p, now, rules)
    case SetEnabled(slug, enabled, now) => DoSetEnabled(s, slug, enabled, now)
    case Delete(slug, now) => DoDelete(s, slug, now)
    case Restore(slug, now) => DoRestore(s, slug, now)
    case Get(slug) => DoGet(s, slug)
    case Redirect(slug, visit) => DoRedirect(s, slug, visit, rules)
  }

  /** The store after the commands, and the replies given. */
  function Run(cmds: seq<Command>, rules: Rules): (r: (Store, seq<Reply>))
    ensures |r.1| == |cmds|
  {
    if cmds == [] then (Store(map[], map[], map[], []), []) else
      var n := |cmds| - 1;
      var (s, log) := Run(cmds[..n], rules);
      var (s', reply) := Step(s, cmds[n], rules);
      (s', log + [reply])
  }

  // ----- the indexes and the cache -----

  /** The two indexes are inverse to each other, and every cached link equals the stored one. */
  ghost predicate Consistent(s: Store) {
    && (forall slug :: slug in s.slugToId ==> s.slugToId[slug] in s.byId && s.byId[s.slugToId[slug]].slug == slug)
    && (forall id :: id in s.byId ==> s.byId[id].id == id && s.byId[id].slug in s.slugToId && s.slugToId[s.byId[id].slug] == id)
    && (forall slug :: slug in s.cache ==> slug in s.slugToId && s.cache[slug] == s.byId[s.slugToId[slug]])
  }

  lemma ReadFacts(s: Store, slug: string)
    requires Consistent(s)
    ensures var (s1, link) := ReadLink(s, slug);
            && Consistent(s1) && link == GetBySlug(s, slug) && (link.Some? ==> slug in s1.cache)
            && s1.slugToId == s.slugToId && s1.byId == s.byId && s1.events == s.events
            && (link.Some? ==> link.value.slug == slug && slug in s.slugToId && s.slugToId[slug] == link.value.id)
  {
  }

  /** A record written back under its own id and slug replaces that record and nothing else. */
  lemma WriteFacts(s: Store, link: Link)
    requires Consistent(s) && link.slug in s.slugToId && s.slugToId[link.slug] == link.id
    ensures var (s1, ok) := WriteBack(s, link);
            && ok && Consistent(s1) && s1.slugToId == s.slugToId && s1.events == s.events
            && forall slug :: GetBySlug(s1, slug) == if slug == link.slug then Some(link) else GetBySlug(s, slug)
  {
  }

  /** The state after inserting a link with a new slug and a new id. */
  lemma InsertFacts(s: Store, link: Link, s': Store)
    requires Consistent(s) && link.slug !in s.slugToId && link.id !in s.byId
    requires s' == Store(s.slugToId[link.slug := link.id], s.byId[link.id := link], s.cache - {link.slug}, s.events)
    ensures Consistent(s') && GetBySlug(s, link.slug).None?
    ensures forall slug :: GetBySlug(s', slug) == if slug == link.slug then Some(link) else GetBySlug(s, slug)
  {
    forall slug | slug in s'.slugToId
      ensures s'.slugToId[slug] in s'.byId && s'.byId[s'.slugToId[slug]].slug == slug
    {
      assert slug != link.slug ==> s.slugToId[slug] != link.id;
    }
  }

  lemma SaveFacts(s: Store, slug: string, edited: Option<Link>)
    requires Consistent(s) && GetBySlug(s, slug).Some?
    requires edited.Some? ==> edited.value.slug == slug && edited.value.id == GetBySlug(s, slug).value.id
    ensures var (s1, link) := ReadLink(s, slug);
            var (s', reply) := Save(s1, edited);
            && Consistent(s') && s'.events == s.events
            && (reply == if edited.Some? then Accepted(edited.value) else Failed(InvalidField))
            && (forall other :: GetBySlug(s', other) == if other == slug && edited.Some? then edited else GetBySlug(s, other))
  {
    ReadFacts(s, slug);
    if edited.Some? {
      WriteFacts(ReadLink(s, slug).0, edited.value);
    }
  }

  /** A created link is enabled unless the command says otherwise. */
  function FirstEnabled(c: CreateCommand): bool {
    c.enabled != Some(false)
  }

  /** Its expiry is the one asked for, or else the default. */
  function FirstExpiry(c: CreateCommand, d: Draws): Option<string> {
    match c.expiresAt
    case Some(text) => Some(text)
    case None => d.defaultExpiresAt
  }

  /** The redirect type of a created link. */
  function TypeOf(c: CreateCommand, rules: Rules): RedirectType {
    if c.redirectType.Some? then c.redirectType.value else rules.defaultRedirectType
  }

  predicate IsFresh(link: Link, c: CreateCommand, d: Draws, rules: Rules) {
    && link.id == d.id && link.createdAt == link.updatedAt == d.now
    && Some(link.targetUrl) == rules.normalizeUrl(c.targetUrl) && link.redirectType == TypeOf(c, rules)
    && link.enabled == FirstEnabled(c) && link.expiresAt == FirstExpiry(c, d) && link.deletedAt.None?
    && Some(link.tags) == rules.validateTags(c.tags) && link.metadata == c.metadata && link.campaign == c.campaign
    && link.stats == Counters(0, 0, 0, None)
  }

  lemma CreateFacts(s: Store, c: CreateCommand, d: Draws, rules: Rules, s': Store, reply: Reply)
    requires Consistent(s) && (s', reply) == DoCreate(s, c, d, rules)
    ensures Consistent(s') && s'.events == s.events
    ensures reply.Failed? || (reply.Accepted? && GetBySlug(s, reply.link.slug).None? && IsFresh(reply.link, c, d, rules))
    ensures forall slug :: GetBySlug(s', slug) == if reply.Accepted? && slug == reply.link.slug then Some(reply.link) else GetBySlug(s, slug)
  {
    var url := rules.normalizeUrl(c.targetUrl);
    if url.Some? && FieldsAreValid(c, rules) {
      match SlugFor(c, d.slugs, s, rules)
      case NoSlug(_) =>
      case Chosen(slug) =>
        var link := NewLink(c, d, slug, url.value, rules.validateTags(c.tags).value, rules);
        if InsertLink(s, link).1 {
          InsertFacts(s, link, s');
        }
    }
  }

  // ----- which creations are accepted -----

  /** The first of the drawn slugs that has no link and is not reserved. */
  lemma {:induction false} FirstFreeExactly(slugs: seq<string>, s: Store, rules: Rules)
    requires Consistent(s)
    ensures var free := FirstFree(slugs, s, rules);
            if free.None? then forall i :: 0 <= i < |slugs| ==> GetBySlug(s, slugs[i]).Some? || rules.isReserved(slugs[i])
            else exists i :: 0 <= i < |slugs| && slugs[i] == free.value && IsFirstFree(slugs, s, rules, i)
  {
    if slugs != [] && (slugs[0] in s.slugToId || rules.isReserved(slugs[0])) {
      FirstFreeExactly(slugs[1..], s, rules);
      assert forall i :: 1 <= i < |slugs| ==> slugs[i] == slugs[1..][i - 1];
      var free := FirstFree(slugs, s, rules);
      if free.Some? {
        var i :| 0 <= i < |slugs[1..]| && slugs[1..][i] == free.value && IsFirstFree(slugs[1..], s, rules, i);
        assert IsFirstFree(slugs, s, rules, i + 1);
      }
    } else if slugs != [] {
      assert IsFirstFree(slugs, s, rules, 0);
    }
  }

  ghost predicate IsFirstFree(slugs: seq<string>, s: Store, rules: Rules, i: nat)
    requires i < |slugs|
  {
    && GetBySlug(s, slugs[i]).None? && !rules.isReserved(slugs[i])
    && forall j :: 0 <= j < i ==> GetBySlug(s, slugs[j]).Some? || rules.isReserved(slugs[j])
  }

  ghost predicate IsUsedId(s: Store, id: string) {
    exists slug :: GetBySlug(s, slug).Some? && GetBySlug(s, slug).value.id == id
  }

  /** A field that the rules refuse. */
  ghost predicate HasBadField(c: CreateCommand, rules: Rules) {
    || (c.expiresAt.Some? && rules.parseTime(c.expiresAt.value).None?)
    || rules.validateTags(c.tags).None?
    || !rules.isValidMetadata(c.metadata)
    || (c.campaign.Some? && !rules.isValidCampaign(c.campaign.value))
  }

  /** How a creation ends that has its URL and its slug: by the other fields, then by the id. */
  ghost predicate EndsAs(s: Store, c: CreateCommand, d: Draws, rules: Rules, slug: string, reply: Reply) {
    if HasBadField(c, rules) then reply == Failed(InvalidField)
    else if IsUsedId(s, d.id) then reply == Failed(SlugConflict)
    else reply.Accepted? && reply.link.slug == slug
  }

  /** The reply to a creation, from the command, what is drawn and the links there are. */
  ghost predicate IsCreateReply(s: Store, c: CreateCommand, d: Draws, rules: Rules, reply: Reply) {
    if rules.normalizeUrl(c.targetUrl).None? then reply == Failed(InvalidUrl)
    else if c.slug.Some? then
      if !rules.isValidSlug(c.slug.value) then reply == Failed(InvalidSlug)
      else if rules.isReserved(c.slug.value) then reply == Failed(ReservedSlug)
      else if GetBySlug(s, c.slug.value).Some? then reply == Failed(SlugConflict)
      else EndsAs(s, c, d, rules, c.slug.value, reply)
    else if forall i :: 0 <= i < 10 ==> GetBySlug(s, d.slugs[i]).Some? || rules.isReserved(d.slugs[i]) then reply == Failed(Internal)
    else exists i :: 0 <= i < 10 && IsFirstFree(d.slugs, s, rules, i) && EndsAs(s, c, d, rules, d.slugs[i], reply)
  }

  lemma {:induction false} IdIsUsed(s: Store, id: string)
    requires Consistent(s)
    ensures id in s.byId <==> IsUsedId(s, id)
  {
    if id in s.byId {
      assert GetBySlug(s, s.byId[id].slug).Some?;
    }
  }

  lemma {:induction false} CreateEnds(s: Store, c: CreateCommand, d: Draws, rules: Rules, slug: string)
    requires Consistent(s) && rules.normalizeUrl(c.targetUrl).Some? && SlugFor(c, d.slugs, s, rules) == Chosen(slug) && GetBySlug(s, slug).None?
    ensures EndsAs(s, c, d, rules, slug, DoCreate(s, c, d, rules).1)
  {
    IdIsUsed(s, d.id);
    assert FieldsAreValid(c, rules) <==> !HasBadField(c, rules);
  }

  lemma {:induction false} CreateReplyIs(s: Store, c: CreateCommand, d: Draws, rules: Rules)
    requires Consistent(s)
    ensures IsCreateReply(s, c, d, rules, DoCreate(s, c, d, rules).1)
  {
    if rules.normalizeUrl(c.targetUrl).Some? {
      var choice := SlugFor(c, d.slugs, s, rules);
      if choice.Chosen? && c.slug.Some? {
        CreateEnds(s, c, d, rules, choice.slug);
      } else if c.slug.None? {
        FirstFreeExactly(d.slugs, s, rules);
        if choice.Chosen? {
          var i :| 0 <= i < 10 && d.slugs[i] == choice.slug && IsFirstFree(d.slugs, s, rules, i);
          CreateEnds(s, c, d, rules, choice.slug);
        }
      }
    }
  }

  /**
   After any run, whether a creation is accepted, under which slug, and with which error it is refused otherwise,
   follows from the command and the links there are, in the order of the checks.
   */
  lemma {:induction false} CreateExactly(cmds: seq<Command>, c: CreateCommand, d: Draws, rules: Rules)
    ensures IsCreateReply(Run(cmds, rules).0, c, d, rules, DoCreate(Run(cmds, rules).0, c, d, rules).1)
  {
    RunIsConsistent(cmds, rules);
    CreateReplyIs(Run(cmds, rules).0, c, d, rules);
  }

  /** A patch with a field that the rules refuse. */
  ghost predicate PatchHasBadField(p: PatchCommand, rules: Rules) {
    || (p.expiresAt.Some? && p.expiresAt.value.Some? && rules.parseTime(p.expiresAt.value.value).None?)
    || (p.tags.Some? && rules.validateTags(p.tags.value).None?)
    || (p.metadata.Some? && !rules.isValidMetadata(p.metadata.value))
    || (p.campaign.Some? && p.campaign.value.Some? && !rules.isValidCampaign(p.campaign.value.value))
  }

  /** After any run a patch is refused exactly when its slug has no link or a field is bad, and then changes no link. */
  lemma {:induction false} PatchExactly(cmds: seq<Command>, slug: string, p: PatchCommand, now: string, rules: Rules)
    ensures var s := Run(cmds, rules).0;
            var (s', reply) := DoPatch(s, slug, p, now, rules);
            && (if GetBySlug(s, slug).None? then reply == Failed(NotFound)
                else if PatchHasBadField(p, rules) then reply == Failed(InvalidField)
                else reply.Accepted? && reply.link.slug == slug && GetBySlug(s', slug) == Some(reply.link))
            && (reply.Failed? ==> forall other :: GetBySlug(s', other) == GetBySlug(s, other))
  {
    var s := Run(cmds, rules).0;
    RunIsConsistent(cmds, rules);
    var (s', reply) := DoPatch(s, slug, p, now, rules);
    EditFacts(s, Patch(slug, p, now), rules, s', reply);
    if GetBySlug(s, slug).Some? {
      PatchedExactly(GetBySlug(s, slug).value, p, now, rules);
    }
  }

  lemma {:induction false} PatchedExactly(link: Link, p: PatchCommand, now: string, rules: Rules)
    ensures Patched(link, p, now, rules).None? <==> PatchHasBadField(p, rules)
  {
  }

  /** The record an accepted edit writes. */
  function Edited(cmd: Command, link: Link, rules: Rules): Option<Link> {
    match cmd
    case Patch(_, p, now) => Patched(link, p, now, rules)
    case SetEnabled(_, enabled, now) => Some(link.(enabled := enabled, updatedAt := now))
    case Delete(_, now) => Some(link.(deletedAt := Some(now), updatedAt := now))
    case Restore(_, now) => Some(link.(deletedAt := None, updatedAt := now))
    case _ => None
  }

  predicate IsEdit(cmd: Command) {
    cmd.Patch? || cmd.SetEnabled? || cmd.Delete? || cmd.Restore?
  }

  lemma EditIsSave(s: Store, cmd: Command, rules: Rules)
    requires IsEdit(cmd)
    ensures var (s1, link) := ReadLink(s, cmd.slug);
            Step(s, cmd, rules) == if link.None? then (s1, Failed(NotFound)) else Save(s1, Edited(cmd, link.value, rules))
  {
  }

  lemma EditedKeepsKey(cmd: Command, link: Link, rules: Rules)
    ensures var edited := Edited(cmd, link, rules);
            edited.Some? ==> edited.value.slug == link.slug && edited.value.id == link.id && edited.value.stats == link.stats
  {
  }

  lemma EditFacts(s: Store, cmd: Command, rules: Rules, s': Store, reply: Reply)
    requires Consistent(s) && IsEdit(cmd) && (s', reply) == Step(s, cmd, rules)
    ensures Consistent(s') && s'.events == s.events
    ensures var link := GetBySlug(s, cmd.slug);
            var edited := if link.None? then None else Edited(cmd, link.value, rules);
            && (reply == if link.None? then Failed(NotFound) else if edited.None? then Failed(InvalidField) else Accepted(edited.value))
            && (edited.Some? ==> edited.value.slug == cmd.slug)
            && (forall slug :: GetBySlug(s', slug) == if slug == cmd.slug && edited.Some? then edited else GetBySlug(s, slug))
  {
    EditIsSave(s, cmd, rules);
    ReadFacts(s, cmd.slug);
    var link := GetBySlug(s, cmd.slug);
    if link.Some? {
      EditedKeepsKey(cmd, link.value, rules);
      SaveFacts(s, cmd.slug, Edited(cmd, link.value, rules));
    }
  }

  lemma GetFacts(s: Store, slug: string)
    requires Consistent(s)
    ensures var (s', reply) := DoGet(s, slug);
            && Consistent(s') && s'.events == s.events
            && (reply == if GetBySlug(s, slug).None? then Failed(NotFound) else Accepted(GetBySlug(s, slug).value))
            && (reply.Accepted? ==> reply.link.slug == slug)
            && (forall other :: GetBySlug(s', other) == GetBySlug(s, other))
  {
    ReadFacts(s, slug);
  }

  /** The event of a request, field by field: from the visit, the slug, the id of its link and the reply's code. */
  ghost predicate IsEventOf(e: ClickEvent, v: Visit, slug: string, linkId: string, code: int) {
    && e.eventId == v.eventId && e.occurredAt == v.occurredAt && e.slug == slug && e.linkId == linkId && e.statusCode == code
    && e.domain == v.domain && e.referrer == v.referrer && e.userAgent == v.userAgent && e.clientIdHash == v.clientIdHash
  }

  /** The id of the link of a slug; a malformed slug is not looked up. */
  function LinkIdFor(s: Store, slug: string, rules: Rules): string {
    var link := GetBySlug(s, slug);
    if rules.isValidSlug(slug) && link.Some? then link.value.id else ""
  }

  /** One event for the request when analytics is on, and none when it is off. */
  ghost predicate Emitted(s: Store, s': Store, slug: string, linkId: string, code: int, v: Visit, rules: Rules) {
    if rules.analyticsEnabled
    then |s'.events| == |s.events| + 1 && s.events <= s'.events && IsEventOf(s'.events[|s.events|], v, slug, linkId, code)
    else s'.events == s.events
  }

  lemma EmitFacts(s: Store, slug: string, link: Option<Link>, code: int, v: Visit, rules: Rules, s': Store)
    requires Consistent(s) && s' == EmitEvent(s, slug, link, code, v, rules)
    ensures Consistent(s') && Emitted(s, s', slug, if link.Some? then link.value.id else "", code, v, rules)
    ensures forall other :: GetBySlug(s', other) == GetBySlug(s, other)
  {
  }

  /** What a redirect does to the links, the events and the visitor. */
  ghost predicate RedirectEffect(s: Store, s': Store, slug: string, v: Visit, rules: Rules, reply: Reply) {
    && Consistent(s')
    && (if reply.Redirected? then (reply.status == 301 || reply.status == 302) && GetBySlug(s, slug).Some?
        else reply.Refused? && (reply.status == 404 || reply.status == 410))
    && Emitted(s, s', slug, LinkIdFor(s, slug, rules), reply.status, v, rules)
    && forall other :: GetBySlug(s', other) ==
         if other == slug && reply.Redirected? then Some(Visited(GetBySlug(s, slug).value, v.timestamp)) else GetBySlug(s, other)
  }

  lemma RefuseFacts(s: Store, s1: Store, slug: string, link: Option<Link>, code: int, v: Visit, rules: Rules, s': Store)
    requires Consistent(s1) && s1.events == s.events && s1.slugToId == s.slugToId && s1.byId == s.byId
    requires (code == 404 || code == 410) && s' == EmitEvent(s1, slug, link, code, v, rules)
    requires link == if rules.isValidSlug(slug) then GetBySlug(s, slug) else None
    ensures RedirectEffect(s, s', slug, v, rules, Refused(code))
  {
    EmitFacts(s1, slug, link, code, v, rules, s');
  }

  /** The redirect handler turns a request away, or serves it and counts it. */
  lemma RedirectFacts(s: Store, slug: string, v: Visit, rules: Rules, s': Store, reply: Reply)
    requires Consistent(s) && (s', reply) == DoRedirect(s, slug, v, rules)
    ensures RedirectEffect(s, s', slug, v, rules, reply)
  {
    ReadFacts(s, slug);
    var (s1, link) := ReadLink(s, slug);
    if !rules.isValidSlug(slug) {
      RefuseFacts(s, s, slug, None, 404, v, rules, s');
    } else if link.None? || ResolveStatus(link.value, rules.parseTime, v.atCheck) != Active {
      RefuseFacts(s, s1, slug, link, ErrorCode(link, rules, v.atError), v, rules, s');
    } else {
      ServeFacts(s1, link.value, v, rules, s');
      ServedEffect(s, s1, link.value, v, rules, s');
    }
  }

  lemma ServedEffect(s: Store, s1: Store, link: Link, v: Visit, rules: Rules, s': Store)
    requires s1.events == s.events && s1.slugToId == s.slugToId && s1.byId == s.byId && GetBySlug(s, link.slug) == Some(link)
    requires Consistent(s') && Emitted(s1, s', link.slug, link.id, RedirectCode(link), v, rules) && rules.isValidSlug(link.slug)
    requires forall other :: GetBySlug(s', other) == if other == link.slug then Some(Visited(link, v.timestamp)) else GetBySlug(s1, other)
    ensures RedirectEffect(s, s', link.slug, v, rules, Redirected(RedirectCode(link), link.targetUrl))
  {
    assert forall other :: GetBySlug(s1, other) == GetBySlug(s, other);
  }

  lemma ServeFacts(s: Store, link: Link, v: Visit, rules: Rules, s': Store)
    requires Consistent(s) && GetBySlug(s, link.slug) == Some(link)
    requires s' == EmitEvent(WriteBack(s, Visited(link, v.timestamp)).0, link.slug, Some(link), RedirectCode(link), v, rules)
    ensures Consistent(s') && Emitted(s, s', link.slug, link.id, RedirectCode(link), v, rules)
    ensures forall other :: GetBySlug(s', other) == if other == link.slug then Some(Visited(link, v.timestamp)) else GetBySlug(s, other)
  {
    WriteFacts(s, Visited(link, v.timestamp));
    EmitFacts(WriteBack(s, Visited(link, v.timestamp)).0, link.slug, Some(link), RedirectCode(link), v, rules, s');
  }

  lemma StepKeepsConsistent(s: Store, cmd: Command, rules: Rules)
    requires Consistent(s)
    ensures Consistent(Step(s, cmd, rules).0)
  {
    var (s', reply) := Step(s, cmd, rules);
    match cmd
    case Create(c, d) => CreateFacts(s, c, d, rules, s', reply);
    case Get(slug) => GetFacts(s, slug);
    case Redirect(slug, v) => RedirectFacts(s, slug, v, rules, s', reply);
    case _ => EditFacts(s, cmd, rules, s', reply);
  }

  lemma {:induction false} RunLast(cmds: seq<Command>, rules: Rules)
    requires cmds != []
    ensures var n := |cmds| - 1;
            var (s, log) := Run(cmds[..n], rules);
            var (s', reply) := Step(s, cmds[n], rules);
            Run(cmds, rules) == (s', log + [reply]) && (log + [reply])[..n] == log
  {
  }

  /** In every reachable state the indexes are inverse and the cache equals the store. */
  lemma {:induction false} RunIsConsistent(cmds: seq<Command>, rules: Rules)
    ensures Consistent(Run(cmds, rules).0)
  {
    if cmds != [] {
      RunIsConsistent(cmds[..|cmds| - 1], rules);
      RunLast(cmds, rules);
      StepKeepsConsistent(Run(cmds[..|cmds| - 1], rules).0, cmds[|cmds| - 1], rules);
    }
  }

  // ----- what the history says about a slug -----

  /** What only the creation of a link writes. */
  datatype Origin = Origin(id: string, targetUrl: string, createdAt: string, redirectType: RedirectType)

  /** What a command writes to the fields of a link; `None` leaves a field alone. */
  datatype Writes = Writes(
    origin: Option<Origin>, updatedAt: Option<string>, deletedAt: Option<Option<string>>, enabled: Option<bool>,
    expiresAt: Option<Option<string>>, tags: Option<seq<string>>, metadata: Option<map<string, string>>,
    campaign: Option<Option<Campaign>>)

  const NO_WRITES := Writes(None, None, None, None, None, None, None, None)

  function OriginOf(c: CreateCommand, d: Draws, rules: Rules): Option<Origin> {
    var url := rules.normalizeUrl(c.targetUrl);
    if url.None? then None else Some(Origin(d.id, url.value, d.now, TypeOf(c, rules)))
  }

  function WritesOf(cmd: Command, reply: Reply, slug: string, rules: Rules): Writes {
    if !reply.Accepted? || reply.link.slug != slug then NO_WRITES else
      match cmd
      case Create(c, d) =>
        Writes(OriginOf(c, d, rules), Some(d.now), Some(None), Some(FirstEnabled(c)), Some(FirstExpiry(c, d)),
               rules.validateTags(c.tags), Some(c.metadata), Some(c.campaign))
      case Patch(_, p, now) =>
        Writes(None, Some(now), None, p.enabled, p.expiresAt, if p.tags.Some? then rules.validateTags(p.tags.value) else None,
               p.metadata, p.campaign)
      case SetEnabled(_, enabled, now) => NO_WRITES.(updatedAt := Some(now), enabled := Some(enabled))
      case Delete(_, now) => NO_WRITES.(updatedAt := Some(now), deletedAt := Some(Some(now)))
      case Restore(_, now) => NO_WRITES.(updatedAt := Some(now), deletedAt := Some(None))
      case _ => NO_WRITES
  }

  function Or<T>(later: Option<T>, earlier: Option<T>): Option<T> {
    if later.Some? then later else earlier
  }

  function Overlay(later: Writes, earlier: Writes): Writes {
    Writes(Or(later.origin, earlier.origin), Or(later.updatedAt, earlier.updatedAt), Or(later.deletedAt, earlier.deletedAt),
           Or(later.enabled, earlier.enabled), Or(later.expiresAt, earlier.expiresAt), Or(later.tags, earlier.tags), Or(later.metadata, earlier.metadata),
           Or(later.campaign, earlier.campaign))
  }

  /** The last write to each field of a slug, field by field. */
  function LastWrites(cmds: seq<Command>, log: seq<Reply>, slug: string, rules: Rules): Writes
    requires |cmds| == |log|
  {
    if cmds == [] then NO_WRITES else
      var n := |cmds| - 1;
      Overlay(WritesOf(cmds[n], log[n], slug, rules), LastWrites(cmds[..n], log[..n], slug, rules))
  }

  /** The redirects served for a slug. */
  function Served(cmds: seq<Command>, log: seq<Reply>, slug: string): nat
    requires |cmds| == |log|
  {
    if cmds == [] then 0 else
      var n := |cmds| - 1;
      Served(cmds[..n], log[..n], slug) + (if cmds[n].Redirect? && cmds[n].slug == slug && log[n].Redirected? then 1 else 0)
  }

  /** When a slug was last visited with success. */
  function LastVisit(cmds: seq<Command>, log: seq<Reply>, slug: string): Option<string>
    requires |cmds| == |log|
  {
    if cmds == [] then None else
      var n := |cmds| - 1;
      if cmds[n].Redirect? && cmds[n].slug == slug && log[n].Redirected? then Some(cmds[n].visit.timestamp)
      else LastVisit(cmds[..n], log[..n], slug)
  }

  /** Every field of a link but its slug and its counters. */
  function FieldsOf(link: Link): Writes {
    Writes(Some(Origin(link.id, link.targetUrl, link.createdAt, link.redirectType)), Some(link.updatedAt), Some(link.deletedAt),
           Some(link.enabled), Some(link.expiresAt), Some(link.tags), Some(link.metadata), Some(link.campaign))
  }

  /** A stored link is what the history of its slug says, field by field; where there is none, the history is empty. */
  ghost predicate Tracks(link: Option<Link>, cmds: seq<Command>, log: seq<Reply>, slug: string, rules: Rules)
    requires |cmds| == |log|
  {
    var last, served := LastWrites(cmds, log, slug, rules), Served(cmds, log, slug);
    var wrapped := served % Decimal.TWO_TO_64;
    if link.None? then last == NO_WRITES && served == 0 && LastVisit(cmds, log, slug).None? else
      && last == FieldsOf(link.value)
      && link.value.stats == Counters(wrapped, wrapped, wrapped, LastVisit(cmds, log, slug))
  }

  lemma IncrementCounts(n: nat)
    ensures Increment(n % Decimal.TWO_TO_64) == (n + 1) % Decimal.TWO_TO_64
  {
  }

  /** How one command and its reply take the link of a slug from `before` to `after`. */
  ghost predicate Explains(cmd: Command, reply: Reply, before: Option<Link>, after: Option<Link>, rules: Rules, slug: string) {
    match cmd
    case Create(c, d) =>
      if reply.Accepted? && reply.link.slug == slug then before.None? && after == Some(reply.link) && IsFresh(reply.link, c, d, rules)
      else after == before
    case Get(_) => after == before
    case Redirect(x, v) =>
      && !reply.Accepted?
      && if x == slug && reply.Redirected? then before.Some? && after == Some(Visited(before.value, v.timestamp)) else after == before
    case _ =>
      if reply.Accepted? && reply.link.slug == slug
      then before.Some? && after == Some(reply.link) == Edited(cmd, before.value, rules) else after == before
  }

  lemma StepExplains(s: Store, cmd: Command, rules: Rules, slug: string)
    requires Consistent(s)
    ensures var (s', reply) := Step(s, cmd, rules);
            Explains(cmd, reply, GetBySlug(s, slug), GetBySlug(s', slug), rules, slug)
  {
    var (s', reply) := Step(s, cmd, rules);
    if cmd.Create? {
      CreateFacts(s, cmd.create, cmd.draws, rules, s', reply);
    } else if cmd.Get? {
      GetFacts(s, cmd.slug);
    } else if cmd.Redirect? {
      RedirectExplains(s, cmd, rules, slug, s', reply);
    } else {
      EditExplains(s, cmd, rules, slug, s', reply);
    }
  }

  lemma RedirectExplains(s: Store, cmd: Command, rules: Rules, slug: string, s': Store, reply: Reply)
    requires Consistent(s) && cmd.Redirect? && (s', reply) == DoRedirect(s, cmd.slug, cmd.visit, rules)
    ensures Explains(cmd, reply, GetBySlug(s, slug), GetBySlug(s', slug), rules, slug)
  {
    RedirectFacts(s, cmd.slug, cmd.visit, rules, s', reply);
  }

  lemma EditExplains(s: Store, cmd: Command, rules: Rules, slug: string, s': Store, reply: Reply)
    requires Consistent(s) && IsEdit(cmd) && (s', reply) == Step(s, cmd, rules)
    ensures Explains(cmd, reply, GetBySlug(s, slug), GetBySlug(s', slug), rules, slug)
  {
    EditFacts(s, cmd, rules, s', reply);
  }

  /** An explained step extends the history of a slug as its link changes. */
  lemma ExplainedTracks(before: Option<Link>, after: Option<Link>, cmds: seq<Command>, log: seq<Reply>,
                        cmd: Command, reply: Reply, rules: Rules, slug: string)
    requires |cmds| == |log| && Tracks(before, cmds, log, slug, rules) && Explains(cmd, reply, before, after, rules, slug)
    ensures Tracks(after, cmds + [cmd], log + [reply], slug, rules)
  {
    HistoryLast(cmds, log, cmd, reply, slug, rules);
    IncrementCounts(Served(cmds, log, slug));
    if IsEdit(cmd) && before.Some? {
      EditedKeepsKey(cmd, before.value, rules);
    }
  }

  lemma {:induction false} HistoryLast(cmds: seq<Command>, log: seq<Reply>, cmd: Command, reply: Reply, slug: string, rules: Rules)
    requires |cmds| == |log|
    ensures LastWrites(cmds + [cmd], log + [reply], slug, rules)
         == Overlay(WritesOf(cmd, reply, slug, rules), LastWrites(cmds, log, slug, rules))
    ensures Served(cmds + [cmd], log + [reply], slug)
         == Served(cmds, log, slug) + (if cmd.Redirect? && cmd.slug == slug && reply.Redirected? then 1 else 0)
    ensures LastVisit(cmds + [cmd], log + [reply], slug)
         == if cmd.Redirect? && cmd.slug == slug && reply.Redirected? then Some(cmd.visit.timestamp) else LastVisit(cmds, log, slug)
  {
    assert (cmds + [cmd])[..|cmds|] == cmds && (log + [reply])[..|log|] == log;
  }

  lemma StepTracks(s: Store, cmds: seq<Command>, log: seq<Reply>, cmd: Command, rules: Rules, slug: string, s': Store, reply: Reply)
    requires |cmds| == |log| && Consistent(s) && (s', reply) == Step(s, cmd, rules)
    requires Tracks(GetBySlug(s, slug), cmds, log, slug, rules)
    ensures Tracks(GetBySlug(s', slug), cmds + [cmd], log + [reply], slug, rules)
  {
    StepExplains(s, cmd, rules, slug);
    ExplainedTracks(GetBySlug(s, slug), GetBySlug(s', slug), cmds, log, cmd, reply, rules, slug);
  }

  /** After every run every link is what its history says, and a slug has a link exactly when its history is not empty. */
  lemma {:induction false} RunTracks(cmds: seq<Command>, rules: Rules, slug: string)
    ensures var (s, log) := Run(cmds, rules);
            && Tracks(GetBySlug(s, slug), cmds, log, slug, rules)
            && (GetBySlug(s, slug).None? <==> LastWrites(cmds, log, slug, rules) == NO_WRITES)
  {
    if cmds != [] {
      var n := |cmds| - 1;
      var (s, log) := Run(cmds[..n], rules);
      var (s', reply) := Step(s, cmds[n], rules);
      RunTracks(cmds[..n], rules, slug);
      RunIsConsistent(cmds[..n], rules);
      RunLast(cmds, rules);
      StepTracks(s, cmds[..n], log, cmds[n], rules, slug, s', reply);
      assert cmds[..n] + [cmds[n]] == cmds;
    }
  }

  /**
   The stored counter of a link is the number of redirects served for its slug since creation (as a
   64-bit number), although every command writes back a whole record that it may have read from the
   cache.  The counters named for 24 hours and 7 days are never reset and always equal the total.
   */
  lemma {:induction false} CountersCountRedirects(cmds: seq<Command>, rules: Rules, slug: string)
    requires slug in Run(cmds, rules).0.slugToId
    ensures var (s, log) := Run(cmds, rules);
            && s.slugToId[slug] in s.byId
            && var stats := s.byId[s.slugToId[slug]].stats;
               stats.totalRedirects == stats.redirects24h == stats.redirects7d == Served(cmds, log, slug) % Decimal.TWO_TO_64
  {
    RunIsConsistent(cmds, rules);
    RunTracks(cmds, rules, slug);
  }

  /** The status from the three last-written values, in the order deleted, disabled, expired, active. */
  function StatusOf(deleted: bool, enabled: bool, expiresAt: Option<string>, parseTime: string -> Option<int>, now: int): LinkStatus {
    if deleted then Deleted else if !enabled then Disabled
    else if IsExpired(expiresAt, parseTime, now) then Expired else Active
  }

  /**
   After any run the status of a link depends only on the last delete or restore, the last write of
   the enabled flag and the last write of the expiry, each independent of the other two.
   */
  lemma {:induction false} StatusIsLastWrites(cmds: seq<Command>, rules: Rules, slug: string, now: int)
    requires slug in Run(cmds, rules).0.slugToId
    ensures var (s, log) := Run(cmds, rules);
            var last := LastWrites(cmds, log, slug, rules);
            && s.slugToId[slug] in s.byId && last.deletedAt.Some? && last.enabled.Some? && last.expiresAt.Some?
            && ResolveStatus(s.byId[s.slugToId[slug]], rules.parseTime, now)
               == StatusOf(last.deletedAt.value.Some?, last.enabled.value, last.expiresAt.value, rules.parseTime, now)
  {
    RunIsConsistent(cmds, rules);
    RunTracks(cmds, rules, slug);
  }

  /** Every field has been written, as by a creation. */
  predicate Complete(w: Writes) {
    w.origin.Some? && w.deletedAt.Some? && w.enabled.Some? && w.expiresAt.Some?
  }

  /** What a visitor is told about a slug with such last writes. */
  function Answer(last: Writes, slug: string, v: Visit, rules: Rules): Reply
    requires last == NO_WRITES || Complete(last)
  {
    if !rules.isValidSlug(slug) || last == NO_WRITES || last.deletedAt.value.Some? then Refused(404)
    else if !last.enabled.value then Refused(410)
    else if IsExpired(last.expiresAt.value, rules.parseTime, v.atCheck) then
      Refused(if IsExpired(last.expiresAt.value, rules.parseTime, v.atError) then 410 else 404)
    else Redirected(if last.origin.value.redirectType == Permanent then 301 else 302, last.origin.value.targetUrl)
  }

  /**
   What a visitor gets after any run, from the commands and replies alone: 404 for a slug that is
   malformed, was never created or was last deleted; 410 for one last disabled, or past its last
   expiry at both readings of the clock; otherwise a redirect to the target it was created with.
   */
  lemma RedirectAnswers(cmds: seq<Command>, rules: Rules, slug: string, v: Visit)
    ensures var (s, log) := Run(cmds, rules);
            var last := LastWrites(cmds, log, slug, rules);
            && (last == NO_WRITES || Complete(last))
            && DoRedirect(s, slug, v, rules).1 == Answer(last, slug, v, rules)
  {
    RunIsConsistent(cmds, rules);
    RunTracks(cmds, rules, slug);
    ReadFacts(Run(cmds, rules).0, slug);
    AnswerFromLink(Run(cmds, rules).0, slug, v, rules);
  }

  lemma AnswerFromLink(s: Store, slug: string, v: Visit, rules: Rules)
    requires ReadLink(s, slug).1 == GetBySlug(s, slug)
    ensures var link := GetBySlug(s, slug);
            DoRedirect(s, slug, v, rules).1 == Answer(if link.None? then NO_WRITES else FieldsOf(link.value), slug, v, rules)
  {
  }

  /** A store with one link, freshly created under a requested slug. */
  lemma {:induction false} OneCreation(c: CreateCommand, d: Draws, slug: string, rules: Rules)
    requires c.slug == Some(slug) && rules.isValidSlug(slug) && !rules.isReserved(slug)
    requires rules.normalizeUrl(c.targetUrl).Some? && FieldsAreValid(c, rules)
    ensures var link := GetBySlug(Run([Create(c, d)], rules).0, slug);
            && Consistent(Run([Create(c, d)], rules).0) && link.Some?
            && link.value.expiresAt == ExpiryOf(c, d) && link.value.enabled == EnabledOf(c) && link.value.deletedAt.None?
  {
    var cmds := [Create(c, d)];
    RunIsConsistent(cmds, rules);
    RunLast(cmds, rules);
    assert cmds[..0] == [];
    var empty := Store(map[], map[], map[], []);
    assert Run([], rules) == (empty, []);
    assert SlugFor(c, d.slugs, empty, rules) == Chosen(slug);
    CreateFacts(empty, c, d, rules, DoCreate(empty, c, d, rules).0, DoCreate(empty, c, d, rules).1);
  }

  /** Visits to a link with an expiry: the second reading of the clock decides on the code. */
  lemma {:induction false} ExpiryAnswers(c: CreateCommand, d: Draws, slug: string, text: string, t: int, v: Visit, rules: Rules)
    requires c.slug == Some(slug) && rules.isValidSlug(slug) && !rules.isReserved(slug)
    requires rules.normalizeUrl(c.targetUrl).Some? && FieldsAreValid(c, rules)
    requires c.enabled.None? && c.expiresAt == Some(text) && rules.parseTime(text) == Some(t) && t <= v.atCheck
    ensures DoRedirect(Run([Create(c, d)], rules).0, slug, v, rules).1 == Refused(if t <= v.atError then 410 else 404)
  {
    OneCreation(c, d, slug, rules);
    var s := Run([Create(c, d)], rules).0;
    ReadFacts(s, slug);
    AnswerFromLink(s, slug, v, rules);
  }

  lemma ServerAcceptsAbc(slug: string)
    requires slug == "abc"
    ensures IsValidSlug(slug) && !IsReservedSlug(slug)
  {
    var lower := Lower(slug);
    assert |lower| == 3 && lower[0] == 'a' && lower[1] == 'b';
    assert "api"[1] == 'p';
  }

  /**
   The handler reads the clock twice.  Under the server's own rules, with any clock format, take a link that
   expires at `t`: a visit that sees `t` first and an earlier time next gets 404, one that sees `t` twice 410.
   */
  lemma {:induction false} ClockBackAnswers404(rules: Rules, parseTime: string -> Option<int>, allowPrivate: bool, slug: string, url: string,
                            text: string, t: int, d: Draws, v: Visit)
    requires rules == ServerRules(allowPrivate, parseTime, Temporary, true) && slug == "abc"
    requires TargetUrl.Normalize(url, TargetUrl.Blocked(allowPrivate)).Some? && parseTime(text) == Some(t)
    ensures var create := CreateCommand(url, Some(slug), None, Some(text), None, [], map[], None);
            var s := Run([Create(create, d)], rules).0;
            && DoRedirect(s, slug, v.(atCheck := t, atError := t - 1), rules).1 == Refused(404)
            && DoRedirect(s, slug, v.(atCheck := t, atError := t), rules).1 == Refused(410)
  {
    var create := CreateCommand(url, Some(slug), None, Some(text), None, [], map[], None);
    ServerAcceptsAbc(slug);
    NoTags();
    ExpiryAnswers(create, d, slug, text, t, v.(atCheck := t, atError := t - 1), rules);
    ExpiryAnswers(create, d, slug, text, t, v.(atCheck := t, atError := t), rules);
  }

  lemma NoTags()
    ensures Tags.Validated([]).Some?
  {
  }

  /** The `k`th command created the slug. */
  predicate IsCreation(cmds: seq<Command>, log: seq<Reply>, k: nat, slug: string)
    requires |cmds| == |log|
  {
    k < |cmds| && cmds[k].Create? && log[k].Accepted? && log[k].link.slug == slug
  }

  ghost predicate OnlyCreation(cmds: seq<Command>, log: seq<Reply>, k: nat, slug: string)
    requires |cmds| == |log|
  {
    IsCreation(cmds, log, k, slug) && forall j: nat :: IsCreation(cmds, log, j, slug) ==> j == k
  }

  /** The last-written origin of a slug is that of its only creation. */
  ghost predicate CreatedAs(cmds: seq<Command>, log: seq<Reply>, slug: string, rules: Rules, origin: Option<Origin>)
    requires |cmds| == |log|
  {
    if origin.None? then forall k: nat :: !IsCreation(cmds, log, k, slug)
    else exists k: nat :: OnlyCreation(cmds, log, k, slug) && OriginOf(cmds[k].create, cmds[k].draws, rules) == origin
  }

  /** A slug with a link has been created exactly once, and nothing since has changed what was written then. */
  lemma {:induction false} CreatedOnce(cmds: seq<Command>, rules: Rules, slug: string)
    ensures var log := Run(cmds, rules).1;
            CreatedAs(cmds, log, slug, rules, LastWrites(cmds, log, slug, rules).origin)
  {
    if cmds != [] {
      var n := |cmds| - 1;
      var (s, log) := Run(cmds[..n], rules);
      CreatedOnce(cmds[..n], rules, slug);
      RunTracks(cmds[..n], rules, slug);
      RunIsConsistent(cmds[..n], rules);
      RunLast(cmds, rules);
      StepExplains(s, cmds[n], rules, slug);
      var reply := Step(s, cmds[n], rules).1;
      HistoryLast(cmds[..n], log, cmds[n], reply, slug, rules);
      assert cmds[..n] + [cmds[n]] == cmds;
      var last := LastWrites(cmds[..n], log, slug, rules);
      if cmds[n].Create? && reply.Accepted? && reply.link.slug == slug {
        assert last == NO_WRITES;
        assert OriginOf(cmds[n].create, cmds[n].draws, rules).Some?;
      }
      CreatedLast(cmds[..n], log, cmds[n], reply, slug, rules, last.origin);
    }
  }

  lemma CreatedLast(cmds: seq<Command>, log: seq<Reply>, cmd: Command, reply: Reply, slug: string, rules: Rules, origin: Option<Origin>)
    requires |cmds| == |log| && CreatedAs(cmds, log, slug, rules, origin)
    requires cmd.Create? && reply.Accepted? && reply.link.slug == slug ==>
               origin.None? && OriginOf(cmd.create, cmd.draws, rules).Some?
    ensures CreatedAs(cmds + [cmd], log + [reply], slug, rules, Or(WritesOf(cmd, reply, slug, rules).origin, origin))
  {
    var n := |cmds|;
    assert forall k: nat ::
      (IsCreation(cmds + [cmd], log + [reply], k, slug)
       <==> if k == n then cmd.Create? && reply.Accepted? && reply.link.slug == slug else IsCreation(cmds, log, k, slug));
    if cmd.Create? && reply.Accepted? && reply.link.slug == slug {
      assert OnlyCreation(cmds + [cmd], log + [reply], n, slug);
    } else if origin.Some? {
      var k: nat :| OnlyCreation(cmds, log, k, slug) && OriginOf(cmds[k].create, cmds[k].draws, rules) == origin;
      assert OnlyCreation(cmds + [cmd], log + [reply], k, slug);
    }
  }

  /** A redirected visitor is sent to the normalized URL of the one accepted creation of that slug. */
  lemma {:induction false} VisitorGoesToCreatedTarget(cmds: seq<Command>, rules: Rules, slug: string, v: Visit)
    requires DoRedirect(Run(cmds, rules).0, slug, v, rules).1.Redirected?
    ensures var (s, log) := Run(cmds, rules);
            var reply := DoRedirect(s, slug, v, rules).1;
            exists k: nat :: && OnlyCreation(cmds, log, k, slug)
                             && rules.normalizeUrl(cmds[k].create.targetUrl) == Some(reply.target)
                             && reply.status == if TypeOf(cmds[k].create, rules) == Permanent then 301 else 302
  {
    RedirectAnswers(cmds, rules, slug, v);
    CreatedOnce(cmds, rules, slug);
  }

  /**
   Under the server's own rules, whatever was created, patched, deleted or restored before, a visitor is only
   ever sent to a URL in normal form: http or https, a lower-case host, and no private host unless allowed.
   */
  lemma {:induction false} ServerSendsToNormalUrls(cmds: seq<Command>, rules: Rules, allowPrivate: bool, parseTime: string -> Option<int>,
                                kind: RedirectType, analytics: bool, slug: string, v: Visit)
    requires rules == ServerRules(allowPrivate, parseTime, kind, analytics)
    requires DoRedirect(Run(cmds, rules).0, slug, v, rules).1.Redirected?
    ensures TargetUrl.IsNormalUrl(DoRedirect(Run(cmds, rules).0, slug, v, rules).1.target, TargetUrl.Blocked(allowPrivate))
  {
    VisitorGoesToCreatedTarget(cmds, rules, slug, v);
    var log, target := Run(cmds, rules).1, DoRedirect(Run(cmds, rules).0, slug, v, rules).1.target;
    var k: nat :| OnlyCreation(cmds, log, k, slug) && rules.normalizeUrl(cmds[k].create.targetUrl) == Some(target);
    TargetUrl.NormalizeGivesNormal(cmds[k].create.targetUrl, TargetUrl.Blocked(allowPrivate));
  }

  /**
   The PATCH handler validates the tags and passes on the result, and the service validates that
   again; the record written is the one a single validation gives.
   */
  lemma PatchValidatesOnceOrTwice(link: Link, p: PatchCommand, now: string, rules: Rules)
    requires p.tags.Some? && Tags.Validated(p.tags.value).Some?
    requires forall tags :: rules.validateTags(tags) == Tags.Validated(tags)
    ensures Patched(link, p.(tags := Tags.Validated(p.tags.value)), now, rules) == Patched(link, p, now, rules)
  {
    Tags.ValidatedTwice(p.tags.value);
  }

  /** The fields that no command writes after creation. */
  predicate SameIdentity(a: Link, b: Link) {
    && a.id == b.id && a.slug == b.slug && a.targetUrl == b.targetUrl
    && a.createdAt == b.createdAt && a.redirectType == b.redirectType
  }

  /** A link, once created, stays under its slug with the same id, target, creation time and redirect type. */
  lemma {:induction false} IdentityNeverChanges(cmds: seq<Command>, k: nat, rules: Rules, slug: string)
    requires k <= |cmds| && GetBySlug(Run(cmds[..k], rules).0, slug).Some?
    ensures var later := GetBySlug(Run(cmds, rules).0, slug);
            later.Some? && SameIdentity(later.value, GetBySlug(Run(cmds[..k], rules).0, slug).value)
  {
    if k == |cmds| {
      assert cmds[..k] == cmds;
    } else {
      var n := |cmds| - 1;
      assert cmds[..n][..k] == cmds[..k];
      IdentityNeverChanges(cmds[..n], k, rules, slug);
      RunIsConsistent(cmds[..n], rules);
      RunLast(cmds, rules);
      StepExplains(Run(cmds[..n], rules).0, cmds[n], rules, slug);
      ExplainedIdentity(cmds[n], Step(Run(cmds[..n], rules).0, cmds[n], rules).1,
                        GetBySlug(Run(cmds[..n], rules).0, slug), GetBySlug(Run(cmds, rules).0, slug), rules, slug);
    }
  }

  lemma ExplainedIdentity(cmd: Command, reply: Reply, before: Option<Link>, after: Option<Link>, rules: Rules, slug: string)
    requires Explains(cmd, reply, before, after, rules, slug) && before.Some?
    ensures after.Some? && SameIdentity(after.value, before.value)
  {
  }

  // ----- counters and analytics -----

  /** Events of successful redirects for a slug. */
  function RedirectEvents(events: seq<ClickEvent>, slug: string): nat {
    if events == [] then 0 else
      var n := |events| - 1;
      RedirectEvents(events[..n], slug) + (if events[n].slug == slug && IsRedirect(events[n]) then 1 else 0)
  }

  lemma {:induction false} RedirectEventsLast(events: seq<ClickEvent>, e: ClickEvent, slug: string)
    ensures RedirectEvents(events + [e], slug) == RedirectEvents(events, slug) + (if e.slug == slug && IsRedirect(e) then 1 else 0)
  {
    assert (events + [e])[..|events|] == events;
  }

  lemma {:induction false} StepEvents(s: Store, cmds: seq<Command>, log: seq<Reply>, cmd: Command, rules: Rules, slug: string)
    requires |cmds| == |log| && Consistent(s) && rules.analyticsEnabled
    requires RedirectEvents(s.events, slug) == Served(cmds, log, slug)
    ensures var (s', reply) := Step(s, cmd, rules);
            RedirectEvents(s'.events, slug) == Served(cmds + [cmd], log + [reply], slug)
  {
    var (s', reply) := Step(s, cmd, rules);
    HistoryLast(cmds, log, cmd, reply, slug, rules);
    StepEmits(s, cmd, rules, s', reply);
    if cmd.Redirect? {
      assert s'.events == s.events + [s'.events[|s.events|]];
      RedirectEventsLast(s.events, s'.events[|s.events|], slug);
    }
  }

  lemma {:induction false} RunEvents(cmds: seq<Command>, rules: Rules, slug: string)
    requires rules.analyticsEnabled
    ensures var (s, log) := Run(cmds, rules);
            RedirectEvents(s.events, slug) == Served(cmds, log, slug)
  {
    if cmds != [] {
      var n := |cmds| - 1;
      var (s, log) := Run(cmds[..n], rules);
      RunEvents(cmds[..n], rules, slug);
      RunIsConsistent(cmds[..n], rules);
      RunLast(cmds, rules);
      StepEvents(s, cmds[..n], log, cmds[n], rules, slug);
      assert cmds[..n] + [cmds[n]] == cmds;
    }
  }

  /** Where the redirect requests of a run are. */
  function RedirectsAt(cmds: seq<Command>): seq<nat> {
    if cmds == [] then [] else
      RedirectsAt(cmds[..|cmds| - 1]) + (if cmds[|cmds| - 1].Redirect? then [|cmds| - 1] else [])
  }

  /** `at` lists, in order, exactly the redirect requests of the run. */
  ghost predicate AreRedirects(cmds: seq<Command>, at: seq<nat>) {
    && (forall k :: 0 <= k < |at| ==> at[k] < |cmds| && cmds[at[k]].Redirect?)
    && (forall k, l :: 0 <= k < l < |at| ==> at[k] < at[l])
    && (forall i :: 0 <= i < |cmds| && cmds[i].Redirect? ==> i in at)
  }

  lemma {:induction false} RedirectsAreListed(cmds: seq<Command>)
    ensures AreRedirects(cmds, RedirectsAt(cmds))
  {
    if cmds != [] {
      RedirectsAreListed(cmds[..|cmds| - 1]);
      OneMoreListed(cmds, RedirectsAt(cmds[..|cmds| - 1]), RedirectsAt(cmds));
    }
  }

  lemma {:induction false} OneMoreListed(cmds: seq<Command>, before: seq<nat>, at: seq<nat>)
    requires cmds != [] && AreRedirects(cmds[..|cmds| - 1], before)
    requires at == before + (if cmds[|cmds| - 1].Redirect? then [|cmds| - 1] else [])
    ensures AreRedirects(cmds, at)
  {
    var n := |cmds| - 1;
    forall i | 0 <= i < |cmds| && cmds[i].Redirect?
      ensures i in at
    {
      if i < n {
        assert cmds[..n][i].Redirect? && i in before;
      } else {
        assert at[|before|] == n;
      }
    }
  }

  /** What a reply tells the visitor. */
  function StatusTold(reply: Reply): int {
    match reply
    case Redirected(status, _) => status
    case Refused(status) => status
    case _ => 0
  }

  /** Event `e` is that of request `i`, for the link its slug had by then. */
  ghost predicate LogsRequest(e: ClickEvent, cmds: seq<Command>, log: seq<Reply>, i: nat, rules: Rules)
    requires |log| == |cmds| && i < |cmds| && cmds[i].Redirect?
  {
    IsEventOf(e, cmds[i].visit, cmds[i].slug, LinkIdFor(Run(cmds[..i], rules).0, cmds[i].slug, rules), StatusTold(log[i]))
  }

  ghost predicate LogsRequests(events: seq<ClickEvent>, cmds: seq<Command>, log: seq<Reply>, at: seq<nat>, rules: Rules)
    requires |log| == |cmds|
  {
    && |events| == |at|
    && forall k :: 0 <= k < |at| ==> at[k] < |cmds| && cmds[at[k]].Redirect? && LogsRequest(events[k], cmds, log, at[k], rules)
  }

  /** After any run with analytics on, the event log has, in order, one event for each redirect request, right in every field. */
  lemma {:induction false} EventLogIsExact(cmds: seq<Command>, rules: Rules)
    requires rules.analyticsEnabled
    ensures LogsRequests(Run(cmds, rules).0.events, cmds, Run(cmds, rules).1, RedirectsAt(cmds), rules)
  {
    if cmds != [] {
      var n := |cmds| - 1;
      var (s, log) := Run(cmds[..n], rules);
      var (s', reply) := Step(s, cmds[n], rules);
      EventLogIsExact(cmds[..n], rules);
      RunIsConsistent(cmds[..n], rules);
      RunLast(cmds, rules);
      StepEmits(s, cmds[n], rules, s', reply);
      LogGrows(cmds, log, reply, rules, s, s');
    }
  }

  lemma StepEmits(s: Store, cmd: Command, rules: Rules, s': Store, reply: Reply)
    requires Consistent(s) && rules.analyticsEnabled && (s', reply) == Step(s, cmd, rules)
    ensures if cmd.Redirect? then Emitted(s, s', cmd.slug, LinkIdFor(s, cmd.slug, rules), StatusTold(reply), cmd.visit, rules)
            else s'.events == s.events
    ensures cmd.Redirect? ==> (reply.Redirected? <==> 300 <= StatusTold(reply) < 400)
  {
    match cmd
    case Create(c, d) => CreateFacts(s, c, d, rules, s', reply);
    case Get(x) => GetFacts(s, x);
    case Redirect(x, v) => RedirectFacts(s, x, v, rules, s', reply);
    case _ => EditFacts(s, cmd, rules, s', reply);
  }

  lemma {:induction false} LogGrows(cmds: seq<Command>, log: seq<Reply>, reply: Reply, rules: Rules, s: Store, s': Store)
    requires cmds != [] && |log| == |cmds| - 1 && rules.analyticsEnabled && s == Run(cmds[..|log|], rules).0
    requires LogsRequests(s.events, cmds[..|log|], log, RedirectsAt(cmds[..|log|]), rules)
    requires var cmd := cmds[|log|];
             if cmd.Redirect? then Emitted(s, s', cmd.slug, LinkIdFor(s, cmd.slug, rules), StatusTold(reply), cmd.visit, rules)
             else s'.events == s.events
    ensures LogsRequests(s'.events, cmds, log + [reply], RedirectsAt(cmds), rules)
  {
    var n := |log|;
    var before, at := RedirectsAt(cmds[..n]), RedirectsAt(cmds);
    forall k | 0 <= k < |before|
      ensures at[k] < |cmds| && cmds[at[k]].Redirect? && LogsRequest(s'.events[k], cmds, log + [reply], at[k], rules)
    {
      assert at[k] == before[k] && s'.events[k] == s.events[k];
      assert cmds[..n][..before[k]] == cmds[..before[k]];
      assert LogsRequest(s.events[k], cmds[..n], log, before[k], rules);
    }
  }

  /** With analytics off there are no events. */
  lemma {:induction false} NoEventsWhenOff(cmds: seq<Command>, rules: Rules)
    requires !rules.analyticsEnabled
    ensures Run(cmds, rules).0.events == []
  {
    if cmds != [] {
      var n := |cmds| - 1;
      var s := Run(cmds[..n], rules).0;
      NoEventsWhenOff(cmds[..n], rules);
      RunIsConsistent(cmds[..n], rules);
      RunLast(cmds, rules);
      StepEmitsNothing(s, cmds[n], rules);
    }
  }

  lemma StepEmitsNothing(s: Store, cmd: Command, rules: Rules)
    requires Consistent(s) && !rules.analyticsEnabled
    ensures Step(s, cmd, rules).0.events == s.events
  {
    var (s', reply) := Step(s, cmd, rules);
    match cmd
    case Create(c, d) => CreateFacts(s, c, d, rules, s', reply);
    case Get(x) => GetFacts(s, x);
    case Redirect(x, v) => RedirectFacts(s, x, v, rules, s', reply);
    case _ => EditFacts(s, cmd, rules, s', reply);
  }

  lemma {:induction false} CoveringQuery(events: seq<ClickEvent>, q: Query, slug: string)
    requires q.slug == Some(slug) && q.linkId.None?
    requires forall i :: 0 <= i < |events| ==> q.from <= events[i].occurredAt < q.to
    ensures Redirects(Selected(events, q)) == RedirectEvents(events, slug)
  {
    if events != [] {
      var n := |events| - 1;
      CoveringQuery(events[..n], q, slug);
      RedirectsLast(Selected(events[..n], q), events[n]);
    }
  }

  lemma {:induction false} RedirectsLast(events: seq<ClickEvent>, e: ClickEvent)
    ensures Redirects(events + [e]) == Redirects(events) + (if IsRedirect(e) then 1 else 0) && events + [] == events
  {
    assert (events + [e])[..|events|] == events;
  }

  /**
   With analytics on, the counter of a link equals the successful redirects that the aggregate query
   reports for its slug over any range covering all events.
   */
  lemma {:induction false} CounterEqualsAggregate(cmds: seq<Command>, rules: Rules, slug: string, q: Query, stats: Stats)
    requires rules.analyticsEnabled && slug in Run(cmds, rules).0.slugToId
    requires q.slug == Some(slug) && q.linkId.None?
    requires forall e :: e in Run(cmds, rules).0.events ==> q.from <= e.occurredAt < q.to
    requires Describes(stats, Selected(Run(cmds, rules).0.events, q), q.bucket)
    ensures var s := Run(cmds, rules).0;
            s.slugToId[slug] in s.byId
            && s.byId[s.slugToId[slug]].stats.totalRedirects == stats.successfulRedirects % Decimal.TWO_TO_64
  {
    CountersCountRedirects(cmds, rules, slug);
    RunEvents(cmds, rules, slug);
    CoveringQuery(Run(cmds, rules).0.events, q, slug);
  }
}
