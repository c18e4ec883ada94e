/**
 What the server's own rules (src/core/utils.cpp) make of the link store: which slugs and fields get in, and
 what every stored link is like after any run.
 */
module ServerLinks {
  import opened LinkRuns
  import opened LinkStore
  import opened Text
  import opened Wrappers
  import Tags

  /** A character of the class [A-Za-z0-9]. */
  ghost predicate IsWord(c: char) {
    'A' <= c <= 'Z' || 'a' <= c <= 'z' || '0' <= c <= '9'
  }

  /** The slug is matched by [A-Za-z0-9][A-Za-z0-9_-]{2,63}. */
  ghost predicate IsSlugText(slug: string) {
    exists first, tail :: slug == [first] + tail && IsWord(first) && IsTailText(tail)
  }

  ghost predicate IsTailText(tail: string) {
    2 <= |tail| <= 63 && forall i :: 0 <= i < |tail| ==> IsWord(tail[i]) || tail[i] == '_' || tail[i] == '-'
  }

  lemma {:induction false} SlugRuleExactly(slug: string)
    ensures IsValidSlug(slug) <==> IsSlugText(slug)
  {
    if IsValidSlug(slug) {
      assert slug == [slug[0]] + slug[1..] && IsTailText(slug[1..]);
    }
    if first, tail :| slug == [first] + tail && IsWord(first) && IsTailText(tail) {
      TextIsValid(slug, first, tail);
    }
  }

  lemma {:induction false} TextIsValid(slug: string, first: char, tail: string)
    requires slug == [first] + tail && IsWord(first) && IsTailText(tail)
    ensures IsValidSlug(slug)
  {
    forall i | 1 <= i < |slug|
      ensures IsSlugTail(slug[i])
    {
      assert slug[i] == tail[i - 1];
    }
  }

  /** The names of the server's own pages, in any letter case. */
  ghost predicate IsPageName(slug: string) {
    var name := Lower(slug);
    || name == "api" || name == "health" || name == "metrics" || name == "admin" || name == "login" || name == "logout"
    || name == "r" || name == "preview" || name == "stats"
  }

  lemma {:induction false} ReservedRuleExactly(slug: string)
    ensures IsReservedSlug(slug) <==> IsPageName(slug)
  {
  }

  ghost predicate IsGoodTag(tag: string) {
    1 <= |tag| <= 32 && forall c :: c in tag ==> IsWord(c) || c == ':' || c == '-' || c == '_'
  }

  lemma {:induction false} TagRuleExactly(tag: string)
    ensures Tags.IsTag(tag) <==> IsGoodTag(tag)
  {
    if IsGoodTag(tag) {
      assert forall i :: 0 <= i < |tag| ==> tag[i] in tag;
    }
  }

  ghost predicate IsGoodMetadata(metadata: map<string, string>) {
    |metadata| <= 50 && forall k :: k in metadata ==> 1 <= |k| <= 64 && |metadata[k]| <= 512
  }

  ghost predicate IsGoodCampaign(c: Campaign) {
    forall text :: Some(text) in [c.name, c.source, c.medium, c.term, c.content, c.id] ==> |text| <= 128
  }

  lemma {:induction false} CampaignRuleExactly(c: Campaign)
    ensures IsValidCampaign(c) <==> IsGoodCampaign(c)
  {
    var fields := [c.name, c.source, c.medium, c.term, c.content, c.id];
    if IsGoodCampaign(c) {
      forall i | 0 <= i < 6
        ensures IsShort(fields[i])
      {
        assert fields[i] in fields;
        assert fields[i].Some? ==> Some(fields[i].value) == fields[i];
      }
      assert IsShort(fields[0]) && IsShort(fields[1]) && IsShort(fields[2]) && IsShort(fields[3]) && IsShort(fields[4]) && IsShort(fields[5]);
    }
  }

  /** The server's rules. */
  ghost predicate AreServerRules(rules: Rules) {
    exists allowPrivate, parseTime, kind, analytics :: rules == ServerRules(allowPrivate, parseTime, kind, analytics)
  }

  lemma {:induction false} RulesMean(rules: Rules)
    requires AreServerRules(rules)
    ensures forall slug :: rules.isValidSlug(slug) <==> IsSlugText(slug)
    ensures forall slug :: rules.isReserved(slug) <==> IsPageName(slug)
    ensures forall tags :: rules.validateTags(tags) == Tags.Validated(tags)
    ensures forall metadata :: rules.isValidMetadata(metadata) <==> IsGoodMetadata(metadata)
    ensures forall c :: rules.isValidCampaign(c) <==> IsGoodCampaign(c)
  {
    forall slug
      ensures rules.isValidSlug(slug) <==> IsSlugText(slug)
      ensures rules.isReserved(slug) <==> IsPageName(slug)
    {
      SlugRuleExactly(slug);
      ReservedRuleExactly(slug);
    }
    forall c
      ensures rules.isValidCampaign(c) <==> IsGoodCampaign(c)
    {
      CampaignRuleExactly(c);
    }
  }

  /** A creation under the server's rules has a bad field exactly when one of its fields is out of its limits. */
  lemma {:induction false} ServerFieldsExactly(c: CreateCommand, rules: Rules)
    requires AreServerRules(rules)
    ensures HasBadField(c, rules) <==>
              || (c.expiresAt.Some? && rules.parseTime(c.expiresAt.value).None?)
              || |c.tags| > 20 || (exists i :: 0 <= i < |c.tags| && !IsGoodTag(Trim(c.tags[i])))
              || !IsGoodMetadata(c.metadata)
              || (c.campaign.Some? && !IsGoodCampaign(c.campaign.value))
  {
    RulesMean(rules);
    TagsRefusedExactly(c.tags);
  }

  lemma {:induction false} TagsRefusedExactly(tags: seq<string>)
    ensures Tags.Validated(tags).None? <==> |tags| > 20 || exists i :: 0 <= i < |tags| && !IsGoodTag(Trim(tags[i]))
  {
    forall i | 0 <= i < |tags|
      ensures Tags.IsTag(Trim(tags[i])) <==> IsGoodTag(Trim(tags[i]))
    {
      TagRuleExactly(Trim(tags[i]));
    }
  }

  // ----- slugs -----

  /** Reply `k` of a run is that of command `k` on what the commands before it left. */
  lemma {:induction false} ReplyAt(cmds: seq<Command>, k: nat, rules: Rules)
    requires k < |cmds|
    ensures Run(cmds, rules).1[k] == Step(Run(cmds[..k], rules).0, cmds[k], rules).1
  {
    var n := |cmds| - 1;
    RunLast(cmds, rules);
    if k < n {
      ReplyAt(cmds[..n], k, rules);
      assert cmds[..n][..k] == cmds[..k];
    }
  }

  /** Where the slug of an accepted creation comes from. */
  ghost predicate IsServerSlug(slug: string, c: CreateCommand, d: Draws) {
    !IsPageName(slug) && if c.slug.Some? then slug == c.slug.value && IsSlugText(slug) else slug in d.slugs
  }

  /** The same under any rules. */
  ghost predicate IsSlugBy(rules: Rules, slug: string, c: CreateCommand, d: Draws) {
    !rules.isReserved(slug) && if c.slug.Some? then slug == c.slug.value && rules.isValidSlug(slug) else slug in d.slugs
  }

  lemma {:induction false} AcceptedSlug(s: Store, c: CreateCommand, d: Draws, rules: Rules, reply: Reply)
    requires IsCreateReply(s, c, d, rules, reply) && reply.Accepted?
    ensures IsSlugBy(rules, reply.link.slug, c, d)
  {
    if c.slug.None? {
      var i :| 0 <= i < 10 && IsFirstFree(d.slugs, s, rules, i) && EndsAs(s, c, d, rules, d.slugs[i], reply);
      assert reply.link.slug == d.slugs[i];
    }
  }

  lemma {:induction false} ServerSlugMeans(rules: Rules, slug: string, c: CreateCommand, d: Draws)
    requires AreServerRules(rules) && IsSlugBy(rules, slug, c, d)
    ensures IsServerSlug(slug, c, d)
  {
    SlugRuleExactly(slug);
    ReservedRuleExactly(slug);
  }

  /**
   After any run every slug with a link was created exactly once, is no name of a page, and is well-formed when
   its creation asked for it, or one of those drawn otherwise.
   */
  lemma {:induction false} ServerSlugsAreGood(cmds: seq<Command>, rules: Rules, slug: string)
    requires AreServerRules(rules) && GetBySlug(Run(cmds, rules).0, slug).Some?
    ensures exists k: nat :: OnlyCreation(cmds, Run(cmds, rules).1, k, slug) && IsServerSlug(slug, cmds[k].create, cmds[k].draws)
  {
    RunTracks(cmds, rules, slug);
    CreatedOnce(cmds, rules, slug);
    var log := Run(cmds, rules).1;
    var k: nat :| OnlyCreation(cmds, log, k, slug);
    ReplyAt(cmds, k, rules);
    RunIsConsistent(cmds[..k], rules);
    CreateReplyIs(Run(cmds[..k], rules).0, cmds[k].create, cmds[k].draws, rules);
    AcceptedSlug(Run(cmds[..k], rules).0, cmds[k].create, cmds[k].draws, rules, log[k]);
    ServerSlugMeans(rules, slug, cmds[k].create, cmds[k].draws);
  }

  // ----- fields -----

  ghost predicate WithinLimits(link: Link) {
    && |link.tags| <= 20 && (forall i :: 0 <= i < |link.tags| ==> IsGoodTag(link.tags[i]))
    && (forall i, j :: 0 <= i < j < |link.tags| ==> link.tags[i] != link.tags[j])
    && IsGoodMetadata(link.metadata)
    && (link.campaign.Some? ==> IsGoodCampaign(link.campaign.value))
  }

  lemma {:induction false} TagsWithinLimits(tags: seq<string>)
    requires Tags.Validated(tags).Some?
    ensures var r := Tags.Validated(tags).value;
            && |r| <= 20 && (forall i :: 0 <= i < |r| ==> IsGoodTag(r[i]))
            && (forall i, j :: 0 <= i < j < |r| ==> r[i] != r[j])
  {
    var trimmed := Tags.TrimAll(tags);
    var r := Tags.Distinct(trimmed);
    Tags.DistinctResult(trimmed);
    forall i | 0 <= i < |r|
      ensures IsGoodTag(r[i])
    {
      assert r[i] in r && r[i] in trimmed;
      var j :| 0 <= j < |trimmed| && trimmed[j] == r[i];
      TagRuleExactly(Trim(tags[j]));
    }
  }

  /** The fields of a link are what the rules let in. */
  ghost predicate IsLetIn(link: Link, rules: Rules) {
    && (exists tags :: rules.validateTags(tags) == Some(link.tags)) && rules.isValidMetadata(link.metadata)
    && (link.campaign.Some? ==> rules.isValidCampaign(link.campaign.value))
  }

  lemma {:induction false} ExplainedIsLetIn(cmd: Command, reply: Reply, before: Option<Link>, after: Option<Link>, rules: Rules, slug: string)
    requires Explains(cmd, reply, before, after, rules, slug)
    requires before.Some? ==> IsLetIn(before.value, rules)
    requires cmd.Create? && reply.Accepted? && reply.link.slug == slug ==> !HasBadField(cmd.create, rules)
    ensures after.Some? ==> IsLetIn(after.value, rules)
  {
    if cmd.Patch? && reply.Accepted? && reply.link.slug == slug {
      PatchedExactly(before.value, cmd.patch, cmd.now, rules);
    }
  }

  /** Under any rules, after any run, the fields of every link are what the rules let in. */
  lemma {:induction false} LinksAreLetIn(cmds: seq<Command>, rules: Rules, slug: string)
    ensures var link := GetBySlug(Run(cmds, rules).0, slug); link.Some? ==> IsLetIn(link.value, rules)
  {
    if cmds != [] {
      var n := |cmds| - 1;
      var s := Run(cmds[..n], rules).0;
      var (s', reply) := Step(s, cmds[n], rules);
      LinksAreLetIn(cmds[..n], rules, slug);
      RunIsConsistent(cmds[..n], rules);
      RunLast(cmds, rules);
      StepExplains(s, cmds[n], rules, slug);
      AcceptedFields(s, cmds[n], rules);
      ExplainedIsLetIn(cmds[n], reply, GetBySlug(s, slug), GetBySlug(s', slug), rules, slug);
    }
  }

  lemma {:induction false} LetInIsWithinLimits(link: Link, rules: Rules)
    requires AreServerRules(rules) && IsLetIn(link, rules)
    ensures WithinLimits(link)
  {
    var tags :| rules.validateTags(tags) == Some(link.tags);
    TagsWithinLimits(tags);
    if link.campaign.Some? {
      CampaignRuleExactly(link.campaign.value);
    }
  }

  /** After any run every stored link is within the server's limits, whatever was created and patched. */
  lemma {:induction false} ServerLinksWithinLimits(cmds: seq<Command>, rules: Rules, slug: string)
    requires AreServerRules(rules)
    ensures var link := GetBySlug(Run(cmds, rules).0, slug); link.Some? ==> WithinLimits(link.value)
  {
    LinksAreLetIn(cmds, rules, slug);
    var link := GetBySlug(Run(cmds, rules).0, slug);
    if link.Some? {
      LetInIsWithinLimits(link.value, rules);
    }
  }

  lemma {:induction false} AcceptedFields(s: Store, cmd: Command, rules: Rules)
    requires Consistent(s)
    ensures cmd.Create? && Step(s, cmd, rules).1.Accepted? ==> !HasBadField(cmd.create, rules)
  {
    if cmd.Create? {
      CreateReplyIs(s, cmd.create, cmd.draws, rules);
    }
  }
}
