/**
 * The background worker's handlers: the rule update, the unblock alarm,
 * the popup's message and the install-time initialisation.
 */
module Background {
  import opened Wrappers
  import opened Strings
  import opened Sites
  import opened Platform
  import opened RuleSync
  import opened Alarms

  /**
   * The rule table after `updateDeclarativeNetRequestRules` as the source
   * computes its diff: unchanged when nothing is to be done or the platform
   * rejects the update (the error is caught and logged).
   */
  function SyncedRulesAsWritten(page: string, sites: seq<BlockedSite>, existing: seq<Rule>): seq<Rule> {
    var desired := DesiredRules(page, sites);
    var add := AddList(desired, existing);
    var remove := AsWrittenRemoveList(existing, desired);
    if (remove != [] || add != []) && UpdateAccepted(Keep(existing, remove), add)
    then Keep(existing, remove) + add
    else existing
  }

  /** The rule table after the update with the corrected diff. */
  function SyncedRules(page: string, sites: seq<BlockedSite>, existing: seq<Rule>): seq<Rule> {
    var desired := DesiredRules(page, sites);
    var add := AddList(desired, existing);
    var remove := RemoveList(existing, desired);
    if (remove != [] || add != []) && UpdateAccepted(Keep(existing, remove), add)
    then Keep(existing, remove) + add
    else existing
  }

  lemma KeepNothing(rules: seq<Rule>)
    ensures Keep(rules, []) == rules
  {
    if rules != [] {
      KeepNothing(rules[1..]);
      assert rules == [rules[0]] + rules[1..];
    }
  }

  /**
   * Starting from any table of this extension's rules, one update installs
   * exactly the rules the block list calls for.
   */
  lemma SyncedRulesInSync(page: string, sites: seq<BlockedSite>, existing: seq<Rule>)
    requires DistinctIds(existing) && AllPriorityOne(existing) && RuleIdsSeparated(sites)
    ensures InSync(SyncedRules(page, sites, existing), DesiredRules(page, sites))
  {
    var desired := DesiredRules(page, sites);
    DesiredIdsDistinct(page, sites);
    DesiredPriorityOne(page, sites);
    ReconcileEstablishesDesired(existing, desired);
    if RemoveList(existing, desired) == [] && AddList(desired, existing) == [] {
      KeepNothing(existing);
      assert Keep(existing, []) + [] == existing;
    }
  }

  /** A second update with the same list changes nothing. */
  lemma SyncedRulesIdempotent(page: string, sites: seq<BlockedSite>, existing: seq<Rule>)
    requires DistinctIds(existing) && AllPriorityOne(existing) && RuleIdsSeparated(sites)
    ensures var once := SyncedRules(page, sites, existing);
      SyncedRules(page, sites, once) == once
  {
    var once := SyncedRules(page, sites, existing);
    SyncedRulesInSync(page, sites, existing);
    DesiredIdsDistinct(page, sites);
    NothingToDoWhenInSync(once, DesiredRules(page, sites));
  }

  /** `updateDeclarativeNetRequestRules(blockedSites)`, as written. */
  method UpdateRules(table: RuleTable, page: string, sites: seq<BlockedSite>)
    modifies table
    ensures table.rules == SyncedRulesAsWritten(page, sites, old(table.rules))
  {
    var toAdd, toRemove, update := ReconcileAsWritten(page, sites, table.rules);
    if update {
      var accepted := table.UpdateDynamicRules(toRemove, toAdd);
    }
  }

  /** The same update with the corrected diff. */
  method UpdateRulesCorrected(table: RuleTable, page: string, sites: seq<BlockedSite>)
    modifies table
    ensures table.rules == SyncedRules(page, sites, old(table.rules))
  {
    var toAdd, toRemove, update := Reconcile(page, sites, table.rules);
    if update {
      var accepted := table.UpdateDynamicRules(toRemove, toAdd);
    }
  }

  /**
   * Unless a desired rule changed under an installed id, the update the
   * source sends has the same effect as the corrected one.
   */
  lemma AsWrittenAgrees(page: string, sites: seq<BlockedSite>, existing: seq<Rule>)
    requires DistinctIds(existing) && NoChangedRule(existing, DesiredRules(page, sites))
    ensures SyncedRulesAsWritten(page, sites, existing) == SyncedRules(page, sites, existing)
  {
    AsWrittenMatchesCorrected(existing, DesiredRules(page, sites));
  }

  /**
   * When a desired rule changed under an installed id (an edited site), the
   * update the source sends is rejected: the table keeps its stale rules and
   * is not in sync with the block list.
   */
  lemma AsWrittenKeepsStale(page: string, sites: seq<BlockedSite>, existing: seq<Rule>)
    requires DistinctIds(existing) && !NoChangedRule(existing, DesiredRules(page, sites))
    ensures SyncedRulesAsWritten(page, sites, existing) == existing
    ensures !InSync(SyncedRulesAsWritten(page, sites, existing), DesiredRules(page, sites))
  {
    var desired := DesiredRules(page, sites);
    var r :| r in desired && Lookup(existing, r.id).Some? && NeedsAdd(existing, r);
    AsWrittenRejectsChangedRule(existing, desired, r);
    if r in existing {
      LookupInstalled(existing, r);
    }
  }

  /**
   * Editing the unblock time of the only blocked site, whose rules are
   * installed: as written the table stays as it was, while the corrected
   * update changes it.
   */
  lemma EditedSiteStaysStale(page: string, s: BlockedSite, t2: int)
    requires HasRules(s) && 0 < s.ruleId <= WwwIdOffset
    requires s.unblockTime.Some? && 0 < s.unblockTime.value && 0 < t2 && t2 != s.unblockTime.value
    ensures var existing := DesiredRules(page, [s]);
      var edited := [s.(unblockTime := Some(t2))];
      SyncedRulesAsWritten(page, edited, existing) == existing &&
      SyncedRules(page, edited, existing) != existing
  {
    var e := s.(unblockTime := Some(t2));
    var existing := DesiredRules(page, [s]);
    SingleSiteRules(page, s);
    SingleSiteRules(page, e);
    DesiredIdsDistinct(page, [s]);
    DesiredPriorityOne(page, [s]);
    assert s == s.(unblockTime := Some(s.unblockTime.value));
    RedirectUrlDiffers(page, s.url, s, s.unblockTime.value, t2);
    LookupInstalled(existing, BareRule(page, s));
    assert BareRule(page, e) in DesiredRules(page, [e]) && NeedsAdd(existing, BareRule(page, e));
    AsWrittenKeepsStale(page, [e], existing);
    SyncedRulesInSync(page, [e], existing);
  }

  /** The installed rules are all priority 1 when they are in sync with a block list. */
  lemma InSyncPriorityOne(page: string, sites: seq<BlockedSite>, existing: seq<Rule>)
    requires InSync(existing, DesiredRules(page, sites))
    ensures AllPriorityOne(existing)
  {
    DesiredPriorityOne(page, sites);
  }

  /**
   * Starting in sync, the update the source sends after a site is spliced
   * out (an expired alarm, a deletion) brings the table back in sync.
   */
  lemma RemovalStaysInSync(page: string, sites: seq<BlockedSite>, k: nat, existing: seq<Rule>)
    requires InSync(existing, DesiredRules(page, sites)) && RuleIdsSeparated(sites) && k < |sites|
    ensures InSync(SyncedRulesAsWritten(page, RemoveAt(sites, k), existing), DesiredRules(page, RemoveAt(sites, k)))
  {
    forall r | r in DesiredRules(page, RemoveAt(sites, k)) ensures !NeedsAdd(existing, r) {
      RemainingDesired(page, sites, k, r);
      LookupInstalled(existing, r);
    }
    AsWrittenAgrees(page, RemoveAt(sites, k), existing);
    SeparatedRemoveAt(sites, k);
    InSyncPriorityOne(page, sites, existing);
    SyncedRulesInSync(page, RemoveAt(sites, k), existing);
  }

  /**
   * Starting in sync, the update the source sends after a site is appended
   * brings the table back in sync.
   */
  lemma AdditionStaysInSync(page: string, sites: seq<BlockedSite>, s: BlockedSite, existing: seq<Rule>)
    requires InSync(existing, DesiredRules(page, sites)) && RuleIdsSeparated(sites + [s])
    ensures InSync(SyncedRulesAsWritten(page, sites + [s], existing), DesiredRules(page, sites + [s]))
  {
    var before := DesiredRules(page, sites);
    DesiredRulesAppend(page, sites, [s]);
    DesiredSingle(page, s);
    if HasRules(s) {
      AppendedSiteFresh(page, sites, s, existing);
    }
    forall r | r in DesiredRules(page, sites + [s]) && Lookup(existing, r.id).Some? ensures !NeedsAdd(existing, r) {
      if r in before {
        LookupInstalled(existing, r);
      }
    }
    AsWrittenAgrees(page, sites + [s], existing);
    SeparatedPrefix(sites + [s], |sites|);
    assert (sites + [s])[..|sites|] == sites;
    InSyncPriorityOne(page, sites, existing);
    SyncedRulesInSync(page, sites + [s], existing);
  }

  /** `maxId` of background.js:183-186: the largest truthy rule id, or 0. */
  function MaxRuleId(sites: seq<BlockedSite>): int {
    if sites == [] then 0
    else
      var m := MaxRuleId(sites[..|sites| - 1]);
      var r := sites[|sites| - 1].ruleId;
      if r != 0 && r > m then r else m
  }

  /** `maxId` is at least 0, no site's rule id exceeds it, and it is 0 or some site's id. */
  lemma {:induction false} MaxRuleIdBound(sites: seq<BlockedSite>)
    ensures MaxRuleId(sites) >= 0
    ensures forall k :: 0 <= k < |sites| ==> sites[k].ruleId <= MaxRuleId(sites)
    ensures MaxRuleId(sites) == 0 || exists k :: 0 <= k < |sites| && sites[k].ruleId == MaxRuleId(sites)
  {
    if sites != [] {
      var n := |sites| - 1;
      var pre := sites[..n];
      MaxRuleIdBound(pre);
      assert forall k :: 0 <= k < n ==> sites[k] == pre[k];
    }
  }

  /** The forEach of background.js:183-186 and the `maxId + 1` stored after it. */
  method InitialNextRuleId(sites: seq<BlockedSite>) returns (next: int)
    ensures next == MaxRuleId(sites) + 1
  {
    var maxId := 0;
    for i := 0 to |sites|
      invariant maxId == MaxRuleId(sites[..i])
    {
      assert sites[..i + 1][..i] == sites[..i];
      var site := sites[i];
      if site.ruleId != 0 && site.ruleId > maxId {
        maxId := site.ruleId;
      }
    }
    assert sites[..|sites|] == sites;
    next := maxId + 1;
  }

  /** The counter set at install time is positive and above every rule id already in use. */
  lemma InitialNextRuleIdFresh(sites: seq<BlockedSite>)
    ensures MaxRuleId(sites) + 1 >= 1
    ensures forall k :: 0 <= k < |sites| ==> sites[k].ruleId < MaxRuleId(sites) + 1
  {
    MaxRuleIdBound(sites);
  }

  /** The block list after the alarm for `siteId`: the first site with that id spliced out, if there is one. */
  function AfterUnblock(sites: seq<BlockedSite>, siteId: string): Option<seq<BlockedSite>> {
    var k := FindIndex(sites, siteId);
    if k == -1 then None else Some(RemoveAt(sites, k))
  }

  /**
   * With unique site ids, unblocking drops exactly the site with that id, as
   * the popup's delete does; an unknown id leaves the list alone.
   */
  lemma AfterUnblockDropsSite(sites: seq<BlockedSite>, siteId: string)
    requires UniqueSiteIds(sites)
    ensures AfterUnblock(sites, siteId).None? <==> forall i :: 0 <= i < |sites| ==> sites[i].id != siteId
    ensures AfterUnblock(sites, siteId).Some? ==>
      AfterUnblock(sites, siteId).value == WithoutId(sites, siteId) &&
      |AfterUnblock(sites, siteId).value| == |sites| - 1
  {
    var k := FindIndex(sites, siteId);
    if k != -1 {
      SpliceIsFilter(sites, k, siteId);
    }
  }

  /**
   * The alarm listener: for an `unblock_` alarm whose site is still stored,
   * splice the site out, store the list, then update the rules and alarms.
   */
  method HandleAlarm(store: SyncStorage, table: RuleTable, registry: AlarmRegistry,
                     page: string, name: string, now: int)
    modifies store, table, registry
    ensures var sites := old(store.blockedSites).GetOr([]);
      var r := SiteIdOfAlarm(name);
      if r.Some? && AfterUnblock(sites, r.value).Some? then
        var remaining := AfterUnblock(sites, r.value).value;
        store.blockedSites == Some(remaining) &&
        store.nextRuleId == Some(CounterOr(old(store.nextRuleId), 1)) &&
        table.rules == SyncedRulesAsWritten(page, remaining, old(table.rules)) &&
        registry.alarms == ScheduledAlarms(remaining, now)
      else
        store.blockedSites == old(store.blockedSites) && store.nextRuleId == old(store.nextRuleId) &&
        table.rules == old(table.rules) && registry.alarms == old(registry.alarms)
  {
    if StartsWith(name, AlarmPrefix) {
      var siteId := name[|AlarmPrefix|..];
      var currentBlockedSites := store.blockedSites.GetOr([]);
      var nextRuleIdVal := if TruthyNumber(store.nextRuleId) then store.nextRuleId.value else 1;
      var siteIndex := FindIndex(currentBlockedSites, siteId);
      assert SiteIdOfAlarm(name) == Some(siteId);
      if siteIndex != -1 {
        currentBlockedSites := currentBlockedSites[..siteIndex] + currentBlockedSites[siteIndex + 1..];
        assert AfterUnblock(old(store.blockedSites).GetOr([]), siteId) == Some(currentBlockedSites);
        store.SetAll(currentBlockedSites, nextRuleIdVal);
        UpdateRules(table, page, currentBlockedSites);
        SetupAlarms(registry, currentBlockedSites, now);
      }
    }
  }

  /**
   * The message listener: `updateRulesAndAlarms` resyncs rules and alarms
   * to the list it carries and answers; anything else is not handled.
   */
  method HandleMessage(table: RuleTable, registry: AlarmRegistry, page: string, request: Request, now: int)
    returns (handled: bool, response: Option<Response>)
    modifies table, registry
    ensures handled <==> request.action == "updateRulesAndAlarms"
    ensures handled ==>
      table.rules == SyncedRulesAsWritten(page, request.blockedSites.GetOr([]), old(table.rules)) &&
      registry.alarms == ScheduledAlarms(request.blockedSites.GetOr([]), now) &&
      response == Some(Response("success", "Rules and alarms updated."))
    ensures !handled ==> table.rules == old(table.rules) && registry.alarms == old(registry.alarms) && response.None?
  {
    if request.action == "updateRulesAndAlarms" {
      var sites := request.blockedSites.GetOr([]);
      UpdateRules(table, page, sites);
      SetupAlarms(registry, sites, now);
      return true, Some(Response("success", "Rules and alarms updated."));
    }
    return false, None;
  }

  /**
   * The install listener: seed `nextRuleId` above every stored rule id when it
   * is missing or 0, then sync rules and alarms to the stored list.
   */
  method HandleInstalled(store: SyncStorage, table: RuleTable, registry: AlarmRegistry, page: string, now: int)
    modifies store, table, registry
    ensures store.blockedSites == old(store.blockedSites)
    ensures store.nextRuleId ==
      if TruthyNumber(old(store.nextRuleId)) then old(store.nextRuleId)
      else Some(MaxRuleId(old(store.blockedSites).GetOr([])) + 1)
    ensures table.rules == SyncedRulesAsWritten(page, old(store.blockedSites).GetOr([]), old(table.rules))
    ensures registry.alarms == ScheduledAlarms(old(store.blockedSites).GetOr([]), now)
  {
    var sites := store.blockedSites.GetOr([]);
    if !TruthyNumber(store.nextRuleId) {
      var next := InitialNextRuleId(sites);
      store.SetNextRuleId(next);
    }
    UpdateRules(table, page, sites);
    SetupAlarms(registry, sites, now);
  }
}
