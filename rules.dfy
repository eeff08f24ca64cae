/**
 * How the background worker keeps the dynamic redirect rules in step with
 * the block list: the rules each blocked site should have, and the diff
 * between those and the installed rules that is sent to the platform.
 */
module RuleSync {
  import opened Wrappers
  import opened Strings
  import opened Sites
  import opened Platform

  /** Added to a site's rule id to give the id of its `www.` rule. */
  const WwwIdOffset := 100000

  /** `site.isActive !== false && site.url && site.ruleId`: the site gets redirect rules. */
  predicate HasRules(s: BlockedSite) {
    IsActive(s) && s.url != "" && s.ruleId != 0
  }

  /** `${site.unblockTime || ''}`. */
  function UnblockTimeParam(t: Option<int>): string {
    if TruthyNumber(t) then IntToString(t.value) else ""
  }

  /** `${site.blockType || 'permanent'}`. */
  function BlockTypeParam(b: string): string {
    if b == "" then "permanent" else b
  }

  /** The blocked page, told which host was blocked, until when and how. */
  function RedirectUrl(page: string, host: string, s: BlockedSite): string {
    page + "?url=" + EncodeUriComponent(host) + "&unblockTime=" + UnblockTimeParam(s.unblockTime)
      + "&blockType=" + BlockTypeParam(s.blockType)
  }

  /** A priority-1 rule redirecting top-level loads of `host` to the blocked page. */
  function RedirectRule(page: string, host: string, id: int, s: BlockedSite): Rule {
    Rule(id, 1, RuleAction("redirect", RedirectUrl(page, host, s)),
         RuleCondition("*://" + host + "/*", ["main_frame"]))
  }

  /** The rule for the site's own host, under the site's rule id. */
  function BareRule(page: string, s: BlockedSite): Rule {
    RedirectRule(page, s.url, s.ruleId, s)
  }

  /** The rule for the `www.` host, under the offset id. */
  function WwwRule(page: string, s: BlockedSite): Rule {
    RedirectRule(page, "www." + s.url, s.ruleId + WwwIdOffset, s)
  }

  /** The rules the forEach pushes for one site. */
  function SiteRules(page: string, s: BlockedSite): seq<Rule> {
    if HasRules(s) then [BareRule(page, s), WwwRule(page, s)] else []
  }

  /** `rulesToAdd` after the forEach over the whole list. */
  function DesiredRules(page: string, sites: seq<BlockedSite>): seq<Rule> {
    if sites == [] then []
    else DesiredRules(page, sites[..|sites| - 1]) + SiteRules(page, sites[|sites| - 1])
  }

  /** The number of sites that get rules. */
  function RuledCount(sites: seq<BlockedSite>): nat {
    if sites == [] then 0
    else RuledCount(sites[..|sites| - 1]) + (if HasRules(sites[|sites| - 1]) then 1 else 0)
  }

  /** The forEach of background.js:19-47, building the desired rules in list order. */
  method BuildDesiredRules(page: string, sites: seq<BlockedSite>) returns (rulesToAdd: seq<Rule>)
    ensures rulesToAdd == DesiredRules(page, sites)
    ensures |rulesToAdd| == 2 * RuledCount(sites)
  {
    rulesToAdd := [];
    for i := 0 to |sites|
      invariant rulesToAdd == DesiredRules(page, sites[..i])
      invariant |rulesToAdd| == 2 * RuledCount(sites[..i])
    {
      DesiredPrefixStep(page, sites, i);
      ghost var before := rulesToAdd;
      var site := sites[i];
      if HasRules(site) {
        rulesToAdd := rulesToAdd + [BareRule(page, site)];
        rulesToAdd := rulesToAdd + [WwwRule(page, site)];
        assert rulesToAdd == before + SiteRules(page, site);
      }
    }
    assert sites[..|sites|] == sites;
  }

  /** One more site extends the desired rules by that site's rules. */
  lemma DesiredPrefixStep(page: string, sites: seq<BlockedSite>, i: nat)
    requires i < |sites|
    ensures DesiredRules(page, sites[..i + 1]) == DesiredRules(page, sites[..i]) + SiteRules(page, sites[i])
    ensures RuledCount(sites[..i + 1]) == RuledCount(sites[..i]) + if HasRules(sites[i]) then 1 else 0
  {
    assert sites[..i + 1][..i] == sites[..i];
  }

  /** The desired rules of a concatenation are those of its parts, in order. */
  lemma {:induction false} DesiredRulesAppend(page: string, a: seq<BlockedSite>, b: seq<BlockedSite>)
    ensures DesiredRules(page, a + b) == DesiredRules(page, a) + DesiredRules(page, b)
  {
    if b == [] {
      assert a + b == a;
    } else {
      var b' := b[..|b| - 1];
      assert (a + b)[..|a + b| - 1] == a + b';
      assert (a + b)[|a + b| - 1] == b[|b| - 1];
      DesiredRulesAppend(page, a, b');
    }
  }

  /** Each rule of a site that gets rules is desired. */
  lemma SiteRulesDesired(page: string, sites: seq<BlockedSite>, k: nat, r: Rule)
    requires k < |sites| && r in SiteRules(page, sites[k])
    ensures r in DesiredRules(page, sites)
  {
    SplitDesired(page, sites, k);
  }

  /** Each desired rule comes from some site of the list. */
  lemma {:induction false} DesiredRuleOrigin(page: string, sites: seq<BlockedSite>, r: Rule)
    requires r in DesiredRules(page, sites)
    ensures exists k :: 0 <= k < |sites| && r in SiteRules(page, sites[k])
  {
    var n := |sites| - 1;
    var pre := sites[..n];
    if r !in SiteRules(page, sites[n]) {
      DesiredRuleOrigin(page, pre, r);
      var k :| 0 <= k < |pre| && r in SiteRules(page, pre[k]);
      assert sites[k] == pre[k];
    }
  }

  /** A rule is desired exactly when it is one of the two rules of a site that gets rules. */
  lemma DesiredRulesMembers(page: string, sites: seq<BlockedSite>, r: Rule)
    ensures r in DesiredRules(page, sites) <==> exists k :: 0 <= k < |sites| && r in SiteRules(page, sites[k])
  {
    if r in DesiredRules(page, sites) {
      DesiredRuleOrigin(page, sites, r);
    }
    if exists k :: 0 <= k < |sites| && r in SiteRules(page, sites[k]) {
      var k :| 0 <= k < |sites| && r in SiteRules(page, sites[k]);
      SiteRulesDesired(page, sites, k, r);
    }
  }

  /**
   * Every desired rule is a priority-1 redirect of top-level loads, for the
   * bare host of some ruled site under its rule id or for its `www.` host
   * under the offset id, to the blocked page told that host, the unblock
   * time and the block type.
   */
  lemma DesiredRuleShape(page: string, sites: seq<BlockedSite>, r: Rule)
    requires r in DesiredRules(page, sites)
    ensures r.priority == 1 && r.action.kind == "redirect" && r.condition.resourceTypes == ["main_frame"]
    ensures exists k :: (0 <= k < |sites| && HasRules(sites[k]) &&
      (r.id == sites[k].ruleId || r.id == sites[k].ruleId + WwwIdOffset) &&
      var host := if r.id == sites[k].ruleId then sites[k].url else "www." + sites[k].url;
      r.condition.urlFilter == "*://" + host + "/*" &&
      r.action.redirectUrl == page + "?url=" + EncodeUriComponent(host) + "&unblockTime="
        + UnblockTimeParam(sites[k].unblockTime) + "&blockType=" + BlockTypeParam(sites[k].blockType))
  {
    DesiredRulesMembers(page, sites, r);
    var k :| 0 <= k < |sites| && r in SiteRules(page, sites[k]);
    SiteRuleShape(page, sites[k], r);
  }

  /**
   * The two rules of a ruled site: the bare host under the rule id and the
   * `www.` host under the offset id, each redirecting to the blocked page.
   */
  lemma SiteRuleShape(page: string, s: BlockedSite, r: Rule)
    requires r in SiteRules(page, s)
    ensures r.priority == 1 && r.action.kind == "redirect" && r.condition.resourceTypes == ["main_frame"]
    ensures HasRules(s) && (r.id == s.ruleId || r.id == s.ruleId + WwwIdOffset)
    ensures var host := if r.id == s.ruleId then s.url else "www." + s.url;
      r.condition.urlFilter == "*://" + host + "/*" &&
      r.action.redirectUrl == page + "?url=" + EncodeUriComponent(host) + "&unblockTime="
        + UnblockTimeParam(s.unblockTime) + "&blockType=" + BlockTypeParam(s.blockType)
  {
    assert r == BareRule(page, s) || r == WwwRule(page, s);
  }

  /**
   * Rule ids as the popup hands them out: every site with rules has an id in
   * 1..100000 and no two such sites share one.
   */
  predicate RuleIdsSeparated(sites: seq<BlockedSite>) {
    (forall k :: 0 <= k < |sites| && HasRules(sites[k]) ==> 0 < sites[k].ruleId <= WwwIdOffset) &&
    (forall i, j :: 0 <= i < j < |sites| && HasRules(sites[i]) && HasRules(sites[j]) ==>
       sites[i].ruleId != sites[j].ruleId)
  }

  /** The ids of one site's rules: its rule id and the offset one, or none. */
  lemma SiteRuleIds(page: string, s: BlockedSite)
    ensures Ids(SiteRules(page, s)) == if HasRules(s) then [s.ruleId, s.ruleId + WwwIdOffset] else []
  {
  }

  /** Each desired id is the rule id, or the offset rule id, of a site that gets rules. */
  lemma DesiredIdOrigin(page: string, sites: seq<BlockedSite>, x: int)
    requires x in Ids(DesiredRules(page, sites))
    ensures exists k :: 0 <= k < |sites| && HasRules(sites[k]) && (x == sites[k].ruleId || x == sites[k].ruleId + WwwIdOffset)
  {
    IdsMember(DesiredRules(page, sites), x);
    var r :| r in DesiredRules(page, sites) && r.id == x;
    DesiredRuleOrigin(page, sites, r);
    var k :| 0 <= k < |sites| && r in SiteRules(page, sites[k]);
    SiteRuleIds(page, sites[k]);
    IdsMember(SiteRules(page, sites[k]), x);
  }

  /** A prefix of a separated list is separated. */
  lemma SeparatedPrefix(sites: seq<BlockedSite>, n: nat)
    requires n <= |sites| && RuleIdsSeparated(sites)
    ensures RuleIdsSeparated(sites[..n])
  {
    assert forall k :: 0 <= k < n ==> sites[..n][k] == sites[k];
  }

  /** The last site's ids are not among the ids of the sites before it. */
  lemma LastIdsFresh(page: string, sites: seq<BlockedSite>, x: int)
    requires RuleIdsSeparated(sites) && sites != []
    requires x in Ids(DesiredRules(page, sites[..|sites| - 1]))
    ensures x !in Ids(SiteRules(page, sites[|sites| - 1]))
  {
    var n := |sites| - 1;
    var pre := sites[..n];
    DesiredIdOrigin(page, pre, x);
    var k :| 0 <= k < n && HasRules(pre[k]) && (x == pre[k].ruleId || x == pre[k].ruleId + WwwIdOffset);
    assert pre[k] == sites[k];
    SiteRuleIds(page, sites[n]);
  }

  /** Separated site ids keep the bare and `www.` rule ids from colliding. */
  lemma {:induction false} DesiredIdsDistinct(page: string, sites: seq<BlockedSite>)
    requires RuleIdsSeparated(sites)
    ensures DistinctIds(DesiredRules(page, sites))
  {
    if sites != [] {
      var n := |sites| - 1;
      var pre := sites[..n];
      var s := sites[n];
      var before := DesiredRules(page, pre);
      SeparatedPrefix(sites, n);
      DesiredIdsDistinct(page, pre);
      IdsAppend(before, SiteRules(page, s));
      SiteRuleIds(page, s);
      forall x | x in Ids(before) ensures x !in Ids(SiteRules(page, s)) {
        LastIdsFresh(page, sites, x);
      }
      DistinctAppend(Ids(before), Ids(SiteRules(page, s)));
    }
  }

  /** `currentRuleMap.get(id)`: a Map built from the list keeps the last rule with each id. */
  function Lookup(rules: seq<Rule>, id: int): (r: Option<Rule>)
    ensures r.Some? ==> r.value in rules && r.value.id == id
    ensures r.None? <==> forall i :: 0 <= i < |rules| ==> rules[i].id != id
  {
    if rules == [] then None
    else if rules[|rules| - 1].id == id then Some(rules[|rules| - 1])
    else Lookup(rules[..|rules| - 1], id)
  }

  /** With distinct ids, looking up an installed rule's id finds that rule. */
  lemma LookupInstalled(rules: seq<Rule>, r: Rule)
    requires DistinctIds(rules) && r in rules
    ensures Lookup(rules, r.id) == Some(r)
  {
    var e := Lookup(rules, r.id);
    if e.Some? {
      DistinctIdsUnique(rules, e.value, r);
    }
  }

  /** The test of background.js:58: no installed rule has the id, or its action or condition differs. */
  predicate NeedsAdd(existing: seq<Rule>, r: Rule) {
    var e := Lookup(existing, r.id);
    e.None? || e.value.action != r.action || e.value.condition != r.condition
  }

  /** `finalRulesToAdd`: the desired rules that are missing or changed, in order. */
  function AddList(desired: seq<Rule>, existing: seq<Rule>): (add: seq<Rule>)
    ensures forall r :: r in add <==> r in desired && NeedsAdd(existing, r)
  {
    if desired == [] then []
    else
      var last := desired[|desired| - 1];
      AddList(desired[..|desired| - 1], existing) + (if NeedsAdd(existing, last) then [last] else [])
  }

  /** The desired rules that are installed unchanged, in order. */
  function UnchangedRules(desired: seq<Rule>, existing: seq<Rule>): (same: seq<Rule>)
    ensures forall r :: r in same <==> r in desired && !NeedsAdd(existing, r)
  {
    if desired == [] then []
    else
      var last := desired[|desired| - 1];
      UnchangedRules(desired[..|desired| - 1], existing) + (if NeedsAdd(existing, last) then [] else [last])
  }

  /** `xs.indexOf(x)`: the first index holding `x`, or -1. */
  function IndexOf(xs: seq<int>, x: int): (k: int)
    ensures -1 <= k < |xs|
    ensures k == -1 <==> x !in xs
    ensures k >= 0 ==> xs[k] == x && x !in xs[..k]
  {
    if xs == [] then -1
    else if xs[0] == x then 0
    else
      var k := IndexOf(xs[1..], x);
      assert k >= 0 ==> xs[..k + 1] == [xs[0]] + xs[1..][..k];
      if k == -1 then -1 else k + 1
  }

  /** background.js:62-65: splice out the first occurrence of `x`, if there is one. */
  function RemoveFirst(xs: seq<int>, x: int): seq<int> {
    var i := IndexOf(xs, x);
    if i > -1 then xs[..i] + xs[i + 1..] else xs
  }

  /** Splicing removes one occurrence of `x`, and only that. */
  lemma RemoveFirstCount(xs: seq<int>, x: int)
    ensures multiset(RemoveFirst(xs, x)) == multiset(xs) - multiset{x}
  {
    var i := IndexOf(xs, x);
    if i > -1 {
      assert xs == xs[..i] + [xs[i]] + xs[i + 1..];
    }
  }

  /** Splice out one occurrence of each of `ds`, in order. */
  function RemoveEach(xs: seq<int>, ds: seq<int>): seq<int> {
    if ds == [] then xs
    else RemoveFirst(RemoveEach(xs, ds[..|ds| - 1]), ds[|ds| - 1])
  }

  lemma LastSplit(ds: seq<int>)
    requires ds != []
    ensures multiset(ds) == multiset(ds[..|ds| - 1]) + multiset{ds[|ds| - 1]}
  {
    assert ds == ds[..|ds| - 1] + [ds[|ds| - 1]];
  }

  lemma MultisetMinusTwice(m: multiset<int>, a: multiset<int>, b: multiset<int>)
    ensures (m - a) - b == m - (a + b)
  {
    forall x ensures ((m - a) - b)[x] == (m - (a + b))[x] {
    }
    assert (m - a) - b == m - (a + b);
  }

  /** The removals take exactly the multiset difference: one occurrence per listed id, if present. */
  lemma {:induction false} RemoveEachCount(xs: seq<int>, ds: seq<int>)
    ensures multiset(RemoveEach(xs, ds)) == multiset(xs) - multiset(ds)
  {
    if ds != [] {
      var init, d := ds[..|ds| - 1], ds[|ds| - 1];
      RemoveEachCount(xs, init);
      RemoveFirstCount(RemoveEach(xs, init), d);
      LastSplit(ds);
      MultisetMinusTwice(multiset(xs), multiset(init), multiset{d});
    }
  }

  /** The multiset view of `RemoveEach` on a list without repetitions: plain set difference. */
  lemma RemoveEachDistinctMembers(xs: seq<int>, ds: seq<int>, x: int)
    requires Distinct(xs)
    ensures x in RemoveEach(xs, ds) <==> x in xs && x !in ds
  {
    DistinctCount(xs, x);
    RemoveEachCount(xs, ds);
    assert x in RemoveEach(xs, ds) <==> x in multiset(RemoveEach(xs, ds));
  }

  /** Removing every element of a list without repetitions leaves nothing. */
  lemma RemoveEachCovered(xs: seq<int>, ds: seq<int>)
    requires Distinct(xs) && forall x :: x in xs ==> x in ds
    ensures RemoveEach(xs, ds) == []
  {
    var r := RemoveEach(xs, ds);
    if r != [] {
      RemoveEachDistinctMembers(xs, ds, r[0]);
    }
  }

  /** `finalRuleIdsToRemove` as background.js:54-66 leave it: one occurrence of every desired id spliced out. */
  function AsWrittenRemoveList(existing: seq<Rule>, desired: seq<Rule>): seq<int> {
    RemoveEach(Ids(existing), Ids(desired))
  }

  /** The corrected removal list: only the ids of rules installed unchanged are spared. */
  function RemoveList(existing: seq<Rule>, desired: seq<Rule>): seq<int> {
    RemoveEach(Ids(existing), Ids(UnchangedRules(desired, existing)))
  }

  lemma AddListStep(desired: seq<Rule>, existing: seq<Rule>, i: nat)
    requires i < |desired|
    ensures AddList(desired[..i + 1], existing) ==
      AddList(desired[..i], existing) + (if NeedsAdd(existing, desired[i]) then [desired[i]] else [])
  {
    assert desired[..i + 1][..i] == desired[..i];
  }

  lemma UnchangedStep(desired: seq<Rule>, existing: seq<Rule>, i: nat)
    requires i < |desired|
    ensures UnchangedRules(desired[..i + 1], existing) ==
      UnchangedRules(desired[..i], existing) + (if NeedsAdd(existing, desired[i]) then [] else [desired[i]])
  {
    assert desired[..i + 1][..i] == desired[..i];
  }

  lemma RemoveStep(xs: seq<int>, rules: seq<Rule>, r: Rule)
    ensures RemoveEach(xs, Ids(rules + [r])) == RemoveFirst(RemoveEach(xs, Ids(rules)), r.id)
  {
    var ids := Ids(rules + [r]);
    assert ids[..|ids| - 1] == Ids(rules) by {
      IdsAppend(rules, [r]);
    }
    assert ids[|ids| - 1] == r.id;
  }

  lemma RemovePrefixStep(xs: seq<int>, rules: seq<Rule>, i: nat)
    requires i < |rules|
    ensures RemoveEach(xs, Ids(rules[..i + 1])) == RemoveFirst(RemoveEach(xs, Ids(rules[..i])), rules[i].id)
  {
    assert rules[..i + 1] == rules[..i] + [rules[i]];
    RemoveStep(xs, rules[..i], rules[i]);
  }

  lemma UnchangedRemoveStep(xs: seq<int>, desired: seq<Rule>, existing: seq<Rule>, i: nat)
    requires i < |desired|
    ensures var before := RemoveEach(xs, Ids(UnchangedRules(desired[..i], existing)));
      RemoveEach(xs, Ids(UnchangedRules(desired[..i + 1], existing))) ==
        if NeedsAdd(existing, desired[i]) then before else RemoveFirst(before, desired[i].id)
  {
    var same := UnchangedRules(desired[..i], existing);
    UnchangedStep(desired, existing, i);
    if NeedsAdd(existing, desired[i]) {
      assert UnchangedRules(desired[..i + 1], existing) == same + [];
      assert same + [] == same;
    } else {
      assert UnchangedRules(desired[..i + 1], existing) == same + [desired[i]];
      RemoveStep(xs, same, desired[i]);
    }
  }

  /** background.js:62-65: `indexOf` the id and `splice` it out when it is there. */
  method SpliceOut(ids: seq<int>, id: int) returns (r: seq<int>)
    ensures r == RemoveFirst(ids, id)
  {
    r := ids;
    var indexToRemove := IndexOf(r, id);
    if indexToRemove > -1 {
      r := r[..indexToRemove] + r[indexToRemove + 1..];
    }
  }

  /** `updateDeclarativeNetRequestRules` up to the update call, exactly as the loop of background.js:49-68 is written. */
  method ReconcileAsWritten(page: string, sites: seq<BlockedSite>, existing: seq<Rule>)
    returns (toAdd: seq<Rule>, toRemove: seq<int>, update: bool)
    ensures toAdd == AddList(DesiredRules(page, sites), existing)
    ensures toRemove == AsWrittenRemoveList(existing, DesiredRules(page, sites))
    ensures update <==> toRemove != [] || toAdd != []
  {
    var rulesToAdd := BuildDesiredRules(page, sites);
    toAdd := [];
    toRemove := Ids(existing);
    for i := 0 to |rulesToAdd|
      invariant toAdd == AddList(rulesToAdd[..i], existing)
      invariant toRemove == RemoveEach(Ids(existing), Ids(rulesToAdd[..i]))
    {
      var newRule := rulesToAdd[i];
      AddListStep(rulesToAdd, existing, i);
      RemovePrefixStep(Ids(existing), rulesToAdd, i);
      var existingRule := Lookup(existing, newRule.id);
      if existingRule.None? || existingRule.value.action != newRule.action || existingRule.value.condition != newRule.condition {
        toAdd := toAdd + [newRule];
      }
      toRemove := SpliceOut(toRemove, newRule.id);
    }
    assert rulesToAdd[..|rulesToAdd|] == rulesToAdd;
    update := |toRemove| > 0 || |toAdd| > 0;
  }

  /**
   * The same loop with the evident intent kept: a rule that is re-added
   * because it changed keeps its id on the removal list, so the old rule
   * goes out in the same update the new one comes in.
   */
  method Reconcile(page: string, sites: seq<BlockedSite>, existing: seq<Rule>)
    returns (toAdd: seq<Rule>, toRemove: seq<int>, update: bool)
    ensures toAdd == AddList(DesiredRules(page, sites), existing)
    ensures toRemove == RemoveList(existing, DesiredRules(page, sites))
    ensures update <==> toRemove != [] || toAdd != []
  {
    var rulesToAdd := BuildDesiredRules(page, sites);
    toAdd := [];
    toRemove := Ids(existing);
    for i := 0 to |rulesToAdd|
      invariant toAdd == AddList(rulesToAdd[..i], existing)
      invariant toRemove == RemoveEach(Ids(existing), Ids(UnchangedRules(rulesToAdd[..i], existing)))
    {
      var newRule := rulesToAdd[i];
      AddListStep(rulesToAdd, existing, i);
      UnchangedRemoveStep(Ids(existing), rulesToAdd, existing, i);
      var existingRule := Lookup(existing, newRule.id);
      if existingRule.None? || existingRule.value.action != newRule.action || existingRule.value.condition != newRule.condition {
        toAdd := toAdd + [newRule];
      } else {
        toRemove := SpliceOut(toRemove, newRule.id);
      }
    }
    assert rulesToAdd[..|rulesToAdd|] == rulesToAdd;
    update := |toRemove| > 0 || |toAdd| > 0;
  }

  /** The installed rules are exactly the desired ones, with no id installed twice. */
  predicate InSync(installed: seq<Rule>, desired: seq<Rule>) {
    DistinctIds(installed) &&
    (forall r :: r in installed ==> r in desired) &&
    (forall r :: r in desired ==> r in installed)
  }

  /** Every rule carries priority 1, as every rule this extension writes does. */
  predicate AllPriorityOne(rules: seq<Rule>) {
    forall r :: r in rules ==> r.priority == 1
  }

  /** Removing rules from a table without id clashes leaves one without id clashes. */
  lemma {:induction false} KeepDistinct(rules: seq<Rule>, removeIds: seq<int>)
    requires DistinctIds(rules)
    ensures DistinctIds(Keep(rules, removeIds))
  {
    if rules != [] {
      var head := if rules[0].id in removeIds then [] else [rules[0]];
      var rest := rules[1..];
      assert rules == [rules[0]] + rest;
      IdsAppend([rules[0]], rest);
      DistinctAppend(Ids([rules[0]]), Ids(rest));
      KeepDistinct(rest, removeIds);
      IdsAppend(head, Keep(rest, removeIds));
      forall x | x in Ids(head) ensures x !in Ids(Keep(rest, removeIds)) {
        IdsMember(Keep(rest, removeIds), x);
        IdsMember(rest, x);
      }
      DistinctAppend(Ids(head), Ids(Keep(rest, removeIds)));
    }
  }

  /** A selection of desired rules without id clashes has none either. */
  lemma {:induction false} AddListDistinct(desired: seq<Rule>, existing: seq<Rule>)
    requires DistinctIds(desired)
    ensures DistinctIds(AddList(desired, existing))
  {
    if desired != [] {
      var n := |desired| - 1;
      var pre, last := desired[..n], desired[n];
      var tail := if NeedsAdd(existing, last) then [last] else [];
      assert desired == pre + [last];
      IdsAppend(pre, [last]);
      DistinctAppend(Ids(pre), Ids([last]));
      AddListDistinct(pre, existing);
      IdsAppend(AddList(pre, existing), tail);
      forall x | x in Ids(AddList(pre, existing)) ensures x !in Ids(tail) {
        IdsMember(AddList(pre, existing), x);
        IdsMember(pre, x);
      }
      DistinctAppend(Ids(AddList(pre, existing)), Ids(tail));
    }
  }

  /** Nothing is added when every desired rule is installed unchanged. */
  lemma {:induction false} NoneNeedAdd(desired: seq<Rule>, existing: seq<Rule>)
    requires forall r :: r in desired ==> !NeedsAdd(existing, r)
    ensures AddList(desired, existing) == []
  {
    if desired != [] {
      var n := |desired| - 1;
      assert forall r :: r in desired[..n] ==> r in desired;
      assert desired[n] in desired;
      NoneNeedAdd(desired[..n], existing);
    }
  }

  /** When the installed rules already are the desired ones, neither version of the diff asks for anything. */
  lemma NothingToDoWhenInSync(existing: seq<Rule>, desired: seq<Rule>)
    requires InSync(existing, desired)
    ensures AddList(desired, existing) == []
    ensures RemoveList(existing, desired) == []
    ensures AsWrittenRemoveList(existing, desired) == []
  {
    forall r | r in desired ensures !NeedsAdd(existing, r) {
      LookupInstalled(existing, r);
    }
    NoneNeedAdd(desired, existing);
    var same := UnchangedRules(desired, existing);
    forall x | x in Ids(existing) ensures x in Ids(same) && x in Ids(desired) {
      IdsMember(existing, x);
      IdsMember(same, x);
      IdsMember(desired, x);
    }
    RemoveEachCovered(Ids(existing), Ids(same));
    RemoveEachCovered(Ids(existing), Ids(desired));
  }

  /** An installed rule survives the corrected removals exactly when it is a desired rule installed unchanged. */
  lemma KeptAreUnchanged(existing: seq<Rule>, desired: seq<Rule>, e: Rule)
    requires DistinctIds(existing) && AllPriorityOne(existing) && AllPriorityOne(desired)
    ensures e in Keep(existing, RemoveList(existing, desired)) <==> e in UnchangedRules(desired, existing)
  {
    var same := UnchangedRules(desired, existing);
    RemoveEachDistinctMembers(Ids(existing), Ids(same), e.id);
    IdsMember(existing, e.id);
    IdsMember(same, e.id);
    if e in existing && e.id in Ids(same) {
      var u :| u in same && u.id == e.id;
      var l := Lookup(existing, u.id);
      DistinctIdsUnique(existing, l.value, e);
    }
    if e in same {
      var l := Lookup(existing, e.id);
      assert l.value == e;
    }
  }

  /**
   * The corrected diff is accepted by the platform and leaves exactly the
   * desired rules installed.
   */
  lemma ReconcileEstablishesDesired(existing: seq<Rule>, desired: seq<Rule>)
    requires DistinctIds(existing) && DistinctIds(desired)
    requires AllPriorityOne(existing) && AllPriorityOne(desired)
    ensures UpdateAccepted(Keep(existing, RemoveList(existing, desired)), AddList(desired, existing))
    ensures InSync(Keep(existing, RemoveList(existing, desired)) + AddList(desired, existing), desired)
  {
    var kept := Keep(existing, RemoveList(existing, desired));
    var add := AddList(desired, existing);
    var same := UnchangedRules(desired, existing);
    forall e ensures e in kept <==> e in same {
      KeptAreUnchanged(existing, desired, e);
    }
    KeepDistinct(existing, RemoveList(existing, desired));
    AddListDistinct(desired, existing);
    forall x | x in Ids(kept) ensures x !in Ids(add) {
      IdsMember(kept, x);
      IdsMember(add, x);
      if x in Ids(add) {
        var k :| k in kept && k.id == x;
        var a :| a in add && a.id == x;
        DistinctIdsUnique(desired, k, a);
      }
    }
    forall i | 0 <= i < |add| ensures add[i].id !in Ids(kept) {
      assert Ids(add)[i] == add[i].id;
    }
    IdsAppend(kept, add);
    DistinctAppend(Ids(kept), Ids(add));
  }

  /** Every desired rule has priority 1. */
  lemma DesiredPriorityOne(page: string, sites: seq<BlockedSite>)
    ensures AllPriorityOne(DesiredRules(page, sites))
  {
    forall r | r in DesiredRules(page, sites) ensures r.priority == 1 {
      DesiredRuleShape(page, sites, r);
    }
  }

  /** Once the corrected diff has been applied, running it again finds nothing to do. */
  lemma ReconcileTwiceIsNoOp(existing: seq<Rule>, desired: seq<Rule>)
    requires DistinctIds(existing) && DistinctIds(desired)
    requires AllPriorityOne(existing) && AllPriorityOne(desired)
    ensures var installed := Keep(existing, RemoveList(existing, desired)) + AddList(desired, existing);
      AddList(desired, installed) == [] && RemoveList(installed, desired) == []
  {
    ReconcileEstablishesDesired(existing, desired);
    NothingToDoWhenInSync(Keep(existing, RemoveList(existing, desired)) + AddList(desired, existing), desired);
  }

  /**
   * As written, a desired rule that is installed under its id but with a
   * different action or condition is added while its id is spared from the
   * removals, so the update repeats an installed id and is rejected.
   */
  lemma AsWrittenRejectsChangedRule(existing: seq<Rule>, desired: seq<Rule>, r: Rule)
    requires DistinctIds(existing) && r in desired
    requires Lookup(existing, r.id).Some? && NeedsAdd(existing, r)
    ensures !UpdateAccepted(Keep(existing, AsWrittenRemoveList(existing, desired)), AddList(desired, existing))
  {
    var kept := Keep(existing, AsWrittenRemoveList(existing, desired));
    var add := AddList(desired, existing);
    var e := Lookup(existing, r.id).value;
    IdsMember(desired, r.id);
    RemoveEachDistinctMembers(Ids(existing), Ids(desired), r.id);
    assert e in kept;
    IdsMember(kept, r.id);
    var i :| 0 <= i < |add| && add[i] == r;
  }

  /** No desired rule is installed under its id with a different action or condition. */
  predicate NoChangedRule(existing: seq<Rule>, desired: seq<Rule>) {
    forall r :: r in desired && Lookup(existing, r.id).Some? ==> !NeedsAdd(existing, r)
  }

  /** `Keep` looks only at which of the table's ids are listed. */
  lemma {:induction false} KeepSameMembers(rules: seq<Rule>, a: seq<int>, b: seq<int>)
    requires forall r :: r in rules ==> (r.id in a <==> r.id in b)
    ensures Keep(rules, a) == Keep(rules, b)
  {
    if rules != [] {
      assert forall r :: r in rules[1..] ==> r in rules;
      KeepSameMembers(rules[1..], a, b);
    }
  }

  /**
   * Unless a desired rule changed under an installed id, the removals the
   * source computes keep the same rules as the corrected ones, and one list
   * is empty exactly when the other is.
   */
  lemma AsWrittenMatchesCorrected(existing: seq<Rule>, desired: seq<Rule>)
    requires DistinctIds(existing) && NoChangedRule(existing, desired)
    ensures Keep(existing, AsWrittenRemoveList(existing, desired)) == Keep(existing, RemoveList(existing, desired))
    ensures AsWrittenRemoveList(existing, desired) == [] <==> RemoveList(existing, desired) == []
  {
    var xs := Ids(existing);
    var same := UnchangedRules(desired, existing);
    var asWritten, corrected := AsWrittenRemoveList(existing, desired), RemoveList(existing, desired);
    forall x | x in xs ensures x in Ids(desired) <==> x in Ids(same) {
      IdsMember(existing, x);
      IdsMember(desired, x);
      IdsMember(same, x);
      if x in Ids(desired) {
        var r :| r in desired && r.id == x;
        assert Lookup(existing, x).Some?;
      }
    }
    forall x ensures x in asWritten <==> x in corrected {
      RemoveEachDistinctMembers(xs, Ids(desired), x);
      RemoveEachDistinctMembers(xs, Ids(same), x);
    }
    forall r | r in existing ensures r.id in asWritten <==> r.id in corrected {
    }
    KeepSameMembers(existing, asWritten, corrected);
    if asWritten != [] {
      assert asWritten[0] in corrected;
    }
    if corrected != [] {
      assert corrected[0] in asWritten;
    }
  }

  /** Dropping a site from a separated list leaves it separated. */
  lemma SeparatedRemoveAt(sites: seq<BlockedSite>, k: nat)
    requires k < |sites| && RuleIdsSeparated(sites)
    ensures RuleIdsSeparated(RemoveAt(sites, k))
  {
    var r := RemoveAt(sites, k);
    forall i, j | 0 <= i < j < |r| && HasRules(r[i]) && HasRules(r[j]) ensures r[i].ruleId != r[j].ruleId {
      var i', j' := if i < k then i else i + 1, if j < k then j else j + 1;
      assert r[i] == sites[i'] && r[j] == sites[j'];
    }
    forall i | 0 <= i < |r| && HasRules(r[i]) ensures 0 < r[i].ruleId <= WwwIdOffset {
      assert r[i] == sites[if i < k then i else i + 1];
    }
  }

  lemma MiddleDiffers(p: string, a: string, b: string, c: string, d: string)
    requires a != b
    ensures p + a + c + d != p + b + c + d
  {
    if |a| == |b| {
      assert (p + a + c + d)[|p|..|p| + |a|] == a;
      assert (p + b + c + d)[|p|..|p| + |b|] == b;
    }
  }

  /** Distinct positive unblock instants give distinct redirect URLs. */
  lemma RedirectUrlDiffers(page: string, host: string, s: BlockedSite, t1: int, t2: int)
    requires 0 < t1 && 0 < t2 && t1 != t2
    ensures RedirectUrl(page, host, s.(unblockTime := Some(t1))) != RedirectUrl(page, host, s.(unblockTime := Some(t2)))
  {
    DigitsValueOfNatToString(t1);
    DigitsValueOfNatToString(t2);
    MiddleDiffers(page + "?url=" + EncodeUriComponent(host) + "&unblockTime=",
      NatToString(t1), NatToString(t2), "&blockType=", BlockTypeParam(s.blockType));
  }

  lemma SingleSiteRules(page: string, s: BlockedSite)
    requires HasRules(s)
    ensures DesiredRules(page, [s]) == [BareRule(page, s), WwwRule(page, s)]
  {
    assert [s][..0] == [];
  }

  /**
   * Editing a blocked site's unblock time keeps its rule id and changes its
   * redirect; the update the source sends for it is rejected, the corrected
   * one is accepted.
   */
  lemma EditedSiteUpdate(page: string, s: BlockedSite, t2: int)
    requires HasRules(s) && 0 < s.ruleId <= WwwIdOffset
    requires s.unblockTime.Some? && 0 < s.unblockTime.value && 0 < t2 && t2 != s.unblockTime.value
    ensures var existing := DesiredRules(page, [s]);
      var desired := DesiredRules(page, [s.(unblockTime := Some(t2))]);
      !UpdateAccepted(Keep(existing, AsWrittenRemoveList(existing, desired)), AddList(desired, existing)) &&
      UpdateAccepted(Keep(existing, RemoveList(existing, desired)), AddList(desired, existing))
  {
    var edited := s.(unblockTime := Some(t2));
    var existing := DesiredRules(page, [s]);
    var desired := DesiredRules(page, [edited]);
    SingleSiteRules(page, s);
    SingleSiteRules(page, edited);
    DesiredIdsDistinct(page, [s]);
    DesiredIdsDistinct(page, [edited]);
    LookupInstalled(existing, BareRule(page, s));
    assert s == s.(unblockTime := Some(s.unblockTime.value));
    RedirectUrlDiffers(page, s.url, s, s.unblockTime.value, t2);
    assert NeedsAdd(existing, BareRule(page, edited));
    AsWrittenRejectsChangedRule(existing, desired, BareRule(page, edited));
    DesiredPriorityOne(page, [s]);
    DesiredPriorityOne(page, [edited]);
    ReconcileEstablishesDesired(existing, desired);
  }

  lemma {:induction false} AddListAppend(a: seq<Rule>, b: seq<Rule>, existing: seq<Rule>)
    ensures AddList(a + b, existing) == AddList(a, existing) + AddList(b, existing)
  {
    if b == [] {
      assert a + b == a;
    } else {
      var n := |b| - 1;
      var ab := a + b;
      var tail := if NeedsAdd(existing, b[n]) then [b[n]] else [];
      assert ab[..|ab| - 1] == a + b[..n] && ab[|ab| - 1] == b[n];
      AddListLast(ab, existing);
      AddListLast(b, existing);
      AddListAppend(a, b[..n], existing);
      assert (AddList(a, existing) + AddList(b[..n], existing)) + tail ==
        AddList(a, existing) + (AddList(b[..n], existing) + tail);
    }
  }

  /** The add list grows by the last desired rule when that one needs adding. */
  lemma AddListLast(desired: seq<Rule>, existing: seq<Rule>)
    requires desired != []
    ensures var n := |desired| - 1;
      AddList(desired, existing) ==
        AddList(desired[..n], existing) + if NeedsAdd(existing, desired[n]) then [desired[n]] else []
  {
  }

  lemma AddListPair(r1: Rule, r2: Rule, existing: seq<Rule>)
    requires NeedsAdd(existing, r1) && NeedsAdd(existing, r2)
    ensures AddList([r1, r2], existing) == [r1, r2]
  {
    assert [r1, r2][..1] == [r1];
    assert [r1][..0] == [];
    assert AddList([r1], existing) == AddList([], existing) + [r1];
    assert AddList([r1, r2], existing) == AddList([r1], existing) + [r2];
  }

  lemma DesiredSingle(page: string, s: BlockedSite)
    ensures DesiredRules(page, [s]) == SiteRules(page, s)
  {
    assert [s][..0] == [];
  }

  /** The desired rules around one site of the list, and those once it is spliced out. */
  lemma SplitDesired(page: string, sites: seq<BlockedSite>, k: nat)
    requires k < |sites|
    ensures DesiredRules(page, sites) ==
      DesiredRules(page, sites[..k]) + SiteRules(page, sites[k]) + DesiredRules(page, sites[k + 1..])
    ensures DesiredRules(page, RemoveAt(sites, k)) ==
      DesiredRules(page, sites[..k]) + DesiredRules(page, sites[k + 1..])
  {
    assert sites == sites[..k] + [sites[k]] + sites[k + 1..];
    DesiredRulesAppend(page, sites[..k] + [sites[k]], sites[k + 1..]);
    DesiredRulesAppend(page, sites[..k], [sites[k]]);
    DesiredSingle(page, sites[k]);
    DesiredRulesAppend(page, sites[..k], sites[k + 1..]);
  }

  /** The rules of an appended site are the last two desired rules, and their ids are not yet installed. */
  lemma AppendedSiteFresh(page: string, sites: seq<BlockedSite>, s: BlockedSite, existing: seq<Rule>)
    requires InSync(existing, DesiredRules(page, sites))
    requires RuleIdsSeparated(sites + [s]) && HasRules(s)
    ensures DesiredRules(page, sites + [s]) == DesiredRules(page, sites) + [BareRule(page, s), WwwRule(page, s)]
    ensures NeedsAdd(existing, BareRule(page, s)) && NeedsAdd(existing, WwwRule(page, s))
    ensures Lookup(existing, BareRule(page, s).id).None? && Lookup(existing, WwwRule(page, s).id).None?
  {
    assert (sites + [s])[..|sites|] == sites;
    AppendedIdsFresh(page, sites, s, existing);
  }

  /** No installed rule carries either id of an appended site. */
  lemma AppendedIdsFresh(page: string, sites: seq<BlockedSite>, s: BlockedSite, existing: seq<Rule>)
    requires InSync(existing, DesiredRules(page, sites))
    requires RuleIdsSeparated(sites + [s]) && HasRules(s)
    requires DesiredRules(page, sites + [s]) == DesiredRules(page, sites) + [BareRule(page, s), WwwRule(page, s)]
    ensures forall e :: e in existing ==> e.id != BareRule(page, s).id && e.id != WwwRule(page, s).id
  {
    var before := DesiredRules(page, sites);
    var b, w := BareRule(page, s), WwwRule(page, s);
    DesiredIdsDistinct(page, sites + [s]);
    IdsAppend(before, [b, w]);
    DistinctAppend(Ids(before), Ids([b, w]));
    assert Ids([b, w]) == [b.id, w.id];
    forall e | e in existing ensures e.id != b.id && e.id != w.id {
      IdsMember(before, e.id);
    }
  }

  /**
   * Adding one site to a list whose rules are installed adds exactly that
   * site's two rules.
   */
  lemma AddedSiteAdds(page: string, sites: seq<BlockedSite>, s: BlockedSite, existing: seq<Rule>)
    requires InSync(existing, DesiredRules(page, sites))
    requires RuleIdsSeparated(sites + [s]) && HasRules(s)
    ensures AddList(DesiredRules(page, sites + [s]), existing) == [BareRule(page, s), WwwRule(page, s)]
  {
    var before := DesiredRules(page, sites);
    var b, w := BareRule(page, s), WwwRule(page, s);
    AppendedSiteFresh(page, sites, s, existing);
    AddListAppend(before, [b, w], existing);
    NothingToDoWhenInSync(existing, before);
    AddListPair(b, w, existing);
  }

  /** Adding one site to a list whose rules are installed removes nothing, in either version of the diff. */
  lemma AddedSiteRemovesNothing(page: string, sites: seq<BlockedSite>, s: BlockedSite, existing: seq<Rule>)
    requires InSync(existing, DesiredRules(page, sites))
    requires RuleIdsSeparated(sites + [s]) && HasRules(s)
    ensures RemoveList(existing, DesiredRules(page, sites + [s])) == []
    ensures AsWrittenRemoveList(existing, DesiredRules(page, sites + [s])) == []
  {
    var after := DesiredRules(page, sites + [s]);
    AppendedSiteFresh(page, sites, s, existing);
    var same := UnchangedRules(after, existing);
    forall x | x in Ids(existing) ensures x in Ids(same) && x in Ids(after) {
      IdsMember(existing, x);
      var e :| e in existing && e.id == x;
      LookupInstalled(existing, e);
      IdsMember(same, x);
      IdsMember(after, x);
    }
    RemoveEachCovered(Ids(existing), Ids(same));
    RemoveEachCovered(Ids(existing), Ids(after));
  }

  /** The ids that leave the desired rules when a site is spliced out are exactly its two. */
  lemma RemovedSiteIds(page: string, sites: seq<BlockedSite>, k: nat, x: int)
    requires RuleIdsSeparated(sites) && k < |sites| && HasRules(sites[k])
    ensures (x in Ids(DesiredRules(page, sites)) && x !in Ids(DesiredRules(page, RemoveAt(sites, k)))) <==>
      (x == sites[k].ruleId || x == sites[k].ruleId + WwwIdOffset)
  {
    SplitDesired(page, sites, k);
    var a, m, c := DesiredRules(page, sites[..k]), SiteRules(page, sites[k]), DesiredRules(page, sites[k + 1..]);
    IdsAppend(a + m, c);
    IdsAppend(a, m);
    IdsAppend(a, c);
    SiteRuleIds(page, sites[k]);
    DesiredIdsDistinct(page, sites);
    DistinctAppend(Ids(a) + Ids(m), Ids(c));
    DistinctAppend(Ids(a), Ids(m));
  }

  /** Every rule still desired after a splice was desired before it. */
  lemma RemainingDesired(page: string, sites: seq<BlockedSite>, k: nat, r: Rule)
    requires k < |sites| && r in DesiredRules(page, RemoveAt(sites, k))
    ensures r in DesiredRules(page, sites)
  {
    SplitDesired(page, sites, k);
  }

  /** Removing from a list without repetitions, when exactly `a` and `b` are not spared, removes each once. */
  lemma RemovedExactly(xs: seq<int>, ds: seq<int>, a: int, b: int)
    requires Distinct(xs) && a != b
    requires forall x :: (x in xs && x !in ds) <==> (x == a || x == b)
    ensures multiset(RemoveEach(xs, ds)) == multiset{a, b}
  {
    RemoveEachCount(xs, ds);
    forall x ensures multiset(RemoveEach(xs, ds))[x] == multiset{a, b}[x] {
      DistinctCount(xs, x);
      if x == a || x == b {
        assert x !in multiset(ds);
      } else if x in xs {
        assert x in multiset(ds);
      }
    }
    assert multiset(RemoveEach(xs, ds)) == multiset{a, b};
  }

  /** When a site expires from a list whose rules are installed, nothing is added... */
  lemma ExpiredSiteAddsNothing(page: string, sites: seq<BlockedSite>, k: nat, existing: seq<Rule>)
    requires InSync(existing, DesiredRules(page, sites)) && k < |sites|
    ensures AddList(DesiredRules(page, RemoveAt(sites, k)), existing) == []
  {
    var after := DesiredRules(page, RemoveAt(sites, k));
    forall r | r in after ensures !NeedsAdd(existing, r) {
      RemainingDesired(page, sites, k, r);
      LookupInstalled(existing, r);
    }
    NoneNeedAdd(after, existing);
  }

  /** The installed ids missing from the desired ids after an expiry are the site's two. */
  lemma ExpiredIds(page: string, sites: seq<BlockedSite>, k: nat, existing: seq<Rule>, x: int)
    requires InSync(existing, DesiredRules(page, sites))
    requires RuleIdsSeparated(sites) && k < |sites| && HasRules(sites[k])
    ensures (x in Ids(existing) && x !in Ids(DesiredRules(page, RemoveAt(sites, k)))) <==>
      (x == sites[k].ruleId || x == sites[k].ruleId + WwwIdOffset)
  {
    RemovedSiteIds(page, sites, k, x);
    IdsMember(existing, x);
    IdsMember(DesiredRules(page, sites), x);
  }

  /** ...the source's diff removes exactly the site's two rule ids, once each... */
  lemma ExpiredSiteRemovesItsRulesAsWritten(page: string, sites: seq<BlockedSite>, k: nat, existing: seq<Rule>)
    requires InSync(existing, DesiredRules(page, sites))
    requires RuleIdsSeparated(sites) && k < |sites| && HasRules(sites[k])
    ensures multiset(AsWrittenRemoveList(existing, DesiredRules(page, RemoveAt(sites, k)))) ==
      multiset{sites[k].ruleId, sites[k].ruleId + WwwIdOffset}
  {
    var r := sites[k].ruleId;
    forall x ensures (x in Ids(existing) && x !in Ids(DesiredRules(page, RemoveAt(sites, k)))) <==> (x == r || x == r + WwwIdOffset) {
      ExpiredIds(page, sites, k, existing, x);
    }
    RemovedExactly(Ids(existing), Ids(DesiredRules(page, RemoveAt(sites, k))), r, r + WwwIdOffset);
  }

  /** After an expiry, every rule still desired is installed unchanged. */
  lemma RemainingUnchanged(page: string, sites: seq<BlockedSite>, k: nat, existing: seq<Rule>, x: int)
    requires InSync(existing, DesiredRules(page, sites)) && k < |sites|
    ensures var after := DesiredRules(page, RemoveAt(sites, k));
      x in Ids(UnchangedRules(after, existing)) <==> x in Ids(after)
  {
    var after := DesiredRules(page, RemoveAt(sites, k));
    IdsMember(UnchangedRules(after, existing), x);
    IdsMember(after, x);
    if x in Ids(after) {
      var e :| e in after && e.id == x;
      RemainingDesired(page, sites, k, e);
      LookupInstalled(existing, e);
    }
  }

  /** ...and so does the corrected one. */
  lemma ExpiredSiteRemovesItsRules(page: string, sites: seq<BlockedSite>, k: nat, existing: seq<Rule>)
    requires InSync(existing, DesiredRules(page, sites))
    requires RuleIdsSeparated(sites) && k < |sites| && HasRules(sites[k])
    ensures multiset(RemoveList(existing, DesiredRules(page, RemoveAt(sites, k)))) ==
      multiset{sites[k].ruleId, sites[k].ruleId + WwwIdOffset}
  {
    var after := DesiredRules(page, RemoveAt(sites, k));
    var same := UnchangedRules(after, existing);
    var r := sites[k].ruleId;
    forall x ensures (x in Ids(existing) && x !in Ids(same)) <==> (x == r || x == r + WwwIdOffset) {
      ExpiredIds(page, sites, k, existing, x);
      RemainingUnchanged(page, sites, k, existing, x);
    }
    RemovedExactly(Ids(existing), Ids(same), r, r + WwwIdOffset);
  }
}
