/**
 * The browser services the extension drives, as objects whose state the
 * core reads and changes: the synced storage area, the table of dynamic
 * redirect rules and the alarm registry.
 */
module Platform {
  import opened Wrappers
  import opened Sites

  /** `chrome.storage.sync` with the extension's two keys; `None` is a key never written. */
  class SyncStorage {
    var blockedSites: Option<seq<BlockedSite>>
    var nextRuleId: Option<int>

    constructor (sites: Option<seq<BlockedSite>>, next: Option<int>)
      ensures blockedSites == sites && nextRuleId == next
    {
      blockedSites := sites;
      nextRuleId := next;
    }

    /** `chrome.storage.sync.set({ blockedSites, nextRuleId })`. */
    method SetAll(sites: seq<BlockedSite>, next: int)
      modifies this
      ensures blockedSites == Some(sites) && nextRuleId == Some(next)
    {
      blockedSites := Some(sites);
      nextRuleId := Some(next);
    }

    /** `chrome.storage.sync.set({ nextRuleId })`: the other key is left alone. */
    method SetNextRuleId(next: int)
      modifies this
      ensures nextRuleId == Some(next) && blockedSites == old(blockedSites)
    {
      nextRuleId := Some(next);
    }
  }

  /** The installed rules left after removing every rule whose id is listed. */
  function Keep(rules: seq<Rule>, removeIds: seq<int>): (r: seq<Rule>)
    ensures forall x :: x in r <==> x in rules && x.id !in removeIds
  {
    if rules == [] then []
    else (if rules[0].id in removeIds then [] else [rules[0]]) + Keep(rules[1..], removeIds)
  }

  /**
   * The platform accepts an update when the added rules have distinct ids and
   * none of them is still installed once the removals are done.
   */
  predicate UpdateAccepted(kept: seq<Rule>, addRules: seq<Rule>) {
    DistinctIds(addRules) && forall i :: 0 <= i < |addRules| ==> addRules[i].id !in Ids(kept)
  }

  /** The extension's dynamic rule table of `chrome.declarativeNetRequest`. */
  class RuleTable {
    var rules: seq<Rule>

    constructor (initial: seq<Rule>)
      ensures rules == initial
    {
      rules := initial;
    }

    /**
     * `updateDynamicRules({ removeRuleIds, addRules })`: removals first, then
     * additions, atomically; a rejected update changes nothing.
     */
    method UpdateDynamicRules(removeRuleIds: seq<int>, addRules: seq<Rule>) returns (ok: bool)
      modifies this
      ensures ok == UpdateAccepted(Keep(old(rules), removeRuleIds), addRules)
      ensures rules == if ok then Keep(old(rules), removeRuleIds) + addRules else old(rules)
    {
      var kept := Keep(rules, removeRuleIds);
      ok := UpdateAccepted(kept, addRules);
      if ok {
        rules := kept + addRules;
      }
    }
  }

  /** `chrome.alarms`: one pending instant per alarm name. */
  class AlarmRegistry {
    var alarms: map<string, int>

    constructor ()
      ensures alarms == map[]
    {
      alarms := map[];
    }

    /** `chrome.alarms.clearAll()`. */
    method ClearAll()
      modifies this
      ensures alarms == map[]
    {
      alarms := map[];
    }

    /** `chrome.alarms.create(name, { when })`: an alarm of the same name is replaced. */
    method Create(name: string, when: int)
      modifies this
      ensures alarms == old(alarms)[name := when]
    {
      alarms := alarms[name := when];
    }
  }

  /** A `runtime` message to the background worker. */
  datatype Request = Request(action: string, blockedSites: Option<seq<BlockedSite>>)

  /** The `{ status, message }` sent back. */
  datatype Response = Response(status: string, message: string)
}
