/**
 * The unblock alarms: one per site whose block is timed and still running,
 * named after the site so the alarm handler can find it again.
 */
module Alarms {
  import opened Wrappers
  import opened Strings
  import opened Sites
  import opened Platform

  const AlarmPrefix := "unblock_"

  /** `site.isActive !== false && site.unblockTime && site.unblockTime > Date.now()`. */
  predicate Schedulable(s: BlockedSite, now: int) {
    IsActive(s) && TruthyNumber(s.unblockTime) && s.unblockTime.value > now
  }

  /** `unblock_${site.id}`. */
  function AlarmName(id: string): string {
    AlarmPrefix + id
  }

  /** The site id an alarm names: what follows the prefix, when the name carries it. */
  function SiteIdOfAlarm(name: string): (r: Option<string>)
    ensures r.Some? <==> StartsWith(name, AlarmPrefix)
    ensures r.Some? ==> AlarmName(r.value) == name
  {
    if StartsWith(name, AlarmPrefix) then Some(name[|AlarmPrefix|..]) else None
  }

  /** The alarm handler recovers the site id from the name `setupAlarms` gave it. */
  lemma SiteIdOfAlarmName(id: string)
    ensures SiteIdOfAlarm(AlarmName(id)) == Some(id)
  {
    assert AlarmName(id)[..|AlarmPrefix|] == AlarmPrefix;
    assert AlarmName(id)[|AlarmPrefix|..] == id;
  }

  /** Different sites get different alarm names. */
  lemma AlarmNameInjective(a: string, b: string)
    requires AlarmName(a) == AlarmName(b)
    ensures a == b
  {
    SiteIdOfAlarmName(a);
    SiteIdOfAlarmName(b);
  }

  /** The alarms after the forEach over the list; a later site replaces an earlier one of the same name. */
  function ScheduledAlarms(sites: seq<BlockedSite>, now: int): map<string, int> {
    if sites == [] then map[]
    else
      var m := ScheduledAlarms(sites[..|sites| - 1], now);
      var s := sites[|sites| - 1];
      if Schedulable(s, now) then m[AlarmName(s.id) := s.unblockTime.value] else m
  }

  /** `setupAlarms`: clear every alarm, then create one per schedulable site. */
  method SetupAlarms(registry: AlarmRegistry, sites: seq<BlockedSite>, now: int)
    modifies registry
    ensures registry.alarms == ScheduledAlarms(sites, now)
  {
    registry.ClearAll();
    for i := 0 to |sites|
      invariant registry.alarms == ScheduledAlarms(sites[..i], now)
    {
      assert sites[..i + 1][..i] == sites[..i];
      var site := sites[i];
      if IsActive(site) && TruthyNumber(site.unblockTime) && site.unblockTime.value > now {
        registry.Create(AlarmName(site.id), site.unblockTime.value);
      }
    }
    assert sites[..|sites|] == sites;
  }

  /** An alarm is pending exactly for the names of the schedulable sites. */
  lemma {:induction false} ScheduledAlarmsKeys(sites: seq<BlockedSite>, now: int, name: string)
    ensures name in ScheduledAlarms(sites, now) <==>
      exists k :: 0 <= k < |sites| && Schedulable(sites[k], now) && AlarmName(sites[k].id) == name
  {
    if sites != [] {
      var n := |sites| - 1;
      var pre := sites[..n];
      ScheduledAlarmsKeys(pre, now, name);
      if exists k :: 0 <= k < n && Schedulable(pre[k], now) && AlarmName(pre[k].id) == name {
        var k :| 0 <= k < n && Schedulable(pre[k], now) && AlarmName(pre[k].id) == name;
        assert sites[k] == pre[k];
      }
      if exists k :: 0 <= k < |sites| && Schedulable(sites[k], now) && AlarmName(sites[k].id) == name {
        var k :| 0 <= k < |sites| && Schedulable(sites[k], now) && AlarmName(sites[k].id) == name;
        if k < n {
          assert pre[k] == sites[k];
        }
      }
    }
  }

  /** Every pending alarm fires after `now`. */
  lemma {:induction false} ScheduledAlarmsInFuture(sites: seq<BlockedSite>, now: int, name: string)
    requires name in ScheduledAlarms(sites, now)
    ensures ScheduledAlarms(sites, now)[name] > now
  {
    var n := |sites| - 1;
    var s := sites[n];
    if !(Schedulable(s, now) && AlarmName(s.id) == name) {
      ScheduledAlarmsInFuture(sites[..n], now, name);
    }
  }

  /** With site ids unique, a schedulable site's alarm fires at its unblock time. */
  lemma {:induction false} ScheduledAlarmsWhen(sites: seq<BlockedSite>, now: int, k: nat)
    requires k < |sites| && Schedulable(sites[k], now)
    requires forall j :: 0 <= j < |sites| && j != k ==> sites[j].id != sites[k].id
    ensures AlarmName(sites[k].id) in ScheduledAlarms(sites, now)
    ensures ScheduledAlarms(sites, now)[AlarmName(sites[k].id)] == sites[k].unblockTime.value
  {
    var n := |sites| - 1;
    var pre := sites[..n];
    if k < n {
      assert pre[k] == sites[k];
      assert forall j :: 0 <= j < n && j != k ==> pre[j].id != pre[k].id;
      ScheduledAlarmsWhen(pre, now, k);
      if Schedulable(sites[n], now) {
        assert AlarmName(sites[n].id) != AlarmName(sites[k].id) by {
          if AlarmName(sites[n].id) == AlarmName(sites[k].id) {
            AlarmNameInjective(sites[n].id, sites[k].id);
          }
        }
      }
    }
  }
}
