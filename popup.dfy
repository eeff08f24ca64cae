/**
 * The popup's block-list editor: the list and the rule-id counter it holds,
 * the submit handler that validates the form and adds or edits a site, the
 * delete handler, and the storage synchronisation around them.
 */
module Popup {
  import opened Wrappers
  import opened Strings
  import opened Utils
  import opened Sites
  import opened Platform
  import RuleSync

  /** What the submit handler reads from the form's controls. */
  datatype Form = Form(
    siteUrl: string,           // the URL box
    blockType: string,         // "permanent", "duration" or "untilTime"
    durationChoice: string,    // the duration select: a number of minutes or "custom"
    customDuration: string,    // the custom minutes box
    unblockTimeValue: string,  // the "HH:mm" time box
    editingId: string)         // the hidden id of the site being edited, "" when adding

  /** Why a submission is refused; each comes with an error toast and no change. */
  datatype SubmitError = InvalidUrl | InvalidDuration | MissingTime | SiteNotFound | AlreadyBlocked

  /** The `durationMinutes` and `unblockTime` fields a submission stores. */
  datatype Timing = Timing(durationMinutes: Option<int>, unblockTime: Option<int>)

  /** The popup's state: `currentBlockedSites` and `nextRuleId`. */
  datatype PopupData = PopupData(sites: seq<BlockedSite>, nextRuleId: int)

  /**
   * The timing read at popup.js:115-144. `todayAt` is the local instant today at the chosen HH:mm;
   * a day is taken to be 86400000 ms.
   */
  function FormTiming(form: Form, now: int, todayAt: int): Result<Timing, SubmitError> {
    if form.blockType == "duration" then
      var text := if form.durationChoice == "custom" then form.customDuration else form.durationChoice;
      var minutes := ParseInt(text);
      if minutes.None? || minutes.value <= 0 then Err(InvalidDuration)
      else Ok(Timing(Some(minutes.value), Some(now + minutes.value * 60 * 1000)))
    else if form.blockType == "untilTime" then
      if form.unblockTimeValue == "" then Err(MissingTime)
      else Ok(Timing(None, Some(if todayAt <= now then todayAt + MsPerDay else todayAt)))
    else Ok(Timing(None, None))
  }

  /** `currentBlockedSites.some(site => site.url === url)`. */
  predicate UrlListed(sites: seq<BlockedSite>, url: string) {
    exists i :: 0 <= i < |sites| && sites[i].url == url
  }

  /** `currentBlockedSites.find(s => s.id === id)` finds something. */
  predicate IdListed(sites: seq<BlockedSite>, id: string) {
    exists i :: 0 <= i < |sites| && sites[i].id == id
  }

  /** The edited entry: the old one with `url`, `blockType` and the timing fields overwritten. */
  function EditedSite(old_: BlockedSite, url: string, blockType: string, t: Timing): BlockedSite {
    old_.(url := url, blockType := blockType, durationMinutes := t.durationMinutes, unblockTime := t.unblockTime)
  }

  /** The new entry of popup.js:170-178. */
  function NewSite(id: string, url: string, blockType: string, t: Timing, ruleId: int): BlockedSite {
    BlockedSite(id, url, blockType, t.durationMinutes, t.unblockTime, ruleId, Some(true))
  }

  /**
   * The submit handler's effect on the popup's state, popup.js:107-181.
   * `newId` is the value `generateUniqueId` would return.
   */
  function SubmitResult(data: PopupData, form: Form, now: int, todayAt: int, newId: string): Result<PopupData, SubmitError> {
    var url := NormalizeUrl(Trim(form.siteUrl));
    if url.None? || url.value == "" then Err(InvalidUrl)
    else
      match FormTiming(form, now, todayAt)
      case Err(e) => Err(e)
      case Ok(t) => StoreResult(data, url.value, form.blockType, t, form.editingId, newId)
  }

  /** popup.js:146-179: the validated entry edits the one with id `editingId`, or is appended. */
  function StoreResult(data: PopupData, url: string, blockType: string, t: Timing, editingId: string, newId: string)
    : Result<PopupData, SubmitError>
  {
    if editingId != "" then
      var k := FindIndex(data.sites, editingId);
      if k == -1 then Err(SiteNotFound)
      else Ok(PopupData(data.sites[k := EditedSite(data.sites[k], url, blockType, t)], data.nextRuleId))
    else if UrlListed(data.sites, url) then Err(AlreadyBlocked)
    else Ok(PopupData(data.sites + [NewSite(newId, url, blockType, t, data.nextRuleId)], data.nextRuleId + 1))
  }

  /** The delete handler's effect, popup.js:226-234: an unknown id changes nothing. */
  function DeleteResult(data: PopupData, id: string): Option<PopupData> {
    if IdListed(data.sites, id) then Some(PopupData(WithoutId(data.sites, id), data.nextRuleId)) else None
  }

  /** The URL shown in the list, popup.js:48-53. */
  function DisplayUrl(url: string): (r: string)
    ensures |url| <= 20 ==> r == url
    ensures |url| > 20 ==> |r| == 23 && r[..20] == url[..20] && r[20..] == "..."
  {
    if |url| > 20 then url[..20] + "..." else url
  }

  /** The message `saveAndApplyChanges` sends. */
  function UpdateRequest(sites: seq<BlockedSite>): Request {
    Request("updateRulesAndAlarms", Some(sites))
  }

  /** The text the duration is read from: the custom box when "custom" is selected. */
  function DurationText(form: Form): string {
    if form.durationChoice == "custom" then form.customDuration else form.durationChoice
  }

  /**
   * A duration block is accepted exactly when the text parses to a positive
   * number of minutes, and then expires that many minutes after `now`.
   */
  lemma DurationTiming(form: Form, now: int, todayAt: int)
    requires form.blockType == "duration"
    ensures FormTiming(form, now, todayAt).Ok? <==>
      ParseInt(DurationText(form)).Some? && ParseInt(DurationText(form)).value > 0
    ensures FormTiming(form, now, todayAt).Err? ==> FormTiming(form, now, todayAt).error == InvalidDuration
    ensures FormTiming(form, now, todayAt).Ok? ==>
      var m := ParseInt(DurationText(form)).value;
      FormTiming(form, now, todayAt).value == Timing(Some(m), Some(now + m * MsPerMinute)) &&
      FormTiming(form, now, todayAt).value.unblockTime.value > now
  {
  }

  /**
   * A time-of-day block is refused only when no time is chosen; otherwise it
   * expires at the next occurrence of that time, strictly after `now`, as long
   * as `todayAt` lies within the day before and after `now`.
   */
  lemma UntilTimeTiming(form: Form, now: int, todayAt: int)
    requires form.blockType == "untilTime"
    ensures FormTiming(form, now, todayAt) == Err(MissingTime) <==> form.unblockTimeValue == ""
    ensures FormTiming(form, now, todayAt).Ok? ==>
      var t := FormTiming(form, now, todayAt).value;
      t.durationMinutes.None? && t.unblockTime.Some? &&
      (now - MsPerDay < todayAt ==> now < t.unblockTime.value) &&
      (todayAt <= now + MsPerDay ==> t.unblockTime.value <= now + MsPerDay)
  {
  }

  /**
   * `durationMinutes` is stored only for duration blocks, and `unblockTime`
   * is never stored for a block that is neither timed nor time-of-day.
   */
  lemma TimingFields(form: Form, now: int, todayAt: int)
    ensures FormTiming(form, now, todayAt).Ok? ==>
      var t := FormTiming(form, now, todayAt).value;
      (t.durationMinutes.Some? <==> form.blockType == "duration") &&
      (t.durationMinutes.Some? ==> t.durationMinutes.value > 0) &&
      (t.unblockTime.Some? <==> form.blockType == "duration" || form.blockType == "untilTime")
  {
  }

  /** Which submissions are accepted, and the error each refused one reports. */
  lemma SubmitAccepted(data: PopupData, form: Form, now: int, todayAt: int, newId: string)
    ensures var url := NormalizeUrl(Trim(form.siteUrl));
      var r := SubmitResult(data, form, now, todayAt, newId);
      (url.None? || url.value == "" ==> r == Err(InvalidUrl)) &&
      (url.Some? && url.value != "" && FormTiming(form, now, todayAt).Err? ==>
         r == Err(FormTiming(form, now, todayAt).error)) &&
      (url.Some? && url.value != "" && FormTiming(form, now, todayAt).Ok? ==>
         (r.Ok? <==> if form.editingId != "" then IdListed(data.sites, form.editingId)
                     else !UrlListed(data.sites, url.value)) &&
         (r.Err? ==> r.error == if form.editingId != "" then SiteNotFound else AlreadyBlocked) &&
         r == StoreResult(data, url.value, form.blockType, FormTiming(form, now, todayAt).value, form.editingId, newId))
  {
    var url := NormalizeUrl(Trim(form.siteUrl));
    if url.Some? && url.value != "" && FormTiming(form, now, todayAt).Ok? && form.editingId != "" {
      var k := FindIndex(data.sites, form.editingId);
      if IdListed(data.sites, form.editingId) {
        var i :| 0 <= i < |data.sites| && data.sites[i].id == form.editingId;
        assert k != -1;
      }
    }
  }

  /**
   * A validated addition of a URL not yet listed appends one entry at the end:
   * that URL, the form's block type and timing, rule id taken from the counter,
   * active; the counter moves on by exactly one and every earlier entry is kept.
   */
  lemma StoreAdds(data: PopupData, url: string, blockType: string, t: Timing, newId: string)
    requires !UrlListed(data.sites, url)
    ensures var r := StoreResult(data, url, blockType, t, "", newId);
      r.Ok? &&
      var s := r.value.sites[|r.value.sites| - 1];
      |r.value.sites| == |data.sites| + 1 && r.value.sites[..|data.sites|] == data.sites &&
      s.id == newId && s.url == url && s.blockType == blockType &&
      s.durationMinutes == t.durationMinutes && s.unblockTime == t.unblockTime &&
      s.ruleId == data.nextRuleId && s.isActive == Some(true) &&
      r.value.nextRuleId == data.nextRuleId + 1
  {
    var r := StoreResult(data, url, blockType, t, "", newId).value;
    assert r.sites[..|data.sites|] == data.sites;
  }

  /** A validated addition of a URL already listed is refused. */
  lemma StoreRejectsDuplicate(data: PopupData, url: string, blockType: string, t: Timing, newId: string)
    requires UrlListed(data.sites, url)
    ensures StoreResult(data, url, blockType, t, "", newId) == Err(AlreadyBlocked)
  {
  }

  /**
   * A validated edit of a listed id replaces the first entry with that id and
   * nothing else: the entry keeps its id, rule id and active flag and takes the
   * new URL, block type and timing; the length and the counter are unchanged.
   * An unlisted id is refused.
   */
  lemma StoreEdits(data: PopupData, url: string, blockType: string, t: Timing, editingId: string, newId: string)
    requires editingId != ""
    ensures !IdListed(data.sites, editingId) <==> StoreResult(data, url, blockType, t, editingId, newId) == Err(SiteNotFound)
    ensures IdListed(data.sites, editingId) ==>
      var r := StoreResult(data, url, blockType, t, editingId, newId);
      var k := FindIndex(data.sites, editingId);
      r.Ok? && 0 <= k < |data.sites| && data.sites[k].id == editingId &&
      (forall i :: 0 <= i < k ==> data.sites[i].id != editingId) &&
      |r.value.sites| == |data.sites| && r.value.nextRuleId == data.nextRuleId &&
      (forall i :: 0 <= i < |data.sites| && i != k ==> r.value.sites[i] == data.sites[i]) &&
      r.value.sites[k].id == data.sites[k].id && r.value.sites[k].ruleId == data.sites[k].ruleId &&
      r.value.sites[k].isActive == data.sites[k].isActive &&
      r.value.sites[k].url == url && r.value.sites[k].blockType == blockType &&
      r.value.sites[k].durationMinutes == t.durationMinutes && r.value.sites[k].unblockTime == t.unblockTime
  {
    if IdListed(data.sites, editingId) {
      var i :| 0 <= i < |data.sites| && data.sites[i].id == editingId;
      assert FindIndex(data.sites, editingId) != -1;
    }
  }

  /**
   * Deleting is a no-op for an unknown id; otherwise it drops every entry with
   * that id, keeps every other one, and leaves the counter alone.
   */
  lemma DeleteRemoves(data: PopupData, id: string)
    ensures DeleteResult(data, id).None? <==> forall i :: 0 <= i < |data.sites| ==> data.sites[i].id != id
    ensures DeleteResult(data, id).Some? ==>
      var r := DeleteResult(data, id).value;
      r.nextRuleId == data.nextRuleId && |r.sites| < |data.sites| &&
      (forall s :: s in r.sites <==> s in data.sites && s.id != id) &&
      (UniqueSiteIds(data.sites) ==> r.sites == RemoveAt(data.sites, FindIndex(data.sites, id)))
  {
    if IdListed(data.sites, id) {
      var k :| 0 <= k < |data.sites| && data.sites[k].id == id;
      WithoutPresentId(data.sites, id, k);
      if UniqueSiteIds(data.sites) {
        SpliceIsFilter(data.sites, FindIndex(data.sites, id), id);
      }
    }
  }

  /**
   * What the popup keeps true of its state: the counter is positive, every
   * stored rule id was handed out by it earlier, and no two entries share a
   * site id or a rule id.
   */
  predicate Valid(data: PopupData) {
    data.nextRuleId >= 1 &&
    (forall i :: 0 <= i < |data.sites| ==> 0 < data.sites[i].ruleId < data.nextRuleId) &&
    UniqueSiteIds(data.sites) && DistinctRuleIds(data.sites)
  }

  /** Editing an entry in place keeps the state valid. */
  lemma EditKeepsValid(data: PopupData, url: string, blockType: string, t: Timing, editingId: string, newId: string)
    requires Valid(data) && editingId != ""
    ensures StoreResult(data, url, blockType, t, editingId, newId).Ok? ==>
      Valid(StoreResult(data, url, blockType, t, editingId, newId).value)
  {
    var k := FindIndex(data.sites, editingId);
    if k != -1 {
      var sites := data.sites[k := EditedSite(data.sites[k], url, blockType, t)];
      assert forall i :: 0 <= i < |sites| ==> sites[i].id == data.sites[i].id && sites[i].ruleId == data.sites[i].ruleId;
    }
  }

  /** Appending a new entry keeps the state valid, given an entry id not yet in use. */
  lemma AddKeepsValid(data: PopupData, url: string, blockType: string, t: Timing, newId: string)
    requires Valid(data) && !IdListed(data.sites, newId)
    ensures StoreResult(data, url, blockType, t, "", newId).Ok? ==>
      Valid(StoreResult(data, url, blockType, t, "", newId).value)
  {
    if !UrlListed(data.sites, url) {
      var n := |data.sites|;
      var sites := data.sites + [NewSite(newId, url, blockType, t, data.nextRuleId)];
      assert forall i :: 0 <= i < n ==> sites[i] == data.sites[i];
      assert sites[n].ruleId == data.nextRuleId && sites[n].id == newId;
    }
  }

  /** A submission keeps the state valid, given an entry id not yet in use. */
  lemma SubmitKeepsValid(data: PopupData, form: Form, now: int, todayAt: int, newId: string)
    requires Valid(data)
    requires !IdListed(data.sites, newId)
    ensures SubmitResult(data, form, now, todayAt, newId).Ok? ==> Valid(SubmitResult(data, form, now, todayAt, newId).value)
  {
    var url := NormalizeUrl(Trim(form.siteUrl));
    var timing := FormTiming(form, now, todayAt);
    if url.Some? && url.value != "" && timing.Ok? {
      if form.editingId != "" {
        EditKeepsValid(data, url.value, form.blockType, timing.value, form.editingId, newId);
      } else {
        AddKeepsValid(data, url.value, form.blockType, timing.value, newId);
      }
    }
  }

  /** A deletion keeps the state valid. */
  lemma DeleteKeepsValid(data: PopupData, id: string)
    requires Valid(data)
    ensures DeleteResult(data, id).Some? ==> Valid(DeleteResult(data, id).value)
  {
    if IdListed(data.sites, id) {
      WithoutIdKeepsDistinct(data.sites, id);
      var r := WithoutId(data.sites, id);
      forall i | 0 <= i < |r| ensures 0 < r[i].ruleId < data.nextRuleId {
        assert r[i] in r;
      }
    }
  }

  /**
   * In a valid state whose counter has not passed the offset of the `www.`
   * rules, the rule ids the background worker derives cannot collide.
   */
  lemma ValidSeparatesRuleIds(data: PopupData)
    requires Valid(data) && data.nextRuleId <= RuleSync.WwwIdOffset + 1
    ensures RuleSync.RuleIdsSeparated(data.sites)
  {
  }

  /** popup.js:115-144 as the handler runs them. */
  method ReadTiming(form: Form, now: int, todayAt: int) returns (r: Result<Timing, SubmitError>)
    ensures r == FormTiming(form, now, todayAt)
  {
    var blockType := form.blockType;
    var durationMinutes := 0;
    var unblockTime: Option<int> := None;
    if blockType == "duration" {
      var parsed := if form.durationChoice == "custom" then ParseInt(form.customDuration) else ParseInt(form.durationChoice);
      if parsed.None? || parsed.value <= 0 {
        return Err(InvalidDuration);
      }
      durationMinutes := parsed.value;
      unblockTime := Some(now + durationMinutes * 60 * 1000);
    } else if blockType == "untilTime" {
      if form.unblockTimeValue == "" {
        return Err(MissingTime);
      }
      var unblockDate := todayAt;
      if unblockDate <= now {
        unblockDate := unblockDate + MsPerDay;
      }
      unblockTime := Some(unblockDate);
    }
    var durationField := if blockType == "duration" then Some(durationMinutes) else None;
    return Ok(Timing(durationField, unblockTime));
  }

  /** A change record of `storage.onChanged` for one key. */
  datatype Change<T> = NoChange | Changed(newValue: Option<T>)

  /** The popup's module-level state and its handlers. */
  class PopupState {
    var currentBlockedSites: seq<BlockedSite>
    var nextRuleId: int

    function Data(): PopupData
      reads this
    {
      PopupData(currentBlockedSites, nextRuleId)
    }

    /** The initial values of popup.js:17-18. */
    constructor ()
      ensures currentBlockedSites == [] && nextRuleId == 1 && Valid(Data())
    {
      currentBlockedSites := [];
      nextRuleId := 1;
    }

    /** `loadInitialData`: a missing list reads as empty, a missing or zero counter as 1. */
    method LoadInitialData(store: SyncStorage)
      modifies this
      ensures currentBlockedSites == store.blockedSites.GetOr([])
      ensures nextRuleId == CounterOr(store.nextRuleId, 1)
    {
      currentBlockedSites := store.blockedSites.GetOr([]);
      nextRuleId := if TruthyNumber(store.nextRuleId) then store.nextRuleId.value else 1;
    }

    /** `saveAndApplyChanges`: store both keys and send the list to the background worker. */
    method SaveAndApplyChanges(store: SyncStorage) returns (request: Request)
      modifies store
      ensures store.blockedSites == Some(currentBlockedSites) && store.nextRuleId == Some(nextRuleId)
      ensures request == UpdateRequest(currentBlockedSites)
    {
      store.SetAll(currentBlockedSites, nextRuleId);
      request := Request("updateRulesAndAlarms", Some(currentBlockedSites));
    }

    /**
     * The submit listener up to the save: validate the form, then edit the
     * entry in place or append a new one. `None` means the change was made.
     */
    method ApplySubmit(form: Form, now: int, todayAt: int, newId: string) returns (error: Option<SubmitError>)
      modifies this
      ensures var r := SubmitResult(old(Data()), form, now, todayAt, newId);
        if r.Ok? then Data() == r.value && error.None? else Data() == old(Data()) && error == Some(r.error)
    {
      var normalized := NormalizeUrl(Trim(form.siteUrl));
      if normalized.None? || normalized.value == "" {
        return Some(InvalidUrl);
      }
      var timing := ReadTiming(form, now, todayAt);
      if timing.Err? {
        return Some(timing.error);
      }
      error := Store(normalized.value, form.blockType, timing.value, form.editingId, newId);
    }

    /** popup.js:146-179: edit the entry in place, or append a new one with the next rule id. */
    method Store(urlToBlock: string, blockType: string, timing: Timing, editingId: string, newId: string)
      returns (error: Option<SubmitError>)
      modifies this
      ensures var r := StoreResult(old(Data()), urlToBlock, blockType, timing, editingId, newId);
        if r.Ok? then Data() == r.value && error.None? else Data() == old(Data()) && error == Some(r.error)
    {
      var durationField, unblockTime := timing.durationMinutes, timing.unblockTime;
      if editingId != "" {
        var siteIndex := FindIndex(currentBlockedSites, editingId);
        if siteIndex == -1 {
          return Some(SiteNotFound);
        }
        var siteData := currentBlockedSites[siteIndex].(url := urlToBlock, blockType := blockType,
          durationMinutes := durationField, unblockTime := unblockTime);
        currentBlockedSites := currentBlockedSites[siteIndex := siteData];
      } else {
        if UrlListed(currentBlockedSites, urlToBlock) {
          return Some(AlreadyBlocked);
        }
        var siteData := BlockedSite(newId, urlToBlock, blockType, durationField, unblockTime, nextRuleId, Some(true));
        nextRuleId := nextRuleId + 1;
        currentBlockedSites := currentBlockedSites + [siteData];
      }
      return None;
    }

    /** The submit listener: a refused form changes nothing; an accepted one is saved and sent. */
    method Submit(form: Form, now: int, todayAt: int, newId: string, store: SyncStorage)
      returns (outcome: Result<Request, SubmitError>)
      modifies this, store
      ensures var r := SubmitResult(old(Data()), form, now, todayAt, newId);
        if r.Ok? then
          Data() == r.value && outcome == Ok(UpdateRequest(r.value.sites)) &&
          store.blockedSites == Some(r.value.sites) && store.nextRuleId == Some(r.value.nextRuleId)
        else
          Data() == old(Data()) && outcome == Err(r.error) &&
          store.blockedSites == old(store.blockedSites) && store.nextRuleId == old(store.nextRuleId)
      ensures Valid(old(Data())) && !IdListed(old(currentBlockedSites), newId) ==> Valid(Data())
    {
      if Valid(Data()) && !IdListed(currentBlockedSites, newId) {
        SubmitKeepsValid(Data(), form, now, todayAt, newId);
      }
      var error := ApplySubmit(form, now, todayAt, newId);
      if error.Some? {
        return Err(error.value);
      }
      var request := SaveAndApplyChanges(store);
      return Ok(request);
    }

    /** `handleDeleteSite`: filter the site out and save; an unknown id does nothing. */
    method DeleteSite(siteId: string, store: SyncStorage) returns (sent: Option<Request>)
      modifies this, store
      ensures var r := DeleteResult(old(Data()), siteId);
        if r.Some? then
          Data() == r.value && sent == Some(UpdateRequest(r.value.sites)) &&
          store.blockedSites == Some(r.value.sites) && store.nextRuleId == Some(r.value.nextRuleId)
        else
          Data() == old(Data()) && sent.None? &&
          store.blockedSites == old(store.blockedSites) && store.nextRuleId == old(store.nextRuleId)
      ensures Valid(old(Data())) ==> Valid(Data())
    {
      if Valid(Data()) {
        DeleteKeepsValid(Data(), siteId);
      }
      if !IdListed(currentBlockedSites, siteId) {
        return None;
      }
      currentBlockedSites := WithoutId(currentBlockedSites, siteId);
      var request := SaveAndApplyChanges(store);
      return Some(request);
    }

    /**
     * The `storage.onChanged` listener: a changed list replaces the popup's
     * (a removed key reads as empty); a changed counter replaces it unless
     * the new value is missing or 0.
     */
    method OnStorageChanged(namespace: string, blockedSites: Change<seq<BlockedSite>>, next: Change<int>)
      modifies this
      ensures currentBlockedSites ==
        if namespace == "sync" && blockedSites.Changed? then blockedSites.newValue.GetOr([]) else old(currentBlockedSites)
      ensures nextRuleId ==
        if namespace == "sync" && next.Changed? then CounterOr(next.newValue, old(nextRuleId)) else old(nextRuleId)
    {
      if namespace == "sync" && blockedSites.Changed? {
        currentBlockedSites := blockedSites.newValue.GetOr([]);
      }
      if namespace == "sync" && next.Changed? {
        nextRuleId := if TruthyNumber(next.newValue) then next.newValue.value else nextRuleId;
      }
    }
  }
}
