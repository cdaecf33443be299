/**
 * The web app's `WebsiteTimeTracker`: a list of sites with daily budgets in
 * minutes, explicit "spend N minutes" sessions, and the daily and forced
 * resets. The clock is an input: `today` is the ISO date and `now` the
 * time in milliseconds.
 */
module WebsiteBlocker {
  import opened Wrappers
  import opened Strings
  import opened Quota

  /** The `type` of a reset marker: 'reset' or 'manual_reset'. */
  datatype ResetKind = Daily | Manual

  /** An entry of a site's `sessions` list: a spend, or a reset marker. */
  datatype SessionRecord =
    | Spend(startTime: int, requestedMinutes: int, actualMinutes: int, completed: bool)
    | ResetMarker(kind: ResetKind, date: string)

  /** `WebsiteLimit`: budget and usage in minutes. */
  datatype WebsiteLimit = WebsiteLimit(url: string, timeLimit: int, timeUsed: int, lastReset: string,
                                       sessions: seq<SessionRecord>)

  /** `{websiteUrl, sessionIndex}`: where the running session is recorded. */
  datatype ActiveSession = ActiveSession(websiteUrl: string, sessionIndex: nat)

  /** `new WebsiteLimit(url, timeLimit)` created on `today`. */
  function NewWebsiteLimit(url: string, timeLimit: int, today: string): (w: WebsiteLimit)
    ensures w.url == url && w.timeLimit == timeLimit && w.lastReset == today
    ensures w.timeUsed == 0 && w.sessions == []
    ensures Quota.Remaining(w.timeLimit, w.timeUsed) == if timeLimit > 0 then timeLimit else 0
  {
    WebsiteLimit(url, timeLimit, 0, today, [])
  }

  // ----- lookup -----

  /** `findWebsiteByUrl`: the first site whose url equals `url` ignoring case. */
  function FindIndex(websites: seq<WebsiteLimit>, url: string): (r: Option<nat>)
    ensures r.Some? ==> r.value < |websites| && SameIgnoringCase(websites[r.value].url, url)
    ensures r.Some? ==> forall j :: 0 <= j < r.value ==> !SameIgnoringCase(websites[j].url, url)
    ensures r.None? <==> forall j :: 0 <= j < |websites| ==> !SameIgnoringCase(websites[j].url, url)
  {
    if |websites| == 0 then None
    else if SameIgnoringCase(websites[0].url, url) then Some(0)
    else
      match FindIndex(websites[1..], url)
      case None => None
      case Some(i) => Some(i + 1)
  }

  /** No two sites have urls that differ only in case. */
  ghost predicate UniqueUrls(websites: seq<WebsiteLimit>) {
    forall i, j :: 0 <= i < j < |websites| ==> !SameIgnoringCase(websites[i].url, websites[j].url)
  }

  /** With unique urls, looking a site up by its own url (in any case) finds that site. */
  lemma FindIndexOfOwnUrl(websites: seq<WebsiteLimit>, i: nat, url: string)
    requires UniqueUrls(websites) && i < |websites|
    requires SameIgnoringCase(websites[i].url, url)
    ensures FindIndex(websites, url) == Some(i)
  {
  }

  /** `getTimeRemaining`: 0 for an unknown url, otherwise `Math.max(0, timeLimit - timeUsed)`. */
  function TimeRemaining(websites: seq<WebsiteLimit>, url: string): (r: int)
    ensures r >= 0
    ensures r > 0 <==>
      FindIndex(websites, url).Some? &&
      websites[FindIndex(websites, url).value].timeUsed < websites[FindIndex(websites, url).value].timeLimit
    ensures r > 0 ==>
      var w := websites[FindIndex(websites, url).value];
      r == w.timeLimit - w.timeUsed
  {
    match FindIndex(websites, url)
    case None => 0
    case Some(i) => Quota.Remaining(websites[i].timeLimit, websites[i].timeUsed)
  }

  // ----- startWebsiteSession -----

  /** The outcomes of `startWebsiteSession`, failures in the order they are tested. */
  datatype StartResult =
    | Started(url: string, minutesLeft: int)
    | NotFound
    | LimitReached(site: string)
    | InvalidMinutes
    | NotEnoughTime(remaining: int)

  /**
   * The checks of `startWebsiteSession` (`requestedMinutes` already through
   * `parseInt`, `None` for NaN): unknown site, nothing left, not a positive
   * number, more than is left; else the site's address and what will be left.
   */
  function StartOutcome(websites: seq<WebsiteLimit>, hostname: string, requestedMinutes: Option<int>): (r: StartResult)
    ensures r.NotFound? <==> FindIndex(websites, hostname).None?
    ensures r.LimitReached? <==>
      FindIndex(websites, hostname).Some? && TimeRemaining(websites, hostname) == 0
    ensures r.LimitReached? ==> r.site == websites[FindIndex(websites, hostname).value].url
    ensures r.InvalidMinutes? <==>
      && TimeRemaining(websites, hostname) > 0
      && (requestedMinutes.None? || requestedMinutes.value <= 0)
    ensures r.NotEnoughTime? <==>
      && requestedMinutes.Some?
      && 0 < TimeRemaining(websites, hostname) < requestedMinutes.value
    ensures r.NotEnoughTime? ==> r.remaining == TimeRemaining(websites, hostname)
    ensures r.Started? <==>
      && requestedMinutes.Some?
      && 0 < requestedMinutes.value <= TimeRemaining(websites, hostname)
    ensures r.Started? ==>
      && 0 <= r.minutesLeft == TimeRemaining(websites, hostname) - requestedMinutes.value
      && r.url == "https://" + websites[FindIndex(websites, hostname).value].url
  {
    match FindIndex(websites, hostname)
    case None => NotFound
    case Some(i) =>
      var website := websites[i];
      var timeRemaining := TimeRemaining(websites, hostname);
      if timeRemaining <= 0 then LimitReached(website.url)
      else if requestedMinutes.None? || requestedMinutes.value <= 0 then InvalidMinutes
      else if requestedMinutes.value > timeRemaining then NotEnoughTime(timeRemaining)
      else Started("https://" + website.url, timeRemaining - requestedMinutes.value)
  }

  // ----- endWebsiteSession -----

  /** `Math.ceil(elapsedMs / 60000)`, for any sign of `elapsedMs`. */
  function ElapsedMinutes(elapsedMs: int): (r: int)
    ensures (r - 1) * MS_PER_MINUTE < elapsedMs <= r * MS_PER_MINUTE
  {
    -((-elapsedMs) / MS_PER_MINUTE)
  }

  /**
   * The minutes charged for a finished spend: the supplied figure, or else
   * the smaller of the request and the started minutes elapsed since it began.
   * `supplied` is `None` exactly for the default `null`; any other value,
   * even `NaN`, is charged as given.
   */
  function SettledMinutes(session: SessionRecord, supplied: Option<int>, now: int): (m: int)
    requires session.Spend?
    ensures supplied.Some? ==> m == supplied.value
    ensures supplied.None? ==> m <= session.requestedMinutes && m <= ElapsedMinutes(now - session.startTime)
    ensures supplied.None? ==>
      m == session.requestedMinutes || m == ElapsedMinutes(now - session.startTime)
  {
    match supplied
    case Some(minutes) => minutes
    case None =>
      var elapsed := ElapsedMinutes(now - session.startTime);
      if session.requestedMinutes <= elapsed then session.requestedMinutes else elapsed
  }

  /**
   * The site index of the running session's record, when the site is still
   * listed and the record at `sessionIndex` is a spend.
   */
  function LocateSession(websites: seq<WebsiteLimit>, active: ActiveSession): (r: Option<nat>)
    ensures r.Some? ==>
      && r == FindIndex(websites, active.websiteUrl)
      && active.sessionIndex < |websites[r.value].sessions|
      && websites[r.value].sessions[active.sessionIndex].Spend?
    ensures FindIndex(websites, active.websiteUrl).Some? ==>
      var i := FindIndex(websites, active.websiteUrl).value;
      active.sessionIndex < |websites[i].sessions| && websites[i].sessions[active.sessionIndex].Spend? ==> r.Some?
  {
    match FindIndex(websites, active.websiteUrl)
    case None => None
    case Some(i) =>
      if active.sessionIndex < |websites[i].sessions| && websites[i].sessions[active.sessionIndex].Spend?
      then Some(i) else None
  }

  /** Marks spend `index` completed with `minutes` charged, and adds them to the usage. */
  function Complete(website: WebsiteLimit, index: nat, minutes: int): (r: WebsiteLimit)
    requires index < |website.sessions| && website.sessions[index].Spend?
    ensures r.url == website.url && r.timeLimit == website.timeLimit && r.lastReset == website.lastReset
    ensures r.timeUsed == website.timeUsed + minutes
    ensures |r.sessions| == |website.sessions|
    ensures forall j :: 0 <= j < |r.sessions| && j != index ==> r.sessions[j] == website.sessions[j]
    ensures r.sessions[index].Spend? && r.sessions[index].completed
    ensures r.sessions[index].actualMinutes == minutes
    ensures r.sessions[index].requestedMinutes == website.sessions[index].requestedMinutes
    ensures r.sessions[index].startTime == website.sessions[index].startTime
  {
    var session := website.sessions[index].(actualMinutes := minutes, completed := true);
    website.(timeUsed := website.timeUsed + minutes, sessions := website.sessions[index := session])
  }

  // ----- daily and forced resets -----

  /** Zero usage, today's date, and one marker of `kind` appended. */
  function ResetSite(website: WebsiteLimit, kind: ResetKind, today: string): WebsiteLimit {
    website.(timeUsed := 0, lastReset := today, sessions := website.sessions + [ResetMarker(kind, today)])
  }

  function ResetIfStale(website: WebsiteLimit, today: string): WebsiteLimit {
    if website.lastReset != today then ResetSite(website, Daily, today) else website
  }

  /** `checkAndResetDailyLimits` on a list: every site ends up dated today. */
  function DailyReset(websites: seq<WebsiteLimit>, today: string): (r: seq<WebsiteLimit>)
    ensures |r| == |websites|
    ensures forall i :: 0 <= i < |r| ==>
      r[i].url == websites[i].url && r[i].timeLimit == websites[i].timeLimit && r[i].lastReset == today
  {
    seq(|websites|, i requires 0 <= i < |websites| => ResetIfStale(websites[i], today))
  }

  /** `forceResetAll` on a list: every site zeroed, dated today, with a manual marker. */
  function ForceReset(websites: seq<WebsiteLimit>, today: string): (r: seq<WebsiteLimit>)
    ensures |r| == |websites|
    ensures forall i :: 0 <= i < |r| ==>
      && r[i].url == websites[i].url && r[i].timeLimit == websites[i].timeLimit
      && r[i].timeUsed == 0 && r[i].lastReset == today
      && r[i].sessions == websites[i].sessions + [ResetMarker(Manual, today)]
  {
    seq(|websites|, i requires 0 <= i < |websites| => ResetSite(websites[i], Manual, today))
  }

  /** A site changes exactly when its date differs; then it is zeroed and gains one marker. */
  lemma DailyResetTouchesExactlyStale(websites: seq<WebsiteLimit>, today: string, i: nat)
    requires i < |websites|
    ensures DailyReset(websites, today)[i] != websites[i] <==> websites[i].lastReset != today
    ensures websites[i].lastReset != today ==>
      && DailyReset(websites, today)[i].timeUsed == 0
      && DailyReset(websites, today)[i].sessions == websites[i].sessions + [ResetMarker(Daily, today)]
  {
  }

  /** A second run on the same day changes nothing and appends no marker. */
  lemma DailyResetIdempotent(websites: seq<WebsiteLimit>, today: string)
    ensures DailyReset(DailyReset(websites, today), today) == DailyReset(websites, today)
  {
  }

  /** After a forced reset the daily check finds nothing to do that day. */
  lemma ForceResetLeavesNothingStale(websites: seq<WebsiteLimit>, today: string)
    ensures DailyReset(ForceReset(websites, today), today) == ForceReset(websites, today)
  {
  }

  lemma ResetsKeepUniqueUrls(websites: seq<WebsiteLimit>, today: string)
    requires UniqueUrls(websites)
    ensures UniqueUrls(DailyReset(websites, today)) && UniqueUrls(ForceReset(websites, today))
  {
  }

  // ----- the payload of saveWebsiteData -----

  /** The extension's view of one site: minutes become milliseconds. */
  datatype ExtensionLimit = ExtensionLimit(timeLimit: int, timeUsed: int, lastReset: string)

  function ToExtension(website: WebsiteLimit): (e: ExtensionLimit)
    ensures e.timeLimit / MS_PER_MINUTE == website.timeLimit && e.timeUsed / MS_PER_MINUTE == website.timeUsed
    ensures e.timeLimit % MS_PER_MINUTE == 0 && e.timeUsed % MS_PER_MINUTE == 0
    ensures e.lastReset == website.lastReset
    ensures e.timeUsed >= e.timeLimit <==> website.timeUsed >= website.timeLimit
  {
    ExtensionLimit(website.timeLimit * MS_PER_MINUTE, website.timeUsed * MS_PER_MINUTE, website.lastReset)
  }

  /** The `reduce` in `saveWebsiteData`: one property per url, a later site overwriting an earlier one. */
  function ExtensionLimits(websites: seq<WebsiteLimit>): (m: map<string, ExtensionLimit>)
    ensures m.Keys == set i | 0 <= i < |websites| :: websites[i].url
    decreases |websites|
  {
    if websites == [] then map[]
    else
      var prefix, last := websites[..|websites| - 1], websites[|websites| - 1];
      var m := ExtensionLimits(prefix)[last.url := ToExtension(last)];
      assert forall i :: 0 <= i < |prefix| ==> prefix[i] == websites[i];
      m
  }

  lemma {:induction false} ExtensionLimitsLastSiteWins(websites: seq<WebsiteLimit>, i: nat)
    requires i < |websites|
    requires forall j :: i < j < |websites| ==> websites[j].url != websites[i].url
    ensures ExtensionLimits(websites)[websites[i].url] == ToExtension(websites[i])
    decreases |websites|
  {
    if i < |websites| - 1 {
      ExtensionLimitsLastSiteWins(websites[..|websites| - 1], i);
    }
  }

  /** With unique urls every site is sent with its own figures, in milliseconds. */
  lemma ExtensionLimitsOfUniqueUrls(websites: seq<WebsiteLimit>, i: nat)
    requires UniqueUrls(websites) && i < |websites|
    ensures ExtensionLimits(websites)[websites[i].url] == ToExtension(websites[i])
  {
    ExtensionLimitsLastSiteWins(websites, i);
  }

  // ----- the tracker -----

  class WebsiteTimeTracker {
    var websites: seq<WebsiteLimit>
    var activeSession: Option<ActiveSession>

    /** Starts from the stored list (parsing it is not modelled) and runs the daily check. */
    constructor (stored: seq<WebsiteLimit>, today: string)
      ensures websites == DailyReset(stored, today) && activeSession == None
    {
      websites := stored;
      activeSession := None;
      new;
      CheckAndResetDailyLimits(today);
    }

    /** `addWebsite` with the hostname already extracted. */
    method AddWebsite(url: string, timeLimit: int, today: string) returns (displayUrl: string)
      modifies this
      ensures displayUrl == url
      ensures FindIndex(old(websites), url).Some? ==> websites == old(websites)
      ensures FindIndex(old(websites), url).None? ==>
        websites == old(websites) + [NewWebsiteLimit(url, timeLimit, today)]
      ensures activeSession == old(activeSession)
      ensures UniqueUrls(old(websites)) ==> UniqueUrls(websites)
    {
      var existingIndex := FindIndex(websites, url);
      if existingIndex.Some? {
        return url;
      }
      websites := websites + [NewWebsiteLimit(url, timeLimit, today)];
      return url;
    }

    /** `removeWebsite`: refused out of range or once the site has used any time. */
    method RemoveWebsite(index: int) returns (ok: bool)
      modifies this
      ensures ok <==> 0 <= index < |old(websites)| && old(websites)[index].timeUsed <= 0
      ensures ok ==> websites == old(websites)[..index] + old(websites)[index + 1..]
      ensures !ok ==> websites == old(websites)
      ensures activeSession == old(activeSession)
      ensures UniqueUrls(old(websites)) ==> UniqueUrls(websites)
    {
      if 0 <= index < |websites| {
        if websites[index].timeUsed > 0 {
          return false;
        }
        ghost var before := websites;
        websites := websites[..index] + websites[index + 1..];
        assert forall j :: 0 <= j < |websites| ==> websites[j] == before[if j < index then j else j + 1];
        return true;
      }
      return false;
    }

    /** `startWebsiteSession`: on success appends a spend and makes it the active session. */
    method StartWebsiteSession(hostname: string, requestedMinutes: Option<int>, now: int) returns (r: StartResult)
      modifies this
      ensures r == StartOutcome(old(websites), hostname, requestedMinutes)
      ensures !r.Started? ==> websites == old(websites) && activeSession == old(activeSession)
      ensures r.Started? ==>
        var i := FindIndex(old(websites), hostname).value;
        var website := old(websites)[i];
        && websites == old(websites)[i := website.(sessions := website.sessions + [Spend(now, requestedMinutes.value, 0, false)])]
        && activeSession == Some(ActiveSession(hostname, |website.sessions|))
    {
      var found := FindIndex(websites, hostname);
      if found.None? {
        return NotFound;
      }
      var i := found.value;
      var website := websites[i];
      var timeRemaining := TimeRemaining(websites, hostname);
      if timeRemaining <= 0 {
        return LimitReached(website.url);
      }
      if requestedMinutes.None? || requestedMinutes.value <= 0 {
        return InvalidMinutes;
      }
      var minutes := requestedMinutes.value;
      if minutes > timeRemaining {
        return NotEnoughTime(timeRemaining);
      }
      var session := Spend(now, minutes, 0, false);
      websites := websites[i := website.(sessions := website.sessions + [session])];
      activeSession := Some(ActiveSession(hostname, |website.sessions|));
      return Started("https://" + website.url, timeRemaining - minutes);
    }

    /**
     * `endWebsiteSession`: charges the running session and clears it; does
     * nothing and answers false when none runs or its record is gone.
     * `actualMinutes` is `None` for `null`, as for SettledMinutes.
     */
    method EndWebsiteSession(actualMinutes: Option<int>, now: int) returns (ok: bool)
      modifies this
      ensures ok <==> old(activeSession).Some? && LocateSession(old(websites), old(activeSession).value).Some?
      ensures !ok ==> websites == old(websites) && activeSession == old(activeSession)
      ensures ok ==>
        var active := old(activeSession).value;
        var i := LocateSession(old(websites), active).value;
        var session := old(websites)[i].sessions[active.sessionIndex];
        && activeSession == None
        && websites == old(websites)[i := Complete(old(websites)[i], active.sessionIndex,
                                                   SettledMinutes(session, actualMinutes, now))]
    {
      if activeSession.None? {
        return false;
      }
      var active := activeSession.value;
      var found := FindIndex(websites, active.websiteUrl);
      if found.None? {
        return false;
      }
      var i := found.value;
      var website := websites[i];
      if active.sessionIndex >= |website.sessions| || !website.sessions[active.sessionIndex].Spend? {
        return false;
      }
      var session := website.sessions[active.sessionIndex];
      var minutes := SettledMinutes(session, actualMinutes, now);
      websites := websites[i := Complete(website, active.sessionIndex, minutes)];
      activeSession := None;
      return true;
    }

    /** `checkAndResetDailyLimits`, one site at a time in list order. */
    method CheckAndResetDailyLimits(today: string)
      modifies this
      ensures websites == DailyReset(old(websites), today)
      ensures activeSession == old(activeSession)
    {
      var i := 0;
      while i < |websites|
        invariant 0 <= i <= |websites| == |old(websites)|
        invariant forall j :: 0 <= j < i ==> websites[j] == ResetIfStale(old(websites)[j], today)
        invariant forall j :: i <= j < |websites| ==> websites[j] == old(websites)[j]
        invariant activeSession == old(activeSession)
      {
        if websites[i].lastReset != today {
          websites := websites[i := ResetSite(websites[i], Daily, today)];
        }
        i := i + 1;
      }
    }

    /** `forceResetAll`: every site zeroed and marked, whatever its date; always true. */
    method ForceResetAll(today: string) returns (ok: bool)
      modifies this
      ensures ok
      ensures websites == ForceReset(old(websites), today)
      ensures activeSession == old(activeSession)
    {
      var i := 0;
      while i < |websites|
        invariant 0 <= i <= |websites| == |old(websites)|
        invariant forall j :: 0 <= j < i ==> websites[j] == ResetSite(old(websites)[j], Manual, today)
        invariant forall j :: i <= j < |websites| ==> websites[j] == old(websites)[j]
        invariant activeSession == old(activeSession)
      {
        websites := websites[i := ResetSite(websites[i], Manual, today)];
        i := i + 1;
      }
      return true;
    }
  }

  /**
   * A site with 20 minutes and nothing used: asking for 25 minutes is refused
   * without effect; a 5-minute session charged 5 minutes leaves 15, and a
   * second end finds nothing to end.
   */
  method SessionScenario(today: string, now: int) {
    var tracker := new WebsiteTimeTracker([], today);
    var host := tracker.AddWebsite("example.org", 20, today);
    ghost var added := [NewWebsiteLimit("example.org", 20, today)];
    assert tracker.websites == added;
    assert FindIndex(added, "example.org") == Some(0);
    assert TimeRemaining(added, "example.org") == 20;
    var refused := tracker.StartWebsiteSession("example.org", Some(25), now);
    assert refused == NotEnoughTime(20);
    var started := tracker.StartWebsiteSession("example.org", Some(5), now);
    assert started == Started("https://example.org", 15);
    assert tracker.activeSession == Some(ActiveSession("example.org", 0));
    var ended := tracker.EndWebsiteSession(Some(5), now);
    assert ended;
    assert tracker.websites[0].timeUsed == 5;
    assert TimeRemaining(tracker.websites, "example.org") == 15;
    var again := tracker.EndWebsiteSession(None, now);
    assert !again;
  }
}
