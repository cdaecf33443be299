/**
 * The extension's background page: the authoritative `websiteLimits` table,
 * the daily reset, the per-second tracking tick, the block flag, the table
 * rebuild from the server, and the navigation decisions.
 */
module Background {
  import opened Wrappers
  import opened Strings
  import opened LimitsTable
  import opened Quota

  const TICK_MS := 1000
  // ----- checkDailyReset -----

  function ResetIfStale(limit: SiteLimit, today: string): SiteLimit {
    if limit.lastReset != today then limit.(timeUsed := 0, blocked := false, lastReset := today)
    else limit
  }

  /** Every site dated other than `today` gets zero usage, no block and today's date. */
  function DailyReset(t: Table, today: string): (r: Table)
    ensures r.keys == t.keys && r.entries.Keys == t.entries.Keys
    ensures forall k :: k in r.entries ==>
      r.entries[k].lastReset == today && r.entries[k].timeLimit == t.entries[k].timeLimit
  {
    Table(t.keys, map k | k in t.entries :: ResetIfStale(t.entries[k], today))
  }

  /** A site changes exactly when its date differs, and then it restarts from nothing. */
  lemma DailyResetTouchesExactlyStale(t: Table, today: string, site: string)
    requires site in t.entries
    ensures DailyReset(t, today).entries[site] != t.entries[site] <==> t.entries[site].lastReset != today
    ensures t.entries[site].lastReset != today ==>
      DailyReset(t, today).entries[site] == SiteLimit(t.entries[site].timeLimit, 0, today, false)
  {
  }

  /** A second reset on the same day changes nothing. */
  lemma DailyResetIdempotent(t: Table, today: string)
    ensures DailyReset(DailyReset(t, today), today) == DailyReset(t, today)
  {
  }

  lemma DailyResetKeepsConsistent(t: Table, today: string)
    requires Consistent(t)
    ensures Consistent(DailyReset(t, today))
  {
  }

  // ----- shouldBlockSite -----

  /**
   * The first key that matches with "www." stripped from both sides decides:
   * block when its budget is used up or its flag is set. Later keys are
   * never consulted.
   */
  function ShouldBlock(t: Table, hostname: string): (b: bool)
    requires t.WellFormed()
    ensures b <==> exists i :: (
      && 0 <= i < |t.keys| && Matches(StripBoth, t.keys[i], hostname)
      && (forall j :: 0 <= j < i ==> !Matches(StripBoth, t.keys[j], hostname))
      && (Exhausted(t.entries[t.keys[i]]) || t.entries[t.keys[i]].blocked))
  {
    match FirstMatch(t.keys, hostname, StripBoth)
    case None => false
    case Some(i) =>
      var limit := t.entries[t.keys[i]];
      Exhausted(limit) || limit.blocked
  }

  /** Only the first matching key matters: two tables that agree up to it decide alike. */
  lemma ShouldBlockIgnoresLaterKeys(t: Table, u: Table, hostname: string, i: nat)
    requires t.WellFormed() && u.WellFormed()
    requires FirstMatch(t.keys, hostname, StripBoth) == Some(i)
    requires i < |t.keys| && i < |u.keys| && forall j :: 0 <= j <= i ==> u.keys[j] == t.keys[j]
    requires u.entries[u.keys[i]] == t.entries[t.keys[i]]
    ensures ShouldBlock(u, hostname) == ShouldBlock(t, hostname)
  {
    FirstMatchOfAgreeingPrefix(t.keys, u.keys, hostname, StripBoth, i);
  }

  /** In a consistent table the flag adds nothing: the first match's usage decides. */
  lemma ShouldBlockWhenConsistent(t: Table, hostname: string)
    requires t.WellFormed() && Consistent(t)
    ensures ShouldBlock(t, hostname) <==>
      FirstMatch(t.keys, hostname, StripBoth).Some? &&
      Exhausted(t.entries[t.keys[FirstMatch(t.keys, hostname, StripBoth).value]])
  {
  }

  // ----- blockSite -----

  /** Sets the flag of `site` when it is a key, whatever its usage. */
  function Block(t: Table, site: string): (r: Table)
    ensures r.keys == t.keys && r.entries.Keys == t.entries.Keys
    ensures forall k :: k in t.entries && k != site ==> r.entries[k] == t.entries[k]
    ensures site in t.entries ==> r.entries[site].blocked
    ensures site in t.entries ==>
      r.entries[site].(blocked := false) == t.entries[site].(blocked := false)
    ensures site !in t.entries ==> r == t
  {
    if site in t.entries then Table(t.keys, t.entries[site := t.entries[site].(blocked := true)])
    else t
  }

  lemma BlockIdempotent(t: Table, site: string)
    ensures Block(Block(t, site), site) == Block(t, site)
  {
  }

  /** Blocking keeps "blocked implies exhausted" exactly when the site is exhausted. */
  lemma BlockKeepsConsistentIff(t: Table, site: string)
    requires Consistent(t) && site in t.entries
    ensures Consistent(Block(t, site)) <==> Exhausted(t.entries[site])
  {
    if !Exhausted(t.entries[site]) {
      assert Block(t, site).entries[site].blocked;
    }
  }

  // ----- trackTime -----

  /** One 1000 ms tick for `site`: ignored when absent or blocked; blocks on reaching the limit. */
  function Tick(t: Table, site: string): (r: Table)
    ensures r.keys == t.keys && r.entries.Keys == t.entries.Keys
    ensures forall k :: k in t.entries && k != site ==> r.entries[k] == t.entries[k]
    ensures site !in t.entries || t.entries[site].blocked ==> r == t
    ensures site in t.entries && !t.entries[site].blocked ==>
      var before, after := t.entries[site], r.entries[site];
      && after.timeUsed == before.timeUsed + TICK_MS
      && after.timeLimit == before.timeLimit
      && after.lastReset == before.lastReset
      && (after.blocked <==> Exhausted(after))
  {
    if site !in t.entries || t.entries[site].blocked then t
    else
      var counted := t.entries[site].(timeUsed := t.entries[site].timeUsed + TICK_MS);
      var next := if counted.timeUsed >= counted.timeLimit then counted.(blocked := true) else counted;
      Table(t.keys, t.entries[site := next])
  }

  lemma TickKeepsConsistent(t: Table, site: string)
    requires Consistent(t)
    ensures Consistent(Tick(t, site))
  {
  }

  /** The flag a crossing tick sets makes the tabs' follow-up `blockSite` calls no-ops. */
  lemma BlockAfterTickIsNoOp(t: Table, site: string)
    requires site in t.entries && !t.entries[site].blocked
    requires Exhausted(Tick(t, site).entries[site])
    ensures Block(Tick(t, site), site) == Tick(t, site)
  {
    var r := Tick(t, site);
    assert r.entries[site := r.entries[site].(blocked := true)] == r.entries;
  }

  /** `n` successive ticks for the same site. */
  function Ticks(t: Table, site: string, n: nat): (r: Table)
    ensures r.keys == t.keys && r.entries.Keys == t.entries.Keys
    ensures forall k :: k in t.entries && k != site ==> r.entries[k] == t.entries[k]
    decreases n
  {
    if n == 0 then t else Tick(Ticks(t, site, n - 1), site)
  }

  /**
   * Ticking an unblocked site blocks it exactly once the accumulated ticks
   * reach its limit; until then every tick counts, afterwards none does,
   * and a site that started under its limit overshoots it by less than a tick.
   */
  lemma {:induction false} TicksBlockOnceBudgetSpent(t: Table, site: string, n: nat)
    requires site in t.entries && !t.entries[site].blocked
    ensures var before, after := t.entries[site], Ticks(t, site, n).entries[site];
      && after.timeLimit == before.timeLimit
      && (after.blocked <==> n >= 1 && before.timeUsed + TICK_MS * n >= before.timeLimit)
      && (!after.blocked ==> after.timeUsed == before.timeUsed + TICK_MS * n)
      && (after.blocked && before.timeUsed < before.timeLimit ==>
            before.timeLimit <= after.timeUsed < before.timeLimit + TICK_MS)
    decreases n
  {
    if n > 0 {
      TicksBlockOnceBudgetSpent(t, site, n - 1);
      var prev := Ticks(t, site, n - 1);
      assert Ticks(t, site, n) == Tick(prev, site);
      assert TICK_MS * n == TICK_MS * (n - 1) + TICK_MS;
      var mid, after := prev.entries[site], Ticks(t, site, n).entries[site];
      if mid.blocked {
        assert after == mid;
      } else {
        assert after.timeUsed == mid.timeUsed + TICK_MS;
      }
    }
  }

  // ----- loadWebsiteLimits -----

  /** One element of the server's `websites` array: minutes and a date. */
  datatype ServerWebsite = ServerWebsite(websiteUrl: string, timeLimit: int, timeUsed: int, lastReset: string)

  /** The parsed reply of the `/websites` request, or a failed fetch. */
  datatype Reply = FetchFailed | Reply(success: bool, websites: Option<seq<ServerWebsite>>)

  /** Minutes become milliseconds and the flag starts cleared. */
  function FromServer(w: ServerWebsite): (r: SiteLimit)
    ensures r.timeLimit / MS_PER_MINUTE == w.timeLimit && r.timeUsed / MS_PER_MINUTE == w.timeUsed
    ensures r.timeLimit % MS_PER_MINUTE == 0 && r.timeUsed % MS_PER_MINUTE == 0
    ensures r.lastReset == w.lastReset && !r.blocked
    ensures Exhausted(r) <==> w.timeUsed >= w.timeLimit
  {
    SiteLimit(w.timeLimit * MS_PER_MINUTE, w.timeUsed * MS_PER_MINUTE, w.lastReset, false)
  }

  /** `obj[key] = value`: a new key goes last, an existing key keeps its place. */
  function Assign(t: Table, key: string, value: SiteLimit): (r: Table)
    requires t.WellFormed()
    ensures r.WellFormed()
    ensures r.entries == t.entries[key := value]
    ensures key in t.entries ==> r.keys == t.keys
    ensures key !in t.entries ==> r.keys == t.keys + [key]
  {
    if key in t.entries then Table(t.keys, t.entries[key := value])
    else Table(t.keys + [key], t.entries[key := value])
  }

  /** One more server record adds its url to the urls of the records before it. */
  lemma {:induction false} ServerUrlSetStep(websites: seq<ServerWebsite>, prefix: seq<ServerWebsite>, last: ServerWebsite)
    requires websites == prefix + [last]
    ensures (set i | 0 <= i < |websites| :: websites[i].websiteUrl) ==
      (set i | 0 <= i < |prefix| :: prefix[i].websiteUrl) + {last.websiteUrl}
  {
    var all, before := set i | 0 <= i < |websites| :: websites[i].websiteUrl, set i | 0 <= i < |prefix| :: prefix[i].websiteUrl;
    forall k | k in all ensures k in before + {last.websiteUrl} {
      var i :| 0 <= i < |websites| && websites[i].websiteUrl == k;
      if i < |prefix| {
        assert prefix[i] == websites[i];
      }
    }
    forall k | k in before ensures k in all {
      var i :| 0 <= i < |prefix| && prefix[i].websiteUrl == k;
      assert websites[i] == prefix[i];
    }
    assert websites[|prefix|] == last;
  }

  /** The table the rebuild loop produces from the server's list. */
  function SyncTable(websites: seq<ServerWebsite>): (r: Table)
    ensures r.WellFormed()
    ensures r.entries.Keys == set i | 0 <= i < |websites| :: websites[i].websiteUrl
    ensures forall k :: k in r.entries ==> !r.entries[k].blocked
    decreases |websites|
  {
    if websites == [] then EMPTY
    else
      var prefix, last := websites[..|websites| - 1], websites[|websites| - 1];
      var r := Assign(SyncTable(prefix), last.websiteUrl, FromServer(last));
      ServerUrlSetStep(websites, prefix, last);
      r
  }

  /** Each key holds the converted figures of the last server record with that url. */
  lemma {:induction false} SyncTableLastRecordWins(websites: seq<ServerWebsite>, i: nat)
    requires i < |websites|
    requires forall j :: i < j < |websites| ==> websites[j].websiteUrl != websites[i].websiteUrl
    ensures SyncTable(websites).entries[websites[i].websiteUrl] == FromServer(websites[i])
    decreases |websites|
  {
    if i < |websites| - 1 {
      var prefix := websites[..|websites| - 1];
      SyncTableLastRecordWins(prefix, i);
    }
  }

  /** The server's urls in the order it lists them. */
  function ServerUrls(websites: seq<ServerWebsite>): (urls: seq<string>)
    ensures |urls| == |websites|
    ensures forall i :: 0 <= i < |websites| ==> urls[i] == websites[i].websiteUrl
  {
    if websites == [] then [] else ServerUrls(websites[..|websites| - 1]) + [websites[|websites| - 1].websiteUrl]
  }

  /** With distinct urls the keys are the urls in the server's order. */
  lemma {:induction false} SyncTableKeysInServerOrder(websites: seq<ServerWebsite>)
    requires forall i, j :: 0 <= i < j < |websites| ==> websites[i].websiteUrl != websites[j].websiteUrl
    ensures SyncTable(websites).keys == ServerUrls(websites)
    decreases |websites|
  {
    if websites != [] {
      var prefix, last := websites[..|websites| - 1], websites[|websites| - 1];
      assert forall i :: 0 <= i < |prefix| ==> prefix[i] == websites[i];
      SyncTableKeysInServerOrder(prefix);
      assert last.websiteUrl !in set i | 0 <= i < |prefix| :: prefix[i].websiteUrl;
      assert ServerUrls(websites) == ServerUrls(prefix) + [last.websiteUrl];
    }
  }

  lemma SyncTableConsistent(websites: seq<ServerWebsite>)
    ensures Consistent(SyncTable(websites))
  {
  }

  // ----- tabs.onUpdated -----

  /** What a completed navigation leads to. */
  datatype NavAction = Redirect(site: string) | Track(site: string) | Ignore

  /**
   * The listener as written: `shouldBlockSite` decides whether to block, but
   * both scans then pick the first key whose stripped form is a substring of
   * the RAW hostname, or contains it.
   */
  function NavigationDecision(t: Table, hostname: string): (a: NavAction)
    requires t.WellFormed()
    ensures a.Ignore? <==> FirstMatch(t.keys, hostname, StripKeyOnly).None?
    ensures !a.Ignore? ==> a.site in t.entries && Matches(StripKeyOnly, a.site, hostname)
    ensures !a.Ignore? ==> exists i :: (
      && 0 <= i < |t.keys| && a.site == t.keys[i]
      && Matches(StripKeyOnly, t.keys[i], hostname)
      && forall j :: 0 <= j < i ==> !Matches(StripKeyOnly, t.keys[j], hostname))
    ensures a.Redirect? ==> ShouldBlock(t, hostname)
    ensures a.Track? ==> !ShouldBlock(t, hostname)
  {
    match FirstMatch(t.keys, hostname, StripKeyOnly)
    case None => Ignore
    case Some(i) => if ShouldBlock(t, hostname) then Redirect(t.keys[i]) else Track(t.keys[i])
  }

  const SAMPLE_DAY := "2024-05-01"

  /** "bbc.co.uk" has used its minute; "bbc.co" has used nothing. */
  const SAMPLE_TABLE := Table(["bbc.co.uk", "bbc.co"],
    map["bbc.co.uk" := SiteLimit(60000, 60000, SAMPLE_DAY, false),
        "bbc.co" := SiteLimit(60000, 0, SAMPLE_DAY, false)])

  lemma SampleHostStripped()
    ensures StripWww("www.bbc.co") == "bbc.co"
  {
    assert "www.bbc.co" == WWW + "bbc.co";
    StripLeadingWww("bbc.co");
  }

  lemma SampleLongKeyUnstripped()
    ensures StripWww("bbc.co.uk") == "bbc.co.uk"
  {
    NotContainsByChar("bbc.co.uk", WWW, 0);
  }

  lemma SampleShortKeyUnstripped()
    ensures StripWww("bbc.co") == "bbc.co"
  {
    NotContainsByChar("bbc.co", WWW, 0);
  }

  lemma SampleLongKeyHoldsHost()
    ensures Contains("bbc.co.uk", "bbc.co")
  {
    assert OccursAt("bbc.co.uk", "bbc.co", 0);
  }

  /** "www.bbc.co" has no 'k', so "bbc.co.uk" is not inside it. */
  lemma SampleRawHostLacksLongKey()
    ensures !Contains("www.bbc.co", "bbc.co.uk")
  {
    NotContainsByChar("www.bbc.co", "bbc.co.uk", 8);
  }

  /** "www.bbc.co" is the longer of the two, so it is not inside "bbc.co.uk". */
  lemma SampleLongKeyLacksRawHost()
    ensures !Contains("bbc.co.uk", "www.bbc.co")
  {
    forall i ensures !OccursAt("bbc.co.uk", "www.bbc.co", i) {
    }
  }

  lemma SampleLongKeyApartFromRawHost()
    ensures !Contains("www.bbc.co", "bbc.co.uk") && !Contains("bbc.co.uk", "www.bbc.co")
  {
    SampleRawHostLacksLongKey();
    SampleLongKeyLacksRawHost();
  }

  lemma SampleRawHostHoldsShortKey()
    ensures Contains("www.bbc.co", "bbc.co")
  {
    assert OccursAt("www.bbc.co", "bbc.co", 4);
  }

  /**
   * When the key that decides `shouldBlockSite` (first under the stripped
   * rule) is exhausted but the raw-hostname scan stops at a different,
   * unexhausted key, the listener flags that other key.
   */
  lemma NavigationFlagsLaterKey(t: Table, hostname: string, i: nat, j: nat)
    requires t.WellFormed()
    requires FirstMatch(t.keys, hostname, StripBoth) == Some(i) && Exhausted(t.entries[t.keys[i]])
    requires FirstMatch(t.keys, hostname, StripKeyOnly) == Some(j) && !Exhausted(t.entries[t.keys[j]])
    ensures t.keys[j] != t.keys[i]
    ensures NavigationDecision(t, hostname) == Redirect(t.keys[j])
    ensures !Consistent(Block(t, t.keys[j]))
  {
    assert Block(t, t.keys[j]).entries[t.keys[j]].blocked;
  }

  /** The sample is a well-formed, consistent table in which "bbc.co.uk" is exhausted and "bbc.co" is not. */
  lemma SampleTableConsistent()
    ensures SAMPLE_TABLE.WellFormed() && Consistent(SAMPLE_TABLE)
    ensures SAMPLE_TABLE.keys[0] == "bbc.co.uk" && Exhausted(SAMPLE_TABLE.entries["bbc.co.uk"])
    ensures SAMPLE_TABLE.keys[1] == "bbc.co" && !Exhausted(SAMPLE_TABLE.entries["bbc.co"])
  {
    assert "bbc.co.uk" != "bbc.co";
  }

  /** Under the rule of `shouldBlockSite` the first key, "bbc.co.uk", decides for "www.bbc.co". */
  lemma SampleStrippedRuleStopsAtLongKey()
    ensures FirstMatch(SAMPLE_TABLE.keys, "www.bbc.co", StripBoth) == Some(0)
  {
    SampleHostStripped();
    SampleLongKeyUnstripped();
    SampleLongKeyHoldsHost();
  }

  /** The raw-hostname scan passes over "bbc.co.uk" and stops at "bbc.co". */
  lemma SampleRawRuleSkipsLongKey()
    ensures FirstMatch(SAMPLE_TABLE.keys, "www.bbc.co", StripKeyOnly) == Some(1)
  {
    SampleLongKeyUnstripped();
    SampleShortKeyUnstripped();
    SampleLongKeyApartFromRawHost();
    SampleRawHostHoldsShortKey();
    assert !Matches(StripKeyOnly, SAMPLE_TABLE.keys[0], "www.bbc.co");
    assert Matches(StripKeyOnly, SAMPLE_TABLE.keys[1], "www.bbc.co");
  }

  /**
   * Visiting "www.bbc.co": `shouldBlockSite` matches "bbc.co.uk" (stripped
   * "bbc.co" lies inside it), which is exhausted, so the page is blocked; the
   * raw-hostname scan then skips "bbc.co.uk" and flags "bbc.co", a site with
   * its whole budget left.
   */
  lemma NavigationBlocksUnexhaustedKey()
    ensures SAMPLE_TABLE.WellFormed() && Consistent(SAMPLE_TABLE)
    ensures NavigationDecision(SAMPLE_TABLE, "www.bbc.co") == Redirect("bbc.co")
    ensures !Exhausted(SAMPLE_TABLE.entries["bbc.co"])
    ensures !Consistent(Block(SAMPLE_TABLE, "bbc.co"))
  {
    SampleTableConsistent();
    SampleStrippedRuleStopsAtLongKey();
    SampleRawRuleSkipsLongKey();
    NavigationFlagsLaterKey(SAMPLE_TABLE, "www.bbc.co", 0, 1);
  }

  /** The listener as intended: both scans use the rule `shouldBlockSite` uses. */
  function CorrectedNavigationDecision(t: Table, hostname: string): (a: NavAction)
    requires t.WellFormed()
    ensures a.Ignore? <==> FirstMatch(t.keys, hostname, StripBoth).None?
    ensures !a.Ignore? ==> a.site in t.entries && Matches(StripBoth, a.site, hostname)
    ensures !a.Ignore? ==> exists i :: (
      && 0 <= i < |t.keys| && a.site == t.keys[i]
      && Matches(StripBoth, t.keys[i], hostname)
      && forall j :: 0 <= j < i ==> !Matches(StripBoth, t.keys[j], hostname))
    ensures a.Redirect? <==> ShouldBlock(t, hostname)
  {
    match FirstMatch(t.keys, hostname, StripBoth)
    case None => Ignore
    case Some(i) => if ShouldBlock(t, hostname) then Redirect(t.keys[i]) else Track(t.keys[i])
  }

  /** Blocking the site the corrected decision names keeps "blocked implies exhausted". */
  lemma CorrectedNavigationKeepsConsistent(t: Table, hostname: string)
    requires t.WellFormed() && Consistent(t)
    ensures var a := CorrectedNavigationDecision(t, hostname);
      a.Redirect? ==> Consistent(Block(t, a.site))
  {
    var a := CorrectedNavigationDecision(t, hostname);
    if a.Redirect? {
      BlockKeepsConsistentIff(t, a.site);
    }
  }

  // ----- the background page's state -----

  class BackgroundPage {
    var websiteLimits: Table

    ghost predicate Valid()
      reads this
    {
      websiteLimits.WellFormed()
    }

    /** `let websiteLimits = {}`. */
    constructor ()
      ensures Valid() && websiteLimits == EMPTY
    {
      websiteLimits := EMPTY;
    }

    /** `checkDailyReset`, one key at a time in `Object.keys` order. */
    method CheckDailyReset(today: string)
      requires Valid()
      modifies this
      ensures Valid()
      ensures websiteLimits == DailyReset(old(websiteLimits), today)
    {
      ghost var start := websiteLimits;
      var keys := websiteLimits.keys;
      var i := 0;
      while i < |keys|
        invariant 0 <= i <= |keys|
        invariant websiteLimits.keys == keys && websiteLimits.entries.Keys == start.entries.Keys
        invariant forall j :: 0 <= j < i ==>
          websiteLimits.entries[keys[j]] == ResetIfStale(start.entries[keys[j]], today)
        invariant forall j :: i <= j < |keys| ==>
          websiteLimits.entries[keys[j]] == start.entries[keys[j]]
      {
        var site := keys[i];
        var limit := websiteLimits.entries[site];
        assert forall j :: 0 <= j < |keys| && j != i ==> keys[j] != site;
        if limit.lastReset != today {
          var cleared := limit.(timeUsed := 0, blocked := false, lastReset := today);
          websiteLimits := websiteLimits.(entries := websiteLimits.entries[site := cleared]);
        }
        i := i + 1;
      }
      forall k | k in websiteLimits.entries
        ensures websiteLimits.entries[k] == DailyReset(start, today).entries[k]
      {
        var j :| 0 <= j < |keys| && keys[j] == k;
      }
    }

    /** `shouldBlockSite`: returns at the first key that matches. */
    method ShouldBlockSite(hostname: string) returns (b: bool)
      requires Valid()
      ensures b == ShouldBlock(websiteLimits, hostname)
    {
      var keys := websiteLimits.keys;
      var i := 0;
      while i < |keys|
        invariant 0 <= i <= |keys|
        invariant forall j :: 0 <= j < i ==> !Matches(StripBoth, keys[j], hostname)
      {
        var site := keys[i];
        var cleanSite := StripWww(site);
        var cleanHostname := StripWww(hostname);
        if Contains(cleanHostname, cleanSite) || Contains(cleanSite, cleanHostname) {
          var limit := websiteLimits.entries[site];
          return limit.timeUsed >= limit.timeLimit || limit.blocked;
        }
        i := i + 1;
      }
      return false;
    }

    /** `blockSite`, state part: the redirect of the tab is not modelled. */
    method BlockSite(site: string)
      requires Valid()
      modifies this
      ensures Valid()
      ensures websiteLimits == Block(old(websiteLimits), site)
    {
      if site in websiteLimits.entries {
        var limit := websiteLimits.entries[site];
        websiteLimits := websiteLimits.(entries := websiteLimits.entries[site := limit.(blocked := true)]);
      }
    }

    /** `trackTime`: one tick of the per-tab interval. */
    method TrackTime(site: string)
      requires Valid()
      modifies this
      ensures Valid()
      ensures websiteLimits == Tick(old(websiteLimits), site)
    {
      if site !in websiteLimits.entries || websiteLimits.entries[site].blocked {
        return;
      }
      var limit := websiteLimits.entries[site];
      limit := limit.(timeUsed := limit.timeUsed + TICK_MS);
      if limit.timeUsed >= limit.timeLimit {
        limit := limit.(blocked := true);
      }
      websiteLimits := websiteLimits.(entries := websiteLimits.entries[site := limit]);
    }

    /** The rebuild in `loadWebsiteLimits`, given the server's reply. */
    method LoadWebsiteLimits(reply: Reply)
      requires Valid()
      modifies this
      ensures Valid()
      ensures reply.Reply? && reply.success && reply.websites.Some? ==>
        websiteLimits == SyncTable(reply.websites.value)
      ensures !(reply.Reply? && reply.success && reply.websites.Some?) ==>
        websiteLimits == old(websiteLimits)
    {
      if reply.Reply? && reply.success && reply.websites.Some? {
        var websites := reply.websites.value;
        websiteLimits := EMPTY;
        var i := 0;
        while i < |websites|
          invariant 0 <= i <= |websites|
          invariant websiteLimits == SyncTable(websites[..i])
        {
          var w := websites[i];
          assert websites[..i + 1][..i] == websites[..i];
          assert websites[..i + 1][i] == w;
          assert SyncTable(websites[..i + 1]) == Assign(SyncTable(websites[..i]), w.websiteUrl, FromServer(w));
          websiteLimits := Assign(websiteLimits, w.websiteUrl, FromServer(w));
          i := i + 1;
        }
        assert websites[..i] == websites;
      }
    }

    /** One scan of the listener: the first key matching the raw hostname. */
    method FindSiteForHostname(hostname: string) returns (r: Option<nat>)
      requires Valid()
      ensures r == FirstMatch(websiteLimits.keys, hostname, StripKeyOnly)
    {
      var keys := websiteLimits.keys;
      var i := 0;
      while i < |keys|
        invariant 0 <= i <= |keys|
        invariant forall j :: 0 <= j < i ==> !Matches(StripKeyOnly, keys[j], hostname)
      {
        var cleanSite := StripWww(keys[i]);
        if Contains(hostname, cleanSite) || Contains(cleanSite, hostname) {
          FirstMatchAt(keys, hostname, StripKeyOnly, i);
          return Some(i);
        }
        assert !Matches(StripKeyOnly, keys[i], hostname);
        i := i + 1;
      }
      return None;
    }

    /**
     * The `tabs.onUpdated` listener on a completed navigation to `hostname`:
     * block the first raw match when `shouldBlockSite` says so, otherwise
     * start tracking the first raw match (the interval itself is not modelled).
     */
    method OnTabUpdated(hostname: string) returns (action: NavAction)
      requires Valid()
      modifies this
      ensures Valid()
      ensures action == NavigationDecision(old(websiteLimits), hostname)
      ensures websiteLimits == if action.Redirect? then Block(old(websiteLimits), action.site)
                               else old(websiteLimits)
    {
      var block := ShouldBlockSite(hostname);
      if block {
        var found := FindSiteForHostname(hostname);
        if found.Some? {
          var site := websiteLimits.keys[found.value];
          BlockSite(site);
          return Redirect(site);
        }
      }
      var found := FindSiteForHostname(hostname);
      if found.Some? {
        return Track(websiteLimits.keys[found.value]);
      }
      return Ignore;
    }
  }
}
