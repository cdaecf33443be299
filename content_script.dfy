/**
 * The content script's decision, from the stored `websiteLimits` snapshot,
 * whether the current page is redirected to the blocked page and for which key.
 */
module ContentScript {
  import opened Wrappers
  import opened Strings
  import opened LimitsTable

  /** `hostname.includes(site)` with the budget used up; the flag is not read. */
  predicate Overdue(entries: map<string, SiteLimit>, site: string, hostname: string)
    requires site in entries
  {
    Matches(KeyInHost, site, hostname) && Exhausted(entries[site])
  }

  /** The scan: a matching key under its limit does not stop it; the first overdue key does. */
  function FirstOverdue(keys: seq<string>, entries: map<string, SiteLimit>, hostname: string): (r: Option<nat>)
    requires forall i :: 0 <= i < |keys| ==> keys[i] in entries
    ensures r.Some? ==> r.value < |keys| && Overdue(entries, keys[r.value], hostname)
    ensures r.Some? ==> forall j :: 0 <= j < r.value ==> !Overdue(entries, keys[j], hostname)
    ensures r.None? <==> forall j :: 0 <= j < |keys| ==> !Overdue(entries, keys[j], hostname)
  {
    if |keys| == 0 then None
    else if Overdue(entries, keys[0], hostname) then Some(0)
    else
      match FirstOverdue(keys[1..], entries, hostname)
      case None => None
      case Some(i) => Some(i + 1)
  }

  /** The key named in the redirect, if any; nothing when no limits are stored. */
  function RedirectTarget(stored: Option<Table>, hostname: string): (r: Option<string>)
    requires stored.Some? ==> stored.value.WellFormed()
    ensures stored.None? ==> r.None?
    ensures r.Some? ==>
      && r.value in stored.value.entries
      && Contains(hostname, r.value)
      && Exhausted(stored.value.entries[r.value])
    ensures r.Some? ==> exists i :: (
      && 0 <= i < |stored.value.keys| && r.value == stored.value.keys[i]
      && Overdue(stored.value.entries, stored.value.keys[i], hostname)
      && forall j :: 0 <= j < i ==> !Overdue(stored.value.entries, stored.value.keys[j], hostname))
    ensures r.Some? <==>
      && stored.Some?
      && exists i :: 0 <= i < |stored.value.keys| && Overdue(stored.value.entries, stored.value.keys[i], hostname)
  {
    match stored
    case None => None
    case Some(t) =>
      match FirstOverdue(t.keys, t.entries, hostname)
      case None => None
      case Some(i) => Some(t.keys[i])
  }

  /** Two snapshots that differ at most in their `blocked` flags redirect alike. */
  lemma {:induction false} FirstOverdueIgnoresFlags(keys: seq<string>, a: map<string, SiteLimit>,
                                                    b: map<string, SiteLimit>, hostname: string)
    requires forall i :: 0 <= i < |keys| ==> keys[i] in a && keys[i] in b
    requires forall i :: 0 <= i < |keys| ==>
      a[keys[i]].timeUsed == b[keys[i]].timeUsed && a[keys[i]].timeLimit == b[keys[i]].timeLimit
    ensures FirstOverdue(keys, a, hostname) == FirstOverdue(keys, b, hostname)
    decreases |keys|
  {
    if |keys| > 0 {
      FirstOverdueIgnoresFlags(keys[1..], a, b, hostname);
    }
  }

  lemma RedirectIgnoresBlockedFlag(t: Table, u: Table, hostname: string)
    requires t.WellFormed() && u.WellFormed() && t.keys == u.keys
    requires forall k :: k in t.entries ==>
      u.entries[k].timeUsed == t.entries[k].timeUsed && u.entries[k].timeLimit == t.entries[k].timeLimit
    ensures RedirectTarget(Some(t), hostname) == RedirectTarget(Some(u), hostname)
  {
    FirstOverdueIgnoresFlags(t.keys, t.entries, u.entries, hostname);
  }
}
