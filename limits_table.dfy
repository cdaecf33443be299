/**
 * The extension's `websiteLimits` object: per-hostname budgets in
 * milliseconds, and the substring rules by which a visited hostname is
 * matched against its keys.
 */
module LimitsTable {
  import opened Wrappers
  import opened Strings

  /** `{timeLimit, timeUsed, lastReset, blocked}`, times in milliseconds. */
  datatype SiteLimit = SiteLimit(timeLimit: int, timeUsed: int, lastReset: string, blocked: bool)

  /**
   * A JavaScript object keyed by hostname. `keys` lists the properties in
   * the order `for...in` and `Object.keys` visit them (insertion order);
   * `entries` holds their values.
   */
  datatype Table = Table(keys: seq<string>, entries: map<string, SiteLimit>) {
    predicate WellFormed() {
      && (forall i, j :: 0 <= i < j < |keys| ==> keys[i] != keys[j])
      && (forall k :: k in entries ==> k in keys)
      && (forall i :: 0 <= i < |keys| ==> keys[i] in entries)
    }
  }

  const EMPTY := Table([], map[])

  /** The budget is used up: `timeUsed >= timeLimit`. */
  predicate Exhausted(limit: SiteLimit) {
    limit.timeUsed >= limit.timeLimit
  }

  /** The cached flag never runs ahead of the usage: blocked implies exhausted. */
  predicate Consistent(t: Table) {
    forall k :: k in t.entries && t.entries[k].blocked ==> Exhausted(t.entries[k])
  }

  /** The three ways the extension compares a stored key with a hostname. */
  datatype MatchRule =
    | StripBoth      // shouldBlockSite: "www." removed from both sides
    | StripKeyOnly   // the tabs.onUpdated scans: "www." removed from the key only
    | KeyInHost      // the content script: the raw key inside the raw hostname

  predicate Matches(rule: MatchRule, site: string, hostname: string) {
    match rule
    case StripBoth =>
      var cleanSite, cleanHostname := StripWww(site), StripWww(hostname);
      Contains(cleanHostname, cleanSite) || Contains(cleanSite, cleanHostname)
    case StripKeyOnly =>
      var cleanSite := StripWww(site);
      Contains(hostname, cleanSite) || Contains(cleanSite, hostname)
    case KeyInHost =>
      Contains(hostname, site)
  }

  /**
   * What each rule tests, as occurrences: the content script looks for the
   * key inside the hostname; the listener's scans test containment either
   * way after removing "www." from the key; `shouldBlockSite` removes it
   * from both sides first.
   */
  lemma MatchRulesAsOccurrences(site: string, hostname: string)
    ensures Matches(KeyInHost, site, hostname) <==> exists i :: OccursAt(hostname, site, i)
    ensures Matches(StripKeyOnly, site, hostname) <==>
      (exists i :: OccursAt(hostname, StripWww(site), i)) || (exists i :: OccursAt(StripWww(site), hostname, i))
    ensures Matches(StripBoth, site, hostname) <==>
      (exists i :: OccursAt(StripWww(hostname), StripWww(site), i)) ||
      (exists i :: OccursAt(StripWww(site), StripWww(hostname), i))
  {
  }

  /** A matching key with no match before it is the first match (the converse of FirstMatch's contract). */
  lemma {:induction false} FirstMatchAt(keys: seq<string>, hostname: string, rule: MatchRule, i: nat)
    requires i < |keys| && Matches(rule, keys[i], hostname)
    requires forall j :: 0 <= j < i ==> !Matches(rule, keys[j], hostname)
    ensures FirstMatch(keys, hostname, rule) == Some(i)
  {
    if i > 0 {
      forall j | 0 <= j < i - 1 ensures !Matches(rule, keys[1..][j], hostname) {
        assert keys[1..][j] == keys[j + 1];
      }
      FirstMatchAt(keys[1..], hostname, rule, i - 1);
    }
  }

  /** Keys beyond the first match play no part: a sequence that agrees up to it has the same first match. */
  lemma FirstMatchOfAgreeingPrefix(keys: seq<string>, others: seq<string>, hostname: string, rule: MatchRule, i: nat)
    requires FirstMatch(keys, hostname, rule) == Some(i)
    requires i < |others| && forall j :: 0 <= j <= i ==> others[j] == keys[j]
    ensures FirstMatch(others, hostname, rule) == Some(i)
  {
    forall j | 0 <= j < i ensures !Matches(rule, others[j], hostname) {
      assert others[j] == keys[j];
    }
    assert others[i] == keys[i];
    FirstMatchAt(others, hostname, rule, i);
  }

  /** A hostname without "www." is matched alike by the rules of `shouldBlockSite` and of the listener's scans. */
  lemma RulesAgreeWithoutWww(site: string, hostname: string)
    requires !Contains(hostname, WWW)
    ensures Matches(StripBoth, site, hostname) <==> Matches(StripKeyOnly, site, hostname)
  {
    StripWwwChanges(hostname);
  }

  /** The position of the first key, in iteration order, that matches under `rule`. */
  function FirstMatch(keys: seq<string>, hostname: string, rule: MatchRule): (r: Option<nat>)
    ensures r.Some? ==> r.value < |keys| && Matches(rule, keys[r.value], hostname)
    ensures r.Some? ==> forall j :: 0 <= j < r.value ==> !Matches(rule, keys[j], hostname)
    ensures r.None? <==> forall j :: 0 <= j < |keys| ==> !Matches(rule, keys[j], hostname)
  {
    if |keys| == 0 then None
    else if Matches(rule, keys[0], hostname) then Some(0)
    else
      match FirstMatch(keys[1..], hostname, rule)
      case None => None
      case Some(i) => Some(i + 1)
  }
}
