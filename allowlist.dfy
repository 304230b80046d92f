/**
 * The domain allowlist: decides whether a page's host, or a page URL, may be
 * swapped. Entries are either exact host names (`localhost`) or, with a
 * leading dot, a domain together with all of its subdomains
 * (`.newtonschool.co`).
 */
module Allowlist {
  import opened Wrappers
  import opened JsStrings
  import opened Urls

  /** `value.trim().toLowerCase()`. */
  function Normalize(value: string): (r: string)
    ensures r == [] <==> AllWhitespace(value)
  {
    ToLower(Trim(value))
  }

  lemma NormalizeIdempotent(value: string)
    ensures Normalize(Normalize(value)) == Normalize(value)
  {
    TrimToLowerCommute(Trim(value));
    TrimIdempotent(value);
    ToLowerIdempotent(Trim(value));
  }

  /** Whitespace around a value does not change its normal form. */
  lemma NormalizeIgnoresPadding(pre: string, value: string, post: string)
    requires AllWhitespace(pre) && AllWhitespace(post)
    ensures Normalize(pre + value + post) == Normalize(value)
  {
    TrimIgnoresPadding(pre, value, post);
  }

  /** Two values that agree once lower-cased have the same normal form. */
  lemma NormalizeIgnoresCase(a: string, b: string)
    requires ToLower(a) == ToLower(b)
    ensures Normalize(a) == Normalize(b)
  {
    TrimToLowerCommute(a);
    TrimToLowerCommute(b);
  }

  /**
   * The callback given to `allowlist.some`: does `entry` admit the already
   * normalised host? A dot rule admits its domain and every host ending in
   * `.` followed by the domain; any other non-empty rule admits only itself.
   */
  predicate RuleMatches(normalizedHost: string, entry: string) {
    RuleAdmits(normalizedHost, Normalize(entry))
  }

  /** The body of that callback once the entry is normalised to `rule`. */
  predicate RuleAdmits(normalizedHost: string, rule: string) {
    if rule == [] then false
    else if StartsWith(rule, ".") then
      var suffix := rule[1..];
      normalizedHost == suffix || EndsWith(normalizedHost, "." + suffix)
    else normalizedHost == rule
  }

  /** `allowlist.some(entry => RuleMatches(normalizedHost, entry))`. */
  function SomeRuleMatches(normalizedHost: string, allowlist: seq<string>): bool
    decreases |allowlist|
  {
    if allowlist == [] then false
    else RuleMatches(normalizedHost, allowlist[0]) || SomeRuleMatches(normalizedHost, allowlist[1..])
  }

  /** `some` holds exactly when the callback holds of some element. */
  lemma {:induction false} SomeRuleMatchesIffExists(normalizedHost: string, allowlist: seq<string>)
    ensures SomeRuleMatches(normalizedHost, allowlist) <==>
              exists i | 0 <= i < |allowlist| :: RuleMatches(normalizedHost, allowlist[i])
    decreases |allowlist|
  {
    if allowlist != [] {
      SomeRuleMatchesIffExists(normalizedHost, allowlist[1..]);
      if SomeRuleMatches(normalizedHost, allowlist[1..]) {
        var i :| 0 <= i < |allowlist[1..]| && RuleMatches(normalizedHost, allowlist[1..][i]);
        assert allowlist[i + 1] == allowlist[1..][i];
      }
      if exists i | 0 <= i < |allowlist| :: RuleMatches(normalizedHost, allowlist[i]) {
        var i :| 0 <= i < |allowlist| && RuleMatches(normalizedHost, allowlist[i]);
        if i > 0 {
          assert allowlist[1..][i - 1] == allowlist[i];
        }
      }
    }
  }

  /** `isAllowedHostname`: a blank host is never allowed. */
  function IsAllowedHostname(hostname: string, allowlist: seq<string>): (r: bool)
    ensures AllWhitespace(hostname) ==> !r
  {
    var normalizedHost := Normalize(hostname);
    if normalizedHost == [] then false
    else SomeRuleMatches(normalizedHost, allowlist)
  }

  /** A host is allowed exactly when it is not blank and some entry admits its normal form. */
  lemma AllowedIffSomeEntryMatches(hostname: string, allowlist: seq<string>)
    ensures IsAllowedHostname(hostname, allowlist) <==>
              !AllWhitespace(hostname) &&
              exists i | 0 <= i < |allowlist| :: RuleMatches(Normalize(hostname), allowlist[i])
  {
    SomeRuleMatchesIffExists(Normalize(hostname), allowlist);
  }

  /**
   * `isAllowedUrl`, given the outcome of `new URL(url)`: fails closed on text
   * that does not parse and on every scheme other than `http:` and `https:`.
   */
  function IsAllowedUrl(parsed: Option<Url>, allowlist: seq<string>): (r: bool)
    ensures parsed.None? ==> !r
    ensures parsed.Some? && !IsHttp(parsed.value.protocol) ==> !r
    ensures parsed.Some? && IsHttp(parsed.value.protocol) ==>
              r == IsAllowedHostname(parsed.value.hostname, allowlist)
  {
    match parsed
    case None => false
    case Some(url) =>
      if url.protocol != "http:" && url.protocol != "https:" then false
      else IsAllowedHostname(url.hostname, allowlist)
  }

  lemma EmptyRuleNeverMatches(normalizedHost: string, entry: string)
    requires AllWhitespace(entry)
    ensures !RuleMatches(normalizedHost, entry)
  {
  }

  lemma EmptyAllowlistAllowsNothing(hostname: string)
    ensures !IsAllowedHostname(hostname, [])
  {
  }

  /** A one-entry allowlist decides by that entry alone. */
  lemma SingleEntryDecision(hostname: string, entry: string)
    ensures IsAllowedHostname(hostname, [entry]) ==
              (Normalize(hostname) != [] && RuleMatches(Normalize(hostname), entry))
  {
    assert [entry][1..] == [];
    assert !SomeRuleMatches(Normalize(hostname), []);
  }

  /** A normalised dot rule `.d` admits a host exactly when the host is `d` or ends in `.d`. */
  lemma DotRuleAdmits(normalizedHost: string, domain: string)
    ensures RuleAdmits(normalizedHost, "." + domain) <==>
              normalizedHost == domain || EndsWith(normalizedHost, "." + domain)
  {
    assert ("." + domain)[1..] == domain;
    assert ("." + domain)[..1] == ".";
  }

  /** A normalised rule without a leading dot admits only itself. */
  lemma ExactRuleAdmits(normalizedHost: string, rule: string)
    requires rule != [] && rule[0] != '.'
    ensures RuleAdmits(normalizedHost, rule) <==> normalizedHost == rule
  {
    assert rule[..1] != ".";
  }

  /**
   * A host that merely ends in the letters of the domain, without a dot
   * before them, is refused by the domain's dot rule.
   */
  lemma LookAlikeRefused(prefix: string, domain: string)
    requires prefix != [] && prefix[|prefix| - 1] != '.'
    ensures !RuleAdmits(prefix + domain, "." + domain)
  {
    var host := prefix + domain;
    DotRuleAdmits(host, domain);
    assert host[|prefix| - 1] != ("." + domain)[0];
  }

  /** A dot rule `.d` admits a host exactly when the host's normal form is `d` or ends in `.d`. */
  lemma DotRuleMatches(hostname: string, entry: string, domain: string)
    requires Normalize(entry) == "." + domain
    ensures IsAllowedHostname(hostname, [entry]) <==>
              !AllWhitespace(hostname) &&
              (Normalize(hostname) == domain || EndsWith(Normalize(hostname), "." + domain))
  {
    SingleEntryDecision(hostname, entry);
    DotRuleAdmits(Normalize(hostname), domain);
  }

  /** Any other non-empty rule admits only the host equal to it after normalisation. */
  lemma ExactRuleMatches(hostname: string, entry: string)
    requires Normalize(entry) != [] && Normalize(entry)[0] != '.'
    ensures IsAllowedHostname(hostname, [entry]) <==> Normalize(hostname) == Normalize(entry)
  {
    SingleEntryDecision(hostname, entry);
    ExactRuleAdmits(Normalize(hostname), Normalize(entry));
  }

  /**
   * An allowlist of one exact entry and one dot entry, both already in
   * normal form, admits the exact host, the domain and its subdomains.
   */
  lemma TwoEntryDecision(hostname: string, exact: string, domain: string)
    requires exact != [] && exact[0] != '.' && Normalize(exact) == exact
    requires Normalize("." + domain) == "." + domain
    ensures IsAllowedHostname(hostname, [exact, "." + domain]) <==>
              !AllWhitespace(hostname) &&
              (Normalize(hostname) == exact || Normalize(hostname) == domain ||
               EndsWith(Normalize(hostname), "." + domain))
  {
    var host := Normalize(hostname);
    TwoEntries(host, exact, "." + domain);
    ExactRuleAdmits(host, exact);
    DotRuleAdmits(host, domain);
  }

  /** `some` over two entries is the disjunction of the two callbacks. */
  lemma TwoEntries(normalizedHost: string, first: string, second: string)
    ensures SomeRuleMatches(normalizedHost, [first, second]) ==
              (RuleMatches(normalizedHost, first) || RuleMatches(normalizedHost, second))
  {
    assert [first, second][1..] == [second];
    assert [second][1..] == [];
    assert !SomeRuleMatches(normalizedHost, []);
  }

  /** The decision depends on the host only through its normal form. */
  lemma HostnameIsNormalized(hostname: string, allowlist: seq<string>)
    ensures IsAllowedHostname(Normalize(hostname), allowlist) == IsAllowedHostname(hostname, allowlist)
  {
    NormalizeIdempotent(hostname);
  }

  /** The decision depends on each entry only through its normal form. */
  lemma EntriesAreNormalized(hostname: string, allowlist: seq<string>)
    ensures var normalized := seq(|allowlist|, i requires 0 <= i < |allowlist| => Normalize(allowlist[i]));
            IsAllowedHostname(hostname, normalized) == IsAllowedHostname(hostname, allowlist)
  {
    var normalized := seq(|allowlist|, i requires 0 <= i < |allowlist| => Normalize(allowlist[i]));
    var host := Normalize(hostname);
    forall i | 0 <= i < |allowlist|
      ensures RuleMatches(host, normalized[i]) == RuleMatches(host, allowlist[i])
    {
      NormalizeIdempotent(allowlist[i]);
    }
    AllowedIffSomeEntryMatches(hostname, normalized);
    AllowedIffSomeEntryMatches(hostname, allowlist);
  }

  /** Letter case and surrounding whitespace of the host never matter. */
  lemma HostCaseAndPaddingIgnored(pre: string, hostname: string, post: string, other: string, allowlist: seq<string>)
    requires AllWhitespace(pre) && AllWhitespace(post)
    requires ToLower(other) == ToLower(hostname)
    ensures IsAllowedHostname(pre + other + post, allowlist) == IsAllowedHostname(hostname, allowlist)
  {
    NormalizeIgnoresPadding(pre, other, post);
    NormalizeIgnoresCase(other, hostname);
  }

  /** Letter case and surrounding whitespace of an entry never matter. */
  lemma EntryCaseAndPaddingIgnored(normalizedHost: string, pre: string, entry: string, post: string, other: string)
    requires AllWhitespace(pre) && AllWhitespace(post)
    requires ToLower(other) == ToLower(entry)
    ensures RuleMatches(normalizedHost, pre + other + post) == RuleMatches(normalizedHost, entry)
  {
    NormalizeIgnoresPadding(pre, other, post);
    NormalizeIgnoresCase(other, entry);
  }

  /** Adding entries, before or after the others, never withdraws a permission. */
  lemma AddingEntriesKeepsAllowed(hostname: string, allowlist: seq<string>, more: seq<string>)
    requires IsAllowedHostname(hostname, allowlist)
    ensures IsAllowedHostname(hostname, allowlist + more)
    ensures IsAllowedHostname(hostname, more + allowlist)
  {
    AllowedIffSomeEntryMatches(hostname, allowlist);
    AllowedIffSomeEntryMatches(hostname, allowlist + more);
    AllowedIffSomeEntryMatches(hostname, more + allowlist);
    var i :| 0 <= i < |allowlist| && RuleMatches(Normalize(hostname), allowlist[i]);
    assert (allowlist + more)[i] == allowlist[i];
    assert (more + allowlist)[|more| + i] == allowlist[i];
  }

  /** The order of the entries never matters. */
  lemma ReorderingEntriesKeepsDecision(hostname: string, allowlist: seq<string>, reordered: seq<string>)
    requires multiset(allowlist) == multiset(reordered)
    ensures IsAllowedHostname(hostname, reordered) == IsAllowedHostname(hostname, allowlist)
  {
    forall xs: seq<string>, ys: seq<string> | multiset(xs) == multiset(ys) && IsAllowedHostname(hostname, xs)
      ensures IsAllowedHostname(hostname, ys)
    {
      AllowedIffSomeEntryMatches(hostname, xs);
      AllowedIffSomeEntryMatches(hostname, ys);
      var i :| 0 <= i < |xs| && RuleMatches(Normalize(hostname), xs[i]);
      assert xs[i] in multiset(ys);
      var j :| 0 <= j < |ys| && ys[j] == xs[i];
    }
  }

  lemma NormalizeKeeps(value: string)
    requires value != [] && !IsWhitespace(value[0]) && !IsWhitespace(value[|value| - 1])
    requires forall k | 0 <= k < |value| :: !IsUpperAscii(value[k])
    ensures Normalize(value) == value
  {
    TrimOfPadded([], value, []);
    assert [] + value + [] == value;
    ToLowerIdentity(value);
  }
}
