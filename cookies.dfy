/**
 * Which URLs the extension asks the browser to remove the auth cookie from:
 * one for the page's own host and, when the host has at least two labels,
 * one for its registrable parent (the last two labels), each with the page's
 * scheme and port.
 */
module Cookies {
  import opened Wrappers
  import opened JsStrings
  import opened Urls

  /** `parts.filter(Boolean)`: drops the empty strings, keeping the order. */
  function NonEmpty(parts: seq<string>): (r: seq<string>)
    ensures |r| <= |parts|
    ensures forall i | 0 <= i < |r| :: r[i] != []
    ensures forall x :: x in r <==> x in parts && x != []
    decreases |parts|
  {
    if parts == [] then []
    else (if parts[0] == [] then [] else [parts[0]]) + NonEmpty(parts[1..])
  }

  /** The filter keeps a sequence with no empty strings as it is. */
  lemma {:induction false} NonEmptyKeepsLabels(parts: seq<string>)
    requires forall i | 0 <= i < |parts| :: parts[i] != []
    ensures NonEmpty(parts) == parts
    decreases |parts|
  {
    if parts != [] {
      NonEmptyKeepsLabels(parts[1..]);
      assert parts == [parts[0]] + parts[1..];
    }
  }

  /** The filter works piece by piece: filtering a concatenation concatenates the filtered parts. */
  lemma {:induction false} NonEmptyAppend(a: seq<string>, b: seq<string>)
    ensures NonEmpty(a + b) == NonEmpty(a) + NonEmpty(b)
    decreases |a|
  {
    if a != [] {
      var head := if a[0] == [] then [] else [a[0]];
      assert (a + b)[0] == a[0];
      assert (a + b)[1..] == a[1..] + b;
      assert NonEmpty(a + b) == head + NonEmpty(a[1..] + b);
      NonEmptyAppend(a[1..], b);
      assert NonEmpty(a) == head + NonEmpty(a[1..]);
      assert head + (NonEmpty(a[1..]) + NonEmpty(b)) == head + NonEmpty(a[1..]) + NonEmpty(b);
    } else {
      assert a + b == b;
    }
  }

  /** `hostname.split('.').filter(Boolean)`: the host's labels. */
  function Labels(hostname: string): (labels: seq<string>)
    ensures forall i | 0 <= i < |labels| :: labels[i] != [] && '.' !in labels[i]
  {
    var parts := Split(hostname, '.');
    assert forall x | x in NonEmpty(parts) :: '.' !in x;
    NonEmpty(parts)
  }

  /**
   * The labels of two pieces joined by a dot are the labels of the first
   * followed by those of the second, whatever empty labels either has.
   */
  lemma LabelsOfDotJoin(a: string, b: string)
    ensures Labels(a + "." + b) == Labels(a) + Labels(b)
  {
    SplitAtSeparator(a, '.', b);
    NonEmptyAppend(Split(a, '.'), Split(b, '.'));
  }

  /**
   * A trailing dot (`example.com.`, which `URL` keeps in the host name)
   * adds no label, so it changes neither the labels nor the parent.
   */
  lemma TrailingDotIgnored(hostname: string)
    ensures Labels(hostname + ".") == Labels(hostname)
    ensures ParentDomain(hostname + ".") == ParentDomain(hostname)
  {
    LabelsOfDotJoin(hostname, "");
    assert hostname + "." + "" == hostname + ".";
    assert Split("", '.') == [[]];
    assert NonEmpty([[]]) == [];
    assert Labels(hostname) + [] == Labels(hostname);
  }

  /** A host written as its labels joined by dots. */
  predicate WellFormedLabels(labels: seq<string>) {
    forall i | 0 <= i < |labels| :: labels[i] != [] && '.' !in labels[i]
  }

  /** Splitting the dot-join of dot-free pieces gives the pieces back. */
  lemma {:induction false} SplitJoin(parts: seq<string>, sep: char)
    requires parts != []
    requires forall i | 0 <= i < |parts| :: sep !in parts[i]
    ensures Split(Join(parts, sep), sep) == parts
    decreases |parts|
  {
    if |parts| == 1 {
      SplitNoSeparator(parts[0], sep);
    } else {
      SplitJoin(parts[1..], sep);
      SplitNoSeparator(parts[0], sep);
      SplitAtSeparator(parts[0], sep, Join(parts[1..], sep));
      assert parts == [parts[0]] + parts[1..];
    }
  }

  /** The labels of a host written from well-formed labels are those labels. */
  lemma LabelsOfJoin(labels: seq<string>)
    requires labels != [] && WellFormedLabels(labels)
    ensures Labels(Join(labels, '.')) == labels
  {
    SplitJoin(labels, '.');
    NonEmptyKeepsLabels(labels);
  }

  /** Joining two non-empty runs of pieces puts one separator between them. */
  lemma {:induction false} JoinAppend(a: seq<string>, b: seq<string>, sep: char)
    requires a != [] && b != []
    ensures Join(a + b, sep) == Join(a, sep) + [sep] + Join(b, sep)
    decreases |a|
  {
    if |a| == 1 {
      assert (a + b)[1..] == b;
    } else {
      JoinAppend(a[1..], b, sep);
      assert (a + b)[1..] == a[1..] + b;
    }
  }

  /**
   * `buildParentDomain`: the last two labels joined by a dot, or None
   * (`null`) when the host has fewer than two labels.
   */
  function ParentDomain(hostname: string): (r: Option<string>)
    ensures r.None? <==> |Labels(hostname)| < 2
  {
    var parts := Labels(hostname);
    if |parts| < 2 then None
    else Some(Join(parts[|parts| - 2..], '.'))
  }

  /** The parent consists of exactly the host's last two labels. */
  lemma ParentDomainLabels(hostname: string)
    requires ParentDomain(hostname).Some?
    ensures Labels(ParentDomain(hostname).value) == Labels(hostname)[|Labels(hostname)| - 2..]
  {
    var parts := Labels(hostname);
    LabelsOfJoin(parts[|parts| - 2..]);
  }

  /** A parent is never the empty string, so the `if (parent)` test only rules out `null`. */
  lemma ParentDomainNonEmpty(hostname: string)
    requires ParentDomain(hostname).Some?
    ensures ParentDomain(hostname).value != []
  {
    var parts := Labels(hostname);
    var last := parts[|parts| - 2..];
    assert last[1..] == [parts[|parts| - 1]];
  }

  /** The parent of a parent is itself. */
  lemma ParentDomainIdempotent(hostname: string)
    requires ParentDomain(hostname).Some?
    ensures ParentDomain(ParentDomain(hostname).value) == ParentDomain(hostname)
  {
    var parts := Labels(hostname);
    var last := parts[|parts| - 2..];
    LabelsOfJoin(last);
    assert last[|last| - 2..] == last;
  }

  /** For a host made of at least two well-formed labels, the parent is the last two of them. */
  lemma ParentDomainOfLabels(labels: seq<string>)
    requires |labels| >= 2 && WellFormedLabels(labels)
    ensures ParentDomain(Join(labels, '.')) == Some(Join(labels[|labels| - 2..], '.'))
  {
    LabelsOfJoin(labels);
  }

  /**
   * The parent domain depends on the host only through its labels: a host
   * and the dot-join of its labels have the same parent domain, so stray,
   * leading and trailing dots never reach the answer.
   */
  lemma ParentDomainOfItsLabels(hostname: string)
    ensures ParentDomain(hostname) == ParentDomain(Join(Labels(hostname), '.'))
  {
    var labels := Labels(hostname);
    if labels != [] {
      LabelsOfJoin(labels);
    }
  }

  /**
   * A host of three or more labels ends in a dot followed by its last two
   * labels, so its parent is a proper domain suffix of it.
   */
  lemma HostEndsWithParent(labels: seq<string>)
    requires |labels| >= 3
    ensures EndsWith(Join(labels, '.'), "." + Join(labels[|labels| - 2..], '.'))
  {
    var n := |labels|;
    var front, back := labels[..n - 2], labels[n - 2..];
    SplitLabels(labels, n - 2);
    JoinAppend(front, back, '.');
    Associate(Join(front, '.'), ".", Join(back, '.'));
    EndsWithConcat(Join(front, '.'), "." + Join(back, '.'));
  }

  // Proof step only: states a regrouping explicitly so the proofs that use it stay cheap for the solver.
  lemma SplitLabels(labels: seq<string>, n: nat)
    requires n <= |labels|
    ensures labels == labels[..n] + labels[n..]
  {
  }

  // Proof step only: states a regrouping explicitly so the proofs that use it stay cheap for the solver.
  lemma EndsWithConcat(a: string, b: string)
    ensures EndsWith(a + b, b)
  {
    assert (a + b)[|a|..] == b;
  }

  /** A host of exactly two labels is its own parent. */
  lemma TwoLabelHostIsOwnParent(first: string, second: string)
    requires first != [] && '.' !in first && second != [] && '.' !in second
    ensures ParentDomain(first + "." + second) == Some(first + "." + second)
  {
    var labels := [first, second];
    assert Join(labels[1..], '.') == second;
    assert Join(labels, '.') == first + "." + second;
    ParentDomainOfLabels(labels);
    assert labels[0..] == labels;
  }

  /** A host with no dot, such as `localhost`, has no parent. */
  lemma SingleLabelHostHasNoParent(hostname: string)
    requires '.' !in hostname
    ensures ParentDomain(hostname).None?
  {
    SplitNoSeparator(hostname, '.');
    assert Split(hostname, '.')[1..] == [];
  }

  /**
   * `domains.add(x)` on a `Set` read back in insertion order: an element
   * already present leaves it unchanged, a new one goes to the end.
   */
  function SetAdd(domains: seq<string>, x: string): (r: seq<string>)
    ensures x in r
    ensures forall y :: y in r <==> y in domains || y == x
    ensures NoDuplicates(domains) ==> NoDuplicates(r)
    ensures |domains| <= |r| && r[..|domains|] == domains
  {
    if x in domains then domains else domains + [x]
  }

  predicate NoDuplicates(s: seq<string>) {
    forall i, j | 0 <= i < j < |s| :: s[i] != s[j]
  }

  /** `${parsed.port}` prefixed by `:` when the port is not empty. */
  function PortSuffix(port: string): string {
    if port == [] then [] else ":" + port
  }

  /** `${protocol}//${domain}${port}/`. */
  function RemovalUrl(protocol: string, domain: string, port: string): string {
    protocol + "//" + domain + PortSuffix(port) + "/"
  }

  /** Different domains give different removal URLs. */
  lemma RemovalUrlInjective(protocol: string, d1: string, d2: string, port: string)
    requires RemovalUrl(protocol, d1, port) == RemovalUrl(protocol, d2, port)
    ensures d1 == d2
  {
    var u := RemovalUrl(protocol, d1, port);
    var start := |protocol| + 2;
    var tail := |PortSuffix(port)| + 1;
    assert |d1| == |d2|;
    assert u[start..|u| - tail] == d1;
    assert RemovalUrl(protocol, d2, port)[start..|u| - tail] == d2;
  }

  /**
   * The cookie domains of `buildCookieRemovalUrls`: the lower-cased host,
   * then its parent when there is one.
   */
  function CookieDomains(hostname: string): (domains: seq<string>)
    ensures NoDuplicates(domains)
  {
    var host := ToLower(hostname);
    var domains := SetAdd([], host);
    var parent := ParentDomain(host);
    if parent.Some? && parent.value != [] then SetAdd(domains, parent.value)
    else domains
  }

  /**
   * The host always comes first; a second domain is there exactly when
   * the host has a parent different from itself, and it is that parent.
   */
  lemma CookieDomainsShape(hostname: string)
    ensures var host := ToLower(hostname);
            var domains := CookieDomains(hostname);
            var parent := ParentDomain(host);
            1 <= |domains| <= 2 && domains[0] == host &&
            (|domains| == 2 <==> parent.Some? && parent.value != host) &&
            (|domains| == 2 ==> domains[1] == parent.value)
  {
    var host := ToLower(hostname);
    if ParentDomain(host).Some? {
      ParentDomainNonEmpty(host);
    }
  }

  /** `buildCookieRemovalUrls` on a URL that parsed. */
  function CookieRemovalUrls(url: Url): (urls: seq<string>)
    ensures |urls| == |CookieDomains(url.hostname)|
    ensures forall i | 0 <= i < |urls| ::
              urls[i] == RemovalUrl(url.protocol, CookieDomains(url.hostname)[i], url.port)
  {
    var domains := CookieDomains(url.hostname);
    seq(|domains|, i requires 0 <= i < |domains| => RemovalUrl(url.protocol, domains[i], url.port))
  }

  /**
   * `buildCookieRemovalUrls(pageUrl)`, given the outcome of `new URL(pageUrl)`:
   * None stands for the TypeError thrown on text that does not parse.
   */
  function BuildCookieRemovalUrls(parsed: Option<Url>): (r: Option<seq<string>>)
    ensures r.None? <==> parsed.None?
    ensures parsed.Some? ==> r == Some(CookieRemovalUrls(parsed.value))
    ensures parsed.Some? ==>
              var url := parsed.value;
              1 <= |r.value| <= 2 &&
              r.value[0] == RemovalUrl(url.protocol, ToLower(url.hostname), url.port) &&
              NoDuplicates(r.value)
  {
    match parsed
    case None => None
    case Some(url) =>
      CookieRemovalUrlsShape(url);
      Some(CookieRemovalUrls(url))
  }

  /**
   * The removal URLs: the host's URL first, then, exactly when the host has
   * a parent other than itself, the parent's URL; never the same URL twice.
   */
  lemma CookieRemovalUrlsShape(url: Url)
    ensures var urls := CookieRemovalUrls(url);
            var host := ToLower(url.hostname);
            var parent := ParentDomain(host);
            1 <= |urls| <= 2 &&
            urls[0] == RemovalUrl(url.protocol, host, url.port) &&
            (|urls| == 2 <==> parent.Some? && parent.value != host) &&
            (|urls| == 2 ==> urls[1] == RemovalUrl(url.protocol, parent.value, url.port)) &&
            NoDuplicates(urls)
  {
    CookieDomainsShape(url.hostname);
    var urls := CookieRemovalUrls(url);
    var domains := CookieDomains(url.hostname);
    if |urls| == 2 && urls[0] == urls[1] {
      RemovalUrlInjective(url.protocol, domains[0], domains[1], url.port);
    }
  }

  /** The host's letter case does not change which URLs are cleared. */
  lemma CookieRemovalUrlsIgnoreCase(url: Url, hostname: string)
    requires ToLower(hostname) == ToLower(url.hostname)
    ensures CookieRemovalUrls(url.(hostname := hostname)) == CookieRemovalUrls(url)
  {
  }

  /** A host with no dot is cleared at one URL only. */
  lemma SingleLabelHostOneUrl(url: Url)
    requires '.' !in url.hostname
    ensures CookieRemovalUrls(url) == [RemovalUrl(url.protocol, ToLower(url.hostname), url.port)]
  {
    ToLowerKeepsDots(url.hostname);
    SingleLabelHostHasNoParent(ToLower(url.hostname));
    CookieRemovalUrlsShape(url);
  }

  /** Lower-casing neither adds nor removes dots. */
  lemma ToLowerKeepsDots(s: string)
    ensures '.' in ToLower(s) <==> '.' in s
  {
    if '.' in s {
      var k :| 0 <= k < |s| && s[k] == '.';
      assert ToLower(s)[k] == '.';
    }
    if '.' in ToLower(s) {
      var k :| 0 <= k < |ToLower(s)| && ToLower(s)[k] == '.';
      assert s[k] == '.';
    }
  }

  /** A host of two labels is cleared at one URL only, since it is its own parent. */
  lemma TwoLabelHostOneUrl(url: Url, first: string, second: string)
    requires first != [] && '.' !in first && second != [] && '.' !in second
    requires ToLower(url.hostname) == first + "." + second
    ensures CookieRemovalUrls(url) == [RemovalUrl(url.protocol, first + "." + second, url.port)]
  {
    TwoLabelHostIsOwnParent(first, second);
    CookieRemovalUrlsShape(url);
  }

  /**
   * A host of three or more labels is cleared at its own URL and at the URL
   * of its last two labels.
   */
  lemma SubdomainTwoUrls(url: Url, labels: seq<string>)
    requires |labels| >= 3 && WellFormedLabels(labels)
    requires ToLower(url.hostname) == Join(labels, '.')
    ensures CookieRemovalUrls(url) ==
              [RemovalUrl(url.protocol, Join(labels, '.'), url.port),
               RemovalUrl(url.protocol, Join(labels[|labels| - 2..], '.'), url.port)]
  {
    ParentDomainOfLabels(labels);
    ParentIsShorter(labels);
    CookieRemovalUrlsShape(url);
  }

  /** The last two of three or more labels, joined, differ from the whole host. */
  lemma ParentIsShorter(labels: seq<string>)
    requires |labels| >= 3 && WellFormedLabels(labels)
    ensures Join(labels[|labels| - 2..], '.') != Join(labels, '.')
  {
    var last := labels[|labels| - 2..];
    assert WellFormedLabels(last);
    LabelsOfJoin(labels);
    LabelsOfJoin(last);
    assert |Labels(Join(last, '.'))| != |Labels(Join(labels, '.'))|;
  }
}
