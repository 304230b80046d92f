# Face-swap identity swapper: a Dafny model of its core

The extension swaps the identity of the active browser tab. It reads an auth token from the
clipboard through an offscreen helper document and checks that the tab's URL is on a domain
allowlist. It then clears the auth cookie for the page's host and its parent domain. Finally it
injects the trimmed token into the page's `localStorage` and has the page reload itself.

The model covers three parts:

- **Domain allowlist** (`allowlist.dfy`, module `Allowlist`). Hosts and entries are normalised
  by trimming and lower-casing. An entry with a leading dot admits its domain and every
  subdomain. Any other entry admits only an equal host. Blank hosts and blank entries never
  match, and `isAllowedUrl` fails closed on schemes other than `http:`/`https:` and on text
  that does not parse.
- **Cookie removal scope** (`cookies.dfy`, module `Cookies`). The host is lower-cased, and its
  "parent" is its last two non-empty labels. The result is the insertion-ordered,
  duplicate-free list of one or two `protocol//domain[:port]/` URLs.
- **Swap orchestrator** (`swap.dfy`, `swap_properties.dfy`, `background.dfy`). The background
  worker keeps three module-level flags: the swap lock `swapInProgress`, `offscreenReady` and
  `offscreenCreating`.
  - Class `Background.Worker` holds these flags as fields. Its methods update the fields in
    place and append the browser calls they make to a ghost `trace`. There is one method each
    for `ensureOffscreenDocument`, `closeOffscreenDocumentSafe`, `readClipboardText` and
    `runSwap`. `SetBadge` stands for the `setBadge` helper that the worker imports from
    `src/utils/badge.ts`. `swapIdentityOnActiveTab` is split over `SwapIdentityOnActiveTab`,
    `AfterAllowlist`, `UseToken` and the badge step `Report`.
  - `clearAuthCookies` and `injectTokenAndReload` are not methods. They are the functions
    `Swap.ClearAuthCookies` and `Swap.InjectSpec`, and `UseToken` evaluates them.
  - Each method is proved to do what a function of module `Swap` says. That function maps the
    flags before the step and the browser's answers to a `Step`: the outcome (a value or a
    thrown error), the flags after the step, and the calls made, in order.
  - Module `SwapProperties` proves what those functions promise:
    - the offscreen life cycle;
    - the single-flight lock (its release is stated by the contract of `Swap.RunSwapSpec`);
    - the short-circuiting pipeline tab → allowlist → clipboard → cookies → injection, with
      nothing run after the step that stops it;
    - the mapping of outcomes to `SwapResponse`.

Supporting modules:

- `JsStrings` (`strings.dfy`) holds the JavaScript string built-ins the code relies on:
  `trim`, `toLowerCase`, `startsWith`, `endsWith`, `includes`, one-character `split`, and
  `join`.
- `Urls` (`urls.dfy`) holds the three fields of a WHATWG `URL` that the code reads.
- `Messaging` (`messaging.dfy`) holds the `ClipboardResponse` and `SwapResponse` unions.
- `Wrappers` (`wrappers.dfy`) holds `Option`.

Every browser API call is an input: the parameter `env` of type `Swap.Env` supplies the answer the
browser gives, or the error it rejects with. This covers:

- the active-tab query;
- the outcome of `new URL(tab.url)`;
- offscreen creation and close;
- the clipboard reply;
- one settled result per cookie removal URL;
- the `executeScript` reply, including whether `localStorage.setItem` throws in the page;
- the two badge calls.

The allowlist, auth cookie name and storage key come from the configuration module, which is
not part of this model. They are the parameter `Swap.Config`.

The model follows the code as written:

- The reload delay is the constant 120 ms written in the injected function.
- The orchestrator sends no toast or log messages.
- Badge calls are awaited without a catch. A badge that fails therefore turns the swap into a
  thrown error (`MissingTabStops`, `NotAllowlistedStops`, `BlankClipboardStops`). In the run's
  error handler, a failing badge makes the run reject, and the lock is still released
  (`RunSwapRejects`).

## Model

| member | source | states |
|---|---|---|
| JsStrings.Trim | src/utils/allowlist.ts:1 | the trimmed string neither starts nor ends with whitespace, is no longer than the input, and is empty exactly when the input is all whitespace |
| JsStrings.TrimStart | src/utils/allowlist.ts:1 | the result is the longest suffix not starting with whitespace; everything dropped is whitespace |
| JsStrings.TrimEnd | src/utils/allowlist.ts:1 | the result is the longest prefix not ending with whitespace; everything dropped is whitespace |
| JsStrings.TrimOfPadded | src/utils/allowlist.ts:1 | trimming whitespace + a trimmed core + whitespace gives back exactly the core |
| JsStrings.TrimSplitsString | src/utils/allowlist.ts:1 | every string is whitespace, then its trimmed form, then whitespace |
| JsStrings.TrimIgnoresPadding | src/utils/allowlist.ts:1 | adding whitespace around a string does not change its trimmed form |
| JsStrings.TrimIdempotent | src/utils/allowlist.ts:1 | trimming twice is trimming once |
| JsStrings.TrimStartOfPadded | src/utils/allowlist.ts:1 | dropping leading whitespace from whitespace + s, where s does not start with whitespace, gives s |
| JsStrings.TrimEndOfPadded | src/utils/allowlist.ts:1 | dropping trailing whitespace from s + whitespace, where s does not end with whitespace, gives s |
| JsStrings.AllWhitespaceConcat | src/utils/allowlist.ts:1 | a concatenation is all whitespace iff both halves are |
| JsStrings.LowerChar | src/utils/allowlist.ts:1 | a lower-cased character is never an upper-case ASCII letter and is whitespace iff the original is; an upper-case ASCII letter moves up by 32 to its lower-case letter, and every other character is unchanged |
| JsStrings.ToLowerIdentity | src/utils/cookies.ts:11 | a string without upper-case letters is its own lower-case form |
| JsStrings.ToLowerIdempotent | src/utils/cookies.ts:11 | lower-casing twice is lower-casing once |
| JsStrings.ToLowerAppend | src/utils/cookies.ts:11 | lower-casing distributes over concatenation |
| JsStrings.ToLowerKeepsWhitespace | src/utils/allowlist.ts:1 | lower-casing keeps a string blank iff it was blank, and trimmed iff it was trimmed |
| JsStrings.TrimToLowerCommute | src/utils/allowlist.ts:1 | trim and toLowerCase commute |
| JsStrings.ToLower | src/utils/allowlist.ts:1 | no contract of its own: it maps every character through `LowerChar`; `ToLowerIdentity`, `ToLowerIdempotent`, `ToLowerAppend` and `TrimToLowerCommute` state its properties |
| JsStrings.StartsWith | src/utils/allowlist.ts:15 | no contract of its own: `startsWith` as a prefix test; `DotRuleAdmits` and `ExactRuleAdmits` state how the allowlist uses it |
| JsStrings.EndsWith | src/utils/allowlist.ts:17 | no contract of its own: `endsWith` as a suffix test; `DotRuleAdmits`, `LookAlikeRefused` and `HostEndsWithParent` state how it is used |
| JsStrings.Contains | src/background.ts:51 | a string includes only pieces no longer than itself, and includes every prefix of itself |
| JsStrings.ContainsInfix | src/background.ts:51 | `includes` holds exactly when the piece occurs at some index of the string, so never when the piece is longer than the string |
| JsStrings.ContainsPiece | src/background.ts:74 | a string built as text + piece + text always includes the piece |
| JsStrings.Split | src/utils/cookies.ts:2 | `split` yields at least one piece and no piece contains the separator |
| JsStrings.JoinSplit | src/utils/cookies.ts:2 | joining the pieces of a split with the same separator gives the string back |
| JsStrings.SplitNoSeparator | src/utils/cookies.ts:2 | a string without the separator splits into itself alone |
| JsStrings.SplitAtSeparator | src/utils/cookies.ts:2 | splitting a + sep + b gives the pieces of a followed by the pieces of b |
| JsStrings.Join | src/utils/cookies.ts:6 | no contract of its own: `join` puts the separator between consecutive parts; `JoinSplit`, `Cookies.SplitJoin` and `Cookies.JoinAppend` state its properties |
| Allowlist.Normalize | src/utils/allowlist.ts:1 | a value normalises to the empty string exactly when it is blank |
| Allowlist.NormalizeIdempotent | src/utils/allowlist.ts:1 | normalising twice is normalising once |
| Allowlist.NormalizeIgnoresPadding | src/utils/allowlist.ts:1 | surrounding whitespace never changes the normal form |
| Allowlist.NormalizeIgnoresCase | src/utils/allowlist.ts:1 | two values equal up to letter case have the same normal form |
| Allowlist.NormalizeKeeps | src/utils/allowlist.ts:1 | a trimmed, lower-case value is its own normal form |
| Allowlist.SomeRuleMatchesIffExists | src/utils/allowlist.ts:9-21 | `allowlist.some(...)` holds exactly when the callback holds for some entry |
| Allowlist.SomeRuleMatches | src/utils/allowlist.ts:9-21 | no contract of its own: `allowlist.some(...)` over the entries; `SomeRuleMatchesIffExists` and `TwoEntries` state its meaning |
| Allowlist.RuleMatches | src/utils/allowlist.ts:9-10 | no contract of its own: the `some` callback, which normalises the entry and hands it to `RuleAdmits`; `DotRuleMatches`, `ExactRuleMatches` and `EntryCaseAndPaddingIgnored` state its decision on raw entries |
| Allowlist.RuleAdmits | src/utils/allowlist.ts:10-21 | no contract of its own: the callback on a normalised rule; `EmptyRuleNeverMatches`, `DotRuleAdmits`, `ExactRuleAdmits` and `LookAlikeRefused` state each of its branches |
| Allowlist.IsAllowedHostname | src/utils/allowlist.ts:3-7 | a host that is blank after trimming is never allowed, whatever the allowlist |
| Allowlist.AllowedIffSomeEntryMatches | src/utils/allowlist.ts:3-22 | a host is allowed iff it is not blank and some entry matches its normal form |
| Urls.IsHttp | src/utils/allowlist.ts:27-29 | no contract of its own: the scheme test, true only for `http:` and `https:`; the ensures of `Allowlist.IsAllowedUrl` state that any other scheme is refused |
| Allowlist.IsAllowedUrl | src/utils/allowlist.ts:24-34 | false when the URL does not parse, false for any scheme other than `http:`/`https:`, and otherwise exactly `isAllowedHostname` of the parsed host |
| Allowlist.EmptyRuleNeverMatches | src/utils/allowlist.ts:10-13 | an entry that is blank after trimming matches no host |
| Allowlist.EmptyAllowlistAllowsNothing | src/utils/allowlist.ts:9 | the empty allowlist allows no host |
| Allowlist.SingleEntryDecision | src/utils/allowlist.ts:3-22 | a one-entry allowlist decides by that entry alone |
| Allowlist.TwoEntries | src/utils/allowlist.ts:9 | `some` over two entries is the disjunction of the two callbacks |
| Allowlist.DotRuleAdmits | src/utils/allowlist.ts:15-18 | a normalised rule `.d` admits h iff h == d or h ends with `.d` |
| Allowlist.ExactRuleAdmits | src/utils/allowlist.ts:20 | a normalised non-empty rule without a leading dot admits only a host equal to it |
| Allowlist.LookAlikeRefused | src/utils/allowlist.ts:15-18 | a host that ends in the domain's letters without a dot before them (`evilnewtonschool.co`) is refused by the dot rule |
| Allowlist.DotRuleMatches | src/utils/allowlist.ts:15-18 | an entry normalising to `.d` allows a host iff the host is not blank and its normal form is d or ends with `.d` |
| Allowlist.ExactRuleMatches | src/utils/allowlist.ts:20 | an entry without a leading dot allows a host iff their normal forms are equal |
| Allowlist.TwoEntryDecision | src/utils/__tests__/allowlist.test.ts:4-19 | the allowlist `[exact, .domain]` allows exactly the exact host, the domain and its subdomains |
| Allowlist.HostnameIsNormalized | src/utils/allowlist.ts:4 | the decision depends on the host only through its normal form |
| Allowlist.EntriesAreNormalized | src/utils/allowlist.ts:10 | the decision depends on each entry only through its normal form |
| Allowlist.HostCaseAndPaddingIgnored | src/utils/allowlist.ts:1-4 | letter case and surrounding whitespace of the host never change the decision |
| Allowlist.EntryCaseAndPaddingIgnored | src/utils/allowlist.ts:10 | letter case and surrounding whitespace of an entry never change whether it matches |
| Allowlist.AddingEntriesKeepsAllowed | src/utils/allowlist.ts:9 | appending or prepending entries never turns an allowed host into a refused one |
| Allowlist.ReorderingEntriesKeepsDecision | src/utils/allowlist.ts:9 | any permutation of the entries gives the same decision |
| Cookies.NonEmpty | src/utils/cookies.ts:2 | `filter(Boolean)` keeps exactly the non-empty pieces: a string is in the result iff it is a non-empty piece of the input; the list never grows |
| Cookies.NonEmptyAppend | src/utils/cookies.ts:2 | filtering a concatenation gives the two filtered parts, concatenated |
| Cookies.NonEmptyKeepsLabels | src/utils/cookies.ts:2 | the filter leaves a list without empty pieces unchanged |
| Cookies.Labels | src/utils/cookies.ts:2 | every label is non-empty and contains no dot. That they are exactly the non-empty pieces of the split at dots follows from the body and the contract of `Cookies.NonEmpty`, not from an ensures of its own |
| Cookies.LabelsOfDotJoin | src/utils/cookies.ts:2 | the labels of a + `.` + b are the labels of a followed by the labels of b, whatever empty labels either has |
| Cookies.TrailingDotIgnored | src/utils/cookies.ts:1-7 | a trailing dot adds no label, so the labels and the parent of `h.` are those of `h` |
| Cookies.SplitJoin | src/utils/cookies.ts:2 | splitting the dot-join of dot-free pieces gives the pieces back |
| Cookies.LabelsOfJoin | src/utils/cookies.ts:2 | the labels of a host written from well-formed labels are those labels |
| Cookies.JoinAppend | src/utils/cookies.ts:6 | joining two non-empty runs puts exactly one separator between their joins |
| Cookies.ParentDomain | src/utils/cookies.ts:1-7 | there is no parent (`null`) exactly when the host has fewer than two non-empty labels |
| Cookies.ParentDomainLabels | src/utils/cookies.ts:2-6 | the parent consists of exactly the host's last two labels |
| Cookies.ParentDomainNonEmpty | src/utils/cookies.ts:19 | a parent is never the empty string, so `if (parent)` only rules out `null` |
| Cookies.ParentDomainIdempotent | src/utils/cookies.ts:1-7 | the parent of a parent is itself |
| Cookies.ParentDomainOfItsLabels | src/utils/cookies.ts:1-7 | a host and the dot-join of its non-empty labels have the same parent, so stray dots never change the answer |
| Cookies.ParentDomainOfLabels | src/utils/cookies.ts:1-7 | a host of two or more well-formed labels has as parent its last two labels joined by `.` |
| Cookies.HostEndsWithParent | src/utils/cookies.ts:6 | a host of three or more labels ends in `.` followed by its parent |
| Cookies.TwoLabelHostIsOwnParent | src/utils/cookies.ts:1-7 | a two-label host is its own parent |
| Cookies.SingleLabelHostHasNoParent | src/utils/cookies.ts:3-5 | a host without a dot (`localhost`) has no parent |
| Cookies.SetAdd | src/utils/cookies.ts:15-21 | `Set.add` read back in insertion order: the element is present, nothing else is added, earlier elements keep their places, and no duplicate appears |
| Cookies.PortSuffix | src/utils/cookies.ts:13 | no contract of its own: `:port` for a non-empty port and nothing otherwise; `RemovalUrlInjective` and `CookieRemovalUrlsShape` state the URLs built with it |
| Cookies.RemovalUrl | src/utils/cookies.ts:23 | no contract of its own: the template string; `RemovalUrlInjective` states that it tells domains apart |
| Cookies.RemovalUrlInjective | src/utils/cookies.ts:23 | different domains give different removal URLs for the same protocol and port |
| Cookies.CookieDomains | src/utils/cookies.ts:9-21 | the collected domains contain no duplicates |
| Cookies.CookieDomainsShape | src/utils/cookies.ts:11-21 | one or two domains; the lower-cased host first; a second exactly when the parent exists and differs from the host, and then it is the parent |
| Cookies.CookieRemovalUrls | src/utils/cookies.ts:9-24 | one URL per domain, in order, each `protocol + '//' + domain + port + '/'` with `:p` only for a non-empty port |
| Cookies.BuildCookieRemovalUrls | src/utils/cookies.ts:9-24 | the call fails (`new URL` throws) exactly when the URL does not parse; otherwise it returns the removal URLs of the parsed URL: one or two of them, without duplicates, the first for the lower-cased host with the port suffix |
| Cookies.CookieRemovalUrlsShape | src/utils/cookies.ts:9-24 | never empty, at most two URLs and no duplicates; the first is the host's own URL; a second exactly when the parent exists and differs from the host, and it is the parent's URL |
| Cookies.CookieRemovalUrlsIgnoreCase | src/utils/cookies.ts:11 | the host's letter case never changes the URLs |
| Cookies.ToLowerKeepsDots | src/utils/cookies.ts:11 | lower-casing neither adds nor removes dots |
| Cookies.SingleLabelHostOneUrl | src/utils/__tests__/cookies.test.ts:11-14 | a host without a dot (`localhost:3000`) yields exactly its own URL |
| Cookies.TwoLabelHostOneUrl | src/utils/cookies.ts:15-23 | a two-label host (`example.com`) yields exactly one URL |
| Cookies.SubdomainTwoUrls | src/utils/__tests__/cookies.test.ts:5-9 | a host of three or more labels yields its own URL and then its parent's, and nothing else |
| Swap.AsErrorMessage | src/background.ts:32-33 | the message of an `Error`, the fallback for any other thrown value |
| Swap.ClipboardOutcome | src/background.ts:85-94 | the read yields text exactly when the helper replied `{ok: true, text}` |
| Swap.InjectedPageFunction | src/background.ts:116-125 | ok iff the token is not blank and storage does not throw; a blank token gives "Clipboard was empty.", a storage failure "Unable to write token to localStorage.", and success stores exactly the trimmed token and schedules the reload after 120 ms |
| Swap.EnsureSpec | src/background.ts:35-63 | the document is ready afterwards exactly when ensuring succeeded; the lock is untouched; at most one creation call |
| Swap.CloseSpec | src/background.ts:65-80 | afterwards the document is not ready and the other flags are as before; closing throws only when a document was ready |
| Swap.ReadClipboardSpec | src/background.ts:82-98 | a read always ends with the document not ready and no creation pending (a pending flag beside a ready document is left alone), and never touches the lock |
| Swap.ClearAuthCookies | src/background.ts:100-109 | one removal call per removal URL; `ClearAuthCookiesResult` states the calls and the result |
| Swap.InjectSpec | src/background.ts:111-161 | the first call is the script run with the token and the storage key, followed by at most two page effects; an injection that succeeds makes exactly three calls |
| Swap.SwapIdentitySpec | src/background.ts:163-192 | the first call is always the active-tab query, and the swap never touches the lock |
| Swap.ClipboardStage | src/background.ts:175-191 | leaves the flags as the clipboard read left them; the only error response it gives is "Clipboard is empty." |
| Swap.TokenStage | src/background.ts:182-191 | leaves the flags alone; every response it gives is a success |
| Swap.RunSwapSpec | src/background.ts:194-208 | the lock is held afterwards exactly when it was held before, so a run that took it releases it; the run rejects only when the handler's badge call fails, and then with that failure |
| SwapProperties.EnsureWhenReady | src/background.ts:36-38 | with a ready document, ensuring one changes nothing and calls nothing |
| SwapProperties.EnsureWhenNotReady | src/background.ts:40-62 | otherwise it succeeds iff creation succeeds or fails with a "document exists" error, and then the document is ready; other errors are rethrown as they are; no creation is pending afterwards; a creation call is made only when none was pending |
| Swap.IsBenignCreateError | src/background.ts:50-51 | no contract of its own: the message (or its fallback) contains one of the two "single document" texts; `BenignCreateErrors` and `EnsureWhenNotReady` state which creation errors are swallowed |
| Swap.IsBenignCloseError | src/background.ts:73-74 | no contract of its own: the message (or its fallback) contains "No offscreen document"; `BenignCloseErrors` and `CloseWhenReady` state which close errors are swallowed |
| SwapProperties.BenignCreateErrors | src/background.ts:51 | any message containing "Only a single offscreen document" or "already has an offscreen document" is a benign creation error |
| SwapProperties.BenignCloseErrors | src/background.ts:74 | any message containing "No offscreen document" is a swallowed close error |
| SwapProperties.CloseWhenNotReady | src/background.ts:66-68 | closing without a ready document changes nothing and calls nothing |
| SwapProperties.CloseWhenReady | src/background.ts:70-79 | closing a ready document makes one close call and always leaves it not ready; it throws exactly the close errors that do not name a missing document |
| SwapProperties.ReadClipboardOk | src/background.ts:82-98 | the read returns `text` exactly when the document could be ensured, the helper replied `{ok: true, text}`, and the close did not fail with an error other than the benign "no document" one |
| SwapProperties.ReadClipboardResult | src/background.ts:82-98 | a read that returns gives the helper's text; the request is sent iff the document was ensured; after a request the last call is the close |
| SwapProperties.ReadClipboardError | src/background.ts:90-92 | a failed response throws its own message, or "Clipboard read failed" when that is empty |
| SwapProperties.ReadClipboardEvents | src/background.ts:82-98 | a clipboard read makes only offscreen calls: create, request, close |
| Swap.AnyCookieRemoved | src/background.ts:106-108 | no contract of its own: `results.some(...)` over the settled removals; `AnyCookieRemovedIffExists` states it both ways |
| SwapProperties.AnyCookieRemovedIffExists | src/background.ts:106-108 | the aggregate is true iff some removal settled fulfilled with a removed cookie |
| SwapProperties.RejectionDoesNotMask | src/background.ts:102-108 | a rejected removal neither counts nor hides the removals around it |
| SwapProperties.ClearAuthCookiesResult | src/background.ts:100-109 | cookies count as cleared iff the browser removed the auth cookie at some removal URL; one removal call is issued per removal URL, in order |
| SwapProperties.InjectResult | src/background.ts:111-161 | injection succeeds iff the page function ran, the token is not blank and storage did not throw; then the calls are the script, storing the trimmed token under the key, and the 120 ms reload; a failed injection made the script call and nothing else |
| SwapProperties.InjectErrors | src/background.ts:117-125 | a missing result throws "Token injection failed"; a blank token throws "Clipboard was empty."; a storage failure throws "Unable to write token to localStorage." |
| SwapProperties.ReadThenBadgeBeforeToken | src/background.ts:175-180 | the query, a clipboard read and a badge make no cookie, script or page call |
| SwapProperties.SwapIdentityPastAllowlist | src/background.ts:163-175 | (helper: unfolding) once the tab passed the allowlist, the swap is the query followed by its clipboard stage |
| SwapProperties.ClipboardStageOnFailure | src/background.ts:175 | (helper: unfolding) a read that throws ends the clipboard stage with that error |
| SwapProperties.ClipboardStageOnBlank | src/background.ts:176-180 | (helper: unfolding) blank clipboard text ends the stage with the error badge and "Clipboard is empty." |
| SwapProperties.ClipboardStageOnToken | src/background.ts:176-183 | (helper: unfolding) a token hands the stage over to cookie clearing and injection, after the read |
| SwapProperties.RunSwapWhenBusy | src/background.ts:195-197 | with the lock taken, the run answers "Swap already in progress.", changes nothing and calls nothing |
| SwapProperties.RunSwapCatches | src/background.ts:202-204 | whatever the swap throws becomes an error response with its message (or "Swap failed."), after the error badge |
| SwapProperties.RunSwapRejects | src/background.ts:199-207 | a swap that throws, with a failing badge call in the handler, makes the run reject with the badge's error after the error badge call, and the lock is still released |
| Swap.TabMissing | src/background.ts:165 | no contract of its own: `!tab?.id \|\| !tab.url`, with 0 and the empty URL falsy; `MissingTabStops` states what the swap does then |
| SwapProperties.MissingTabStops | src/background.ts:164-168 | a missing tab, id or URL gives "No active tab found." after the error badge, or throws the badge's error when that call fails; no other call and the flags unchanged |
| SwapProperties.NotAllowlistedStops | src/background.ts:170-173 | a refused URL gives "Domain is not allowlisted." after the refusal badge, or throws the badge's error when that call fails; no clipboard read, cookie removal or injection |
| SwapProperties.BlankClipboardStops | src/background.ts:175-180 | blank clipboard text gives "Clipboard is empty." after the error badge, or throws the badge's error when that call fails, with no cookie removal and no injection |
| SwapProperties.SwapIdentityOnReadFailure | src/background.ts:175 | a clipboard read that throws ends the swap with that error, after the query and the read's own calls |
| SwapProperties.ClipboardFailureSurfaces | src/background.ts:90-92 | a failed clipboard response becomes the run's error response carrying its text, with no cookie removal and no injection |
| SwapProperties.InjectionFailureSurfaces | src/background.ts:158-207 | a failed injection becomes the run's error response carrying the injection's message, and the lock is released; the calls are the query, the read's calls, the removals, the script run and then only the handler's error badge: nothing stored, no reload, no OK or WARN badge |
| SwapProperties.SwapIdentityOnInjectionFailure | src/background.ts:163-183 | an injection that throws ends the swap with its error, after the query, the read's calls, the removals and the script run |
| SwapProperties.FailureCallsHaveNoSuccessEffects | src/background.ts:175-204 | (helper) the calls of a run whose injection threw hold no page effect and no OK or WARN badge |
| SwapProperties.TokenStageOnInjection | src/background.ts:182-191 | (helper: unfolding) once the injection went through, the token stage ends with the OK badge, or the WARN badge and the cookie warning when no cookie was removed |
| SwapProperties.TokenStageOnInjectionFailure | src/background.ts:182-183 | an injection that throws ends the token stage with its error after the removals and the script run alone: no page effect and no badge |
| SwapProperties.TokenStageAnswer | src/background.ts:182-191 | the token stage answers with success exactly when the injection went through and the badge call returned; the answer carries the cookie warning exactly when no removal took effect |
| SwapProperties.TokenStageCalls | src/background.ts:182-191 | once the injection went through, the calls are one removal per removal URL, the script run, storing the trimmed token, the 120 ms reload, then the OK badge (the WARN badge when no cookie was removed) |
| SwapProperties.InjectCallsOnSuccess | src/background.ts:111-161 | (helper) an injection that went through made the script call, stored the trimmed token and scheduled the 120 ms reload, in that order |
| SwapProperties.TokenStageSuccess | src/background.ts:182-191 | the token stage answers with success exactly when the page function ran on a token that is not blank, stored it, and the badge call returned; the answer is "Token set, but cookie may not have been cleared." exactly when no removal took effect; once the token is stored the calls are the removals, the script run, the stored trimmed token, the 120 ms reload and the OK or WARN badge, in that order |
| SwapProperties.ClipboardStageSuccess | src/background.ts:175-191 | the clipboard stage answers with success exactly when the read returned text that is not blank, the page run stored the token and the badge call returned |
| SwapProperties.SwapSuccess | src/background.ts:163-192 | the swap answers with success exactly when the browser's answers are these: the tab has an id and a URL, the URL is allowlisted, the offscreen document could be ensured, the helper replied `{ok: true, text}` with text that is not blank, the close did not fail with a non-benign error, the page run stores the token and the badge call returns. Then the read gives that text, the answer carries the cookie warning exactly when no removal took effect, and the calls are the query, the read's calls, the removals, the script run with the trimmed text, storing it, the 120 ms reload and the OK or WARN badge, in that order |
| SwapProperties.GoesThroughByRead | src/background.ts:82-98 | those browser answers are exactly an active tab with an id and a URL, an allowlisted URL, a read that returns text that is not blank, a page run that stores the token and a returning badge call; the read then gives the helper's text |
| SwapProperties.RunSwapSucceeds | src/background.ts:194-208 | a run that takes the lock answers with success exactly when the swap, run with the lock held, goes through (the browser's answers above); it then gives the swap's answer and calls and releases the lock |
| Background.Worker.constructor | src/background.ts:28-30 | the worker starts with all three flags cleared and no calls made |
| Background.Worker.EnsureOffscreenDocument | src/background.ts:35-63 | updates the flags and makes the calls `ensureOffscreenDocument` makes, with its outcome |
| Background.Worker.CloseOffscreenDocumentSafe | src/background.ts:65-80 | updates the flags and makes the calls `closeOffscreenDocumentSafe` makes, with its outcome |
| Background.Worker.ReadClipboardText | src/background.ts:82-98 | ensure, request, then close in the `finally`; the close's error replaces the read's outcome |
| Background.Worker.SetBadge | src/background.ts:166 | one badge call; throws what the call throws; the flags are untouched |
| Swap.Finish | src/background.ts:166-167 | no contract of its own: the badge call appended to the calls, then the response, or the badge's error when it throws; `Background.Worker.Report` is proved equal to it, and `MissingTabStops`, `NotAllowlistedStops` and `BlankClipboardStops` state both of its outcomes at each stop |
| Background.Worker.Report | src/background.ts:166-167 | the badge call, then the response unless the badge call threw |
| Background.Worker.SwapIdentityOnActiveTab | src/background.ts:163-192 | runs the pipeline on the fields, with the outcome, flags and calls that the pipeline's function gives |
| Background.Worker.AfterAllowlist | src/background.ts:175-191 | reads and trims the clipboard, refuses a blank token, then hands the token on |
| Background.Worker.UseToken | src/background.ts:182-191 | clears cookies, injects, and reports on the badge through `Report` unless the injection threw, leaving the flags alone |
| Background.Worker.RunSwap | src/background.ts:194-208 | refuses while locked, otherwise holds the lock for the swap, turns a throw into an error response after the error badge, and releases the lock in every case |

## Left out

- `new URL(...)` parsing is not modelled. Callers receive an `Option<Url>` with `protocol`,
  `hostname` and `port`, or `None` for text that does not parse. In `clearAuthCookies`, the
  parse of the tab's URL cannot fail: the same URL already parsed in `isAllowedUrl`. The
  orchestrator therefore takes the parsed URL once.
- JsStrings.LowerChar: only ASCII letters are lower-cased. The locale-independent Unicode case
  mapping of `toLowerCase` for other letters is not modelled.
- The DOM and page effects of the injected function are not modelled. These are the toast
  element, its styling and its removal. The `setTimeout` callback and `location.reload` appear
  only as the `ScheduleReload(120)` effect.
- Asynchronous interleaving is not modelled. The pending creation promise is the boolean
  `offscreenCreating`; when one is pending, awaiting it is answered by `env.create`.
  Concurrent swaps and the scheduling between awaits are outside the model.
- `executeScript` is a single oracle for the destructuring `const [{ result }]`. A rejection or
  an empty result array (a `TypeError`) is `InjectionThrew`, a frame without a result is
  `ResultMissing`, and a run of the page function is `PageRan`.
- Chrome API wrappers (`src/utils/chrome.ts`) are not part of this model. The badge helper is
  not either: `src/utils/badge.ts`, including its delayed clear and its two underlying calls,
  is one badge call answered by `env.badge` or `env.catchBadge`. The clipboard helper page
  (`src/offscreen/index.ts`) is not part of this model; its reply is `env.clipboard`.
- The configuration module (`src/config.ts`) is not part of this model. Its allowlist, cookie
  name and storage key are the `Swap.Config` parameter.
- Message listener routing (src/background.ts:210-229) is not modelled. It only wires Chrome
  events to `runSwap`.
- The page URL's path, query and fragment are not represented: `buildCookieRemovalUrls` reads
  only its protocol, host name and port.
- Tab ids are integers. A `NaN` id, which JavaScript would also treat as missing, is not
  represented.
- `clearAuthCookies` models the value of a fulfilled removal only by its truthiness, a
  boolean.
- The concrete test cases (`localhost`, `app.newtonschool.co`, `evilnewtonschool.co`,
  `chrome://extensions`, `http://localhost:3000/`) are stated as general lemmas about every
  host or URL of the same form.
