/**
 * What the steps of the swap orchestrator promise: the offscreen document's
 * life cycle, the single-flight lock, the short-circuiting pipeline and the
 * mapping of its outcomes to responses.
 */
module SwapProperties {
  import opened Wrappers
  import opened JsStrings
  import opened Urls
  import opened Messaging
  import opened Swap
  import Allowlist
  import Cookies

  // ---------------------------------------------------------------------
  // The offscreen document

  /** A ready document is left alone. */
  lemma EnsureWhenReady(f: Flags, env: Env)
    requires f.offscreenReady
    ensures EnsureSpec(f, env) == Step(Ok(()), f, [])
  {
  }

  /**
   * Without a ready document, ensuring one succeeds exactly when the
   * creation succeeds or fails because a document already exists; it then
   * leaves the document ready. Any other error is rethrown as it is and
   * leaves the document not ready. No creation is pending afterwards, and a
   * creation call is made only when none was pending.
   */
  lemma EnsureWhenNotReady(f: Flags, env: Env)
    requires !f.offscreenReady
    ensures var s := EnsureSpec(f, env);
            (s.result.Ok? <==> env.create.Done? || IsBenignCreateError(env.create.error)) &&
            (s.result.Threw? ==> s.result.error == env.create.error) &&
            s.flags == Flags(f.swapInProgress, s.result.Ok?, false) &&
            (CreateOffscreen in s.events <==> !f.offscreenCreating) &&
            |s.events| <= 1
  {
  }

  /** Creation errors naming either "document exists" message are treated as success. */
  lemma BenignCreateErrors(pre: string, post: string)
    ensures IsBenignCreateError(ErrorObject(pre + SingleDocumentError + post))
    ensures IsBenignCreateError(ErrorObject(pre + AlreadyHasDocumentError + post))
  {
    ContainsPiece(pre, SingleDocumentError, post);
    ContainsPiece(pre, AlreadyHasDocumentError, post);
  }

  /** A close error naming a missing document is swallowed. */
  lemma BenignCloseErrors(pre: string, post: string)
    ensures IsBenignCloseError(ErrorObject(pre + NoDocumentError + post))
  {
    ContainsPiece(pre, NoDocumentError, post);
  }

  /** Closing when the document is not ready does nothing. */
  lemma CloseWhenNotReady(f: Flags, env: Env)
    requires !f.offscreenReady
    ensures CloseSpec(f, env) == Step(Ok(()), f, [])
  {
  }

  /**
   * Closing a ready document makes one close call and always leaves it not
   * ready; it throws only an error that does not name a missing document.
   */
  lemma CloseWhenReady(f: Flags, env: Env)
    requires f.offscreenReady
    ensures var s := CloseSpec(f, env);
            s.flags == f.(offscreenReady := false) &&
            s.events == [CloseOffscreen] &&
            (s.result.Threw? <==> env.close.Failed? && !IsBenignCloseError(env.close.error)) &&
            (s.result.Threw? ==> s.result.error == env.close.error)
  {
  }

  /**
   * A read that returns gives the helper's text; the request is made only
   * when the document could be ensured, and a ready document is closed
   * after it.
   */
  lemma ReadClipboardResult(f: Flags, env: Env)
    ensures var s := ReadClipboardSpec(f, env);
            (s.result.Ok? ==> env.clipboard == Replied(Some(ClipboardText(s.result.value)))) &&
            (RequestClipboard in s.events <==> EnsureSpec(f, env).result.Ok?) &&
            (RequestClipboard in s.events ==> s.events[|s.events| - 1] == CloseOffscreen)
  {
    var ensure := EnsureSpec(f, env);
    if ensure.result.Ok? {
      assert ensure.flags.offscreenReady;
    }
  }

  /**
   * The read returns `text` exactly when the document could be ensured, the
   * helper replied with that text, and closing the document afterwards did
   * not fail with an error other than the benign "no document" one.
   */
  lemma ReadClipboardOk(f: Flags, env: Env, text: string)
    ensures ReadClipboardSpec(f, env).result == Ok(text) <==>
            EnsureSpec(f, env).result.Ok? &&
            env.clipboard == Replied(Some(ClipboardText(text))) &&
            !(env.close.Failed? && !IsBenignCloseError(env.close.error))
  {
    var ensure := EnsureSpec(f, env);
    if ensure.result.Ok? {
      assert ensure.flags.offscreenReady;
    }
  }

  /**
   * A failed clipboard response surfaces its own message, or "Clipboard
   * read failed" when it has none, once the document could be ensured and
   * closed.
   */
  lemma ReadClipboardError(f: Flags, env: Env, error: string)
    requires EnsureSpec(f, env).result.Ok? && env.close.Done?
    requires env.clipboard == Replied(Some(ClipboardError(error)))
    ensures ReadClipboardSpec(f, env).result ==
              Threw(ErrorObject(if error == [] then ClipboardReadFailed else error))
  {
  }

  // ---------------------------------------------------------------------
  // Cookies and the page function

  /** `some` holds exactly when one removal settled fulfilled with a removed cookie. */
  lemma {:induction false} AnyCookieRemovedIffExists(results: seq<Settled>)
    ensures AnyCookieRemoved(results) <==> exists i | 0 <= i < |results| :: results[i] == Fulfilled(true)
    decreases |results|
  {
    if results != [] {
      AnyCookieRemovedIffExists(results[1..]);
      if AnyCookieRemoved(results[1..]) {
        var i :| 0 <= i < |results[1..]| && results[1..][i] == Fulfilled(true);
        assert results[i + 1] == Fulfilled(true);
      }
      if exists i | 0 <= i < |results| :: results[i] == Fulfilled(true) {
        var i :| 0 <= i < |results| && results[i] == Fulfilled(true);
        if i > 0 {
          assert results[1..][i - 1] == Fulfilled(true);
        }
      }
    }
  }

  /** A rejected removal neither counts nor hides the removals around it. */
  lemma RejectionDoesNotMask(before: seq<Settled>, reason: Thrown, after: seq<Settled>)
    ensures AnyCookieRemoved(before + [Rejected(reason)] + after) == AnyCookieRemoved(before + after)
  {
    var with := before + [Rejected(reason)] + after;
    var without := before + after;
    AnyCookieRemovedIffExists(with);
    AnyCookieRemovedIffExists(without);
    if exists i | 0 <= i < |with| :: with[i] == Fulfilled(true) {
      var i :| 0 <= i < |with| && with[i] == Fulfilled(true);
      if i < |before| {
        assert without[i] == Fulfilled(true);
      } else {
        assert without[i - 1] == Fulfilled(true);
      }
    }
    if exists i | 0 <= i < |without| :: without[i] == Fulfilled(true) {
      var i :| 0 <= i < |without| && without[i] == Fulfilled(true);
      if i < |before| {
        assert with[i] == Fulfilled(true);
      } else {
        assert with[i + 1] == Fulfilled(true);
      }
    }
  }

  /**
   * Clearing cookies reports success exactly when the browser removed the
   * cookie at one of the removal URLs, and it issues one removal of the
   * configured cookie per removal URL.
   */
  lemma ClearAuthCookiesResult(url: Url, env: Env, cookieName: string)
    ensures var (cleared, events) := ClearAuthCookies(url, env, cookieName);
            var urls := Cookies.CookieRemovalUrls(url);
            (cleared <==> exists i | 0 <= i < |urls| :: env.removeCookie(urls[i]) == Fulfilled(true)) &&
            events == seq(|urls|, i requires 0 <= i < |urls| => RemoveCookie(urls[i], cookieName))
  {
    var urls := Cookies.CookieRemovalUrls(url);
    var results := RemovalResults(urls, env);
    AnyCookieRemovedIffExists(results);
    if exists i | 0 <= i < |urls| :: env.removeCookie(urls[i]) == Fulfilled(true) {
      var i :| 0 <= i < |urls| && env.removeCookie(urls[i]) == Fulfilled(true);
      assert results[i] == Fulfilled(true);
    }
  }

  /**
   * Injection succeeds exactly when the page function ran on a token that
   * is not blank and could store it; it then stored the trimmed token under
   * the configured key and scheduled the reload after 120 ms.
   */
  lemma InjectResult(tabId: int, token: string, env: Env, config: Config)
    ensures var (outcome, events) := InjectSpec(tabId, token, env, config);
            (outcome.Ok? <==> env.injection.PageRan? && !env.injection.storageThrows && !AllWhitespace(token)) &&
            events[0] == ExecuteScript(tabId, token, config.tokenKey) &&
            (outcome.Ok? ==> events == [ExecuteScript(tabId, token, config.tokenKey),
                                        InPage(StoreToken(config.tokenKey, Trim(token))),
                                        InPage(ScheduleReload(120))]) &&
            (outcome.Threw? ==> events == [ExecuteScript(tabId, token, config.tokenKey)])
  {
  }

  /** The page function's refusals surface as errors carrying its message. */
  lemma InjectErrors(tabId: int, token: string, env: Env, config: Config)
    ensures env.injection == ResultMissing ==>
              InjectSpec(tabId, token, env, config).0 == Threw(ErrorObject(TokenInjectionFailed))
    ensures env.injection.PageRan? && AllWhitespace(token) ==>
              InjectSpec(tabId, token, env, config).0 == Threw(ErrorObject(ClipboardWasEmpty))
    ensures env.injection.PageRan? && env.injection.storageThrows && !AllWhitespace(token) ==>
              InjectSpec(tabId, token, env, config).0 == Threw(ErrorObject(StorageFailed))
  {
  }

  // ---------------------------------------------------------------------
  // The pipeline

  /** A browser call made only once the tab's URL passed the allowlist. */
  predicate PostAllowlistCall(e: Event) {
    e.CreateOffscreen? || e.RequestClipboard? || e.CloseOffscreen? ||
    e.RemoveCookie? || e.ExecuteScript? || e.InPage?
  }

  /** A browser call made only once the clipboard gave a token. */
  predicate PostClipboardCall(e: Event) {
    e.RemoveCookie? || e.ExecuteScript? || e.InPage?
  }

  /** No call in `events` is one made only once the clipboard gave a token. */
  predicate BeforeToken(events: seq<Event>) {
    forall e | e in events :: !PostClipboardCall(e)
  }

  // Proof step only: states a regrouping explicitly so the proofs that use it stay cheap for the solver.
  lemma BeforeTokenConcat(a: seq<Event>, b: seq<Event>)
    requires BeforeToken(a) && BeforeToken(b)
    ensures BeforeToken(a + b)
  {
  }

  /** A run that stops after the clipboard read and a badge has made no call that needs a token. */
  lemma ReadThenBadgeBeforeToken(f: Flags, env: Env, badge: BadgeConfig)
    ensures BeforeToken([QueryActiveTab] + ReadClipboardSpec(f, env).events + [SetBadge(badge)])
  {
    var read := ReadClipboardSpec(f, env);
    ReadClipboardEvents(f, env);
    assert BeforeToken(read.events);
    BeforeTokenConcat([QueryActiveTab], read.events);
    BeforeTokenConcat([QueryActiveTab] + read.events, [SetBadge(badge)]);
  }

  /**
   * Appending to a run of calls in two steps appends the two runs together.
   * A proof step only, stated on its own to keep the solver cost of its users low.
   */
  lemma Regroup(trace: seq<Event>, first: seq<Event>, second: seq<Event>)
    ensures trace + first + second == trace + (first + second)
  {
  }

  /** The offscreen steps of a clipboard read are the only browser calls it makes. */
  lemma ReadClipboardEvents(f: Flags, env: Env)
    ensures forall e | e in ReadClipboardSpec(f, env).events ::
              e.CreateOffscreen? || e.RequestClipboard? || e.CloseOffscreen?
  {
    var ensure := EnsureSpec(f, env);
    if ensure.result.Ok? {
      var close := CloseSpec(ensure.flags, env);
      assert forall e | e in ensure.events + [RequestClipboard] + close.events ::
               e in ensure.events || e == RequestClipboard || e in close.events;
    }
  }

  /** Once the tab passed the allowlist, the swap is its clipboard stage. */
  lemma SwapIdentityPastAllowlist(f: Flags, env: Env, config: Config)
    requires env.activeTab.Ok? && !TabMissing(env.activeTab.value)
    requires Allowlist.IsAllowedUrl(env.parsedTabUrl, config.allowlist)
    ensures env.parsedTabUrl.Some?
    ensures var stage := ClipboardStage(f, env, config, env.activeTab.value.value.id.value);
            SwapIdentitySpec(f, env, config) == Step(stage.result, stage.flags, [QueryActiveTab] + stage.events)
  {
  }

  /** A clipboard read that throws ends the clipboard stage with its error. */
  lemma ClipboardStageOnFailure(f: Flags, env: Env, config: Config, tabId: int)
    requires env.parsedTabUrl.Some? && ReadClipboardSpec(f, env).result.Threw?
    ensures var read := ReadClipboardSpec(f, env);
            ClipboardStage(f, env, config, tabId) == Step(Threw(read.result.error), read.flags, read.events)
  {
  }

  /** Blank clipboard text ends the clipboard stage with the error badge and "Clipboard is empty.". */
  lemma ClipboardStageOnBlank(f: Flags, env: Env, config: Config, tabId: int)
    requires env.parsedTabUrl.Some? && ReadClipboardSpec(f, env).result.Ok?
    requires Trim(ReadClipboardSpec(f, env).result.value) == []
    ensures var read := ReadClipboardSpec(f, env);
            ClipboardStage(f, env, config, tabId) ==
              Finish(read.flags, read.events, BadgeErr, env.badge, SwapFailed(ClipboardIsEmpty))
  {
  }

  /** A token hands the clipboard stage over to the token stage. */
  lemma ClipboardStageOnToken(f: Flags, env: Env, config: Config, tabId: int)
    requires env.parsedTabUrl.Some? && ReadClipboardSpec(f, env).result.Ok?
    requires Trim(ReadClipboardSpec(f, env).result.value) != []
    ensures var read := ReadClipboardSpec(f, env);
            var stage := TokenStage(read.flags, env, config, tabId, Trim(read.result.value));
            ClipboardStage(f, env, config, tabId) == Step(stage.result, stage.flags, read.events + stage.events)
  {
  }

  /** A run that finds the lock taken answers "Swap already in progress." and changes nothing. */
  lemma RunSwapWhenBusy(f: Flags, env: Env, config: Config)
    requires f.swapInProgress
    ensures RunSwapSpec(f, env, config) == Step(Ok(SwapFailed(SwapAlreadyInProgress)), f, [])
  {
  }

  /**
   * Anything the swap throws becomes an error response carrying the
   * thrown error's message (or "Swap failed."), after the error badge.
   */
  lemma RunSwapCatches(f: Flags, env: Env, config: Config)
    requires !f.swapInProgress && env.catchBadge.Done?
    requires SwapIdentitySpec(f.(swapInProgress := true), env, config).result.Threw?
    ensures var swap := SwapIdentitySpec(f.(swapInProgress := true), env, config);
            var s := RunSwapSpec(f, env, config);
            s.result == Ok(SwapFailed(AsErrorMessage(swap.result.error, SwapFailedFallback))) &&
            s.events == swap.events + [SetBadge(BadgeErr)]
  {
  }

  /**
   * A swap that throws, handled by a catch whose badge call fails, makes
   * the run reject with the badge's error; the lock is still released.
   */
  lemma RunSwapRejects(f: Flags, env: Env, config: Config)
    requires !f.swapInProgress && env.catchBadge.Failed?
    requires SwapIdentitySpec(f.(swapInProgress := true), env, config).result.Threw?
    ensures var swap := SwapIdentitySpec(f.(swapInProgress := true), env, config);
            var s := RunSwapSpec(f, env, config);
            s.result == Threw(env.catchBadge.error) &&
            !s.flags.swapInProgress &&
            s.events == swap.events + [SetBadge(BadgeErr)]
  {
  }

  /**
   * Without an active tab that has an id and a URL the swap answers "No
   * active tab found." once the error badge is set, or throws the badge's
   * error when that call fails, leaves the flags as
   * they were and makes no further browser call.
   */
  lemma MissingTabStops(f: Flags, env: Env, config: Config)
    requires env.activeTab.Ok? && TabMissing(env.activeTab.value)
    ensures var s := SwapIdentitySpec(f, env, config);
            s.flags == f &&
            s.events == [QueryActiveTab, SetBadge(BadgeErr)] &&
            (env.badge.Done? ==> s.result == Ok(SwapFailed(NoActiveTab))) &&
            (env.badge.Failed? ==> s.result == Threw(env.badge.error))
  {
  }

  /**
   * A tab whose URL the allowlist refuses gets "Domain is not allowlisted."
   * (once the refusal badge is set; a failing badge call throws instead):
   * no clipboard read, no cookie removal, no injection.
   */
  lemma NotAllowlistedStops(f: Flags, env: Env, config: Config)
    requires env.activeTab.Ok? && !TabMissing(env.activeTab.value)
    requires !Allowlist.IsAllowedUrl(env.parsedTabUrl, config.allowlist)
    ensures var s := SwapIdentitySpec(f, env, config);
            s.flags == f &&
            s.events == [QueryActiveTab, SetBadge(BadgeNo)] &&
            (forall e | e in s.events :: !PostAllowlistCall(e)) &&
            (env.badge.Done? ==> s.result == Ok(SwapFailed(NotAllowlisted))) &&
            (env.badge.Failed? ==> s.result == Threw(env.badge.error))
  {
  }

  /**
   * Clipboard text that is blank once trimmed gets "Clipboard is empty."
   * (once the error badge is set; a failing badge call throws instead), and
   * no cookie is removed and nothing is injected.
   */
  lemma BlankClipboardStops(f: Flags, env: Env, config: Config, text: string)
    requires env.activeTab.Ok? && !TabMissing(env.activeTab.value)
    requires Allowlist.IsAllowedUrl(env.parsedTabUrl, config.allowlist)
    requires ReadClipboardSpec(f, env).result == Ok(text) && AllWhitespace(text)
    ensures var s := SwapIdentitySpec(f, env, config);
            var read := ReadClipboardSpec(f, env);
            s.flags == read.flags &&
            s.events == [QueryActiveTab] + read.events + [SetBadge(BadgeErr)] &&
            BeforeToken(s.events) &&
            (env.badge.Done? ==> s.result == Ok(SwapFailed(ClipboardIsEmpty))) &&
            (env.badge.Failed? ==> s.result == Threw(env.badge.error))
  {
    SwapIdentityPastAllowlist(f, env, config);
    var read := ReadClipboardSpec(f, env);
    ClipboardStageOnBlank(f, env, config, env.activeTab.value.value.id.value);
    Regroup([QueryActiveTab], read.events, [SetBadge(BadgeErr)]);
    ReadThenBadgeBeforeToken(f, env, BadgeErr);
  }

  /** A clipboard read that throws ends the swap with that error, after the read's own calls. */
  lemma SwapIdentityOnReadFailure(f: Flags, env: Env, config: Config)
    requires env.activeTab.Ok? && !TabMissing(env.activeTab.value)
    requires Allowlist.IsAllowedUrl(env.parsedTabUrl, config.allowlist)
    requires ReadClipboardSpec(f, env).result.Threw?
    ensures var read := ReadClipboardSpec(f, env);
            SwapIdentitySpec(f, env, config) ==
              Step(Threw(read.result.error), read.flags, [QueryActiveTab] + read.events)
  {
    SwapIdentityPastAllowlist(f, env, config);
    ClipboardStageOnFailure(f, env, config, env.activeTab.value.value.id.value);
  }

  /**
   * A clipboard read that throws ends the swap with that error: no cookie
   * is removed and nothing is injected, and the run answers with the
   * error's message.
   */
  lemma ClipboardFailureSurfaces(f: Flags, env: Env, config: Config, message: string)
    requires !f.swapInProgress && env.catchBadge.Done?
    requires env.activeTab.Ok? && !TabMissing(env.activeTab.value)
    requires Allowlist.IsAllowedUrl(env.parsedTabUrl, config.allowlist)
    requires ReadClipboardSpec(f.(swapInProgress := true), env).result == Threw(ErrorObject(message))
    ensures var s := RunSwapSpec(f, env, config);
            s.result == Ok(SwapFailed(message)) && BeforeToken(s.events)
  {
    var g := f.(swapInProgress := true);
    SwapIdentityOnReadFailure(g, env, config);
    RunSwapCatches(f, env, config);
    ReadThenBadgeBeforeToken(g, env, BadgeErr);
  }

  /** No call in `events` is a page effect of the injected function, or the OK or WARN badge. */
  predicate NoSuccessEffects(events: seq<Event>) {
    forall e | e in events :: !e.InPage? && e != SetBadge(BadgeOk) && e != SetBadge(BadgeWarn)
  }

  /**
   * The calls of a token stage whose page run stored the token: one removal
   * per removal URL, the script run, the stored token and the scheduled
   * reload, then the OK badge, or the WARN badge when no cookie was removed.
   */
  function SuccessCalls(url: Url, config: Config, tabId: int, token: string, cleared: bool): seq<Event> {
    RemovalEvents(Cookies.CookieRemovalUrls(url), config.cookieName) +
    [ExecuteScript(tabId, token, config.tokenKey),
     InPage(StoreToken(config.tokenKey, Trim(token))),
     InPage(ScheduleReload(ReloadDelayMs)),
     SetBadge(if cleared then BadgeOk else BadgeWarn)]
  }

  /**
   * The token stage answers with success exactly when the page function ran
   * on a token that is not blank and stored it, and the badge call returned.
   * The answer then carries the cookie warning exactly when no removal took
   * effect, and once the page run stored the token the stage made exactly
   * the calls of `SuccessCalls`.
   */
  lemma TokenStageSuccess(f: Flags, env: Env, config: Config, tabId: int, token: string)
    requires env.parsedTabUrl.Some?
    ensures var url := env.parsedTabUrl.value;
            var cleared := ClearAuthCookies(url, env, config.cookieName).0;
            var s := TokenStage(f, env, config, tabId, token);
            (s.result.Ok? <==> env.injection == PageRan(false) && !AllWhitespace(token) && env.badge.Done?) &&
            (s.result.Ok? ==> s.result.value == Swapped(if cleared then None else Some(CookieWarning))) &&
            (env.injection == PageRan(false) && !AllWhitespace(token) ==>
               s.events == SuccessCalls(url, config, tabId, token, cleared))
  {
    InjectResult(tabId, token, env, config);
    TokenStageAnswer(f, env, config, tabId, token);
    if InjectSpec(tabId, token, env, config).0.Ok? {
      TokenStageCalls(f, env, config, tabId, token);
    }
  }

  /** The token stage answers with success exactly when the injection and the badge call went through. */
  lemma TokenStageAnswer(f: Flags, env: Env, config: Config, tabId: int, token: string)
    requires env.parsedTabUrl.Some?
    ensures var cleared := ClearAuthCookies(env.parsedTabUrl.value, env, config.cookieName).0;
            var s := TokenStage(f, env, config, tabId, token);
            (s.result.Ok? <==> InjectSpec(tabId, token, env, config).0.Ok? && env.badge.Done?) &&
            (s.result.Ok? ==> s.result.value == Swapped(if cleared then None else Some(CookieWarning)))
  {
    if InjectSpec(tabId, token, env, config).0.Ok? {
      TokenStageOnInjection(f, env, config, tabId, token);
    } else {
      TokenStageOnInjectionFailure(f, env, config, tabId, token);
    }
  }

  /** A token stage whose injection went through makes exactly the calls of `SuccessCalls`. */
  lemma TokenStageCalls(f: Flags, env: Env, config: Config, tabId: int, token: string)
    requires env.parsedTabUrl.Some? && InjectSpec(tabId, token, env, config).0.Ok?
    ensures var url := env.parsedTabUrl.value;
            TokenStage(f, env, config, tabId, token).events ==
              SuccessCalls(url, config, tabId, token, ClearAuthCookies(url, env, config.cookieName).0)
  {
    var url := env.parsedTabUrl.value;
    var cleared := ClearAuthCookies(url, env, config.cookieName).0;
    var removals := RemovalEvents(Cookies.CookieRemovalUrls(url), config.cookieName);
    var injection := InjectSpec(tabId, token, env, config).1;
    InjectCallsOnSuccess(tabId, token, env, config);
    TokenStageOnInjection(f, env, config, tabId, token);
    var badge := SetBadge(if cleared then BadgeOk else BadgeWarn);
    Regroup(removals, injection, [badge]);
  }

  /** The calls of an injection that went through, with the badge that follows it. */
  lemma InjectCallsOnSuccess(tabId: int, token: string, env: Env, config: Config)
    requires InjectSpec(tabId, token, env, config).0.Ok?
    ensures forall badge: Event :: InjectSpec(tabId, token, env, config).1 + [badge] ==
              [ExecuteScript(tabId, token, config.tokenKey),
               InPage(StoreToken(config.tokenKey, Trim(token))),
               InPage(ScheduleReload(ReloadDelayMs)), badge]
  {
    InjectResult(tabId, token, env, config);
  }

  /** A page run that stored the token hands the token stage over to the badge. */
  lemma TokenStageOnInjection(f: Flags, env: Env, config: Config, tabId: int, token: string)
    requires env.parsedTabUrl.Some? && InjectSpec(tabId, token, env, config).0.Ok?
    ensures var (cleared, removals) := ClearAuthCookies(env.parsedTabUrl.value, env, config.cookieName);
            var injection := InjectSpec(tabId, token, env, config).1;
            TokenStage(f, env, config, tabId, token) ==
              if cleared then Finish(f, removals + injection, BadgeOk, env.badge, Swapped(None))
              else Finish(f, removals + injection, BadgeWarn, env.badge, Swapped(Some(CookieWarning)))
  {
  }

  /**
   * An injection that throws ends the token stage with its error after the
   * removals and the script run alone: no page effect and no badge.
   */
  lemma TokenStageOnInjectionFailure(f: Flags, env: Env, config: Config, tabId: int, token: string)
    requires env.parsedTabUrl.Some? && InjectSpec(tabId, token, env, config).0.Threw?
    ensures TokenStage(f, env, config, tabId, token) ==
              Step(Threw(InjectSpec(tabId, token, env, config).0.error), f,
                   RemovalEvents(Cookies.CookieRemovalUrls(env.parsedTabUrl.value), config.cookieName) +
                   [ExecuteScript(tabId, token, config.tokenKey)])
  {
    InjectResult(tabId, token, env, config);
  }

  /**
   * An injection that fails ends the run with the injection's error message
   * and releases the lock. The cookies were removed and the script ran, but
   * nothing was stored, no reload was scheduled and neither the OK nor the
   * WARN badge was set: the only call after the script run is the error
   * badge of the run's handler.
   */
  lemma InjectionFailureSurfaces(f: Flags, env: Env, config: Config, text: string, message: string)
    requires !f.swapInProgress && env.catchBadge.Done?
    requires env.activeTab.Ok? && !TabMissing(env.activeTab.value)
    requires Allowlist.IsAllowedUrl(env.parsedTabUrl, config.allowlist)
    requires ReadClipboardSpec(f.(swapInProgress := true), env).result == Ok(text) && !AllWhitespace(text)
    requires InjectSpec(env.activeTab.value.value.id.value, Trim(text), env, config).0 == Threw(ErrorObject(message))
    ensures env.parsedTabUrl.Some?
    ensures var s := RunSwapSpec(f, env, config);
            var read := ReadClipboardSpec(f.(swapInProgress := true), env);
            s.result == Ok(SwapFailed(message)) && !s.flags.swapInProgress &&
            s.events == [QueryActiveTab] + read.events +
                        RemovalEvents(Cookies.CookieRemovalUrls(env.parsedTabUrl.value), config.cookieName) +
                        [ExecuteScript(env.activeTab.value.value.id.value, Trim(text), config.tokenKey), SetBadge(BadgeErr)] &&
            NoSuccessEffects(s.events)
  {
    var g := f.(swapInProgress := true);
    var tabId := env.activeTab.value.value.id.value;
    var read := ReadClipboardSpec(g, env);
    SwapIdentityOnInjectionFailure(g, env, config, text);
    RunSwapCatches(f, env, config);
    var removals := RemovalEvents(Cookies.CookieRemovalUrls(env.parsedTabUrl.value), config.cookieName);
    var call := ExecuteScript(tabId, Trim(text), config.tokenKey);
    FailureCalls([QueryActiveTab], read.events, removals, call, SetBadge(BadgeErr));
    FailureCallsHaveNoSuccessEffects(g, env, Cookies.CookieRemovalUrls(env.parsedTabUrl.value), config.cookieName, call);
  }

  /** An injection that throws ends the swap with its error, after the removals and the script run. */
  lemma SwapIdentityOnInjectionFailure(f: Flags, env: Env, config: Config, text: string)
    requires env.activeTab.Ok? && !TabMissing(env.activeTab.value)
    requires Allowlist.IsAllowedUrl(env.parsedTabUrl, config.allowlist)
    requires ReadClipboardSpec(f, env).result == Ok(text) && !AllWhitespace(text)
    requires InjectSpec(env.activeTab.value.value.id.value, Trim(text), env, config).0.Threw?
    ensures env.parsedTabUrl.Some?
    ensures var read := ReadClipboardSpec(f, env);
            var tabId := env.activeTab.value.value.id.value;
            SwapIdentitySpec(f, env, config) ==
              Step(Threw(InjectSpec(tabId, Trim(text), env, config).0.error), read.flags,
                   [QueryActiveTab] + (read.events +
                     (RemovalEvents(Cookies.CookieRemovalUrls(env.parsedTabUrl.value), config.cookieName) +
                      [ExecuteScript(tabId, Trim(text), config.tokenKey)])))
  {
    var tabId := env.activeTab.value.value.id.value;
    SwapIdentityPastAllowlist(f, env, config);
    ClipboardStageOnToken(f, env, config, tabId);
    TokenStageOnInjectionFailure(ReadClipboardSpec(f, env).flags, env, config, tabId, Trim(text));
  }

  /** The calls of a swap whose injection threw, ending with the handler's error badge, hold no success effect. */
  lemma FailureCallsHaveNoSuccessEffects(f: Flags, env: Env, urls: seq<string>, cookieName: string, call: Event)
    requires call.ExecuteScript?
    ensures NoSuccessEffects([QueryActiveTab] + ReadClipboardSpec(f, env).events + RemovalEvents(urls, cookieName) +
                             [call, SetBadge(BadgeErr)])
  {
    var read := ReadClipboardSpec(f, env).events;
    var removals := RemovalEvents(urls, cookieName);
    ReadClipboardEvents(f, env);
    assert NoSuccessEffects(read);
    assert NoSuccessEffects(removals) by {
      forall e | e in removals ensures e.RemoveCookie? {
        var i :| 0 <= i < |removals| && removals[i] == e;
      }
    }
    assert NoSuccessEffects([call, SetBadge(BadgeErr)]) by {
      assert BadgeErr.text[0] != BadgeOk.text[0] && BadgeErr.text[0] != BadgeWarn.text[0];
    }
    NoSuccessEffectsConcat([QueryActiveTab], read);
    NoSuccessEffectsConcat([QueryActiveTab] + read, removals);
    NoSuccessEffectsConcat([QueryActiveTab] + read + removals, [call, SetBadge(BadgeErr)]);
  }

  // Proof step only: states a regrouping explicitly so the proofs that use it stay cheap for the solver.
  lemma NoSuccessEffectsConcat(a: seq<Event>, b: seq<Event>)
    requires NoSuccessEffects(a) && NoSuccessEffects(b)
    ensures NoSuccessEffects(a + b)
  {
  }

  /**
   * The calls of a swap whose injection threw, with the handler's badge
   * appended, in one run. A proof step only, stated on its own to keep the
   * solver cost of its users low.
   */
  lemma FailureCalls(query: seq<Event>, read: seq<Event>, removals: seq<Event>, call: Event, badge: Event)
    ensures query + (read + (removals + [call])) + [badge] == query + read + removals + [call, badge]
  {
  }

  /**
   * Everything a swap needs to go through, in the browser's answers: an
   * active tab with an id and a URL, a URL the allowlist admits, an
   * offscreen document that could be ensured, a helper reply `{ok: true,
   * text}` whose text is not blank, a close that does not fail with an
   * error other than the benign one, a page run that stores the token, and
   * a badge call that returns.
   */
  predicate SwapGoesThrough(f: Flags, env: Env, config: Config) {
    env.activeTab.Ok? && !TabMissing(env.activeTab.value) &&
    Allowlist.IsAllowedUrl(env.parsedTabUrl, config.allowlist) &&
    EnsureSpec(f, env).result.Ok? &&
    env.clipboard.Replied? && env.clipboard.response.Some? && env.clipboard.response.value.ClipboardText? &&
    !AllWhitespace(env.clipboard.response.value.text) &&
    !(env.close.Failed? && !IsBenignCloseError(env.close.error)) &&
    env.injection == PageRan(false) && env.badge.Done?
  }

  /** A swap goes through exactly when, past the allowlist, the clipboard read returns text that is not blank. */
  lemma GoesThroughByRead(f: Flags, env: Env, config: Config)
    ensures var read := ReadClipboardSpec(f, env);
            SwapGoesThrough(f, env, config) <==>
              env.activeTab.Ok? && !TabMissing(env.activeTab.value) &&
              Allowlist.IsAllowedUrl(env.parsedTabUrl, config.allowlist) &&
              read.result.Ok? && !AllWhitespace(read.result.value) &&
              env.injection == PageRan(false) && env.badge.Done?
    ensures SwapGoesThrough(f, env, config) ==>
            ReadClipboardSpec(f, env).result == Ok(env.clipboard.response.value.text)
  {
    var read := ReadClipboardSpec(f, env);
    if read.result.Ok? {
      ReadClipboardOk(f, env, read.result.value);
    }
    if env.clipboard.Replied? && env.clipboard.response.Some? && env.clipboard.response.value.ClipboardText? {
      ReadClipboardOk(f, env, env.clipboard.response.value.text);
    }
  }

  /**
   * The clipboard stage answers with success exactly when the read returns
   * text that is not blank, the page run stores the token and the badge
   * call returns.
   */
  lemma ClipboardStageSuccess(f: Flags, env: Env, config: Config, tabId: int)
    requires env.parsedTabUrl.Some?
    ensures var c := ClipboardStage(f, env, config, tabId);
            var read := ReadClipboardSpec(f, env);
            (c.result.Ok? && c.result.value.Swapped?) <==>
              read.result.Ok? && !AllWhitespace(read.result.value) && env.injection == PageRan(false) && env.badge.Done?
  {
    var read := ReadClipboardSpec(f, env);
    if read.result.Ok? && !AllWhitespace(read.result.value) {
      TrimIdempotent(read.result.value);
      ClipboardStageOnToken(f, env, config, tabId);
      TokenStageSuccess(read.flags, env, config, tabId, Trim(read.result.value));
    }
  }

  /**
   * A swap answers with success exactly when it goes through. It then read
   * `{ok: true, text}` from the helper and answers with the cookie warning
   * exactly when no removal took effect; its calls are the tab query, the
   * clipboard read's calls and `SuccessCalls` for the trimmed text, in that
   * order.
   */
  lemma SwapSuccess(f: Flags, env: Env, config: Config)
    ensures var s := SwapIdentitySpec(f, env, config);
            (s.result.Ok? && s.result.value.Swapped?) <==> SwapGoesThrough(f, env, config)
    ensures SwapGoesThrough(f, env, config) ==>
            env.parsedTabUrl.Some? &&
            var s := SwapIdentitySpec(f, env, config);
            var read := ReadClipboardSpec(f, env);
            var text := env.clipboard.response.value.text;
            var url := env.parsedTabUrl.value;
            var cleared := ClearAuthCookies(url, env, config.cookieName).0;
            read.result == Ok(text) &&
            s.result == Ok(Swapped(if cleared then None else Some(CookieWarning))) &&
            s.flags == read.flags &&
            s.events == [QueryActiveTab] + read.events +
                        SuccessCalls(url, config, env.activeTab.value.value.id.value, Trim(text), cleared)
  {
    GoesThroughByRead(f, env, config);
    if env.activeTab.Ok? && !TabMissing(env.activeTab.value) &&
       Allowlist.IsAllowedUrl(env.parsedTabUrl, config.allowlist) {
      var tabId := env.activeTab.value.value.id.value;
      SwapIdentityPastAllowlist(f, env, config);
      ClipboardStageSuccess(f, env, config, tabId);
      var read := ReadClipboardSpec(f, env);
      if read.result.Ok? && !AllWhitespace(read.result.value) {
        var token := Trim(read.result.value);
        TrimIdempotent(read.result.value);
        ClipboardStageOnToken(f, env, config, tabId);
        TokenStageSuccess(read.flags, env, config, tabId, token);
        Regroup([QueryActiveTab], read.events, TokenStage(read.flags, env, config, tabId, token).events);
      }
    }
  }

  /**
   * A run that takes the lock answers with success exactly when the swap,
   * run with the lock held, goes through. It then answers as the swap does,
   * makes the swap's calls and no others, and releases the lock.
   */
  lemma RunSwapSucceeds(f: Flags, env: Env, config: Config)
    requires !f.swapInProgress
    ensures var s := RunSwapSpec(f, env, config);
            (s.result.Ok? && s.result.value.Swapped?) <==> SwapGoesThrough(f.(swapInProgress := true), env, config)
    ensures SwapGoesThrough(f.(swapInProgress := true), env, config) ==>
            env.parsedTabUrl.Some? &&
            var s := RunSwapSpec(f, env, config);
            var read := ReadClipboardSpec(f.(swapInProgress := true), env);
            var text := env.clipboard.response.value.text;
            var url := env.parsedTabUrl.value;
            var cleared := ClearAuthCookies(url, env, config.cookieName).0;
            s.result == Ok(Swapped(if cleared then None else Some(CookieWarning))) &&
            !s.flags.swapInProgress &&
            s.events == [QueryActiveTab] + read.events +
                        SuccessCalls(url, config, env.activeTab.value.value.id.value, Trim(text), cleared)
  {
    SwapSuccess(f.(swapInProgress := true), env, config);
  }
}
