/**
 * The swap orchestrator of the background worker, stated step by step as
 * functions from the three module-level flags and the answers of the
 * browser to a `Step`: what the step returns or throws, the flags it leaves
 * behind and the browser calls it makes, in order. The class in module
 * Background runs the same steps on its fields; the lemmas here state what
 * the steps promise.
 *
 * Every browser call is an oracle in `Env`: the answer the browser gives
 * (or the error it rejects with) is part of the input.
 */
module Swap {
  import opened Wrappers
  import opened JsStrings
  import opened Urls
  import opened Messaging
  import Allowlist
  import Cookies

  // ---------------------------------------------------------------------
  // Values thrown and results

  /** A thrown value: an `Error` object with its message, or anything else. */
  datatype Thrown = ErrorObject(message: string) | NonErrorValue

  /** `asErrorMessage(error, fallback)`. */
  function AsErrorMessage(error: Thrown, fallback: string): (m: string)
    ensures error.ErrorObject? ==> m == error.message
    ensures error.NonErrorValue? ==> m == fallback
  {
    match error
    case ErrorObject(message) => message
    case NonErrorValue => fallback
  }

  /** How an awaited call ends: with a value, or by throwing. */
  datatype Outcome<T> = Ok(value: T) | Threw(error: Thrown)

  /** How a browser call that returns nothing ends. */
  datatype Completion = Done | Failed(error: Thrown)

  // ---------------------------------------------------------------------
  // Badges and browser calls

  /** A badge text with its background colour. */
  datatype BadgeConfig = BadgeConfig(text: string, color: string)

  const BadgeOk := BadgeConfig("OK", "#16a34a")
  const BadgeWarn := BadgeConfig("WARN", "#f59e0b")
  const BadgeErr := BadgeConfig("ERR", "#dc2626")
  const BadgeNo := BadgeConfig("NO", "#f59e0b")

  /** The page-side effects of the injected function that the model keeps. */
  datatype PageEffect =
    | StoreToken(key: string, value: string)   // localStorage.setItem
    | ScheduleReload(delayMs: nat)             // setTimeout(..., location.reload)

  /** The delay before the injected function reloads the page. */
  const ReloadDelayMs: nat := 120

  /** The browser calls of a swap, in the order they are issued. */
  datatype Event =
    | QueryActiveTab
    | CreateOffscreen
    | RequestClipboard
    | CloseOffscreen
    | RemoveCookie(url: string, name: string)
    | ExecuteScript(tabId: int, token: string, storageKey: string)
    | InPage(effect: PageEffect)
    | SetBadge(badge: BadgeConfig)

  /** The active tab's `id` and `url`, either of which may be absent. */
  datatype Tab = Tab(id: Option<int>, url: Option<string>)

  /** The answer to the clipboard request: a rejection, or a response that may be missing. */
  datatype ClipboardReply = ReplyRejected(error: Thrown) | Replied(response: Option<ClipboardResponse>)

  /** One entry of `Promise.allSettled`: fulfilled with whether a cookie was removed, or rejected. */
  datatype Settled = Fulfilled(removed: bool) | Rejected(reason: Thrown)

  /**
   * What `executeScript` gives back: a rejection, a frame without a result,
   * or a run of the page function, whose `localStorage.setItem` may throw.
   */
  datatype InjectionReply = InjectionThrew(error: Thrown) | ResultMissing | PageRan(storageThrows: bool)

  /**
   * The browser's answers during one swap. `parsedTabUrl` is `new URL`
   * applied to the tab's URL; the other fields answer the call they name.
   * The two badge fields answer the badge call of the pipeline and the one
   * in the run's error handler.
   */
  datatype Env = Env(
    activeTab: Outcome<Option<Tab>>,
    parsedTabUrl: Option<Url>,
    create: Completion,
    clipboard: ClipboardReply,
    close: Completion,
    removeCookie: string -> Settled,
    injection: InjectionReply,
    badge: Completion,
    catchBadge: Completion)

  /** The configured allowlist, auth cookie name and storage key for the token. */
  datatype Config = Config(allowlist: seq<string>, cookieName: string, tokenKey: string)

  /** The module-level flags; `offscreenCreating` stands for the pending creation promise. */
  datatype Flags = Flags(swapInProgress: bool, offscreenReady: bool, offscreenCreating: bool)

  /** What a step of the orchestrator does: its outcome, the flags after it and its browser calls. */
  datatype Step<T> = Step(result: Outcome<T>, flags: Flags, events: seq<Event>)

  // ---------------------------------------------------------------------
  // The offscreen document

  const SingleDocumentError := "Only a single offscreen document"
  const AlreadyHasDocumentError := "already has an offscreen document"
  const NoDocumentError := "No offscreen document"

  /** A creation error that means a document already exists. */
  predicate IsBenignCreateError(error: Thrown) {
    var message := AsErrorMessage(error, "Failed to create offscreen document");
    Contains(message, SingleDocumentError) || Contains(message, AlreadyHasDocumentError)
  }

  /** A close error that means there was no document to close. */
  predicate IsBenignCloseError(error: Thrown) {
    Contains(AsErrorMessage(error, "Failed to close offscreen document"), NoDocumentError)
  }

  /**
   * `ensureOffscreenDocument`: nothing when the document is ready; otherwise
   * start a creation unless one is pending, and wait for it. A creation
   * that succeeds, or fails only because a document exists, makes the
   * document ready; any other failure is thrown. The pending creation is
   * cleared either way.
   */
  function EnsureSpec(f: Flags, env: Env): (r: Step<()>)
    ensures r.result.Ok? <==> r.flags.offscreenReady
    ensures r.flags.swapInProgress == f.swapInProgress
    ensures |r.events| <= 1
  {
    if f.offscreenReady then Step(Ok(()), f, [])
    else
      var events := if f.offscreenCreating then [] else [CreateOffscreen];
      var settled := f.(offscreenCreating := false);
      match env.create
      case Done => Step(Ok(()), settled.(offscreenReady := true), events)
      case Failed(e) =>
        if IsBenignCreateError(e) then Step(Ok(()), settled.(offscreenReady := true), events)
        else Step(Threw(e), settled, events)
  }

  /**
   * `closeOffscreenDocumentSafe`: nothing when the document is not ready;
   * otherwise close it, swallowing the error that says there is none, and
   * mark it not ready whatever happens.
   */
  function CloseSpec(f: Flags, env: Env): (r: Step<()>)
    ensures r.flags == f.(offscreenReady := false)
    ensures r.result.Threw? ==> f.offscreenReady
  {
    if !f.offscreenReady then Step(Ok(()), f, [])
    else
      var closed := f.(offscreenReady := false);
      match env.close
      case Done => Step(Ok(()), closed, [CloseOffscreen])
      case Failed(e) =>
        if IsBenignCloseError(e) then Step(Ok(()), closed, [CloseOffscreen])
        else Step(Threw(e), closed, [CloseOffscreen])
  }

  const ClipboardReadFailed := "Clipboard read failed"

  /** The body of the `try` in `readClipboardText`, given the helper's reply. */
  function ClipboardOutcome(reply: ClipboardReply): (r: Outcome<string>)
    ensures r.Ok? <==> reply.Replied? && reply.response.Some? && reply.response.value.ClipboardText?
  {
    match reply
    case ReplyRejected(e) => Threw(e)
    case Replied(None) => Threw(ErrorObject(ClipboardReadFailed))
    case Replied(Some(ClipboardError(error))) =>
      Threw(ErrorObject(if error == [] then ClipboardReadFailed else error))
    case Replied(Some(ClipboardText(text))) => Ok(text)
  }

  /**
   * `readClipboardText`: make sure the document exists (outside the `try`),
   * ask it for the clipboard, then close it in the `finally`; an error from
   * the close replaces the outcome of the read.
   */
  function ReadClipboardSpec(f: Flags, env: Env): (r: Step<string>)
    ensures !r.flags.offscreenReady
    ensures r.flags.offscreenCreating == (f.offscreenReady && f.offscreenCreating)
    ensures r.flags.swapInProgress == f.swapInProgress
  {
    var ensure := EnsureSpec(f, env);
    if ensure.result.Threw? then Step(Threw(ensure.result.error), ensure.flags, ensure.events)
    else
      var read := ClipboardOutcome(env.clipboard);
      var close := CloseSpec(ensure.flags, env);
      var result := if close.result.Threw? then Threw(close.result.error) else read;
      Step(result, close.flags, ensure.events + [RequestClipboard] + close.events)
  }

  // ---------------------------------------------------------------------
  // Cookies and the injected page function

  /** `results.some(result => result.status === 'fulfilled' && Boolean(result.value))`. */
  function AnyCookieRemoved(results: seq<Settled>): bool
    decreases |results|
  {
    if results == [] then false
    else results[0] == Fulfilled(true) || AnyCookieRemoved(results[1..])
  }

  /** The removal calls of `clearAuthCookies`, one per URL, all issued before any is awaited. */
  function RemovalEvents(urls: seq<string>, cookieName: string): (events: seq<Event>)
    ensures |events| == |urls|
    ensures forall i | 0 <= i < |urls| :: events[i] == RemoveCookie(urls[i], cookieName)
  {
    seq(|urls|, i requires 0 <= i < |urls| => RemoveCookie(urls[i], cookieName))
  }

  /** The settled removals, in the order of the URLs. */
  function RemovalResults(urls: seq<string>, env: Env): (results: seq<Settled>)
    ensures |results| == |urls|
    ensures forall i | 0 <= i < |urls| :: results[i] == env.removeCookie(urls[i])
  {
    seq(|urls|, i requires 0 <= i < |urls| => env.removeCookie(urls[i]))
  }

  /**
   * `clearAuthCookies` on a page URL that parsed: remove the auth cookie at
   * every removal URL and report whether any removal took effect.
   */
  function ClearAuthCookies(url: Url, env: Env, cookieName: string): (r: (bool, seq<Event>))
    ensures |r.1| == |Cookies.CookieRemovalUrls(url)|
  {
    var urls := Cookies.CookieRemovalUrls(url);
    (AnyCookieRemoved(RemovalResults(urls, env)), RemovalEvents(urls, cookieName))
  }

  /** What the injected function returns: `{ok, error?}`. */
  datatype PageResult = PageResult(ok: bool, error: Option<string>)

  /** The injected function's result and the effects it had on the page. */
  datatype PageRun = PageRun(result: PageResult, effects: seq<PageEffect>)

  const ClipboardWasEmpty := "Clipboard was empty."
  const StorageFailed := "Unable to write token to localStorage."

  /**
   * The decision part of the function injected into the page: refuse a
   * blank token, store the trimmed token (which may fail), then schedule
   * the reload.
   */
  function InjectedPageFunction(token: string, storageKey: string, storageThrows: bool): (r: PageRun)
    ensures r.result.ok <==> !AllWhitespace(token) && !storageThrows
    ensures AllWhitespace(token) ==> r == PageRun(PageResult(false, Some(ClipboardWasEmpty)), [])
    ensures !AllWhitespace(token) && storageThrows ==> r == PageRun(PageResult(false, Some(StorageFailed)), [])
    ensures r.result.ok ==> r.effects == [StoreToken(storageKey, Trim(token)), ScheduleReload(ReloadDelayMs)]
  {
    if token == [] || Trim(token) == [] then PageRun(PageResult(false, Some(ClipboardWasEmpty)), [])
    else if storageThrows then PageRun(PageResult(false, Some(StorageFailed)), [])
    else PageRun(PageResult(true, None), [StoreToken(storageKey, Trim(token)), ScheduleReload(ReloadDelayMs)])
  }

  const TokenInjectionFailed := "Token injection failed"

  function InPageEvents(effects: seq<PageEffect>): (events: seq<Event>)
    ensures |events| == |effects|
    ensures forall i | 0 <= i < |effects| :: events[i] == InPage(effects[i])
  {
    seq(|effects|, i requires 0 <= i < |effects| => InPage(effects[i]))
  }

  /** `injectTokenAndReload`: run the page function in the tab and throw unless it reports `ok`. */
  function InjectSpec(tabId: int, token: string, env: Env, config: Config): (r: (Outcome<()>, seq<Event>))
    ensures 1 <= |r.1| <= 3 && r.1[0] == ExecuteScript(tabId, token, config.tokenKey)
    ensures r.0.Ok? ==> |r.1| == 3
  {
    var call := [ExecuteScript(tabId, token, config.tokenKey)];
    match env.injection
    case InjectionThrew(e) => (Threw(e), call)
    case ResultMissing => (Threw(ErrorObject(TokenInjectionFailed)), call)
    case PageRan(storageThrows) =>
      var run := InjectedPageFunction(token, config.tokenKey, storageThrows);
      var events := call + InPageEvents(run.effects);
      if run.result.ok then (Ok(()), events)
      else
        var error := run.result.error;
        (Threw(ErrorObject(if error.None? || error.value == [] then TokenInjectionFailed else error.value)), events)
  }

  // ---------------------------------------------------------------------
  // The pipeline

  const NoActiveTab := "No active tab found."
  const NotAllowlisted := "Domain is not allowlisted."
  const ClipboardIsEmpty := "Clipboard is empty."
  const CookieWarning := "Token set, but cookie may not have been cleared."
  const SwapAlreadyInProgress := "Swap already in progress."
  const SwapFailedFallback := "Swap failed."

  /** `!tab?.id || !tab.url`. */
  predicate TabMissing(tab: Option<Tab>) {
    tab.None? || tab.value.id.None? || tab.value.id.value == 0 ||
    tab.value.url.None? || tab.value.url.value == []
  }

  /** Set the badge, then answer `response` unless the badge call throws. */
  function Finish(f: Flags, events: seq<Event>, badge: BadgeConfig, call: Completion, response: SwapResponse): Step<SwapResponse> {
    Step(if call.Failed? then Threw(call.error) else Ok(response), f, events + [SetBadge(badge)])
  }

  /**
   * `swapIdentityOnActiveTab`: find the active tab, check its URL against
   * the allowlist, read and trim the clipboard, clear the auth cookies,
   * inject the token, and report on the badge. The first step that fails
   * ends the run.
   */
  function SwapIdentitySpec(f: Flags, env: Env, config: Config): (r: Step<SwapResponse>)
    ensures r.events != [] && r.events[0] == QueryActiveTab
    ensures r.flags.swapInProgress == f.swapInProgress
  {
    var query := [QueryActiveTab];
    match env.activeTab
    case Threw(e) => Step(Threw(e), f, query)
    case Ok(tab) =>
      if TabMissing(tab) then Finish(f, query, BadgeErr, env.badge, SwapFailed(NoActiveTab))
      else if !Allowlist.IsAllowedUrl(env.parsedTabUrl, config.allowlist) then
        Finish(f, query, BadgeNo, env.badge, SwapFailed(NotAllowlisted))
      else
        var stage := ClipboardStage(f, env, config, tab.value.id.value);
        Step(stage.result, stage.flags, query + stage.events)
  }

  /** The swap once the tab's URL passed the allowlist: read the clipboard and refuse a blank token. */
  function ClipboardStage(f: Flags, env: Env, config: Config, tabId: int): (r: Step<SwapResponse>)
    requires env.parsedTabUrl.Some?
    ensures r.flags == ReadClipboardSpec(f, env).flags
    ensures r.result.Ok? && r.result.value.SwapFailed? ==> r.result.value.error == ClipboardIsEmpty
  {
    var read := ReadClipboardSpec(f, env);
    if read.result.Threw? then Step(Threw(read.result.error), read.flags, read.events)
    else
      var token := Trim(read.result.value);
      if token == [] then Finish(read.flags, read.events, BadgeErr, env.badge, SwapFailed(ClipboardIsEmpty))
      else
        var stage := TokenStage(read.flags, env, config, tabId, token);
        Step(stage.result, stage.flags, read.events + stage.events)
  }

  /**
   * The swap once it has a token: clear the cookies, inject the token, and
   * warn when no cookie was removed.
   */
  function TokenStage(f: Flags, env: Env, config: Config, tabId: int, token: string): (r: Step<SwapResponse>)
    requires env.parsedTabUrl.Some?
    ensures r.flags == f
    ensures r.result.Ok? ==> r.result.value.Swapped?
  {
    var (cleared, removals) := ClearAuthCookies(env.parsedTabUrl.value, env, config.cookieName);
    var (injected, injection) := InjectSpec(tabId, token, env, config);
    var events := removals + injection;
    if injected.Threw? then Step(Threw(injected.error), f, events)
    else if !cleared then Finish(f, events, BadgeWarn, env.badge, Swapped(Some(CookieWarning)))
    else Finish(f, events, BadgeOk, env.badge, Swapped(None))
  }

  /**
   * `runSwap`: refuse to start while a swap is running; otherwise hold the
   * lock for the swap, turn anything it throws into an error response
   * (after setting the error badge, which may itself throw), and release
   * the lock in every case.
   */
  function RunSwapSpec(f: Flags, env: Env, config: Config): (r: Step<SwapResponse>)
    ensures r.flags.swapInProgress == f.swapInProgress
    ensures r.result.Threw? ==> env.catchBadge.Failed? && r.result.error == env.catchBadge.error
  {
    if f.swapInProgress then Step(Ok(SwapFailed(SwapAlreadyInProgress)), f, [])
    else
      var swap := SwapIdentitySpec(f.(swapInProgress := true), env, config);
      var released := swap.flags.(swapInProgress := false);
      match swap.result
      case Ok(response) => Step(Ok(response), released, swap.events)
      case Threw(e) =>
        var events := swap.events + [SetBadge(BadgeErr)];
        match env.catchBadge
        case Failed(badgeError) => Step(Threw(badgeError), released, events)
        case Done => Step(Ok(SwapFailed(AsErrorMessage(e, SwapFailedFallback))), released, events)
  }
}
