/**
 * The background worker's module-level state and the operations that change
 * it. Each method runs one step of the swap on the fields and is proved to
 * do what the matching function of module Swap says; the browser calls it
 * makes are appended to the ghost `trace`.
 */
module Background {
  import opened Wrappers
  import opened JsStrings
  import opened Messaging
  import opened Swap
  import opened SwapProperties
  import Allowlist

  class Worker {
    /** A swap holds this lock from start to finish. */
    var swapInProgress: bool
    /** The offscreen clipboard document exists. */
    var offscreenReady: bool
    /** A creation of the offscreen document is pending. */
    var offscreenCreating: bool
    /** The browser calls made so far, in order. */
    ghost var trace: seq<Event>

    function Flags(): Flags
      reads this
    {
      Swap.Flags(swapInProgress, offscreenReady, offscreenCreating)
    }

    /** The worker starts with every flag cleared and no call made. */
    constructor ()
      ensures Flags() == Swap.Flags(false, false, false)
      ensures trace == []
    {
      swapInProgress := false;
      offscreenReady := false;
      offscreenCreating := false;
      trace := [];
    }

    /** `ensureOffscreenDocument`. */
    method EnsureOffscreenDocument(env: Env) returns (r: Outcome<()>)
      modifies this
      ensures var s := EnsureSpec(old(Flags()), env);
              r == s.result && Flags() == s.flags && trace == old(trace) + s.events
    {
      if offscreenReady {
        return Ok(());
      }
      if !offscreenCreating {
        offscreenCreating := true;
        trace := trace + [CreateOffscreen];
      }
      match env.create {
        case Done =>
          offscreenReady := true;
          r := Ok(());
        case Failed(e) =>
          if IsBenignCreateError(e) {
            offscreenReady := true;
            r := Ok(());
          } else {
            r := Threw(e);
          }
      }
      offscreenCreating := false;
    }

    /** `closeOffscreenDocumentSafe`. */
    method CloseOffscreenDocumentSafe(env: Env) returns (r: Outcome<()>)
      modifies this
      ensures var s := CloseSpec(old(Flags()), env);
              r == s.result && Flags() == s.flags && trace == old(trace) + s.events
    {
      if !offscreenReady {
        return Ok(());
      }
      trace := trace + [CloseOffscreen];
      match env.close {
        case Done =>
          r := Ok(());
        case Failed(e) =>
          r := if IsBenignCloseError(e) then Ok(()) else Threw(e);
      }
      offscreenReady := false;
    }

    /** `readClipboardText`. */
    method ReadClipboardText(env: Env) returns (r: Outcome<string>)
      modifies this
      ensures var s := ReadClipboardSpec(old(Flags()), env);
              r == s.result && Flags() == s.flags && trace == old(trace) + s.events
    {
      ghost var ensure := EnsureSpec(Flags(), env);
      var ensured := EnsureOffscreenDocument(env);
      if ensured.Threw? {
        return Threw(ensured.error);
      }
      trace := trace + [RequestClipboard];
      var read := ClipboardOutcome(env.clipboard);
      ghost var close := CloseSpec(Flags(), env);
      var closed := CloseOffscreenDocumentSafe(env);
      r := if closed.Threw? then Threw(closed.error) else read;
      Regroup(old(trace), ensure.events, [RequestClipboard]);
      Regroup(old(trace), ensure.events + [RequestClipboard], close.events);
    }

    /** `setBadge`, answered by `call`. */
    method SetBadge(badge: BadgeConfig, call: Completion) returns (r: Outcome<()>)
      modifies this
      ensures r == (if call.Failed? then Threw(call.error) else Ok(()))
      ensures Flags() == old(Flags()) && trace == old(trace) + [Swap.SetBadge(badge)]
    {
      trace := trace + [Swap.SetBadge(badge)];
      r := if call.Failed? then Threw(call.error) else Ok(());
    }

    /** Set the badge, then answer `response` unless the badge call throws. */
    method Report(badge: BadgeConfig, call: Completion, response: SwapResponse) returns (r: Outcome<SwapResponse>)
      modifies this
      ensures var s := Finish(old(Flags()), old(trace), badge, call, response);
              r == s.result && Flags() == s.flags && trace == s.events
    {
      var badgeSet := SetBadge(badge, call);
      r := if badgeSet.Threw? then Threw(badgeSet.error) else Ok(response);
    }

    /** `swapIdentityOnActiveTab`. */
    method SwapIdentityOnActiveTab(env: Env, config: Config) returns (r: Outcome<SwapResponse>)
      modifies this
      ensures var s := SwapIdentitySpec(old(Flags()), env, config);
              r == s.result && Flags() == s.flags && trace == old(trace) + s.events
    {
      trace := trace + [QueryActiveTab];
      match env.activeTab {
        case Threw(e) =>
          r := Threw(e);
        case Ok(tab) =>
          if TabMissing(tab) {
            r := Report(BadgeErr, env.badge, SwapFailed(NoActiveTab));
          } else if !Allowlist.IsAllowedUrl(env.parsedTabUrl, config.allowlist) {
            r := Report(BadgeNo, env.badge, SwapFailed(NotAllowlisted));
          } else {
            r := AfterAllowlist(env, config, tab.value.id.value);
            Regroup(old(trace), [QueryActiveTab], ClipboardStage(old(Flags()), env, config, tab.value.id.value).events);
          }
      }
    }

    /**
     * The swap once the tab's URL passed the allowlist: read the clipboard
     * here, then hand a token to the cookie and injection steps.
     */
    method AfterAllowlist(env: Env, config: Config, tabId: int) returns (r: Outcome<SwapResponse>)
      requires env.parsedTabUrl.Some?
      modifies this
      ensures var s := ClipboardStage(old(Flags()), env, config, tabId);
              r == s.result && Flags() == s.flags && trace == old(trace) + s.events
    {
      ghost var read := ReadClipboardSpec(Flags(), env);
      var text := ReadClipboardText(env);
      if text.Threw? {
        ClipboardStageOnFailure(old(Flags()), env, config, tabId);
        return Threw(text.error);
      }
      var token := Trim(text.value);
      if token == [] {
        ClipboardStageOnBlank(old(Flags()), env, config, tabId);
        r := Report(BadgeErr, env.badge, SwapFailed(ClipboardIsEmpty));
        Regroup(old(trace), read.events, [Swap.SetBadge(BadgeErr)]);
        return;
      }
      ClipboardStageOnToken(old(Flags()), env, config, tabId);
      ghost var before := Flags();
      r := UseToken(env, config, tabId, token);
      Regroup(old(trace), read.events, TokenStage(before, env, config, tabId, token).events);
    }

    /**
     * The swap once it has a token: clear the auth cookies, inject the
     * token, and report on the badge. None of it touches the flags.
     */
    method UseToken(env: Env, config: Config, tabId: int, token: string) returns (r: Outcome<SwapResponse>)
      requires env.parsedTabUrl.Some?
      modifies this
      ensures var s := TokenStage(old(Flags()), env, config, tabId, token);
              r == s.result && Flags() == s.flags && trace == old(trace) + s.events
    {
      var (cleared, removals) := Swap.ClearAuthCookies(env.parsedTabUrl.value, env, config.cookieName);
      trace := trace + removals;
      var (injected, injection) := InjectSpec(tabId, token, env, config);
      trace := trace + injection;
      Regroup(old(trace), removals, injection);
      if injected.Threw? {
        return Threw(injected.error);
      }
      r := Report(if cleared then BadgeOk else BadgeWarn, env.badge,
                  Swapped(if cleared then None else Some(CookieWarning)));
    }

    /** `runSwap`. */
    method RunSwap(env: Env, config: Config) returns (r: Outcome<SwapResponse>)
      modifies this
      ensures var s := RunSwapSpec(old(Flags()), env, config);
              r == s.result && Flags() == s.flags && trace == old(trace) + s.events
    {
      if swapInProgress {
        return Ok(SwapFailed(SwapAlreadyInProgress));
      }
      swapInProgress := true;
      var swapped := SwapIdentityOnActiveTab(env, config);
      if swapped.Threw? {
        var badgeSet := SetBadge(BadgeErr, env.catchBadge);
        r := if badgeSet.Threw? then Threw(badgeSet.error) else Ok(SwapFailed(AsErrorMessage(swapped.error, SwapFailedFallback)));
      } else {
        r := swapped;
      }
      swapInProgress := false;
    }
  }
}
