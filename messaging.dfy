/** The messages exchanged between the background worker, the clipboard helper and the popup. */
module Messaging {
  import opened Wrappers

  /** The helper document's answer to a clipboard read: `{ok: true, text} | {ok: false, error}`. */
  datatype ClipboardResponse =
    | ClipboardText(text: string)
    | ClipboardError(error: string)

  /** The answer to a swap request: `{ok: true, warning?} | {ok: false, error}`. */
  datatype SwapResponse =
    | Swapped(warning: Option<string>)
    | SwapFailed(error: string)
}
