/** The Ctrl-shortcut rule of the `useKeyboardShortcuts` hook, as a function
    of one key-down event. Which element has the focus and whether the event's
    target is that element are inputs here; registering the listener is not
    modelled. */
module KeyboardShortcuts {
  import opened Options
  import opened Strings

  /** The four callbacks a shortcut can run. */
  datatype Action = Refresh | PngDownload | SvgDownload | ClipboardCopy

  /** What the handler sees of a key-down event. `inputFocused` is whether the
      focused element is a TEXTAREA or an INPUT; `targetIsActive` is whether
      the event's target is the focused element. */
  datatype KeyEvent = KeyEvent(ctrlKey: bool, key: string, inputFocused: bool, targetIsActive: bool)

  /** Which of the optional callbacks the component passed in. */
  datatype Handlers = Handlers(onRefresh: bool, onPngDownload: bool, onSvgDownload: bool, onClipboardCopy: bool)

  /** What handling an event does: whether the browser's default action is
      prevented, and which callback, if any, runs. */
  datatype Outcome = Outcome(preventDefault: bool, invoked: Option<Action>)

  function Provided(h: Handlers, a: Action): bool {
    match a
    case Refresh => h.onRefresh
    case PngDownload => h.onPngDownload
    case SvgDownload => h.onSvgDownload
    case ClipboardCopy => h.onClipboardCopy
  }

  /** The shortcut an event selects, before looking at which callbacks exist. */
  function Shortcut(e: KeyEvent): Option<Action> {
    if !e.ctrlKey then None
    else
      var key := ToLowerAscii(e.key);
      if key == "enter" then Some(Refresh)
      else if key == "s" then (if e.inputFocused then None else Some(PngDownload))
      else if key == "d" then (if e.inputFocused then None else Some(SvgDownload))
      else if key == "c" then (if e.inputFocused || e.targetIsActive then None else Some(ClipboardCopy))
      else None
  }

  /** `handleKeyDown`: the default is prevented whenever a shortcut is selected,
      and its callback runs only if it was passed in. */
  function HandleKeyDown(e: KeyEvent, h: Handlers): (r: Outcome)
    ensures !e.ctrlKey ==> r == Outcome(false, None)
    ensures r.invoked.Some? ==> r.preventDefault && Provided(h, r.invoked.value)
    ensures e.ctrlKey && ToLowerAscii(e.key) == "enter" ==>
      r.preventDefault && r.invoked == (if h.onRefresh then Some(Refresh) else None)
    ensures e.ctrlKey && ToLowerAscii(e.key) == "s" ==>
      (r.preventDefault <==> !e.inputFocused) &&
      r.invoked == (if !e.inputFocused && h.onPngDownload then Some(PngDownload) else None)
    ensures e.ctrlKey && ToLowerAscii(e.key) == "d" ==>
      (r.preventDefault <==> !e.inputFocused) &&
      r.invoked == (if !e.inputFocused && h.onSvgDownload then Some(SvgDownload) else None)
    ensures e.ctrlKey && ToLowerAscii(e.key) == "c" ==>
      (r.preventDefault <==> !e.inputFocused && !e.targetIsActive) &&
      r.invoked == (if !e.inputFocused && !e.targetIsActive && h.onClipboardCopy then Some(ClipboardCopy) else None)
    ensures ToLowerAscii(e.key) !in {"enter", "s", "d", "c"} ==> r == Outcome(false, None)
  {
    match Shortcut(e)
    case None => Outcome(false, None)
    case Some(a) => Outcome(true, if Provided(h, a) then Some(a) else None)
  }

  /** Keys are matched without regard to ASCII case: an event behaves as the
      same event with its key lower-cased. */
  lemma CaseInsensitive(e: KeyEvent, h: Handlers)
    ensures HandleKeyDown(e, h) == HandleKeyDown(e.(key := ToLowerAscii(e.key)), h)
  {
    ToLowerAsciiIdempotent(e.key);
  }
}
