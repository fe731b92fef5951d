/**
  The session state of the content script and how each event changes it.

  The module-level globals `popup`, `currentWord`, `activeFetchController`,
  `isEnabled` and `selectionTimeoutId` form a State. Popup elements, abort
  controllers and timers are named by ids drawn from one counter. Every
  handler, and every continuation of `showPopup` after an `await`, is a
  function from the state before to the state after; a continuation names
  the controller it captured, so continuations may arrive in any order.
 */
module Controller {
  import opened Wrappers
  import WordNormalizer
  import Placement
  import Lookup

  // ---------------------------------------------------------------------------
  // State
  // ---------------------------------------------------------------------------

  /** A pending `setTimeout` of the mouseup handler and the pointer it captured. */
  datatype Timer = Timer(id: nat, x: int, y: int)

  /** What the popup's body shows. */
  datatype View = Loading | Defined(fields: Lookup.Rendered) | Failed(message: string)

  /** The popup element: its id, the id of the controller created with it, the
      word in its title, where it was placed and what its body shows. */
  datatype Popup = Popup(id: nat, controller: nat, word: string,
                         at: Placement.Position, view: View)

  /** What the page measures when the popup is placed: the popup's offset size
      and the window's inner size. */
  datatype Layout = Layout(offsetWidth: nat, offsetHeight: nat, innerWidth: int, innerHeight: int)

  /** `popup`, `currentWord`, `activeFetchController`, `isEnabled` and
      `selectionTimeoutId`, the next fresh id, and the ids of the popup
      elements attached to the document. */
  datatype State = State(popup: Option<Popup>, currentWord: string, active: Option<nat>,
                         enabled: bool, timer: Option<Timer>, nextId: nat, attached: set<nat>)

  /** The state when the script starts. */
  function Init(): State {
    State(None, [], None, true, None, 0, {})
  }

  /** The ids of the element `popup` refers to. */
  function PopupIds(p: Option<Popup>): set<nat> {
    if p.Some? then {p.value.id} else {}
  }

  /** The invariant the handlers keep: at most one popup element is attached and
      it is the one `popup` refers to; an active controller belongs to that popup,
      which is still loading; the popup's word is `currentWord` and is a lookup
      token; every id in use was drawn from the counter. */
  predicate Valid(s: State) {
    && s.attached == PopupIds(s.popup)
    && (s.active.Some? ==>
          s.popup.Some? && s.active.value == s.popup.value.controller && s.popup.value.view == Loading)
    && (s.popup.Some? ==>
          && s.currentWord == s.popup.value.word
          && WordNormalizer.IsToken(s.popup.value.word)
          && s.popup.value.id < s.nextId && s.popup.value.controller < s.nextId)
    && (s.popup.None? ==> s.currentWord == [])
    && (s.timer.Some? ==> s.timer.value.id < s.nextId)
  }

  // ---------------------------------------------------------------------------
  // Teardown and creation
  // ---------------------------------------------------------------------------

  /** `r` is what `removePopup` leaves of `s`: no pending timer, no popup (its
      element detached), no word, no active controller; the enabled flag and
      the id counter are kept. */
  predicate TornDown(s: State, r: State) {
    && r.popup.None? && r.active.None? && r.timer.None? && r.currentWord == []
    && r.attached == s.attached - PopupIds(s.popup)
    && r.enabled == s.enabled && r.nextId == s.nextId
  }

  /** `removePopup`: cancels the pending timer, detaches the popup, forgets the
      word and aborts the active controller; nothing else changes. */
  function RemovePopup(s: State): (r: State)
    ensures TornDown(s, r)
  {
    var t := if s.timer.Some? then s.(timer := None) else s;
    var u := if t.popup.Some? then t.(attached := t.attached - {t.popup.value.id}, popup := None) else t;
    var v := u.(currentWord := []);
    if v.active.Some? then v.(active := None) else v
  }

  /** `showPopup` up to its first `await`. It does nothing when disabled or when
      the word is already shown; otherwise it tears the old session down, then
      installs one new popup for the word and one new controller, both fresh. */
  function ShowPopup(s: State, word: string, x: int, y: int, layout: Layout): (r: State)
    ensures !s.enabled || (word == s.currentWord && s.popup.Some?) ==> r == s
    ensures s.enabled && !(word == s.currentWord && s.popup.Some?) ==>
              && r.popup.Some? && r.popup.value.word == word && r.currentWord == word
              && r.popup.value.view == Loading
              && r.popup.value.id >= s.nextId && r.popup.value.controller >= s.nextId
              && r.popup.value.id != r.popup.value.controller
              && r.active == Some(r.popup.value.controller)
              && r.popup.value.at == Placement.Place(x, y, layout.offsetWidth, layout.offsetHeight,
                                                     layout.innerWidth, layout.innerHeight)
              && r.attached == s.attached - PopupIds(s.popup) + {r.popup.value.id}
              && r.timer.None? && r.enabled && r.nextId > s.nextId
  {
    if !s.enabled || (word == s.currentWord && s.popup.Some?) then s
    else
      var t := RemovePopup(s).(currentWord := word);
      var at := Placement.Place(x, y, layout.offsetWidth, layout.offsetHeight,
                                layout.innerWidth, layout.innerHeight);
      var u := t.(popup := Some(Popup(t.nextId, t.nextId + 1, word, at, Loading)),
                  attached := t.attached + {t.nextId});
      u.(active := Some(t.nextId + 1), nextId := t.nextId + 2)
  }

  // ---------------------------------------------------------------------------
  // Continuations of showPopup
  // ---------------------------------------------------------------------------

  /** `r` is `s` after a continuation settled: the popup's body shows `view` and
      the active controller is cleared; nothing else changes. */
  predicate Settled(s: State, r: State, view: View) {
    && r.active.None?
    && r.popup == (if s.popup.Some? then Some(s.popup.value.(view := view)) else None)
    && r.(popup := s.popup, active := s.active) == s
  }

  /** `finally`: clears the active controller only if it is the caller's own. */
  function Finally(s: State, c: nat): (r: State)
    ensures s.active == Some(c) ==> r == s.(active := None)
    ensures s.active != Some(c) ==> r == s
  {
    if s.active == Some(c) then s.(active := None) else s
  }

  /** Writes the popup's body (the elements the continuation captured). */
  function Render(s: State, view: View): (r: State)
    ensures r.popup.Some? <==> s.popup.Some?
    ensures r.popup.Some? ==> r.popup.value == s.popup.value.(view := view)
    ensures r.(popup := s.popup) == s
  {
    if s.popup.Some? then s.(popup := Some(s.popup.value.(view := view))) else s
  }

  /** The error branch of `catch` once the guards have passed: shows the message
      for the error, then `finally`. */
  function ShowError(s: State, c: nat, err: Lookup.Thrown): (r: State)
    ensures s.active == Some(c) ==> Settled(s, r, Failed(Lookup.UserMessage(err)))
  {
    Finally(Render(s, Failed(Lookup.UserMessage(err))), c)
  }

  /** `fetch` resolved with a response whose status is `status`. A stale caller
      stops; a failing status is thrown and shown; an ok status goes on to
      `res.json()` and leaves the state as it is. */
  function FetchResolved(s: State, c: nat, status: nat): (r: State)
    ensures s.active != Some(c) || Lookup.IsOk(status) ==> r == s
    ensures s.active == Some(c) && !Lookup.IsOk(status) ==>
              Settled(s, r, Failed(Lookup.UserMessage(Lookup.Raised(Lookup.StatusError(status)))))
  {
    if s.active != Some(c) then Finally(s, c)
    else if Lookup.IsOk(status) then s
    else ShowError(s, c, Lookup.Raised(Lookup.StatusError(status)))
  }

  /** `res.json()` resolved with `body`. A stale caller stops; otherwise the
      definition is shown, or the error Extract reports. */
  function BodyParsed(s: State, c: nat, body: Lookup.Body): (r: State)
    ensures s.active != Some(c) ==> r == s
    ensures s.active == Some(c) && Lookup.Extract(body).Success? ==>
              Settled(s, r, Defined(Lookup.Extract(body).value))
    ensures s.active == Some(c) && Lookup.Extract(body).Failure? ==>
              Settled(s, r, Failed(Lookup.FallbackText))
  {
    if s.active != Some(c) then Finally(s, c)
    else
      match Lookup.Extract(body)
      case Success(fields) => Finally(Render(s, Defined(fields)), c)
      case Failure(message) =>
        Lookup.ExtractFailureIsFallback(body);
        ShowError(s, c, Lookup.Raised(message))
  }

  const ContextInvalidatedText := "Extension context invalidated"

  /** `isContextInvalidatedError`. */
  predicate ContextInvalidated(err: Lookup.Thrown) {
    Lookup.Contains(Lookup.ErrorText(err), ContextInvalidatedText)
  }

  /** `fetch` or `res.json()` rejected with `err`. An abort, a stale caller or an
      invalidated context shows nothing; every other error is shown. */
  function Rejected(s: State, c: nat, err: Lookup.Thrown): (r: State)
    ensures s.active != Some(c) ==> r == s
    ensures err.name == "AbortError" ==> r == Finally(s, c)
    ensures s.active == Some(c) && ContextInvalidated(err) ==> r == s.(active := None)
    ensures s.active == Some(c) && err.name != "AbortError" && !ContextInvalidated(err) ==>
              Settled(s, r, Failed(Lookup.UserMessage(err)))
  {
    if err.name == "AbortError" || s.active != Some(c) then Finally(s, c)
    else if ContextInvalidated(err) then Finally(s, c)
    else ShowError(s, c, err)
  }

  // ---------------------------------------------------------------------------
  // Page handlers
  // ---------------------------------------------------------------------------

  /** The mouseup handler. A release inside the popup is ignored; when disabled
      the popup goes; otherwise the pending timer is replaced by a new one that
      remembers the pointer. */
  function MouseUp(s: State, inPopup: bool, x: int, y: int): (r: State)
    ensures s.popup.Some? && inPopup ==> r == s
    ensures !(s.popup.Some? && inPopup) && !s.enabled ==> r == RemovePopup(s)
    ensures !(s.popup.Some? && inPopup) && s.enabled ==>
              r == s.(timer := Some(Timer(s.nextId, x, y)), nextId := s.nextId + 1)
  {
    if s.popup.Some? && inPopup then s
    else if !s.enabled then RemovePopup(s)
    else s.(timer := Some(Timer(s.nextId, x, y)), nextId := s.nextId + 1)
  }

  /** The pending timer fires with `selection` the text of the selection (empty
      when it is collapsed or absent). Without a token the popup goes; with one
      it is shown at the pointer the timer remembered. */
  function TimerFired(s: State, selection: string, layout: Layout): (r: State)
    ensures s.timer.None? ==> r == s
    ensures s.timer.Some? ==> r.timer.None? && r.enabled == s.enabled
    ensures s.timer.Some? && WordNormalizer.Normalize(selection) == [] ==>
              TornDown(s.(timer := None), r)
    ensures var w := WordNormalizer.Normalize(selection);
            s.timer.Some? && w != [] && (!s.enabled || (w == s.currentWord && s.popup.Some?)) ==>
              r == s.(timer := None)
    ensures var w := WordNormalizer.Normalize(selection);
            s.timer.Some? && w != [] && s.enabled && !(w == s.currentWord && s.popup.Some?) ==>
              && r.popup.Some? && r.popup.value.word == w && r.currentWord == w
              && r.popup.value.view == Loading
              && r.active == Some(r.popup.value.controller)
              && r.popup.value.id >= s.nextId && r.popup.value.controller >= s.nextId
              && r.popup.value.id != r.popup.value.controller
              && r.popup.value.at == Placement.Place(s.timer.value.x, s.timer.value.y,
                                                     layout.offsetWidth, layout.offsetHeight,
                                                     layout.innerWidth, layout.innerHeight)
              && r.attached == s.attached - PopupIds(s.popup) + {r.popup.value.id}
              && r.nextId > s.nextId
  {
    if s.timer.None? then s
    else
      var tm := s.timer.value;
      var t := s.(timer := None);
      var word := WordNormalizer.Normalize(selection);
      if word == [] then RemovePopup(t) else ShowPopup(t, word, tm.x, tm.y, layout)
  }

  /** The keydown handler: Escape closes the popup. */
  function KeyDown(s: State, key: string): (r: State)
    ensures key == "Escape" ==> TornDown(s, r)
    ensures key != "Escape" ==> r == s
  {
    if key == "Escape" then RemovePopup(s) else s
  }

  /** The mousedown handler: a press outside the popup closes it. */
  function MouseDown(s: State, inPopup: bool): (r: State)
    ensures s.popup.Some? && !inPopup ==> TornDown(s, r)
    ensures s.popup.None? || inPopup ==> r == s
  {
    if s.popup.Some? && !inPopup then RemovePopup(s) else s
  }

  /** The popup's close button. */
  function CloseClicked(s: State): (r: State)
    ensures s.popup.Some? ==> TornDown(s, r)
    ensures s.popup.None? ==> r == s
  {
    if s.popup.Some? then RemovePopup(s) else s
  }

  /** The visibilitychange handler: hiding the page closes the popup. */
  function VisibilityChanged(s: State, hidden: bool): (r: State)
    ensures hidden ==> TornDown(s, r)
    ensures !hidden ==> r == s
  {
    if hidden then RemovePopup(s) else s
  }

  /** The answer to the initial `chrome.storage.local.get('enabled')`: a missing
      value reads as enabled; only the flag changes, and an open popup stays. */
  function StorageLoaded(s: State, enabled: Option<bool>): (r: State)
    ensures r.enabled == enabled.GetOr(true) && r.(enabled := s.enabled) == s
  {
    s.(enabled := enabled.GetOr(true))
  }

  /** `chrome.storage.onChanged` for the key 'enabled' in the local area; a removed
      key reads as enabled, and disabling closes the popup. */
  function EnabledChanged(s: State, newValue: Option<bool>): (r: State)
    ensures r.enabled == newValue.GetOr(true)
  {
    var t := s.(enabled := newValue.GetOr(true));
    if !t.enabled then RemovePopup(t) else t
  }

  // ---------------------------------------------------------------------------
  // Events and traces
  // ---------------------------------------------------------------------------

  datatype Event =
    | MouseUpEvent(inPopup: bool, x: int, y: int)
    | TimerFiredEvent(selection: string, layout: Layout)
    | FetchResolvedEvent(controller: nat, status: nat)
    | BodyParsedEvent(controller: nat, body: Lookup.Body)
    | RejectedEvent(controller: nat, err: Lookup.Thrown)
    | KeyDownEvent(key: string)
    | MouseDownEvent(inPopup: bool)
    | CloseClickedEvent
    | PopStateEvent
    | VisibilityChangedEvent(hidden: bool)
    | StorageLoadedEvent(enabled: Option<bool>)
    | EnabledChangedEvent(newValue: Option<bool>)
  {
    /** A continuation of `showPopup` for controller `c`. */
    predicate ContinuationOf(c: nat) {
      (FetchResolvedEvent? || BodyParsedEvent? || RejectedEvent?) && controller == c
    }
  }

  function Step(s: State, e: Event): State {
    match e
    case MouseUpEvent(inPopup, x, y) => MouseUp(s, inPopup, x, y)
    case TimerFiredEvent(selection, layout) => TimerFired(s, selection, layout)
    case FetchResolvedEvent(c, status) => FetchResolved(s, c, status)
    case BodyParsedEvent(c, body) => BodyParsed(s, c, body)
    case RejectedEvent(c, err) => Rejected(s, c, err)
    case KeyDownEvent(key) => KeyDown(s, key)
    case MouseDownEvent(inPopup) => MouseDown(s, inPopup)
    case CloseClickedEvent => CloseClicked(s)
    case PopStateEvent => RemovePopup(s)
    case VisibilityChangedEvent(hidden) => VisibilityChanged(s, hidden)
    case StorageLoadedEvent(enabled) => StorageLoaded(s, enabled)
    case EnabledChangedEvent(newValue) => EnabledChanged(s, newValue)
  }

  function Run(s: State, events: seq<Event>): State
    decreases |events|
  {
    if events == [] then s else Run(Step(s, events[0]), events[1..])
  }

  // ---------------------------------------------------------------------------
  // The invariant
  // ---------------------------------------------------------------------------

  lemma InitValid()
    ensures Valid(Init())
  {
  }

  /** Under the invariant the document holds at most one popup, and an active
      controller implies a popup. */
  lemma AtMostOnePopup(s: State)
    requires Valid(s)
    ensures |s.attached| <= 1
    ensures s.active.Some? ==> s.popup.Some? && s.attached == {s.popup.value.id}
  {
  }

  lemma RemovePopupValid(s: State)
    requires Valid(s)
    ensures Valid(RemovePopup(s))
  {
  }

  /** A second `removePopup` in a row changes nothing. */
  lemma RemovePopupIdempotent(s: State)
    ensures RemovePopup(RemovePopup(s)) == RemovePopup(s)
  {
  }

  lemma ShowPopupValid(s: State, word: string, x: int, y: int, layout: Layout)
    requires Valid(s) && WordNormalizer.IsToken(word)
    ensures Valid(ShowPopup(s, word, x, y, layout))
  {
    if s.enabled && !(word == s.currentWord && s.popup.Some?) {
      RemovePopupValid(s);
    }
  }

  /** A continuation that passed its guards renders and then clears its own
      controller, which leaves a valid state. */
  lemma SettleValid(s: State, c: nat, view: View)
    requires Valid(s) && s.active == Some(c)
    ensures Valid(Finally(Render(s, view), c))
  {
  }

  lemma FinallyValid(s: State, c: nat)
    requires Valid(s)
    ensures Valid(Finally(s, c))
  {
  }

  lemma TimerFiredValid(s: State, selection: string, layout: Layout)
    requires Valid(s)
    ensures Valid(TimerFired(s, selection, layout))
  {
    if s.timer.Some? {
      var t := s.(timer := None);
      var word := WordNormalizer.Normalize(selection);
      if word == [] {
        RemovePopupValid(t);
      } else {
        ShowPopupValid(t, word, s.timer.value.x, s.timer.value.y, layout);
      }
    }
  }

  lemma ContinuationValid(s: State, e: Event)
    requires Valid(s)
    requires e.FetchResolvedEvent? || e.BodyParsedEvent? || e.RejectedEvent?
    ensures Valid(Step(s, e))
  {
    var c := e.controller;
    FinallyValid(s, c);
    if s.active == Some(c) {
      match e
      case FetchResolvedEvent(_, status) =>
        SettleValid(s, c, Failed(Lookup.UserMessage(Lookup.Raised(Lookup.StatusError(status)))));
      case BodyParsedEvent(_, body) =>
        match Lookup.Extract(body) {
          case Success(fields) => SettleValid(s, c, Defined(fields));
          case Failure(message) => SettleValid(s, c, Failed(Lookup.UserMessage(Lookup.Raised(message))));
        }
      case RejectedEvent(_, err) =>
        SettleValid(s, c, Failed(Lookup.UserMessage(err)));
    }
  }

  /** Every event keeps the invariant. */
  lemma StepPreservesValid(s: State, e: Event)
    requires Valid(s)
    ensures Valid(Step(s, e))
  {
    match e
    case MouseUpEvent(_, _, _) => RemovePopupValid(s);
    case TimerFiredEvent(selection, layout) => TimerFiredValid(s, selection, layout);
    case FetchResolvedEvent(_, _) => ContinuationValid(s, e);
    case BodyParsedEvent(_, _) => ContinuationValid(s, e);
    case RejectedEvent(_, _) => ContinuationValid(s, e);
    case EnabledChangedEvent(v) => RemovePopupValid(s.(enabled := v.GetOr(true)));
    case _ => RemovePopupValid(s);
  }

  /** Every trace from a valid state, in particular from the initial state, keeps the invariant. */
  lemma {:induction false} RunPreservesValid(s: State, events: seq<Event>)
    requires Valid(s)
    ensures Valid(Run(s, events))
    decreases |events|
  {
    if events != [] {
      StepPreservesValid(s, events[0]);
      RunPreservesValid(Step(s, events[0]), events[1..]);
    }
  }

  // ---------------------------------------------------------------------------
  // Stale continuations
  // ---------------------------------------------------------------------------

  /** A continuation whose controller is not the active one changes nothing,
      `finally` included. */
  lemma StaleContinuationInert(s: State, e: Event, c: nat)
    requires e.ContinuationOf(c) && s.active != Some(c)
    ensures Step(s, e) == s
  {
  }

  /** Ids only grow, and a step keeps the active controller, clears it, or
      installs one drawn fresh from the counter. */
  lemma StepActive(s: State, e: Event)
    ensures Step(s, e).nextId >= s.nextId
    ensures var a := Step(s, e).active;
            a == s.active || a.None? || (a.Some? && a.value >= s.nextId)
  {
    if e.TimerFiredEvent? && s.timer.Some? {
      var word := WordNormalizer.Normalize(e.selection);
      if word != [] {
        ShowActive(s.(timer := None), word, s.timer.value.x, s.timer.value.y, e.layout);
      }
    }
  }

  lemma ShowActive(s: State, word: string, x: int, y: int, layout: Layout)
    ensures var r := ShowPopup(s, word, x, y, layout);
            r.nextId >= s.nextId && (r.active == s.active || (r.active.Some? && r.active.value >= s.nextId))
  {
  }

  /** A controller that has been superseded or cleared is never active again,
      whatever happens afterwards. */
  lemma {:induction false} StaleNeverReactivated(s: State, events: seq<Event>, c: nat)
    requires c < s.nextId && s.active != Some(c)
    ensures Run(s, events).active != Some(c)
    ensures Run(s, events).nextId >= s.nextId
    decreases |events|
  {
    if events != [] {
      StepActive(s, events[0]);
      StaleNeverReactivated(Step(s, events[0]), events[1..], c);
    }
  }

  /** So every late continuation of such a controller, after any trace, is inert. */
  lemma LateContinuationInert(s: State, events: seq<Event>, c: nat, e: Event)
    requires c < s.nextId && s.active != Some(c) && e.ContinuationOf(c)
    ensures Step(Run(s, events), e) == Run(s, events)
  {
    StaleNeverReactivated(s, events, c);
  }

  /** Starting a new lookup makes the previous controller stale. */
  lemma NewLookupSupersedes(s: State, word: string, x: int, y: int, layout: Layout)
    requires Valid(s) && s.active.Some?
    requires s.enabled && word != s.currentWord
    ensures var r := ShowPopup(s, word, x, y, layout);
            r.active.Some? && r.active != s.active && s.active.value < r.nextId
  {
  }

  // ---------------------------------------------------------------------------
  // What a current lookup shows
  // ---------------------------------------------------------------------------

  /** A 404 for the current lookup shows the not-found message and clears its
      controller; nothing else changes. */
  lemma NotFoundShown(s: State, c: nat)
    requires s.active == Some(c)
    ensures Settled(s, FetchResolved(s, c, 404), Failed(Lookup.NotFoundText))
  {
    Lookup.Status404IsNotFound();
  }

  /** Any other failing status shows the connect message and clears the controller. */
  lemma FailingStatusShown(s: State, c: nat, status: nat)
    requires s.active == Some(c) && 300 <= status <= 599 && status != 404
    ensures Settled(s, FetchResolved(s, c, status), Failed(Lookup.ConnectText))
  {
    Lookup.OtherStatusIsConnect(status);
  }

  /** A failed `fetch` shows the connect message and clears the controller. */
  lemma NetworkFailureShown(s: State, c: nat)
    requires s.active == Some(c)
    ensures Settled(s, Rejected(s, c, Lookup.Thrown("TypeError", "Failed to fetch")),
                    Failed(Lookup.ConnectText))
  {
    Lookup.NetworkFailureIsConnect();
    NetworkFailureIsNotInvalidation();
  }

  lemma NetworkFailureIsNotInvalidation()
    ensures !ContextInvalidated(Lookup.Thrown("TypeError", "Failed to fetch"))
  {
    assert Lookup.ErrorText(Lookup.Thrown("TypeError", "Failed to fetch")) == "Failed to fetch";
    assert ContextInvalidatedText[0] == 'E';
    Lookup.AbsentByChar("Failed to fetch", ContextInvalidatedText, 0);
  }

  // ---------------------------------------------------------------------------
  // Dismissing the popup
  // ---------------------------------------------------------------------------

  /** The page events that close the popup: Escape, a press outside the open
      popup, its close button, navigating through history, and hiding the page. */
  predicate Dismisses(s: State, e: Event) {
    || e == KeyDownEvent("Escape")
    || (e == MouseDownEvent(false) && s.popup.Some?)
    || (e.CloseClickedEvent? && s.popup.Some?)
    || e.PopStateEvent?
    || e == VisibilityChangedEvent(true)
  }

  /** Each of them leaves no popup, controller, timer or word. */
  lemma DismissalTearsDown(s: State, e: Event)
    requires Dismisses(s, e)
    ensures TornDown(s, Step(s, e))
  {
  }

  /** Dismissing the popup while it loads makes every later continuation of its
      lookup inert, whatever happens in between. */
  lemma DismissedLookupInert(s: State, d: Event, events: seq<Event>, c: nat, e: Event)
    requires Valid(s) && s.active == Some(c) && Dismisses(s, d) && e.ContinuationOf(c)
    ensures Step(Run(Step(s, d), events), e) == Run(Step(s, d), events)
  {
    DismissalTearsDown(s, d);
    LateContinuationInert(Step(s, d), events, c, e);
  }

  // ---------------------------------------------------------------------------
  // Enabling and disabling
  // ---------------------------------------------------------------------------

  /** Turning WordPeek off closes everything. */
  lemma DisableTearsDown(s: State)
    ensures var r := EnabledChanged(s, Some(false));
            !r.enabled && r.popup.None? && r.active.None? && r.timer.None? && r.currentWord == []
  {
  }

  /** Turning it on opens nothing. */
  lemma EnableOpensNothing(s: State, newValue: Option<bool>)
    requires newValue.GetOr(true)
    ensures EnabledChanged(s, newValue) == s.(enabled := true)
  {
  }

  /** While disabled and closed, no event other than a storage event opens a popup. */
  lemma DisabledStaysClosed(s: State, e: Event)
    requires !s.enabled && s.popup.None?
    requires !e.StorageLoadedEvent? && !e.EnabledChangedEvent?
    ensures Step(s, e).popup.None? && !Step(s, e).enabled
  {
  }

  // ---------------------------------------------------------------------------
  // A session
  // ---------------------------------------------------------------------------

  /** Selecting "Hello" near the right edge of a 1000 x 800 window: after the
      timer the popup for "hello" is loading at (635, 65) with controller 2;
      a 404 answer then shows the not-found message and clears the controller. */
  lemma ExampleSession()
    ensures var s1 := Step(Init(), MouseUpEvent(false, 950, 50));
            var s2 := Step(s1, TimerFiredEvent("Hello", Layout(300, 180, 1000, 800)));
            var s3 := Step(s2, FetchResolvedEvent(2, 404));
            && s2 == SessionLoading()
            && s3 == SessionLoading().(popup := Some(HelloPopup(Failed(Lookup.NotFoundText))),
                                       active := None)
  {
    SessionStarts();
    SessionFails();
  }

  /** The popup for "hello" as placed in the session above. */
  function HelloPopup(view: View): Popup {
    Popup(1, 2, "hello", Placement.Position(635, 65), view)
  }

  function SessionLoading(): State {
    State(Some(HelloPopup(Loading)), "hello", Some(2), true, None, 3, {1})
  }

  lemma SessionStarts()
    ensures Step(Step(Init(), MouseUpEvent(false, 950, 50)),
                 TimerFiredEvent("Hello", Layout(300, 180, 1000, 800))) == SessionLoading()
  {
    SessionPointer();
    SessionTimer();
  }

  /** The state once the mouseup of that session has set its timer. */
  function SessionPending(): State {
    Init().(timer := Some(Timer(0, 950, 50)), nextId := 1)
  }

  lemma SessionPointer()
    ensures Step(Init(), MouseUpEvent(false, 950, 50)) == SessionPending()
  {
  }

  lemma SessionTimer()
    ensures TimerFired(SessionPending(), "Hello", Layout(300, 180, 1000, 800)) == SessionLoading()
  {
    SessionLooksUpHello();
    SessionShowsHello();
  }

  lemma SessionLooksUpHello()
    ensures TimerFired(SessionPending(), "Hello", Layout(300, 180, 1000, 800))
         == ShowPopup(Init().(nextId := 1), "hello", 950, 50, Layout(300, 180, 1000, 800))
  {
    HelloIsLookedUp();
  }

  lemma SessionShowsHello()
    ensures ShowPopup(Init().(nextId := 1), "hello", 950, 50, Layout(300, 180, 1000, 800))
         == SessionLoading()
  {
    Placement.ExampleNearRightEdge();
  }

  lemma SessionFails()
    ensures Step(SessionLoading(), FetchResolvedEvent(2, 404))
         == SessionLoading().(popup := Some(HelloPopup(Failed(Lookup.NotFoundText))), active := None)
  {
    Lookup.Status404IsNotFound();
  }

  lemma HelloIsLookedUp()
    ensures WordNormalizer.Normalize("Hello") == "hello"
  {
    LowerHello();
    WordNormalizer.SingleWordIsLowered("Hello");
  }

  lemma LowerHello()
    ensures WordNormalizer.Lower("Hello") == "hello"
  {
  }
}
