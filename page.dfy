/**
  The content script as it runs on a page: its module-level globals are the
  fields of one object, and each event handler (and each continuation of
  `showPopup`) is a method that updates them step by step. Every method is
  proved to leave the fields exactly as the matching Controller function
  says. Every method that runs a whole handler or continuation also keeps
  Controller.Valid; `Render` and `Finally` are steps inside a continuation,
  between which the invariant is briefly broken, so they do not promise it.
 */
module Page {
  import opened Wrappers
  import WordNormalizer
  import Placement
  import Lookup
  import Controller

  class ContentScript {
    var popup: Option<Controller.Popup>
    var currentWord: string
    var activeFetchController: Option<nat>
    var isEnabled: bool
    var selectionTimeoutId: Option<Controller.Timer>
    /** The next fresh id for a popup element, an abort controller or a timer. */
    var nextId: nat
    /** The popup elements attached to the document. */
    var attached: set<nat>

    function State(): Controller.State
      reads this
    {
      Controller.State(popup, currentWord, activeFetchController, isEnabled,
                       selectionTimeoutId, nextId, attached)
    }

    ghost predicate Valid()
      reads this
    {
      Controller.Valid(State())
    }

    /** The globals as the script starts. */
    constructor ()
      ensures State() == Controller.Init() && Valid()
    {
      popup := None;
      currentWord := [];
      activeFetchController := None;
      isEnabled := true;
      selectionTimeoutId := None;
      nextId := 0;
      attached := {};
    }

    /** `removePopup`. */
    method RemovePopup()
      requires Valid()
      modifies this
      ensures State() == Controller.RemovePopup(old(State())) && Valid()
    {
      Controller.RemovePopupValid(State());
      if selectionTimeoutId.Some? {
        selectionTimeoutId := None;
      }
      if popup.Some? {
        attached := attached - {popup.value.id};
        popup := None;
      }
      currentWord := [];
      if activeFetchController.Some? {
        activeFetchController := None;
      }
    }

    /** `showPopup` up to its first `await`; it is only called with a token. */
    method ShowPopup(word: string, x: int, y: int, layout: Controller.Layout)
      requires Valid() && WordNormalizer.IsToken(word)
      modifies this
      ensures State() == Controller.ShowPopup(old(State()), word, x, y, layout) && Valid()
    {
      Controller.ShowPopupValid(State(), word, x, y, layout);
      if !isEnabled {
        return;
      }
      if word == currentWord && popup.Some? {
        return;
      }
      RemovePopup();
      currentWord := word;
      var at := Placement.Place(x, y, layout.offsetWidth, layout.offsetHeight,
                                layout.innerWidth, layout.innerHeight);
      var id := nextId;
      popup := Some(Controller.Popup(id, id + 1, word, at, Controller.Loading));
      attached := attached + {id};
      activeFetchController := Some(id + 1);
      nextId := id + 2;
    }

    /** `finally`. */
    method Finally(c: nat)
      modifies this
      ensures State() == Controller.Finally(old(State()), c)
    {
      if activeFetchController == Some(c) {
        activeFetchController := None;
      }
    }

    /** Writes what the popup's body shows. */
    method Render(view: Controller.View)
      modifies this
      ensures State() == Controller.Render(old(State()), view)
    {
      if popup.Some? {
        popup := Some(popup.value.(view := view));
      }
    }

    /** The error branch of `catch` for the active controller, then `finally`. */
    method ShowError(c: nat, err: Lookup.Thrown)
      requires Valid() && activeFetchController == Some(c)
      modifies this
      ensures State() == Controller.ShowError(old(State()), c, err) && Valid()
    {
      Controller.SettleValid(State(), c, Controller.Failed(Lookup.UserMessage(err)));
      Render(Controller.Failed(Lookup.UserMessage(err)));
      Finally(c);
    }

    /** The continuation after `fetch` resolved, for the controller `c` it captured. */
    method OnFetchResolved(c: nat, status: nat)
      requires Valid()
      modifies this
      ensures State() == Controller.FetchResolved(old(State()), c, status) && Valid()
    {
      if activeFetchController != Some(c) {
        Finally(c);
        return;
      }
      if !Lookup.IsOk(status) {
        ShowError(c, Lookup.Raised(Lookup.StatusError(status)));
      }
    }

    /** The continuation after `res.json()` resolved. */
    method OnBodyParsed(c: nat, body: Lookup.Body)
      requires Valid()
      modifies this
      ensures State() == Controller.BodyParsed(old(State()), c, body) && Valid()
    {
      if activeFetchController != Some(c) {
        Finally(c);
        return;
      }
      var extracted := Lookup.Extract(body);
      match extracted {
        case Success(fields) =>
          Controller.SettleValid(State(), c, Controller.Defined(fields));
          Render(Controller.Defined(fields));
          Finally(c);
        case Failure(message) =>
          ShowError(c, Lookup.Raised(message));
      }
    }

    /** `catch` after `fetch` or `res.json()` rejected, then `finally`. */
    method OnRejected(c: nat, err: Lookup.Thrown)
      requires Valid()
      modifies this
      ensures State() == Controller.Rejected(old(State()), c, err) && Valid()
    {
      Controller.FinallyValid(State(), c);
      if err.name == "AbortError" || activeFetchController != Some(c) {
        Finally(c);
        return;
      }
      if Controller.ContextInvalidated(err) {
        Finally(c);
        return;
      }
      ShowError(c, err);
    }

    /** The mouseup handler. */
    method MouseUp(inPopup: bool, x: int, y: int)
      requires Valid()
      modifies this
      ensures State() == Controller.MouseUp(old(State()), inPopup, x, y) && Valid()
    {
      if popup.Some? && inPopup {
        return;
      }
      if !isEnabled {
        RemovePopup();
        return;
      }
      selectionTimeoutId := Some(Controller.Timer(nextId, x, y));
      nextId := nextId + 1;
    }

    /** The timer set by the mouseup handler fires; a cancelled timer never does. */
    method TimerFired(selection: string, layout: Controller.Layout)
      requires Valid()
      modifies this
      ensures State() == Controller.TimerFired(old(State()), selection, layout) && Valid()
    {
      if selectionTimeoutId.None? {
        return;
      }
      var timer := selectionTimeoutId.value;
      selectionTimeoutId := None;
      var word := WordNormalizer.Normalize(selection);
      if word == [] {
        RemovePopup();
      } else {
        ShowPopup(word, timer.x, timer.y, layout);
      }
    }

    method KeyDown(key: string)
      requires Valid()
      modifies this
      ensures State() == Controller.KeyDown(old(State()), key) && Valid()
    {
      if key == "Escape" {
        RemovePopup();
      }
    }

    method MouseDown(inPopup: bool)
      requires Valid()
      modifies this
      ensures State() == Controller.MouseDown(old(State()), inPopup) && Valid()
    {
      if popup.Some? && !inPopup {
        RemovePopup();
      }
    }

    method CloseClicked()
      requires Valid()
      modifies this
      ensures State() == Controller.CloseClicked(old(State())) && Valid()
    {
      if popup.Some? {
        RemovePopup();
      }
    }

    method VisibilityChanged(hidden: bool)
      requires Valid()
      modifies this
      ensures State() == Controller.VisibilityChanged(old(State()), hidden) && Valid()
    {
      if hidden {
        RemovePopup();
      }
    }

    method StorageLoaded(enabled: Option<bool>)
      requires Valid()
      modifies this
      ensures State() == Controller.StorageLoaded(old(State()), enabled) && Valid()
    {
      isEnabled := enabled.GetOr(true);
    }

    method EnabledChanged(newValue: Option<bool>)
      requires Valid()
      modifies this
      ensures State() == Controller.EnabledChanged(old(State()), newValue) && Valid()
    {
      isEnabled := newValue.GetOr(true);
      if !isEnabled {
        RemovePopup();
      }
    }

    /** Delivers one event to its handler. */
    method Dispatch(e: Controller.Event)
      requires Valid()
      modifies this
      ensures State() == Controller.Step(old(State()), e) && Valid()
    {
      match e
      case MouseUpEvent(inPopup, x, y) => MouseUp(inPopup, x, y);
      case TimerFiredEvent(selection, layout) => TimerFired(selection, layout);
      case FetchResolvedEvent(c, status) => OnFetchResolved(c, status);
      case BodyParsedEvent(c, body) => OnBodyParsed(c, body);
      case RejectedEvent(c, err) => OnRejected(c, err);
      case KeyDownEvent(key) => KeyDown(key);
      case MouseDownEvent(inPopup) => MouseDown(inPopup);
      case CloseClickedEvent => CloseClicked();
      case PopStateEvent => RemovePopup();
      case VisibilityChangedEvent(hidden) => VisibilityChanged(hidden);
      case StorageLoadedEvent(enabled) => StorageLoaded(enabled);
      case EnabledChangedEvent(newValue) => EnabledChanged(newValue);
    }

    /** Delivers a sequence of events in order. */
    method DispatchAll(events: seq<Controller.Event>)
      requires Valid()
      modifies this
      ensures State() == Controller.Run(old(State()), events) && Valid()
    {
      var i := 0;
      while i < |events|
        invariant 0 <= i <= |events| && Valid()
        invariant Controller.Run(old(State()), events) == Controller.Run(State(), events[i..])
      {
        assert events[i..][1..] == events[i + 1..];
        Dispatch(events[i]);
        i := i + 1;
      }
    }
  }
}
