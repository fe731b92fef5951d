# WordPeek content script, modelled in Dafny

WordPeek is a browser extension. When a word is selected on a page, it shows a
small popup with the word's dictionary definition. This project models the content
script `content.js`, which runs on every page, in five modules:

- `WordNormalizer` (`word_normalizer.dfy`): `normalizeSelectedWord`. It turns the text of a
  selection into one lower-case lookup token of 2..45 letters, apostrophes and
  hyphens, or into "" for no token.
- `Placement` (`placement.dfy`): the arithmetic of `positionPopup`. The popup goes 15 px
  past the pointer. It flips to the other side when it would come within 20 px of the
  viewport's edge, and it never sits closer than 10 px to the top or left edge.
- `Lookup` (`lookup.dfy`): the dictionary answer as a JSON datatype. It models the
  extraction of the rendered fields (first meaning with definitions, fallback phonetic,
  first http/https audio URL), the messages thrown for failing statuses, and the
  classification of an error into one of the three messages the user sees.
- `Controller` (`controller.dfy`): the script's session state as a value. It covers
  `popup`, `currentWord`, `activeFetchController`, `isEnabled`, `selectionTimeoutId`,
  a fresh-id counter and the attached popup elements. Every handler, and every
  continuation of `showPopup` after an `await`, is a function on that state.
  Lemmas prove the invariant ("at most one popup; an active controller belongs to the
  popup, which is still loading; the popup's word is `currentWord` and a token").
  They also prove that stale continuations are inert forever and that disabling tears
  everything down.
- `Page` (`page.dfy`): `class ContentScript`. The class holds the same globals as fields
  and has one method per handler and continuation. Each method updates the fields step
  by step, as the script does. Each is proved to produce exactly the state its
  `Controller` function gives. Every method that runs a whole handler or continuation
  is also proved to keep the invariant. `Render` and `Finally` are steps inside a
  continuation, between which the invariant is briefly broken, so they do not promise it.

`wrappers.dfy` holds `Option` and `Result`.

Character classes, field tests and the transition function itself carry no contract
of their own. Their meaning is stated by the lemmas about them:

- `WordNormalizer.IsWhitespace` (what `\s` matches) and `WordNormalizer.IsLetter`
  (`\p{L}` in the two modelled blocks): by `ToLowerFacts` and the `Normalize` lemmas.
- `WordNormalizer.KeptOf` (the letters and separators of a text): by `CollapseShape`.
- `Lookup.HasDefinitions` and `Lookup.HasWebAudio` (the `find` callbacks):
  by `ExtractUsesFirstMeaning` and `AudioIsFirstWebAudio`.
- `Lookup.FirstText` (`phonetics?.[0]?.text`): by `PhoneticOf`.
- `Lookup.ErrorText` (`String(err?.message || err || '')`): by `UserMessage`, which classifies the message, or the name when the message is empty.
- `Controller.ContextInvalidated`: by `Rejected` and `NetworkFailureIsNotInvalidation`.
- `Controller.Valid`, `Controller.Step` and `Controller.Run`: by `StepPreservesValid`,
  `RunPreservesValid`, the stale-continuation lemmas, and the `Page` methods, each of
  which is proved equal to `Step` for its event.

Popup elements, abort controllers and timers are named by natural-number ids drawn
from one counter. A continuation is an event that carries the controller id it
captured, so events may be delivered in any order. Aborting a controller means
clearing `activeFetchController`. The answer that `fetch` would deliver is a datatype
value passed to the continuation.

## Model

| member | source | states |
|---|---|---|
| WordNormalizer.Normalize | content.js:60-78 | the result is "" (falsy input or rejection) or a token: 2..45 lower-case letters, apostrophes or hyphens, neither starting nor ending with `'` or `-` |
| WordNormalizer.NormalizeFixesTokens | content.js:64-77 | a valid token normalises to itself |
| WordNormalizer.NormalizeIdempotent | content.js:60-78 | normalising a normalised word changes nothing |
| WordNormalizer.TokenHasNoWhitespace | content.js:71 | a token holds no space or other whitespace, since only the first whitespace-separated segment is kept |
| WordNormalizer.NoLetterNoToken | content.js:64-76 | a selection without any letter gives "" |
| WordNormalizer.SingleWordIsLowered | content.js:64-77 | one word of 2..45 letters gives that word lower-cased |
| WordNormalizer.LoweredWordIsToken | content.js:66-76 | a word of 2..45 letters, lower-cased, is a token |
| WordNormalizer.FirstWordOnly | content.js:64-77 | a word whose lower case is a token ("hello", "Hello"), followed by any text that starts with something other than a letter, `'` or `-` (a space, a comma, a line break, several of them), gives that token alone |
| WordNormalizer.FinishAfterToken | content.js:67-77 | after lower-casing, a token followed by such text comes out of the replacement, trim, first segment and strip as the token |
| WordNormalizer.TrimAfterWord | content.js:65-68 | trimming text that starts with a word without whitespace keeps the word and a prefix of what follows |
| WordNormalizer.CollapseOfUnkeptStart | content.js:67 | text that starts with a replaced character is replaced into text that starts with the space |
| WordNormalizer.TokenIsLowercase | content.js:66 | a token is its own lower case |
| WordNormalizer.ExampleFirstWord | content.js:71 | "hello world" gives "hello" |
| WordNormalizer.ExamplePunctuatedFirstWord | content.js:67-71 | "hello, World" gives "hello" |
| WordNormalizer.ExampleCapitalisedFirstWord | content.js:64-71 | "Hello world" gives "hello" |
| WordNormalizer.LoweredTokenHasNoWhitespace | content.js:64-65 | a word whose lower case is a token holds no whitespace, so `trim` leaves it whole |
| WordNormalizer.ExampleSeparatorsOnly | content.js:74-76 | "--a--" gives "": one letter is left once the hyphens are stripped |
| WordNormalizer.Trim | content.js:65-68 | the result neither starts nor ends with JavaScript whitespace |
| WordNormalizer.TrimIsSlice | content.js:65-68 | the trim is a slice of its input, and only whitespace is dropped from either end |
| WordNormalizer.TrimKeepsUntrimmed | content.js:65-68 | text without whitespace at either end is its own trim |
| WordNormalizer.Lower | content.js:66 | each character is lower-cased in place; the length is kept |
| WordNormalizer.LowerKeepsLowercase | content.js:66 | lower-casing text without capitals changes nothing |
| WordNormalizer.FirstSegment | content.js:71 | the result is the longest prefix without whitespace |
| WordNormalizer.StripSeparators | content.js:74 | the result neither starts nor ends with `'` or `-` |
| WordNormalizer.StripIsSlice | content.js:74 | the strip is a slice of its input, and only separators are dropped from either end |
| WordNormalizer.CollapseShape | content.js:67 | the letters, `'` and `-` of the result are exactly those of the input, in order; every other character of the result is a single space, followed by a letter, `'` or `-` unless it ends the result; a leading letter, `'` or `-` stays in front; the result is no longer than the input |
| WordNormalizer.Segment | content.js:71 | text without a space is kept whole; otherwise the result is the prefix before the first whitespace character |
| WordNormalizer.Finish | content.js:67-77 | the result is "" or has 2..45 characters and neither starts nor ends with `'` or `-` |
| WordNormalizer.CollapseKeepsKept | content.js:67 | text of letters, `'` and `-` only passes through the replacement unchanged |
| WordNormalizer.CollapseAll | content.js:67 | the replacement adds nothing but spaces: a property of the space and of every kept input character holds for the whole result |
| WordNormalizer.ToLowerFacts | content.js:66 | lower-casing a character is idempotent, keeps letters letters and non-letters non-letters, keeps kept characters kept, and turns a letter into a lower-case token character |
| Placement.Axis | content.js:137-144 | the coordinate is at least 10; the popup lies 15 past the pointer when it fits; otherwise it ends 15 before the pointer or is clamped to 10; it never covers the pointer unless clamped |
| Placement.Place | content.js:134-144 | both coordinates are at least 10 and, unless clamped, the popup does not cover the pointer on either axis |
| Placement.UnmeasuredUsesDefault | content.js:134-135 | a popup measuring 0 is placed as a 300 x 180 one |
| Placement.AxisFits | content.js:137-144 | without overflow the coordinate is max(10, p + 15); when p + 15 >= 10, the far edge also keeps 20 px from the viewport's edge |
| Placement.AxisFlips | content.js:140-144 | with overflow the coordinate is max(10, p - size - 15) |
| Placement.FlipIff | content.js:140-141 | unclamped, the popup is after the pointer if and only if it fits there |
| Placement.ExampleNearRightEdge | content.js:134-144 | in a 1000 x 800 viewport a 300 x 180 popup at (950, 50) goes to (635, 65) |
| Lookup.Find | content.js:196-208 | `find`: the index of the first element with the property, or the length when there is none |
| Lookup.PhoneticOf | content.js:202 | the entry's own phonetic when it is truthy; otherwise the first phonetic's text when that is truthy; otherwise "" |
| Lookup.AudioOf | content.js:204-209 | a non-empty audio URL starts with "https://" or "http://" |
| Lookup.Extract | content.js:192-209 | a non-array, empty or falsy-first answer is 'Bad response'; every failure is 'Bad response' or 'No definition found'; the audio and phonetic come from the first entry |
| Lookup.ExtractUsesFirstMeaning | content.js:194-201 | the rendered meaning is the first with a non-empty definitions list, showing its first definition, its example (or "") and its part of speech (or "") |
| Lookup.NoMeaningNoDefinition | content.js:195-198 | without any meaning that has definitions the error is 'No definition found' |
| Lookup.FalsyFirstDefinition | content.js:195-198 | when the first meaning with definitions has a null first definition, the error is 'No definition found' |
| Lookup.AudioIsFirstWebAudio | content.js:204-209 | the audio URL is that of the first phonetic with an http or https audio, else "" |
| Lookup.NonWebAudioIgnored | content.js:204-209 | when no phonetic has a web audio URL, or there are no phonetics, there is no audio |
| Lookup.Dec | content.js:186 | the status is printed as one or more decimal digits, with no leading zero |
| Lookup.DecRoundTrip | content.js:186 | the printed digits denote the status |
| Lookup.StatusError | content.js:185-186 | the message is 'Word not found' exactly for 404, and starts with "HTTP " otherwise |
| Lookup.StatusErrorNamesStatus | content.js:186 | the "HTTP " message ends with the status in decimal |
| Lookup.Classify | content.js:241-247 | the message is one of the three texts; not-found exactly when the lower-cased text contains "not found" or "404"; connect exactly when it contains neither but contains "http" or "fetch" |
| Lookup.UserMessage | content.js:241-247 | a thrown error shows one of the three texts, chosen on its message, or on its name when the message is empty |
| Lookup.Status404IsNotFound | content.js:241-247 | a 404 answer shows "Word not found in dictionary 😕" |
| Lookup.OtherStatusIsConnect | content.js:241-247 | every other failing status 200..599 shows "Could not connect to dictionary. Check internet." |
| Lookup.BadResponseIsFallback | content.js:241-247 | 'Bad response' shows "No definition found 😕" |
| Lookup.NoDefinitionIsFallback | content.js:241-247 | 'No definition found' shows "No definition found 😕" |
| Lookup.NetworkFailureIsConnect | content.js:241-247 | a failed `fetch` ("Failed to fetch") shows the connect message |
| Lookup.ExtractFailureIsFallback | content.js:241-247 | every extraction failure shows the fallback message |
| Controller.RemovePopup | content.js:44-58 | no timer, no popup, no active controller, `currentWord` is ""; the popup element is detached; the flag and the counter are kept |
| Controller.RemovePopupIdempotent | content.js:44-58 | a second `removePopup` changes nothing |
| Controller.ShowPopup | content.js:149-171 | nothing changes when disabled or when the word is already shown; otherwise the old session is torn down, and exactly one fresh popup (loading, placed by `positionPopup`) and one fresh controller are installed for the word |
| Controller.Finally | content.js:252-253 | the active controller is cleared only when it is the caller's own |
| Controller.Render | content.js:211-251 | only the popup's view changes |
| Controller.ShowError | content.js:239-253 | for the current controller, the popup shows the error's message and the controller is cleared; nothing else changes |
| Controller.FetchResolved | content.js:179-187 | a stale controller changes nothing; an ok status changes nothing; a failing status for the current controller shows the message of the error it throws and clears the controller |
| Controller.BodyParsed | content.js:189-234 | a stale controller changes nothing; for the current one the popup shows the extracted fields, or the fallback message when extraction fails, and the controller is cleared |
| Controller.Rejected | content.js:235-253 | a stale controller changes nothing; an AbortError or an invalidated context only clears the controller; any other error for the current controller shows its message and clears the controller |
| Controller.NotFoundShown | content.js:184-253 | a 404 for the current lookup shows "Word not found in dictionary 😕" and clears the controller |
| Controller.FailingStatusShown | content.js:184-253 | any other failing status 300..599 shows the connect message and clears the controller |
| Controller.NetworkFailureShown | content.js:235-253 | a failed `fetch` shows the connect message and clears the controller |
| Controller.NetworkFailureIsNotInvalidation | content.js:16-19 | "Failed to fetch" is not an invalidated-context error |
| Controller.MouseUp | content.js:258-270 | a release inside the popup is ignored; when disabled the popup is removed; otherwise a fresh timer remembering the pointer replaces the pending one |
| Controller.TimerFired | content.js:270-285 | a timer that is not pending does nothing; a pending one is cleared; without a token everything is torn down; with a token that is new and while enabled, a loading popup for it opens at the pointer the timer remembered, with a fresh popup id that replaces the old element and a fresh active controller; otherwise only the timer is cleared |
| Controller.KeyDown | content.js:289-291 | Escape tears everything down; any other key changes nothing |
| Controller.MouseDown | content.js:293-295 | a press outside the open popup tears everything down; otherwise nothing changes |
| Controller.CloseClicked | content.js:95-98 | the close button of the open popup tears everything down |
| Controller.VisibilityChanged | content.js:298-300 | hiding the page tears everything down; showing it changes nothing |
| Controller.StorageLoaded | content.js:24-27 | the flag becomes the stored value, missing reading as true; nothing else changes, so an open popup stays |
| Controller.DismissalTearsDown | content.js:289-300 | Escape, a press outside the popup, the close button, popstate and hiding the page each leave no popup, controller, timer or word |
| Controller.DismissedLookupInert | content.js:182-300 | after a dismissal during loading, every later continuation of that lookup changes nothing, whatever happens in between |
| Controller.EnabledChanged | content.js:31-33 | the flag becomes the new value, a removed key reading as true |
| Controller.InitValid | content.js:2-6 | the initial globals satisfy the invariant |
| Controller.AtMostOnePopup | content.js:149-171 | under the invariant at most one popup element is attached, and an active controller implies that popup |
| Controller.RemovePopupValid | content.js:44-58 | `removePopup` keeps the invariant |
| Controller.ShowPopupValid | content.js:149-171 | `showPopup` with a token keeps the invariant |
| Controller.SettleValid | content.js:211-253 | rendering and then `finally` for the active controller keeps the invariant |
| Controller.FinallyValid | content.js:252-253 | `finally` keeps the invariant |
| Controller.TimerFiredValid | content.js:270-285 | the timer firing keeps the invariant |
| Controller.ContinuationValid | content.js:173-254 | every continuation of `showPopup` keeps the invariant |
| Controller.StepPreservesValid | content.js:24-300 | every event keeps the invariant |
| Controller.RunPreservesValid | content.js:24-300 | every trace of events keeps the invariant |
| Controller.StaleContinuationInert | content.js:182-253 | a continuation whose controller is not the active one changes nothing |
| Controller.StepActive | content.js:161-253 | ids only grow; a step keeps, clears or freshly installs the active controller |
| Controller.ShowActive | content.js:161-171 | `showPopup` keeps the active controller or installs a fresh one |
| Controller.StaleNeverReactivated | content.js:170-253 | a controller that is no longer active never becomes active again |
| Controller.LateContinuationInert | content.js:182-253 | a late continuation of a superseded controller, after any events, changes nothing |
| Controller.NewLookupSupersedes | content.js:161-171 | a lookup of a new word makes the previous controller stale |
| Controller.DisableTearsDown | content.js:32-33 | turning WordPeek off leaves no popup, controller, timer or word |
| Controller.EnableOpensNothing | content.js:32-33 | turning it on changes only the flag |
| Controller.DisabledStaysClosed | content.js:150-263 | while disabled and closed, no page event opens a popup |
| Controller.ExampleSession | content.js:148-254 | selecting "Hello" at (950, 50) loads "hello" at (635, 65); a 404 then shows the not-found message and clears the controller |
| Controller.SessionStarts | content.js:258-286 | the mouseup and timer of that session open the loading popup |
| Controller.SessionPointer | content.js:258-270 | the mouseup of that session sets a timer remembering (950, 50) |
| Controller.SessionTimer | content.js:270-285 | the timer of that session opens the loading popup for "hello" |
| Controller.SessionLooksUpHello | content.js:270-284 | the timer of that session calls `showPopup` with "hello" |
| Controller.SessionShowsHello | content.js:149-171 | `showPopup` of "hello" in that session gives the loading popup at (635, 65) |
| Controller.SessionFails | content.js:184-253 | the 404 of that session shows the not-found message |
| Controller.HelloIsLookedUp | content.js:60-78 | "Hello" normalises to "hello" |
| Page.ContentScript.constructor | content.js:2-6 | the fields start as the initial state, which satisfies the invariant |
| Page.ContentScript.RemovePopup | content.js:44-58 | the fields end as `Controller.RemovePopup` says, and the invariant holds |
| Page.ContentScript.ShowPopup | content.js:149-171 | the fields end as `Controller.ShowPopup` says, and the invariant holds |
| Page.ContentScript.Finally | content.js:252-253 | the fields end as `Controller.Finally` says |
| Page.ContentScript.Render | content.js:211-251 | the fields end as `Controller.Render` says |
| Page.ContentScript.ShowError | content.js:239-253 | the fields end as `Controller.ShowError` says, and the invariant holds |
| Page.ContentScript.OnFetchResolved | content.js:179-187 | the fields end as `Controller.FetchResolved` says, and the invariant holds |
| Page.ContentScript.OnBodyParsed | content.js:189-234 | the fields end as `Controller.BodyParsed` says, and the invariant holds |
| Page.ContentScript.OnRejected | content.js:235-253 | the fields end as `Controller.Rejected` says, and the invariant holds |
| Page.ContentScript.MouseUp | content.js:258-270 | the fields end as `Controller.MouseUp` says, and the invariant holds |
| Page.ContentScript.TimerFired | content.js:270-285 | the fields end as `Controller.TimerFired` says, and the invariant holds |
| Page.ContentScript.KeyDown | content.js:289-291 | the fields end as `Controller.KeyDown` says, and the invariant holds |
| Page.ContentScript.MouseDown | content.js:293-295 | the fields end as `Controller.MouseDown` says, and the invariant holds |
| Page.ContentScript.CloseClicked | content.js:95-98 | the fields end as `Controller.CloseClicked` says, and the invariant holds |
| Page.ContentScript.VisibilityChanged | content.js:298-300 | the fields end as `Controller.VisibilityChanged` says, and the invariant holds |
| Page.ContentScript.StorageLoaded | content.js:24-27 | the fields end as `Controller.StorageLoaded` says, and the invariant holds |
| Page.ContentScript.EnabledChanged | content.js:29-34 | the fields end as `Controller.EnabledChanged` says, and the invariant holds |
| Page.ContentScript.Dispatch | content.js:24-300 | delivering one event gives `Controller.Step`, and the invariant holds |
| Page.ContentScript.DispatchAll | content.js:24-300 | delivering a sequence of events gives `Controller.Run`, and the invariant holds |

## Left out

- `\p{L}` and `toLowerCase` are modelled for the Basic Latin and Latin-1 Supplement blocks only. Letters outside them count as non-letters, and that includes Latin letters such as ł, ő, ř and œ as well as other scripts. So "Dvořák" gives "dvo" in the model, but the script looks up "dvořák". Lower-casing is per character. Multi-character case mappings (such as U+0130) are not modelled.
- Lengths are counted in code points, not in the UTF-16 code units that JavaScript's `length` counts. The two agree on the modelled letters.
- `isContextValid` and `isContextInvalidatedError` (content.js:8-19): the extension context is treated as always valid. A rejection whose message contains "Extension context invalidated" is still shown as nothing (`Controller.ContextInvalidated`). The try/catch around the storage wiring (content.js:36-38) is left out.
- The `chrome.storage` calls themselves are left out. Their answers are the events `StorageLoadedEvent` and `EnabledChangedEvent`; a change in another area or to another key is not an event.
- DOM construction and styling in `createPopup` (content.js:81-126), the `px` strings, `appendChild`, `popup.contains` (an event says whether its target is inside the popup), and `Audio` playback (content.js:213-224). The rendered text is kept as a `Rendered` value in the popup's view.
- The real timing of `setTimeout(…, 10)` and `clearTimeout`. The pending timer is a field, and `TimerFiredEvent` delivers the selection's text. An absent or collapsed selection is passed as "".
- `fetch`, `res.json()` and the delivery of abort signals. Continuations may arrive in any order, which allows more schedules than a browser produces; the lemmas hold for all of them.
- Controller.FetchResolved: an ok status leaves the state unchanged. The `await res.json()` that follows is the separate `BodyParsedEvent`.
- Lookup.Extract: JSON values that are not arrays in `definitions` and `phonetics` (a string, whose `length` is truthy; a non-array `phonetics`, whose `find` throws a TypeError) are not modelled. Neither are a non-string `phonetic` or `text`, or a falsy non-undefined `definition`. An absent `definition` renders as "".
- `console.error` (content.js:239): logging is output only.
- `background.js` is not part of this model: it only calls browser APIs for the badge, icon, title, storage and tab reloading.
- A selection with whitespace or punctuation before its word is covered only by the general lemmas (`Normalize`, `NoLetterNoToken`). `FirstWordOnly` and the example lemmas cover a word, capitalised or not, at the start of the selection.
