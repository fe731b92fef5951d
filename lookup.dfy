/**
  What the content script makes of a dictionary answer: the fields it renders
  from the first entry (`showPopup`, after `res.json()`), the errors it throws
  and the one-line message it shows for each error.

  The JSON answer is modelled by datatypes whose `Option` fields are `None`
  where the JavaScript value is missing, `null` or of the wrong type.
 */
module Lookup {
  import opened Wrappers
  import WordNormalizer

  // ---------------------------------------------------------------------------
  // The JSON answer
  // ---------------------------------------------------------------------------

  datatype Phonetic = Phonetic(text: Option<string>, audio: Option<string>)

  datatype Definition = Definition(definition: Option<string>, example: Option<string>)

  datatype Meaning = Meaning(partOfSpeech: Option<string>,
                             definitions: Option<seq<Option<Definition>>>)

  datatype Entry = Entry(phonetic: Option<string>,
                         phonetics: Option<seq<Option<Phonetic>>>,
                         meanings: Option<seq<Option<Meaning>>>)

  /** The parsed body: a JSON array of entries (an element is `None` when
      falsy), or anything that is not an array. */
  datatype Body = NotArray | Entries(items: seq<Option<Entry>>)

  /** The text fields the popup shows for a successful lookup. */
  datatype Rendered = Rendered(phonetic: string, audioUrl: string,
                               partOfSpeech: string, definition: string, example: string)

  // ---------------------------------------------------------------------------
  // Strings
  // ---------------------------------------------------------------------------

  predicate StartsWith(s: string, prefix: string) {
    |prefix| <= |s| && s[..|prefix|] == prefix
  }

  /** `sub` occurs in `s` at index `i`. */
  predicate OccursAt(s: string, sub: string, i: nat) {
    i + |sub| <= |s| && s[i..i + |sub|] == sub
  }

  /** `String.prototype.includes`. */
  predicate Contains(s: string, sub: string) {
    exists i: nat | i <= |s| :: OccursAt(s, sub, i)
  }

  /** A substring that holds a character `s` lacks does not occur in `s`. */
  lemma AbsentByChar(s: string, sub: string, j: nat)
    requires j < |sub| && sub[j] !in s
    ensures !Contains(s, sub)
  {
    forall i: nat | i <= |s| ensures !OccursAt(s, sub, i) {
      NotOccursAt(s, sub, i, j);
    }
  }

  /** `sub` does not occur at `i` when its `j`-th character differs from `s`'s. */
  lemma NotOccursAt(s: string, sub: string, i: nat, j: nat)
    requires j < |sub|
    requires i + j < |s| ==> s[i + j] != sub[j]
    ensures !OccursAt(s, sub, i)
  {
    if i + |sub| <= |s| {
      assert s[i..i + |sub|][j] == s[i + j];
    }
  }

  /** A JavaScript string in a boolean context: present and not empty. */
  predicate Truthy(o: Option<string>) {
    o.Some? && o.value != []
  }

  /** `a || b` on two strings that may be missing (`None` reads as ""). */
  function OrElse(a: Option<string>, b: string): string {
    if Truthy(a) then a.value else b
  }

  // ---------------------------------------------------------------------------
  // Array.prototype.find
  // ---------------------------------------------------------------------------

  /** The index of the first element of `s` that `p` accepts, or |s| when none does. */
  function Find<T>(s: seq<T>, p: T -> bool): (k: nat)
    ensures k <= |s|
    ensures k < |s| ==> p(s[k])
    ensures forall j :: 0 <= j < k ==> !p(s[j])
  {
    if s == [] then 0 else if p(s[0]) then 0 else 1 + Find(s[1..], p)
  }

  /** Any index satisfying Find's contract is the one Find returns. */
  lemma FindIsLeast<T>(s: seq<T>, p: T -> bool, k: nat)
    requires k <= |s|
    requires k < |s| ==> p(s[k])
    requires forall j :: 0 <= j < k ==> !p(s[j])
    ensures Find(s, p) == k
  {
  }

  // ---------------------------------------------------------------------------
  // Extraction
  // ---------------------------------------------------------------------------

  const BadResponse := "Bad response"
  const NoDefinition := "No definition found"

  /** `m?.definitions?.length` is truthy: a meaning with a non-empty definitions list. */
  predicate HasDefinitions(m: Option<Meaning>) {
    m.Some? && m.value.definitions.Some? && |m.value.definitions.value| > 0
  }

  /** `typeof p?.audio === 'string' && (startsWith('https://') || startsWith('http://'))`. */
  predicate HasWebAudio(p: Option<Phonetic>) {
    p.Some? && p.value.audio.Some? &&
    (StartsWith(p.value.audio.value, "https://") || StartsWith(p.value.audio.value, "http://"))
  }

  /** `entry.phonetics?.[0]?.text`. */
  function FirstText(e: Entry): Option<string> {
    if e.phonetics.Some? && |e.phonetics.value| > 0 && e.phonetics.value[0].Some?
    then e.phonetics.value[0].value.text else None
  }

  /** `entry.phonetic || entry.phonetics?.[0]?.text || ''`: the first truthy of the
      entry's own phonetic and the first phonetic's text, else "". */
  function PhoneticOf(e: Entry): (r: string)
    ensures Truthy(e.phonetic) ==> r == e.phonetic.value
    ensures !Truthy(e.phonetic) && Truthy(FirstText(e)) ==> r == FirstText(e).value
    ensures !Truthy(e.phonetic) && !Truthy(FirstText(e)) ==> r == []
  {
    OrElse(e.phonetic, OrElse(FirstText(e), []))
  }

  /** `entry.phonetics?.find(...)?.audio || ''`: the first http or https audio URL. */
  function AudioOf(e: Entry): (r: string)
    ensures r != [] ==> StartsWith(r, "https://") || StartsWith(r, "http://")
  {
    var ps := e.phonetics.GetOr([]);
    var k := Find(ps, HasWebAudio);
    if k < |ps| then ps[k].value.audio.value else []
  }

  /** The fields rendered for the first entry of a parsed answer, or the message
      of the error thrown when there is nothing to render. */
  function Extract(body: Body): (r: Result<Rendered, string>)
    ensures body.NotArray? || body.items == [] || body.items[0].None? ==> r == Failure(BadResponse)
    ensures r.Failure? ==> r.error == BadResponse || r.error == NoDefinition
    ensures r.Success? ==> r.value.audioUrl == AudioOf(body.items[0].value)
    ensures r.Success? ==> r.value.phonetic == PhoneticOf(body.items[0].value)
  {
    if body.NotArray? || body.items == [] || body.items[0].None? then Failure(BadResponse)
    else
      var e := body.items[0].value;
      var ms := e.meanings.GetOr([]);
      var k := Find(ms, HasDefinitions);
      if k == |ms| || ms[k].value.definitions.value[0].None? then Failure(NoDefinition)
      else
        var m := ms[k].value;
        var d := m.definitions.value[0].value;
        Success(Rendered(PhoneticOf(e), AudioOf(e), m.partOfSpeech.GetOr([]),
                         d.definition.GetOr([]), d.example.GetOr([])))
  }

  /** The meaning rendered is the first one with a non-empty definitions list,
      and its first definition is the one shown. */
  lemma ExtractUsesFirstMeaning(e: Entry, rest: seq<Option<Entry>>, k: nat)
    requires e.meanings.Some? && k < |e.meanings.value|
    requires HasDefinitions(e.meanings.value[k])
    requires forall j :: 0 <= j < k ==> !HasDefinitions(e.meanings.value[j])
    requires e.meanings.value[k].value.definitions.value[0].Some?
    ensures var m := e.meanings.value[k].value;
            var d := m.definitions.value[0].value;
            Extract(Entries([Some(e)] + rest))
              == Success(Rendered(PhoneticOf(e), AudioOf(e), m.partOfSpeech.GetOr([]),
                                  d.definition.GetOr([]), d.example.GetOr([])))
  {
    FindIsLeast(e.meanings.value, HasDefinitions, k);
  }

  /** When the first meaning with definitions has an empty first definition
      (`definitions: [null]`), the answer is 'No definition found' as well. */
  lemma FalsyFirstDefinition(e: Entry, rest: seq<Option<Entry>>, k: nat)
    requires e.meanings.Some? && k < |e.meanings.value|
    requires HasDefinitions(e.meanings.value[k])
    requires forall j :: 0 <= j < k ==> !HasDefinitions(e.meanings.value[j])
    requires e.meanings.value[k].value.definitions.value[0].None?
    ensures Extract(Entries([Some(e)] + rest)) == Failure(NoDefinition)
  {
    FindIsLeast(e.meanings.value, HasDefinitions, k);
  }

  /** Without any meaning that has definitions the answer is 'No definition found'. */
  lemma NoMeaningNoDefinition(e: Entry, rest: seq<Option<Entry>>)
    requires forall j :: 0 <= j < |e.meanings.GetOr([])| ==> !HasDefinitions(e.meanings.GetOr([])[j])
    ensures Extract(Entries([Some(e)] + rest)) == Failure(NoDefinition)
  {
    FindIsLeast(e.meanings.GetOr([]), HasDefinitions, |e.meanings.GetOr([])|);
  }

  /** The audio URL is that of the first phonetic with an http or https audio,
      or "" when there is none. */
  lemma AudioIsFirstWebAudio(e: Entry, k: nat)
    requires k <= |e.phonetics.GetOr([])|
    requires k < |e.phonetics.GetOr([])| ==> HasWebAudio(e.phonetics.GetOr([])[k])
    requires forall j :: 0 <= j < k ==> !HasWebAudio(e.phonetics.GetOr([])[j])
    ensures AudioOf(e) == if k < |e.phonetics.GetOr([])| then e.phonetics.GetOr([])[k].value.audio.value else []
  {
    FindIsLeast(e.phonetics.GetOr([]), HasWebAudio, k);
  }

  /** An audio value that is not a web URL is never chosen, and an entry without
      phonetics has no audio. */
  lemma NonWebAudioIgnored(e: Entry)
    requires forall j :: 0 <= j < |e.phonetics.GetOr([])| ==> !HasWebAudio(e.phonetics.GetOr([])[j])
    ensures AudioOf(e) == []
  {
    FindIsLeast(e.phonetics.GetOr([]), HasWebAudio, |e.phonetics.GetOr([])|);
  }

  // ---------------------------------------------------------------------------
  // Errors and what the popup says about them
  // ---------------------------------------------------------------------------

  /** `res.ok`. */
  predicate IsOk(status: nat) {
    200 <= status <= 299
  }

  function DigitChar(d: nat): char
    requires d < 10
  {
    ('0' as int + d) as char
  }

  /** The decimal numeral of `n`, as a template literal prints it. */
  function Dec(n: nat): (r: string)
    ensures |r| >= 1
    ensures r[0] == '0' <==> n == 0
    ensures forall i :: 0 <= i < |r| ==> '0' <= r[i] <= '9'
  {
    if n < 10 then [DigitChar(n)] else Dec(n / 10) + [DigitChar(n % 10)]
  }

  /** The number a string of decimal digits denotes. */
  function DecValue(s: string): nat
    requires forall i :: 0 <= i < |s| ==> '0' <= s[i] <= '9'
  {
    if s == [] then 0 else DecValue(s[..|s| - 1]) * 10 + (s[|s| - 1] as int - '0' as int)
  }

  /** Dec prints the number it is given. */
  lemma {:induction false} DecRoundTrip(n: nat)
    ensures DecValue(Dec(n)) == n
  {
    if n >= 10 {
      DecRoundTrip(n / 10);
      var r := Dec(n);
      assert r[..|r| - 1] == Dec(n / 10);
    }
  }

  /** A number of three digits prints as those three digits. */
  lemma DecThreeDigits(n: nat)
    requires 100 <= n <= 999
    ensures Dec(n) == [DigitChar(n / 100), DigitChar(n / 10 % 10), DigitChar(n % 10)]
  {
    assert Dec(n / 100) == [DigitChar(n / 100)];
    assert n / 10 / 10 == n / 100;
  }

  /** The message thrown for a response that is not ok: 'Word not found' for
      404 and 'HTTP <status>' for any other status. */
  function StatusError(status: nat): (r: string)
    ensures status == 404 <==> r == "Word not found"
    ensures status != 404 ==> StartsWith(r, "HTTP ")
  {
    if status == 404 then "Word not found"
    else
      var r := "HTTP " + Dec(status);
      assert r[0] == 'H';
      r
  }

  /** The 'HTTP' message names the status that was received. */
  lemma StatusErrorNamesStatus(status: nat)
    requires status != 404
    ensures var r := StatusError(status);
            && |r| > 5
            && (forall i :: 5 <= i < |r| ==> '0' <= r[i] <= '9')
            && DecValue(r[5..]) == status
  {
    var r := StatusError(status);
    assert r[5..] == Dec(status);
    DecRoundTrip(status);
  }

  /** What `catch` receives: an `Error` (or `DOMException`) with its name and message. */
  datatype Thrown = Thrown(name: string, message: string)

  /** `String(err?.message || err || '')`: the message, or for an empty message
      what `Error.prototype.toString` gives, the name. */
  function ErrorText(err: Thrown): string {
    if err.message != [] then err.message else err.name
  }

  const NotFoundText := "Word not found in dictionary \U{1F615}"
  const ConnectText := "Could not connect to dictionary. Check internet."
  const FallbackText := "No definition found \U{1F615}"

  /** The user message for an error text, chosen on its lower-cased form. */
  function Classify(text: string): (msg: string)
    ensures msg == NotFoundText || msg == ConnectText || msg == FallbackText
    ensures var t := WordNormalizer.Lower(text);
            && (msg == NotFoundText <==> Contains(t, "not found") || Contains(t, "404"))
            && (msg == ConnectText <==>
                  !Contains(t, "not found") && !Contains(t, "404") &&
                  (Contains(t, "http") || Contains(t, "fetch")))
  {
    var t := WordNormalizer.Lower(text);
    if Contains(t, "not found") || Contains(t, "404") then NotFoundText
    else if Contains(t, "http") || Contains(t, "fetch") then ConnectText
    else FallbackText
  }

  /** The message a thrown error shows: one of the three texts. */
  function UserMessage(err: Thrown): (msg: string)
    ensures msg == NotFoundText || msg == ConnectText || msg == FallbackText
    ensures err.message != [] ==> msg == Classify(err.message)
    ensures err.message == [] ==> msg == Classify(err.name)
  {
    Classify(ErrorText(err))
  }

  /** An error thrown with `new Error(message)`. */
  function Raised(message: string): Thrown {
    Thrown("Error", message)
  }

  // ---------------------------------------------------------------------------
  // Which message each failure shows
  // ---------------------------------------------------------------------------

  /** A 404 answer says the word is not in the dictionary. */
  lemma Status404IsNotFound()
    ensures UserMessage(Raised(StatusError(404))) == NotFoundText
  {
    assert WordNormalizer.Lower("Word not found") == "word not found";
    assert OccursAt("word not found", "not found", 5);
  }

  /** Any other failing status of a fetched response (200..599) says that the
      dictionary could not be reached. */
  lemma OtherStatusIsConnect(status: nat)
    requires 200 <= status <= 599 && status != 404
    ensures UserMessage(Raised(StatusError(status))) == ConnectText
  {
    var t := WordNormalizer.Lower(StatusError(status));
    StatusTextShape(status);
    assert OccursAt(t, "http", 0);
    AbsentByChar(t, "not found", 0);
    forall i: nat | i <= |t| ensures !OccursAt(t, "404", i) {
      if i < 5 {
        NotOccursAt(t, "404", i, 0);
      } else if i == 5 {
        assert t[5..8] == Dec(status);
      }
    }
  }

  /** The lower-cased message of a failing status of three digits other than 404. */
  lemma StatusTextShape(status: nat)
    requires 200 <= status <= 599 && status != 404
    ensures var t := WordNormalizer.Lower(StatusError(status));
            && t == "http " + Dec(status)
            && |t| == 8 && Dec(status) != "404" && 'n' !in t
            && forall i :: 0 <= i < 5 ==> t[i] != '4'
  {
    LowerStatusText(status);
    DecThreeDigits(status);
  }

  lemma LowerStatusText(status: nat)
    requires status != 404
    ensures WordNormalizer.Lower(StatusError(status)) == "http " + Dec(status)
  {
    WordNormalizer.LowerAppend("HTTP ", Dec(status));
    assert WordNormalizer.Lower("HTTP ") == "http ";
    WordNormalizer.LowerKeepsLowercase(Dec(status));
  }

  /** A malformed answer shows the fallback message. */
  lemma BadResponseIsFallback()
    ensures UserMessage(Raised(BadResponse)) == FallbackText
  {
    var t := "bad response";
    assert WordNormalizer.Lower(BadResponse) == t;
    AbsentByChar(t, "not found", 4);
    AbsentByChar(t, "404", 0);
    AbsentByChar(t, "http", 0);
    AbsentByChar(t, "fetch", 0);
  }

  /** An entry without a definition shows the fallback message. */
  lemma NoDefinitionIsFallback()
    ensures UserMessage(Raised(NoDefinition)) == FallbackText
  {
    var t := "no definition found";
    assert WordNormalizer.Lower(NoDefinition) == t;
    NotFoundAbsentFromNoDefinition();
    AbsentByChar(t, "404", 0);
    AbsentByChar(t, "http", 0);
    AbsentByChar(t, "fetch", 4);
  }

  /** "no definition found" has an n?t at index 7, but no "not" anywhere. */
  lemma NotFoundAbsentFromNoDefinition()
    ensures !Contains("no definition found", "not found")
  {
    var t := "no definition found";
    forall i: nat | i <= |t| ensures !OccursAt(t, "not found", i) {
      if i == 7 {
        NotOccursAt(t, "not found", i, 1);
      } else {
        NotOccursAt(t, "not found", i, 2);
      }
    }
  }

  /** A network failure (`TypeError: Failed to fetch`) says the dictionary could not be reached. */
  lemma NetworkFailureIsConnect()
    ensures UserMessage(Thrown("TypeError", "Failed to fetch")) == ConnectText
  {
    var t := "failed to fetch";
    assert WordNormalizer.Lower("Failed to fetch") == t;
    AbsentByChar(t, "not found", 0);
    AbsentByChar(t, "404", 0);
    assert OccursAt(t, "fetch", 10);
  }

  /** Every failure of Extract shows the fallback message. */
  lemma ExtractFailureIsFallback(body: Body)
    requires Extract(body).Failure?
    ensures UserMessage(Raised(Extract(body).error)) == FallbackText
  {
    if Extract(body).error == BadResponse {
      BadResponseIsFallback();
    } else {
      NoDefinitionIsFallback();
    }
  }
}
