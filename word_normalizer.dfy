/**
  The word normaliser of the content script (`normalizeSelectedWord`): it turns the
  raw text of a selection into the single lower-case token that is looked up, or
  into the empty string, which callers read as "no token".
 */
module WordNormalizer {

  const MinLength := 2
  const MaxLength := 45

  // ---------------------------------------------------------------------------
  // Character classes
  // ---------------------------------------------------------------------------

  /** The characters that JavaScript's `trim` removes and that `\s` matches:
      WhiteSpace (TAB, VT, FF, SP, NBSP, ZWNBSP and the Zs category) and
      LineTerminator (LF, CR, LS, PS). */
  predicate IsWhitespace(c: char) {
    c == '\t' || c == '\n' || c == '\U{B}' || c == '\U{C}' || c == '\r' || c == ' ' ||
    c == '\U{A0}' || c == '\U{1680}' || ('\U{2000}' <= c <= '\U{200A}') ||
    c == '\U{2028}' || c == '\U{2029}' || c == '\U{202F}' || c == '\U{205F}' ||
    c == '\U{3000}' || c == '\U{FEFF}'
  }

  /** The letters (`\p{L}`) of the Basic Latin and Latin-1 Supplement blocks. */
  predicate IsLetter(c: char) {
    ('a' <= c <= 'z') || ('A' <= c <= 'Z') ||
    c == '\U{AA}' || c == '\U{B5}' || c == '\U{BA}' ||
    ('\U{C0}' <= c <= '\U{D6}') || ('\U{D8}' <= c <= '\U{F6}') || ('\U{F8}' <= c <= '\U{FF}')
  }

  /** `toLowerCase` on one character of those blocks: A-Z and the Latin-1
      capitals U+00C0..U+00DE (except the multiplication sign) move up by 32. */
  function ToLower(c: char): char {
    if ('A' <= c <= 'Z') || ('\U{C0}' <= c <= '\U{DE}' && c != '\U{D7}')
    then (c as int + 32) as char
    else c
  }

  /** Apostrophe and hyphen, the two non-letters a token may contain. */
  predicate IsSeparator(c: char) {
    c == '\'' || c == '-'
  }

  /** The characters the class `[^\p{L}'-]` does NOT match. */
  predicate IsKept(c: char) {
    IsLetter(c) || IsSeparator(c)
  }

  /** A character a token may hold: a lower-case letter, an apostrophe or a hyphen. */
  predicate IsTokenChar(c: char) {
    (IsLetter(c) && ToLower(c) == c) || IsSeparator(c)
  }

  /** A canonical lookup token: 2..45 token characters, neither starting nor
      ending with an apostrophe or hyphen. */
  predicate IsToken(t: string) {
    && MinLength <= |t| <= MaxLength
    && (forall i :: 0 <= i < |t| ==> IsTokenChar(t[i]))
    && !IsSeparator(t[0])
    && !IsSeparator(t[|t| - 1])
  }

  lemma ToLowerFacts(c: char)
    ensures ToLower(ToLower(c)) == ToLower(c)
    ensures IsLetter(ToLower(c)) <==> IsLetter(c)
    ensures IsKept(c) ==> IsKept(ToLower(c))
    ensures IsKept(ToLower(c)) ==> IsTokenChar(ToLower(c))
    ensures IsTokenChar(c) ==> ToLower(c) == c && !IsWhitespace(c) && IsKept(c)
    ensures IsLetter(c) ==> IsTokenChar(ToLower(c)) && !IsSeparator(ToLower(c))
    ensures !IsKept(c) ==> ToLower(c) == c
  {
  }

  // ---------------------------------------------------------------------------
  // The string steps
  // ---------------------------------------------------------------------------

  /** `r` is the slice of `s` that starts at index `k`. */
  predicate SliceAt(r: string, s: string, k: int) {
    0 <= k <= |s| - |r| && r == s[k..k + |r|]
  }

  /** The first index at or after `i` whose character `p` rejects, or |s|. */
  function SkipForward(s: string, i: nat, p: char -> bool): (j: nat)
    requires i <= |s|
    ensures i <= j <= |s|
    ensures forall k :: i <= k < j ==> p(s[k])
    ensures j < |s| ==> !p(s[j])
    decreases |s| - i
  {
    if i < |s| && p(s[i]) then SkipForward(s, i + 1, p) else i
  }

  /** The least `e`, down to `lo`, such that `p` accepts every character in [e, j). */
  function SkipBackward(s: string, lo: nat, j: nat, p: char -> bool): (e: nat)
    requires lo <= j <= |s|
    ensures lo <= e <= j
    ensures forall k :: e <= k < j ==> p(s[k])
    ensures e > lo ==> !p(s[e - 1])
    decreases j
  {
    if j > lo && p(s[j - 1]) then SkipBackward(s, lo, j - 1, p) else j
  }

  /** Where the trimmed text starts: the number of leading whitespace characters. */
  function TrimStart(s: string): nat
    ensures TrimStart(s) <= |s|
  {
    SkipForward(s, 0, IsWhitespace)
  }

  /** `String.prototype.trim`: drops leading and trailing whitespace. */
  function Trim(s: string): (r: string)
    ensures r == [] || (!IsWhitespace(r[0]) && !IsWhitespace(r[|r| - 1]))
  {
    var a := TrimStart(s);
    s[a..SkipBackward(s, a, |s|, IsWhitespace)]
  }

  /** Trim returns a slice of its argument; what it drops is whitespace. */
  lemma TrimIsSlice(s: string)
    ensures SliceAt(Trim(s), s, TrimStart(s))
    ensures forall k :: 0 <= k < TrimStart(s) ==> IsWhitespace(s[k])
    ensures forall k :: TrimStart(s) + |Trim(s)| <= k < |s| ==> IsWhitespace(s[k])
  {
  }

  /** `String.prototype.toLowerCase`, one character at a time. */
  function Lower(s: string): (r: string)
    ensures |r| == |s| && forall i :: 0 <= i < |s| ==> r[i] == ToLower(s[i])
  {
    seq(|s|, i requires 0 <= i < |s| => ToLower(s[i]))
  }

  /** `replace(/[^\p{L}'-]+/gu, ' ')`: every maximal run of characters that are
      neither letters nor separators becomes one space. The space is emitted at
      the last character of the run. */
  function Collapse(s: string): string {
    if s == [] then []
    else if IsKept(s[0]) then [s[0]] + Collapse(s[1..])
    else if |s| > 1 && !IsKept(s[1]) then Collapse(s[1..])
    else [' '] + Collapse(s[1..])
  }

  /** The letters and separators of `s`, in order. */
  function KeptOf(s: string): string {
    if s == [] then [] else if IsKept(s[0]) then [s[0]] + KeptOf(s[1..]) else KeptOf(s[1..])
  }

  /** What Collapse makes of `s`: its letters and separators are those of `s`, in
      order; every other character is a single space, followed by a letter or a
      separator unless it is the last; it is never longer than `s`. */
  lemma {:induction false} CollapseShape(s: string)
    ensures var r := Collapse(s);
            && |r| <= |s| && KeptOf(r) == KeptOf(s)
            && (forall i :: 0 <= i < |r| ==> IsKept(r[i]) || r[i] == ' ')
            && (forall i :: 0 <= i < |r| - 1 ==> r[i] == ' ' ==> IsKept(r[i + 1]))
            && (s != [] && IsKept(s[0]) ==> r != [] && r[0] == s[0])
    decreases |s|
  {
    if s != [] {
      CollapseShape(s[1..]);
      var t := Collapse(s[1..]);
      if IsKept(s[0]) {
        assert Collapse(s) == [s[0]] + t;
        assert ([s[0]] + t)[1..] == t;
      } else if |s| > 1 && !IsKept(s[1]) {
        assert Collapse(s) == t;
      } else {
        assert Collapse(s) == [' '] + t;
        assert ([' '] + t)[1..] == t;
      }
    }
  }

  predicate IsNotWhitespace(c: char) {
    !IsWhitespace(c)
  }

  /** `split(/\s+/)[0]`: everything before the first whitespace character. */
  function FirstSegment(s: string): (r: string)
    ensures |r| <= |s| && r == s[..|r|]
    ensures forall i :: 0 <= i < |r| ==> !IsWhitespace(r[i])
    ensures |r| < |s| ==> IsWhitespace(s[|r|])
  {
    s[..SkipForward(s, 0, IsNotWhitespace)]
  }

  /** `if (word.includes(' ')) word = word.split(/\s+/)[0]`. */
  function Segment(s: string): (r: string)
    ensures ' ' !in s ==> r == s
    ensures ' ' in s ==> && |r| < |s| && r == s[..|r|] && IsWhitespace(s[|r|])
                         && forall i :: 0 <= i < |r| ==> !IsWhitespace(r[i])
  {
    if ' ' in s then FirstSegment(s) else s
  }

  /** Where the stripped text starts: the number of leading apostrophes and hyphens. */
  function StripStart(s: string): nat
    ensures StripStart(s) <= |s|
  {
    SkipForward(s, 0, IsSeparator)
  }

  /** `replace(/^['-]+|['-]+$/g, '')`: drops leading and trailing apostrophes and hyphens. */
  function StripSeparators(s: string): (r: string)
    ensures r == [] || (!IsSeparator(r[0]) && !IsSeparator(r[|r| - 1]))
  {
    var a := StripStart(s);
    s[a..SkipBackward(s, a, |s|, IsSeparator)]
  }

  /** StripSeparators returns a slice of its argument; what it drops is separators. */
  lemma StripIsSlice(s: string)
    ensures SliceAt(StripSeparators(s), s, StripStart(s))
    ensures forall k :: 0 <= k < StripStart(s) ==> IsSeparator(s[k])
    ensures forall k :: StripStart(s) + |StripSeparators(s)| <= k < |s| ==> IsSeparator(s[k])
  {
  }

  /** The steps after lower-casing: collapse, trim, first segment, strip, length check. */
  function Finish(lowered: string): (r: string)
    ensures r == [] || (MinLength <= |r| <= MaxLength && !IsSeparator(r[0]) && !IsSeparator(r[|r| - 1]))
  {
    var w := StripSeparators(Segment(Trim(Collapse(lowered))));
    if |w| < MinLength || |w| > MaxLength then [] else w
  }

  /** `normalizeSelectedWord`: the lookup token of a selection, or "" for none.
      A non-empty result is a token: 2..45 lower-case letters, apostrophes and
      hyphens, neither starting nor ending with a separator. */
  function Normalize(raw: string): (r: string)
    ensures r == [] || IsToken(r)
  {
    if raw == [] then []
    else
      LoweredKeptAreTokenChars(Trim(raw));
      FinishShape(Lower(Trim(raw)));
      Finish(Lower(Trim(raw)))
  }

  // ---------------------------------------------------------------------------
  // Proofs behind Normalize's contract
  // ---------------------------------------------------------------------------

  /** Every character of `s` has property `p`. */
  predicate All(s: string, p: char -> bool) {
    forall i :: 0 <= i < |s| ==> p(s[i])
  }

  predicate SpaceOrTokenChar(c: char) {
    c == ' ' || IsTokenChar(c)
  }

  predicate KeptIsTokenChar(c: char) {
    IsKept(c) ==> IsTokenChar(c)
  }

  /** A slice keeps every property that holds of all the characters. */
  lemma SliceAll(r: string, s: string, k: int, p: char -> bool)
    requires SliceAt(r, s, k) && All(s, p)
    ensures All(r, p)
  {
    forall i | 0 <= i < |r| ensures p(r[i]) {
      assert r[i] == s[k + i];
    }
  }

  /** Collapse adds only spaces to the letters and separators of its input. */
  lemma {:induction false} CollapseAll(s: string, p: char -> bool)
    requires p(' ')
    requires forall i :: 0 <= i < |s| ==> IsKept(s[i]) ==> p(s[i])
    ensures All(Collapse(s), p)
  {
    if s != [] {
      CollapseAll(s[1..], p);
      if IsKept(s[0]) {
        assert Collapse(s) == [s[0]] + Collapse(s[1..]);
      } else if |s| > 1 && !IsKept(s[1]) {
        assert Collapse(s) == Collapse(s[1..]);
      } else {
        assert Collapse(s) == [' '] + Collapse(s[1..]);
      }
    }
  }

  /** A string of letters and separators passes through Collapse unchanged. */
  lemma {:induction false} CollapseKeepsKept(s: string)
    requires forall i :: 0 <= i < |s| ==> IsKept(s[i])
    ensures Collapse(s) == s
  {
    if s != [] {
      CollapseKeepsKept(s[1..]);
      assert [s[0]] + s[1..] == s;
    }
  }

  /** The segment is a prefix; when the input's only whitespace is the space,
      the segment holds only its token characters. */
  lemma SegmentShape(t: string)
    ensures SliceAt(Segment(t), t, 0)
    ensures All(t, SpaceOrTokenChar) ==> All(Segment(t), IsTokenChar)
  {
    var g := Segment(t);
    if All(t, SpaceOrTokenChar) {
      forall i | 0 <= i < |g| ensures IsTokenChar(g[i]) {
        assert g[i] == t[i];
        if ' ' in t {
          assert !IsWhitespace(g[i]);
        }
      }
    }
  }

  /** The chain of Finish keeps every property of the characters that also
      holds of the space. */
  lemma FinishAll(lowered: string, p: char -> bool)
    requires p(' ')
    requires forall i :: 0 <= i < |lowered| ==> IsKept(lowered[i]) ==> p(lowered[i])
    ensures All(Finish(lowered), p)
  {
    var c := Collapse(lowered);
    CollapseAll(lowered, p);
    var t := Trim(c);
    TrimIsSlice(c);
    SliceAll(t, c, TrimStart(c), p);
    var g := Segment(t);
    SegmentShape(t);
    SliceAll(g, t, 0, p);
    var w := StripSeparators(g);
    StripIsSlice(g);
    SliceAll(w, g, StripStart(g), p);
  }

  /** What Finish makes of a lower-cased string: a token or nothing. */
  lemma FinishShape(lowered: string)
    requires forall i :: 0 <= i < |lowered| ==> KeptIsTokenChar(lowered[i])
    ensures Finish(lowered) == [] || IsToken(Finish(lowered))
  {
    SegmentOfLowered(lowered);
    StripOfTokenChars(Segment(Trim(Collapse(lowered))));
  }

  /** Stripping a string of token characters leaves a token unless the length is wrong. */
  lemma StripOfTokenChars(g: string)
    requires All(g, IsTokenChar)
    ensures var w := StripSeparators(g); MinLength <= |w| <= MaxLength ==> IsToken(w)
  {
    var w := StripSeparators(g);
    StripIsSlice(g);
    SliceAll(w, g, StripStart(g), IsTokenChar);
  }

  /** Up to the first segment, a lower-cased string holds only token characters. */
  lemma SegmentOfLowered(lowered: string)
    requires forall i :: 0 <= i < |lowered| ==> KeptIsTokenChar(lowered[i])
    ensures All(Segment(Trim(Collapse(lowered))), IsTokenChar)
  {
    TrimmedCollapse(lowered);
    SegmentShape(Trim(Collapse(lowered)));
  }

  /** After collapsing and trimming, only spaces and token characters remain. */
  lemma TrimmedCollapse(lowered: string)
    requires forall i :: 0 <= i < |lowered| ==> KeptIsTokenChar(lowered[i])
    ensures All(Trim(Collapse(lowered)), SpaceOrTokenChar)
  {
    var c := Collapse(lowered);
    CollapseAll(lowered, SpaceOrTokenChar);
    TrimIsSlice(c);
    SliceAll(Trim(c), c, TrimStart(c), SpaceOrTokenChar);
  }

  /** Lower-cased characters that are kept are token characters. */
  lemma LoweredKeptAreTokenChars(s: string)
    ensures forall i :: 0 <= i < |Lower(s)| ==> KeptIsTokenChar(Lower(s)[i])
  {
    forall i | 0 <= i < |s| ensures KeptIsTokenChar(Lower(s)[i]) {
      ToLowerFacts(s[i]);
    }
  }

  /** A token passes through every step of Finish unchanged. */
  lemma FinishFixesTokens(t: string)
    requires IsToken(t)
    ensures Finish(t) == t
  {
    TokenSurvivesCollapseTrim(t);
    assert ' ' !in t by { TokenHasNoWhitespace(t); }
    assert Segment(t) == t;
    StripKeepsUnseparated(t);
  }

  lemma TokenSurvivesCollapseTrim(t: string)
    requires IsToken(t)
    ensures Trim(Collapse(t)) == t
  {
    TokenCharsAreKept(t);
    CollapseKeepsKept(t);
    ToLowerFacts(t[0]);
    ToLowerFacts(t[|t| - 1]);
    TrimKeepsUntrimmed(t);
  }

  /** A token is its own lower-cased, trimmed form. */
  lemma TokenIsLowerTrimmed(t: string)
    requires IsToken(t)
    ensures Lower(Trim(t)) == t
  {
    forall i | 0 <= i < |t| ensures ToLower(t[i]) == t[i] && !IsWhitespace(t[i]) {
      ToLowerFacts(t[i]);
    }
    TrimKeepsUntrimmed(t);
    assert Lower(t) == t;
  }

  // ---------------------------------------------------------------------------
  // Properties of Normalize
  // ---------------------------------------------------------------------------

  /** A valid token normalises to itself. */
  lemma NormalizeFixesTokens(t: string)
    requires IsToken(t)
    ensures Normalize(t) == t
  {
    TokenIsLowerTrimmed(t);
    FinishFixesTokens(t);
  }

  /** Normalising twice gives what normalising once gives. */
  lemma NormalizeIdempotent(raw: string)
    ensures Normalize(Normalize(raw)) == Normalize(raw)
  {
    if Normalize(raw) != [] {
      NormalizeFixesTokens(Normalize(raw));
    }
  }

  /** A token holds no whitespace at all, so in particular no space. */
  lemma TokenHasNoWhitespace(t: string)
    requires IsToken(t)
    ensures forall i :: 0 <= i < |t| ==> !IsWhitespace(t[i])
  {
    forall i | 0 <= i < |t| ensures !IsWhitespace(t[i]) {
      ToLowerFacts(t[i]);
    }
  }

  /** A selection without a single letter (only whitespace and punctuation,
      apostrophes and hyphens included) yields no token. */
  lemma NoLetterNoToken(raw: string)
    requires forall i :: 0 <= i < |raw| ==> !IsLetter(raw[i])
    ensures Normalize(raw) == []
  {
    if raw != [] {
      var t := Trim(raw);
      TrimIsSlice(raw);
      SliceAll(t, raw, TrimStart(raw), c => !IsLetter(c));
      forall i | 0 <= i < |t| ensures !IsLetter(Lower(t)[i]) {
        ToLowerFacts(t[i]);
      }
      FinishAll(Lower(t), c => !IsLetter(c));
    }
  }

  /** A selection that is one word of 2..45 letters yields that word lower-cased. */
  lemma SingleWordIsLowered(raw: string)
    requires MinLength <= |raw| <= MaxLength
    requires forall i :: 0 <= i < |raw| ==> IsLetter(raw[i])
    ensures Normalize(raw) == Lower(raw)
  {
    NormalizeUnfold(raw);
    LowerTrimOfWord(raw);
    FinishOfWord(raw);
  }

  lemma NormalizeUnfold(raw: string)
    requires raw != []
    ensures Normalize(raw) == Finish(Lower(Trim(raw)))
  {
  }

  lemma LowerTrimOfWord(raw: string)
    requires forall i :: 0 <= i < |raw| ==> IsLetter(raw[i])
    ensures Lower(Trim(raw)) == Lower(raw)
  {
    TrimKeepsUntrimmed(raw);
  }

  lemma FinishOfWord(raw: string)
    requires MinLength <= |raw| <= MaxLength
    requires forall i :: 0 <= i < |raw| ==> IsLetter(raw[i])
    ensures Finish(Lower(raw)) == Lower(raw)
  {
    LoweredWordIsToken(raw);
    FinishFixesTokens(Lower(raw));
  }

  /** A word of 2..45 letters, lower-cased, is a token. */
  lemma LoweredWordIsToken(raw: string)
    requires MinLength <= |raw| <= MaxLength
    requires forall i :: 0 <= i < |raw| ==> IsLetter(raw[i])
    ensures IsToken(Lower(raw))
  {
    var t := Lower(raw);
    forall i | 0 <= i < |t| ensures IsTokenChar(t[i]) && !IsSeparator(t[i]) {
      ToLowerFacts(raw[i]);
    }
  }

  /** A string that neither starts nor ends with whitespace is its own trim. */
  lemma TrimKeepsUntrimmed(s: string)
    requires s == [] || (!IsWhitespace(s[0]) && !IsWhitespace(s[|s| - 1]))
    ensures Trim(s) == s
  {
    assert s[0..|s|] == s;
  }

  // ---------------------------------------------------------------------------
  // Only the first word of a multi-word selection is looked up
  // ---------------------------------------------------------------------------

  /** A word whose lower case is a token ("hello", "Hello", "O'Brien"), followed
      by any text that does not go on with a letter, an apostrophe or a hyphen (a
      space, a comma, a line break, ...), yields that token: whatever follows is
      replaced, trimmed or cut off at the first space. */
  lemma FirstWordOnly(w: string, rest: string)
    requires IsToken(Lower(w))
    requires rest == [] || !IsKept(rest[0])
    ensures Normalize(w + rest) == Lower(w)
  {
    LowerTrimAfterToken(w, rest);
    var k := |Trim(w + rest)| - |w|;
    var v := Lower(rest[..k]);
    LoweredUnkeptStart(rest, k);
    FinishAfterToken(Lower(w), v);
    NormalizeThrough(w + rest, Lower(w) + v);
  }

  /** Normalize is Finish of whatever the trimmed, lower-cased text is. */
  lemma NormalizeThrough(raw: string, lowered: string)
    requires raw != [] && Lower(Trim(raw)) == lowered
    ensures Normalize(raw) == Finish(lowered)
  {
  }

  /** Lower-casing a prefix of text that starts with a replaced character keeps
      that character in front. */
  lemma LoweredUnkeptStart(rest: string, k: nat)
    requires rest == [] || !IsKept(rest[0])
    requires k <= |rest|
    ensures Lower(rest[..k]) == [] || !IsKept(Lower(rest[..k])[0])
  {
    if k > 0 {
      assert rest[..k][0] == rest[0];
      ToLowerFacts(rest[0]);
    }
  }

  /** Trimming and lower-casing a word whose lower case is a token, followed by
      other text, gives the token in front and a lower-cased prefix of the text
      behind it. */
  lemma LowerTrimAfterToken(w: string, rest: string)
    requires IsToken(Lower(w))
    ensures |w| <= |Trim(w + rest)| <= |w + rest|
    ensures Lower(Trim(w + rest)) == Lower(w) + Lower(rest[..|Trim(w + rest)| - |w|])
  {
    LoweredTokenHasNoWhitespace(w);
    TrimAfterWord(w, rest);
    var y := rest[..|Trim(w + rest)| - |w|];
    LowerAppend(w, y);
  }

  /** A word whose lower case is a token holds no whitespace. */
  lemma LoweredTokenHasNoWhitespace(w: string)
    requires IsToken(Lower(w))
    ensures w != [] && forall i :: 0 <= i < |w| ==> !IsWhitespace(w[i])
  {
    forall i | 0 <= i < |w| ensures !IsWhitespace(w[i]) {
      assert Lower(w)[i] == ToLower(w[i]);
      ToLowerFacts(w[i]);
      ToLowerFacts(ToLower(w[i]));
    }
  }

  /** Finish of a token followed by text that starts with a character that is
      neither a letter nor a separator is the token. */
  lemma FinishAfterToken(w: string, v: string)
    requires IsToken(w)
    requires v == [] || !IsKept(v[0])
    ensures Finish(w + v) == w
  {
    TokenHasNoWhitespace(w);
    TokenCharsAreKept(w);
    CollapseKeptPrefix(w, v);
    CollapseOfUnkeptStart(v);
    var c := Collapse(v);
    TrimAfterWord(w, c);
    SegmentAfterWord(w, c[..|Trim(w + c)| - |w|]);
    StripKeepsUnseparated(w);
  }

  /** Trimming text that starts with a word without whitespace keeps the word
      and cuts what follows to a prefix. */
  lemma TrimAfterWord(w: string, x: string)
    requires w != [] && forall i :: 0 <= i < |w| ==> !IsWhitespace(w[i])
    ensures |w| <= |Trim(w + x)| <= |w + x|
    ensures Trim(w + x) == w + x[..|Trim(w + x)| - |w|]
  {
    var s := w + x;
    assert s[0] == w[0];
    assert TrimStart(s) == 0;
    var e := SkipBackward(s, 0, |s|, IsWhitespace);
    assert !IsWhitespace(s[|w| - 1]) by { assert s[|w| - 1] == w[|w| - 1]; }
    assert |w| <= e;
    assert s[0..e] == w + x[..e - |w|];
  }

  /** Collapsing text that starts with a replaced character starts with the space. */
  lemma {:induction false} CollapseOfUnkeptStart(v: string)
    requires v == [] || !IsKept(v[0])
    ensures Collapse(v) == [] || Collapse(v)[0] == ' '
    decreases |v|
  {
    if |v| > 1 && !IsKept(v[1]) {
      CollapseOfUnkeptStart(v[1..]);
    }
  }

  /** The first segment of a word without whitespace, followed by nothing or by a
      space and more, is the word. */
  lemma SegmentAfterWord(w: string, z: string)
    requires forall i :: 0 <= i < |w| ==> !IsWhitespace(w[i])
    requires z == [] || z[0] == ' '
    ensures Segment(w + z) == w
  {
    if z == [] {
      assert w + z == w;
      assert ' ' !in w;
    } else {
      assert (w + z)[|w|] == ' ';
      FirstSegmentOfWord(w, z);
    }
  }

  /** A token is its own lower case. */
  lemma TokenIsLowercase(t: string)
    requires IsToken(t)
    ensures Lower(t) == t
  {
    forall i | 0 <= i < |t| ensures ToLower(t[i]) == t[i] {
      ToLowerFacts(t[i]);
    }
    LowerKeepsLowercase(t);
  }

  /** Selecting "hello world" looks up "hello". */
  lemma ExampleFirstWord()
    ensures Normalize("hello world") == "hello"
  {
    assert "hello world" == "hello" + " world";
    TokenIsLowercase("hello");
    FirstWordOnly("hello", " world");
  }

  /** Selecting "hello, World" looks up "hello". */
  lemma ExamplePunctuatedFirstWord()
    ensures Normalize("hello, World") == "hello"
  {
    assert "hello, World" == "hello" + ", World";
    TokenIsLowercase("hello");
    FirstWordOnly("hello", ", World");
  }

  /** Selecting "Hello world" looks up "hello". */
  lemma ExampleCapitalisedFirstWord()
    ensures Normalize("Hello world") == "hello"
  {
    assert "Hello world" == "Hello" + " world";
    assert Lower("Hello") == "hello";
    FirstWordOnly("Hello", " world");
  }

  /** Selecting "--a--" looks up nothing: one letter is left once the hyphens go. */
  lemma ExampleSeparatorsOnly()
    ensures Normalize("--a--") == []
  {
    NormalizeUnfold("--a--");
    DashesUnchanged();
    DashesStrip();
    FinishOfClean("--a--");
  }

  lemma DashesUnchanged()
    ensures Trim("--a--") == "--a--" && Lower("--a--") == "--a--" && Collapse("--a--") == "--a--"
  {
    TrimKeepsUntrimmed("--a--");
    LowerKeepsLowercase("--a--");
    CollapseKeepsKept("--a--");
  }

  lemma DashesStrip()
    ensures Segment("--a--") == "--a--" && StripSeparators("--a--") == "a"
  {
  }

  /** Finish of a string that collapsing, trimming and segmenting leave alone. */
  lemma FinishOfClean(s: string)
    requires Collapse(s) == s && Trim(s) == s && Segment(s) == s
    ensures Finish(s) == if MinLength <= |StripSeparators(s)| <= MaxLength then StripSeparators(s) else []
  {
  }

  lemma TokenCharsAreKept(t: string)
    requires forall i :: 0 <= i < |t| ==> IsTokenChar(t[i])
    ensures forall i :: 0 <= i < |t| ==> IsKept(t[i])
  {
    forall i | 0 <= i < |t| ensures IsKept(t[i]) { ToLowerFacts(t[i]); }
  }

  /** A string of characters that toLowerCase leaves alone is its own lower case. */
  lemma LowerKeepsLowercase(s: string)
    requires forall i :: 0 <= i < |s| ==> ToLower(s[i]) == s[i]
    ensures Lower(s) == s
  {
  }

  /** Lower-casing works character by character, so it distributes over concatenation. */
  lemma LowerAppend(a: string, b: string)
    ensures Lower(a + b) == Lower(a) + Lower(b)
  {
  }

  /** A string that neither starts nor ends with a separator is its own strip. */
  lemma StripKeepsUnseparated(s: string)
    requires s == [] || (!IsSeparator(s[0]) && !IsSeparator(s[|s| - 1]))
    ensures StripSeparators(s) == s
  {
    assert s[0..|s|] == s;
  }

  /** A run of kept characters passes through Collapse unchanged. */
  lemma {:induction false} CollapseKeptPrefix(a: string, b: string)
    requires forall i :: 0 <= i < |a| ==> IsKept(a[i])
    ensures Collapse(a + b) == a + Collapse(b)
  {
    if a != [] {
      var s := a + b;
      assert s[0] == a[0] && s[1..] == a[1..] + b;
      CollapseKeptHead(s);
      CollapseKeptPrefix(a[1..], b);
      assert [a[0]] + (a[1..] + Collapse(b)) == a + Collapse(b);
    } else {
      assert a + b == b;
    }
  }

  /** Collapse copies a leading letter or separator. */
  lemma CollapseKeptHead(s: string)
    requires s != [] && IsKept(s[0])
    ensures Collapse(s) == [s[0]] + Collapse(s[1..])
  {
  }

  /** The first segment of a word followed by whitespace is the word. */
  lemma FirstSegmentOfWord(a: string, b: string)
    requires forall i :: 0 <= i < |a| ==> !IsWhitespace(a[i])
    requires b != [] && IsWhitespace(b[0])
    ensures FirstSegment(a + b) == a
  {
    var s := a + b;
    assert s[|a|] == b[0] && s[..|a|] == a;
  }

}
