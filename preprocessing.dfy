/**
  The Turkish text normaliser: case folding that keeps dotted and dotless I
  apart, a character filter, whitespace collapsing, and the word tokeniser
  built on top of it.
*/
module Preprocessing {

  /** Python's `str.isspace()`: the characters `str.strip()` removes and `\s` matches in a str pattern. */
  predicate IsSpace(c: char) {
    c == ' ' || ('\t' <= c <= '\r') || ('\U{1c}' <= c <= '\U{1f}') || c == '\U{85}' || c == '\U{a0}'
    || c == '\U{1680}' || ('\U{2000}' <= c <= '\U{200a}') || c == '\U{2028}' || c == '\U{2029}'
    || c == '\U{202f}' || c == '\U{205f}' || c == '\U{3000}'
  }

  /** The letters and digits the normaliser keeps: `a-z0-9çğıöşü`. */
  predicate IsWordChar(c: char) {
    ('a' <= c <= 'z') || ('0' <= c <= '9')
    || c == 'ç' || c == 'ğ' || c == 'ı' || c == 'ö' || c == 'ş' || c == 'ü'
  }

  /** The alphabet of normalised text: word characters and the plain space. */
  predicate IsOutputChar(c: char) {
    IsWordChar(c) || c == ' '
  }

  predicate AllOutputChars(s: string) {
    forall i :: 0 <= i < |s| ==> IsOutputChar(s[i])
  }

  /**
    The shape every normalised string has: only output characters, no
    space at either end, and never two spaces in a row.
  */
  predicate IsNormalized(s: string) {
    && AllOutputChars(s)
    && (s != [] ==> s[0] != ' ' && s[|s| - 1] != ' ')
    && (forall i :: 0 <= i < |s| - 1 ==> s[i] != ' ' || s[i + 1] != ' ')
  }

  /**
    The Unicode library calls the normaliser makes: NFKC normalisation of a
    string, and `str.lower()` as a map on single characters (the one
    character whose lower case is two characters, U+0130, is removed by the
    Turkish map before `lower()` runs).
  */
  datatype UnicodeLibrary = UnicodeLibrary(nfkc: string -> string, lower: char -> char)

  /**
    What the normaliser relies on from the library: NFKC leaves text over the
    output alphabet alone, and lower-casing leaves the output characters alone.
  */
  ghost predicate Faithful(u: UnicodeLibrary) {
    && (forall s :: AllOutputChars(s) ==> u.nfkc(s) == s)
    && (forall c :: IsOutputChar(c) ==> u.lower(c) == c)
  }

  /** `str.lstrip()`: drops the leading whitespace. */
  function StripStart(s: string): (r: string)
    ensures |r| <= |s| && r == s[|s| - |r|..]
    ensures r == [] || !IsSpace(r[0])
  {
    if s != [] && IsSpace(s[0]) then StripStart(s[1..]) else s
  }

  /** `str.rstrip()`: drops the trailing whitespace. */
  function StripEnd(s: string): (r: string)
    ensures |r| <= |s| && r == s[..|r|]
    ensures r == [] || !IsSpace(r[|r| - 1])
  {
    if s != [] && IsSpace(s[|s| - 1]) then StripEnd(s[..|s| - 1]) else s
  }

  /** What `str.lstrip()` drops is whitespace. */
  lemma {:induction false} StripStartDropsSpaces(s: string)
    ensures forall i :: 0 <= i < |s| - |StripStart(s)| ==> IsSpace(s[i])
  {
    if s != [] && IsSpace(s[0]) {
      StripStartDropsSpaces(s[1..]);
      assert forall i :: 0 < i < |s| ==> s[i] == s[1..][i - 1];
    }
  }

  /** What `str.rstrip()` drops is whitespace. */
  lemma {:induction false} StripEndDropsSpaces(s: string)
    ensures forall i :: |StripEnd(s)| <= i < |s| ==> IsSpace(s[i])
  {
    if s != [] && IsSpace(s[|s| - 1]) {
      StripEndDropsSpaces(s[..|s| - 1]);
    }
  }

  /** A string of whitespace only strips to nothing. */
  lemma {:induction false} StripBlank(s: string)
    requires forall i :: 0 <= i < |s| ==> IsSpace(s[i])
    ensures Strip(s) == []
  {
    if s != [] {
      StripBlank(s[1..]);
      assert StripStart(s) == StripStart(s[1..]);
    }
  }

  /** `str.strip()`: a slice of its input with no whitespace at either end. */
  function Strip(s: string): (r: string)
    ensures |r| <= |s|
    ensures r != [] ==> !IsSpace(r[0]) && !IsSpace(r[|r| - 1])
  {
    var a := StripStart(s);
    assert StripEnd(a) == a[..|StripEnd(a)|];
    StripEnd(a)
  }

  /** `TURKISH_LOWER_MAP`: capital dotless I folds to dotless ı, capital dotted İ to i. */
  function TurkishLower(c: char): (r: char)
    ensures r != c ==> c == 'I' || c == 'İ'
    ensures c == 'I' || c == 'İ' ==> IsWordChar(r)
  {
    if c == 'I' then 'ı' else if c == 'İ' then 'i' else c
  }

  /** `translate(TURKISH_LOWER_MAP).lower()`. */
  function CaseFold(u: UnicodeLibrary, s: string): (r: string)
    ensures |r| == |s|
  {
    seq(|s|, i requires 0 <= i < |s| => u.lower(TurkishLower(s[i])))
  }

  /**
    Under a faithful library, folding sends every I to ı and every İ to i in
    place, keeps the output characters, and lower-cases every other character.
  */
  lemma CaseFoldMaps(u: UnicodeLibrary, s: string)
    requires Faithful(u)
    ensures forall i :: 0 <= i < |s| && s[i] == 'I' ==> CaseFold(u, s)[i] == 'ı'
    ensures forall i :: 0 <= i < |s| && s[i] == 'İ' ==> CaseFold(u, s)[i] == 'i'
    ensures forall i :: 0 <= i < |s| && IsOutputChar(s[i]) ==> CaseFold(u, s)[i] == s[i]
    ensures forall i :: 0 <= i < |s| && s[i] != 'I' && s[i] != 'İ' ==> CaseFold(u, s)[i] == u.lower(s[i])
  {
    var r := CaseFold(u, s);
    forall i | 0 <= i < |s|
      ensures s[i] == 'I' ==> r[i] == 'ı'
      ensures s[i] == 'İ' ==> r[i] == 'i'
      ensures IsOutputChar(s[i]) ==> r[i] == s[i]
      ensures s[i] != 'I' && s[i] != 'İ' ==> r[i] == u.lower(s[i])
    {
      assert r[i] == u.lower(TurkishLower(s[i]));
      assert IsOutputChar('ı') && IsOutputChar('i');
    }
  }

  /** `replace("i̇", "i")`: an i followed by a combining dot above becomes a plain i. */
  function CollapseDottedI(s: string): (r: string)
    ensures |r| <= |s|
  {
    if s == [] then []
    else if |s| >= 2 && s[0] == 'i' && s[1] == '\U{0307}' then "i" + CollapseDottedI(s[2..])
    else [s[0]] + CollapseDottedI(s[1..])
  }

  /** Position `k` of `s` holds a combining dot above (U+0307) directly after an i. */
  predicate DotAfterI(s: string, k: int) {
    0 < k < |s| && s[k] == '\U{0307}' && s[k - 1] == 'i'
  }

  /**
    `s` with exactly the combining dots that directly follow an i removed,
    every other character kept in order (built from the right end).
  */
  function DropDotsAfterI(s: string): string
    decreases |s|
  {
    if s == [] then []
    else DropDotsAfterI(s[..|s| - 1]) + (if DotAfterI(s, |s| - 1) then [] else [s[|s| - 1]])
  }

  /** Appending a character to the input appends it to the output unless it is a dot after an i. */
  lemma {:induction false} CollapseDottedISnoc(s: string, c: char)
    ensures CollapseDottedI(s + [c]) == CollapseDottedI(s) + DotTail(s, c)
    decreases |s|, 1
  {
    if s == [] {
      assert s + [c] == [c];
    } else if |s| == 1 {
      CollapseDottedITwo(s[0], c);
      assert s + [c] == [s[0], c];
    } else if s[0] == 'i' && s[1] == '\U{0307}' {
      CollapseDottedISnocPair(s, c);
    } else {
      CollapseDottedISnocPlain(s, c);
    }
  }

  lemma {:induction false} CollapseDottedISnocPair(s: string, c: char)
    requires |s| >= 2 && s[0] == 'i' && s[1] == '\U{0307}'
    ensures CollapseDottedI(s + [c]) == CollapseDottedI(s) + DotTail(s, c)
    decreases |s|, 0
  {
    var rest := s[2..];
    CollapseDottedIPair(s, c);
    CollapseDottedISnoc(rest, c);
    assert DotTail(rest, c) == DotTail(s, c);
    assert "i" + (CollapseDottedI(rest) + DotTail(s, c)) == ("i" + CollapseDottedI(rest)) + DotTail(s, c);
  }

  lemma {:induction false} CollapseDottedISnocPlain(s: string, c: char)
    requires |s| >= 2 && !(s[0] == 'i' && s[1] == '\U{0307}')
    ensures CollapseDottedI(s + [c]) == CollapseDottedI(s) + DotTail(s, c)
    decreases |s|, 0
  {
    var rest := s[1..];
    CollapseDottedIPlain(s, c);
    CollapseDottedISnoc(rest, c);
    assert DotTail(rest, c) == DotTail(s, c);
    assert [s[0]] + (CollapseDottedI(rest) + DotTail(s, c)) == ([s[0]] + CollapseDottedI(rest)) + DotTail(s, c);
  }

  /** What appending `c` to `s` adds to the replacement's output: nothing when `c` is a dot after an i. */
  function DotTail(s: string, c: char): string {
    if s != [] && s[|s| - 1] == 'i' && c == '\U{0307}' then [] else [c]
  }

  lemma CollapseDottedITwo(a: char, c: char)
    ensures CollapseDottedI([a, c]) == [a] + (if a == 'i' && c == '\U{0307}' then [] else [c])
    ensures CollapseDottedI([a]) == [a]
  {
    assert [a, c][1..] == [c] && [a, c][2..] == [];
  }

  lemma CollapseDottedIPlain(s: string, c: char)
    requires |s| >= 2 && !(s[0] == 'i' && s[1] == '\U{0307}')
    ensures CollapseDottedI(s + [c]) == [s[0]] + CollapseDottedI(s[1..] + [c])
    ensures CollapseDottedI(s) == [s[0]] + CollapseDottedI(s[1..])
    ensures s[1..][|s[1..]| - 1] == s[|s| - 1]
  {
    assert (s + [c])[1..] == s[1..] + [c];
  }

  lemma CollapseDottedIPair(s: string, c: char)
    requires |s| >= 2 && s[0] == 'i' && s[1] == '\U{0307}'
    ensures CollapseDottedI(s + [c]) == "i" + CollapseDottedI(s[2..] + [c])
    ensures CollapseDottedI(s) == "i" + CollapseDottedI(s[2..])
    ensures s[2..] != [] ==> s[2..][|s[2..]| - 1] == s[|s| - 1]
  {
    assert (s + [c])[2..] == s[2..] + [c];
  }

  /** The replacement removes the combining dots that follow an i, and nothing else. */
  lemma {:induction false} CollapseDottedIDropsDots(s: string)
    ensures CollapseDottedI(s) == DropDotsAfterI(s)
    decreases |s|
  {
    if s != [] {
      var p := s[..|s| - 1];
      CollapseDottedIDropsDots(p);
      CollapseDottedISnoc(p, s[|s| - 1]);
      assert p + [s[|s| - 1]] == s;
    }
  }

  /** `ALLOWED_CHARS_PATTERN.sub(" ", ...)`: every character outside `[a-z0-9çğıöşü\s]` becomes a space. */
  function MaskDisallowed(s: string): (r: string)
    ensures |r| == |s|
    ensures forall i :: 0 <= i < |r| ==> IsWordChar(r[i]) || IsSpace(r[i])
    ensures forall i :: 0 <= i < |r| && (IsWordChar(s[i]) || IsSpace(s[i])) ==> r[i] == s[i]
    ensures forall i :: 0 <= i < |r| && !(IsWordChar(s[i]) || IsSpace(s[i])) ==> r[i] == ' '
  {
    seq(|s|, i requires 0 <= i < |s| => if IsWordChar(s[i]) || IsSpace(s[i]) then s[i] else ' ')
  }

  /**
    `MULTI_SPACE_PATTERN.sub(" ", ...)`: each run of whitespace becomes one
    plain space; `afterSpace` says that the text before `s` ended such a run.
  */
  function CollapseSpaces(s: string, afterSpace: bool): (r: string)
    ensures (forall i :: 0 <= i < |s| ==> IsWordChar(s[i]) || IsSpace(s[i])) ==> AllOutputChars(r)
    ensures forall i :: 0 <= i < |r| - 1 ==> r[i] != ' ' || r[i + 1] != ' '
    ensures afterSpace && r != [] ==> r[0] != ' '
  {
    if s == [] then []
    else if IsSpace(s[0]) then
      if afterSpace then CollapseSpaces(s[1..], true) else " " + CollapseSpaces(s[1..], true)
    else [s[0]] + CollapseSpaces(s[1..], false)
  }

  /** `normalize_text`: the canonical comparable form of a question. */
  function Normalize(u: UnicodeLibrary, text: string): (r: string)
    ensures IsNormalized(r)
  {
    if text == [] then ""
    else
      var folded := CaseFold(u, u.nfkc(Strip(text)));
      var collapsed := CollapseSpaces(MaskDisallowed(CollapseDottedI(folded)), false);
      StripIsNormalized(collapsed);
      Strip(collapsed)
  }

  /**
    The normal form of a non-empty text is its words joined by single
    spaces: the maximal runs of `a-z0-9çğıöşü` in the NFKC-normalised,
    case-folded text with dotted i's collapsed. Every other character, and
    every run of them, separates two words by exactly one space.
  */
  lemma NormalizeIsJoinedWords(u: UnicodeLibrary, text: string)
    requires text != []
    ensures Normalize(u, text) == JoinWords(FindWords(CollapseDottedI(CaseFold(u, u.nfkc(Strip(text))))))
  {
    var folded := CollapseDottedI(CaseFold(u, u.nfkc(Strip(text))));
    var masked := MaskDisallowed(folded);
    var collapsed := CollapseSpaces(masked, false);
    NormalizeSteps(u, text);
    StripIsNormalized(collapsed);
    JoinFindWords(Strip(collapsed));
    StripKeepsWords(collapsed);
    CollapseSpacesKeepsWords(masked, false);
    MaskKeepsWords(folded);
  }

  /** Stripping a collapsed, filtered string leaves a normalised one. */
  lemma StripIsNormalized(s: string)
    requires AllOutputChars(s)
    requires forall i :: 0 <= i < |s| - 1 ==> s[i] != ' ' || s[i + 1] != ' '
    ensures IsNormalized(Strip(s))
  {
    var lo := StripIsSlice(s);
    SliceKeepsShape(s, lo, lo + |Strip(s)|);
  }

  /** `str.strip()` returns a slice of its argument. */
  lemma StripIsSlice(s: string) returns (lo: nat)
    ensures lo + |Strip(s)| <= |s| && Strip(s) == s[lo..lo + |Strip(s)|]
  {
    var a := StripStart(s);
    var r := StripEnd(a);
    lo := |s| - |a|;
    assert a == s[lo..];
    assert r == a[..|r|];
    assert s[lo..][..|r|] == s[lo..lo + |r|];
  }

  /** A slice of a string over the output alphabet without double spaces is one too. */
  lemma SliceKeepsShape(s: string, lo: nat, hi: nat)
    requires lo <= hi <= |s|
    requires AllOutputChars(s)
    requires forall i :: 0 <= i < |s| - 1 ==> s[i] != ' ' || s[i + 1] != ' '
    ensures AllOutputChars(s[lo..hi])
    ensures forall i :: 0 <= i < hi - lo - 1 ==> s[lo..hi][i] != ' ' || s[lo..hi][i + 1] != ' '
  {
    var t := s[lo..hi];
    forall i | 0 <= i < |t| ensures IsOutputChar(t[i]) {
      assert t[i] == s[lo + i];
    }
    forall i | 0 <= i < |t| - 1 ensures t[i] != ' ' || t[i + 1] != ' ' {
      assert t[i] == s[lo + i] && t[i + 1] == s[lo + i + 1];
    }
  }

  /** For a non-empty text, the normaliser is its chain of steps. */
  lemma NormalizeSteps(u: UnicodeLibrary, text: string)
    requires text != []
    ensures Normalize(u, text)
      == Strip(CollapseSpaces(MaskDisallowed(CollapseDottedI(CaseFold(u, u.nfkc(Strip(text))))), false))
  {
  }

  /** A normalised string is a fixed point of every step of the normaliser. */
  lemma {:induction false} NormalizedIsFixedPoint(u: UnicodeLibrary, s: string)
    requires Faithful(u)
    requires IsNormalized(s)
    ensures Normalize(u, s) == s
  {
    if s != [] {
      NormalizeSteps(u, s);
      StripKeepsNormalized(s);
      assert u.nfkc(s) == s;
      CaseFoldKeepsOutput(u, s);
      NoDottedIUnchanged(s);
      MaskKeepsOutput(s);
      CollapseSpacesUnchanged(s, false);
    }
  }

  lemma CaseFoldKeepsOutput(u: UnicodeLibrary, s: string)
    requires Faithful(u)
    requires AllOutputChars(s)
    ensures CaseFold(u, s) == s
  {
    var folded := CaseFold(u, s);
    forall i | 0 <= i < |s| ensures folded[i] == s[i] {
      assert IsOutputChar(s[i]);
      assert TurkishLower(s[i]) == s[i];
    }
  }

  lemma MaskKeepsOutput(s: string)
    requires AllOutputChars(s)
    ensures MaskDisallowed(s) == s
  {
    var masked := MaskDisallowed(s);
    forall i | 0 <= i < |s| ensures masked[i] == s[i] {
      assert IsOutputChar(s[i]);
    }
  }

  lemma StripKeepsNormalized(s: string)
    requires IsNormalized(s)
    ensures Strip(s) == s
  {
    if s != [] {
      assert IsOutputChar(s[0]) && !IsSpace(s[0]);
      assert StripStart(s) == s;
      assert IsOutputChar(s[|s| - 1]) && !IsSpace(s[|s| - 1]);
      assert StripEnd(s) == s;
    }
  }

  lemma {:induction false} NoDottedIUnchanged(s: string)
    requires AllOutputChars(s)
    ensures CollapseDottedI(s) == s
  {
    if s != [] {
      assert IsOutputChar(s[0]);
      if |s| >= 2 {
        assert IsOutputChar(s[1]);
      }
      NoDottedIUnchanged(s[1..]);
      assert [s[0]] + s[1..] == s;
    }
  }

  lemma {:induction false} CollapseSpacesUnchanged(s: string, afterSpace: bool)
    requires AllOutputChars(s)
    requires forall i :: 0 <= i < |s| - 1 ==> s[i] != ' ' || s[i + 1] != ' '
    requires afterSpace && s != [] ==> s[0] != ' '
    ensures CollapseSpaces(s, afterSpace) == s
  {
    if s != [] {
      assert IsOutputChar(s[0]);
      SliceKeepsShape(s, 1, |s|);
      assert s[1..|s|] == s[1..];
      if s[0] == ' ' {
        assert |s| > 1 ==> s[1] != ' ';
        CollapseSpacesUnchanged(s[1..], true);
      } else {
        CollapseSpacesUnchanged(s[1..], false);
      }
      assert [s[0]] + s[1..] == s;
    }
  }

  /** Normalising twice gives what normalising once gives. */
  lemma NormalizeIdempotent(u: UnicodeLibrary, text: string)
    requires Faithful(u)
    ensures Normalize(u, Normalize(u, text)) == Normalize(u, text)
  {
    NormalizedIsFixedPoint(u, Normalize(u, text));
  }

  /** The empty string, and any string made of whitespace only, normalise to "". */
  lemma BlankNormalizesToEmpty(u: UnicodeLibrary, text: string)
    requires Faithful(u)
    requires forall i :: 0 <= i < |text| ==> IsSpace(text[i])
    ensures Normalize(u, text) == ""
  {
    if text != [] {
      NormalizeSteps(u, text);
      StripBlank(text);
      assert AllOutputChars("");
      assert u.nfkc("") == "";
    }
  }

  /** A one-letter text whose letter folds to an output letter normalises to that letter. */
  lemma NormalizeOneLetter(u: UnicodeLibrary, c: char, l: char)
    requires Faithful(u)
    requires u.nfkc([c]) == [c] && !IsSpace(c)
    requires TurkishLower(c) == l && IsWordChar(l)
    ensures Normalize(u, [c]) == [l]
  {
    NormalizeSteps(u, [c]);
    StripOneLetter(c);
    CaseFoldOneLetter(u, c, l);
    OutputLetterUnchanged(l);
  }

  lemma StripOneLetter(c: char)
    requires !IsSpace(c)
    ensures Strip([c]) == [c]
  {
    assert StripStart([c]) == [c];
    assert StripEnd([c]) == [c];
  }

  lemma CaseFoldOneLetter(u: UnicodeLibrary, c: char, l: char)
    requires Faithful(u)
    requires TurkishLower(c) == l && IsWordChar(l)
    ensures CaseFold(u, [c]) == [l]
  {
    assert IsOutputChar(l) && u.lower(l) == l;
    var folded := CaseFold(u, [c]);
    assert folded[0] == l;
  }

  /** A single word character passes the filter, the space collapsing and the strip unchanged. */
  lemma OutputLetterUnchanged(l: char)
    requires IsWordChar(l)
    ensures CollapseDottedI([l]) == [l]
    ensures MaskDisallowed([l]) == [l]
    ensures CollapseSpaces([l], false) == [l]
    ensures Strip([l]) == [l]
  {
    assert CollapseDottedI([l]) == [l];
    MaskKeepsOutput([l]);
    assert CollapseSpaces([l], false) == [l];
    StripOneLetter(l);
  }

  /** Capital dotless I folds to the small dotless ı. */
  lemma CapitalDotlessI(u: UnicodeLibrary)
    requires Faithful(u)
    requires u.nfkc("I") == "I"
    ensures Normalize(u, "I") == "ı"
  {
    NormalizeOneLetter(u, 'I', 'ı');
  }

  /** Capital dotted İ folds to the small dotted i. */
  lemma CapitalDottedI(u: UnicodeLibrary)
    requires Faithful(u)
    requires u.nfkc("İ") == "İ"
    ensures Normalize(u, "İ") == "i"
  {
    NormalizeOneLetter(u, 'İ', 'i');
  }

  /**
    Capital dotless I and capital dotted İ fold to the two different Turkish
    small letters ı and i, whatever the generic lower-casing does to them.
  */
  lemma CapitalIsFoldApart(u: UnicodeLibrary)
    requires Faithful(u)
    requires u.nfkc("I") == "I" && u.nfkc("İ") == "İ"
    ensures Normalize(u, "I") != Normalize(u, "İ")
  {
    CapitalDotlessI(u);
    CapitalDottedI(u);
    assert "ı"[0] != "i"[0];
  }

  /** The length of the run of word characters at the start of `s`. */
  function WordRunLength(s: string): (n: nat)
    ensures n <= |s|
    ensures forall i :: 0 <= i < n ==> IsWordChar(s[i])
    ensures n < |s| ==> !IsWordChar(s[n])
  {
    if s != [] && IsWordChar(s[0]) then 1 + WordRunLength(s[1..]) else 0
  }

  /** A token: a non-empty run of word characters (so it holds no space). */
  predicate IsWord(w: string) {
    w != [] && forall i :: 0 <= i < |w| ==> IsWordChar(w[i])
  }

  /** `WORD_PATTERN.findall`: the maximal runs of word characters, left to right. */
  function FindWords(s: string): (ws: seq<string>)
    ensures forall k :: 0 <= k < |ws| ==> IsWord(ws[k])
    decreases |s|
  {
    if s == [] then []
    else if !IsWordChar(s[0]) then FindWords(s[1..])
    else
      var n := WordRunLength(s);
      [s[..n]] + FindWords(s[n..])
  }

  /** `tokenize`. */
  function Tokenize(u: UnicodeLibrary, text: string): (ws: seq<string>)
    ensures forall k :: 0 <= k < |ws| ==> IsWord(ws[k])
  {
    FindWords(Normalize(u, text))
  }

  /** `" ".join(words)`. */
  function JoinWords(ws: seq<string>): string {
    if ws == [] then ""
    else if |ws| == 1 then ws[0]
    else ws[0] + " " + JoinWords(ws[1..])
  }

  lemma WordCharNotSpace(c: char)
    requires IsWordChar(c)
    ensures !IsSpace(c)
  {
  }

  /** Tokens are never empty and never hold whitespace. */
  lemma TokensAreWords(u: UnicodeLibrary, text: string)
    ensures forall k :: 0 <= k < |Tokenize(u, text)| ==> Tokenize(u, text)[k] != []
    ensures forall k, i :: 0 <= k < |Tokenize(u, text)| && 0 <= i < |Tokenize(u, text)[k]| ==>
      !IsSpace(Tokenize(u, text)[k][i])
  {
    var ws := Tokenize(u, text);
    forall k, i | 0 <= k < |ws| && 0 <= i < |ws[k]| ensures !IsSpace(ws[k][i]) {
      WordCharNotSpace(ws[k][i]);
    }
  }

  /** What follows a space inside a normalised string is normalised too. */
  lemma NormalizedAfterSpace(s: string, k: nat)
    requires IsNormalized(s)
    requires 0 < k <= |s| && s[k - 1] == ' '
    ensures IsNormalized(s[k..]) && s[k..] != []
  {
    var t := s[k..];
    assert forall i :: 0 <= i < |t| ==> t[i] == s[k + i];
    assert k < |s| by { assert s[|s| - 1] != ' '; }
  }

  /** Splitting a normalised string into words and joining them with single spaces gives it back. */
  lemma {:induction false} JoinFindWords(s: string)
    requires IsNormalized(s)
    ensures JoinWords(FindWords(s)) == s
    decreases |s|
  {
    if s != [] {
      assert IsOutputChar(s[0]);
      var n := WordRunLength(s);
      var w := s[..n];
      WordRunIsWord(s);
      if n < |s| {
        var rest := s[n + 1..];
        SpaceEndsWordRun(s);
        NormalizedAfterSpace(s, n + 1);
        JoinFindWords(rest);
        assert s == s[..n] + " " + s[n + 1..];
        FindWordsAfterWord(w, rest);
        FindWordsNonEmpty(rest);
        JoinCons(w, FindWords(rest));
      } else {
        assert w == s;
        FindWordsOfWord(s);
      }
    }
  }

  /** A non-empty normalised string has at least one word. */
  lemma FindWordsNonEmpty(s: string)
    requires IsNormalized(s) && s != []
    ensures FindWords(s) != []
  {
    assert IsOutputChar(s[0]);
  }

  lemma WordRunIsWord(s: string)
    requires s != [] && IsWordChar(s[0])
    ensures IsWord(s[..WordRunLength(s)])
  {
    var n := WordRunLength(s);
    assert forall i :: 0 <= i < n ==> s[..n][i] == s[i];
  }

  lemma SpaceEndsWordRun(s: string)
    requires IsNormalized(s)
    requires WordRunLength(s) < |s|
    ensures s[WordRunLength(s)] == ' '
  {
    assert IsOutputChar(s[WordRunLength(s)]);
  }

  lemma JoinCons(w: string, ws: seq<string>)
    requires ws != []
    ensures JoinWords([w] + ws) == w + " " + JoinWords(ws)
  {
    assert ([w] + ws)[1..] == ws;
  }

  lemma FindWordsOfWord(w: string)
    requires IsWord(w)
    ensures FindWords(w) == [w]
  {
    RunOfWord(w, "");
    assert w + "" == w;
    assert w[|w|..] == [];
  }

  /** The words of a word, a space and more text: that word, then the words of the rest. */
  lemma FindWordsAfterWord(w: string, tail: string)
    requires IsWord(w)
    ensures FindWords(w + " " + tail) == [w] + FindWords(tail)
  {
    var s := w + " " + tail;
    assert s == w + (" " + tail);
    RunOfWord(w, " " + tail);
    assert s[..|w|] == w;
    assert s[|w|..] == " " + tail;
    assert (" " + tail)[1..] == tail;
  }

  /** A word, a space and a non-empty normalised string make a normalised string. */
  lemma JoinNormalized(w: string, tail: string)
    requires IsWord(w)
    requires IsNormalized(tail) && tail != []
    ensures IsNormalized(w + " " + tail)
  {
    var s := w + " " + tail;
    assert IsOutputChar(tail[0]);
    forall i | 0 <= i < |s| ensures IsOutputChar(s[i]) {
      if i < |w| { assert s[i] == w[i]; }
      else if i > |w| { assert s[i] == tail[i - |w| - 1]; }
    }
    forall i | 0 <= i < |s| - 1 ensures s[i] != ' ' || s[i + 1] != ' ' {
      if i < |w| { assert s[i] == w[i]; }
      else if i == |w| { assert s[i + 1] == tail[0]; }
      else { assert s[i] == tail[i - |w| - 1] && s[i + 1] == tail[i - |w|]; }
    }
    assert s[|s| - 1] == tail[|tail| - 1];
  }

  /** Joining words with single spaces gives a normalised string whose words are exactly those. */
  lemma {:induction false} FindJoinedWords(ws: seq<string>)
    requires forall k :: 0 <= k < |ws| ==> IsWord(ws[k])
    ensures IsNormalized(JoinWords(ws))
    ensures FindWords(JoinWords(ws)) == ws
  {
    if |ws| == 1 {
      assert IsWord(ws[0]);
      FindWordsOfWord(ws[0]);
      assert IsOutputChar(ws[0][0]);
    } else if |ws| > 1 {
      var w := ws[0];
      assert IsWord(w) && IsWord(ws[1]);
      FindJoinedWords(ws[1..]);
      var tail := JoinWords(ws[1..]);
      JoinStartsWithFirst(ws[1..]);
      JoinNormalized(w, tail);
      FindWordsAfterWord(w, tail);
      assert [w] + ws[1..] == ws;
    }
  }

  lemma JoinStartsWithFirst(ws: seq<string>)
    requires ws != [] && IsWord(ws[0])
    ensures JoinWords(ws) != [] && JoinWords(ws)[0] == ws[0][0]
  {
  }

  /** The word run at the start of a word followed by a non-word character is that word. */
  lemma {:induction false} RunOfWord(w: string, rest: string)
    requires forall i :: 0 <= i < |w| ==> IsWordChar(w[i])
    requires rest == [] || !IsWordChar(rest[0])
    ensures WordRunLength(w + rest) == |w|
    decreases |w|
  {
    if w != [] {
      assert (w + rest)[1..] == w[1..] + rest;
      RunOfWord(w[1..], rest);
    }
  }

  /** Joining the tokens of any text with single spaces gives its normal form. */
  lemma JoinedTokensAreNormalForm(u: UnicodeLibrary, text: string)
    ensures JoinWords(Tokenize(u, text)) == Normalize(u, text)
  {
    JoinFindWords(Normalize(u, text));
  }

  /** Text without word characters has no words. */
  lemma {:induction false} FindWordsNone(s: string)
    requires forall i :: 0 <= i < |s| ==> !IsWordChar(s[i])
    ensures FindWords(s) == []
    decreases |s|
  {
    if s != [] {
      assert forall i :: 0 <= i < |s| - 1 ==> s[1..][i] == s[i + 1];
      FindWordsNone(s[1..]);
    }
  }

  /** A word run that ends inside `a` is not lengthened by what follows `a`. */
  lemma {:induction false} WordRunConcat(a: string, b: string)
    requires WordRunLength(a) < |a|
    ensures WordRunLength(a + b) == WordRunLength(a)
    decreases |a|
  {
    if IsWordChar(a[0]) {
      assert (a + b)[1..] == a[1..] + b;
      WordRunConcat(a[1..], b);
    }
  }

  /** The word run at the start of `a` stays the same when `b` follows at a non-word boundary. */
  lemma WordRunAcross(a: string, b: string)
    requires a == [] || b == [] || !IsWordChar(a[|a| - 1]) || !IsWordChar(b[0])
    ensures WordRunLength(a + b) == WordRunLength(a) || a == []
  {
    if a != [] {
      if WordRunLength(a) < |a| {
        WordRunConcat(a, b);
      } else {
        RunOfWord(a, b);
      }
    }
  }

  /** The first word of `a + b` is the first word of `a` when they meet at a non-word character. */
  lemma FindWordsAtRun(a: string, b: string)
    requires a != [] && IsWordChar(a[0])
    requires b == [] || !IsWordChar(a[|a| - 1]) || !IsWordChar(b[0])
    ensures FindWords(a + b) == [a[..WordRunLength(a)]] + FindWords(a[WordRunLength(a)..] + b)
  {
    var n := WordRunLength(a);
    var t := a + b;
    WordRunAcross(a, b);
    assert t[0] == a[0] && WordRunLength(t) == n;
    assert FindWords(t) == [t[..n]] + FindWords(t[n..]);
    ConcatSlices(a, b, n);
  }

  lemma ConcatSlices(a: string, b: string, n: nat)
    requires n <= |a|
    ensures (a + b)[..n] == a[..n] && (a + b)[n..] == a[n..] + b
  {
  }

  /** The words of two texts that meet at a non-word character are the words of each, in order. */
  lemma {:induction false} FindWordsConcat(a: string, b: string)
    requires a == [] || b == [] || !IsWordChar(a[|a| - 1]) || !IsWordChar(b[0])
    ensures FindWords(a + b) == FindWords(a) + FindWords(b)
    decreases |a|, 1
  {
    if a == [] {
      assert a + b == b;
    } else if !IsWordChar(a[0]) {
      FindWordsConcatSkip(a, b);
    } else {
      FindWordsConcatRun(a, b);
    }
  }

  lemma {:induction false} FindWordsConcatSkip(a: string, b: string)
    requires a != [] && !IsWordChar(a[0])
    requires b == [] || !IsWordChar(a[|a| - 1]) || !IsWordChar(b[0])
    ensures FindWords(a + b) == FindWords(a) + FindWords(b)
    decreases |a|, 0
  {
    var t := a + b;
    assert t[0] == a[0] && t[1..] == a[1..] + b;
    FindWordsConcat(a[1..], b);
  }

  lemma {:induction false} FindWordsConcatRun(a: string, b: string)
    requires a != [] && IsWordChar(a[0])
    requires b == [] || !IsWordChar(a[|a| - 1]) || !IsWordChar(b[0])
    ensures FindWords(a + b) == FindWords(a) + FindWords(b)
    decreases |a|, 0
  {
    var n := WordRunLength(a);
    FindWordsAtRun(a, b);
    FindWordsConcat(a[n..], b);
    assert [a[..n]] + (FindWords(a[n..]) + FindWords(b)) == ([a[..n]] + FindWords(a[n..])) + FindWords(b);
  }

  /** Whitespace is never a word character. */
  lemma SpacesHaveNoWords(s: string)
    requires forall i :: 0 <= i < |s| ==> IsSpace(s[i])
    ensures FindWords(s) == []
  {
    forall i | 0 <= i < |s| ensures !IsWordChar(s[i]) {
      assert IsSpace(s[i]);
    }
    FindWordsNone(s);
  }

  /** `str.lstrip()` keeps the words of a text. */
  lemma {:induction false} StripStartKeepsWords(s: string)
    ensures FindWords(StripStart(s)) == FindWords(s)
    decreases |s|
  {
    if s != [] && IsSpace(s[0]) {
      assert !IsWordChar(s[0]);
      StripStartKeepsWords(s[1..]);
    }
  }

  /** `str.rstrip()` keeps the words of a text. */
  lemma StripEndKeepsWords(s: string)
    ensures FindWords(StripEnd(s)) == FindWords(s)
  {
    var r := StripEnd(s);
    var tail := s[|r|..];
    StripEndDropsSpaces(s);
    assert forall i :: 0 <= i < |tail| ==> tail[i] == s[|r| + i];
    SpacesHaveNoWords(tail);
    assert s == r + tail;
    FindWordsConcat(r, tail);
  }

  /** `str.strip()` keeps the words of a text. */
  lemma StripKeepsWords(s: string)
    ensures FindWords(Strip(s)) == FindWords(s)
  {
    StripStartKeepsWords(s);
    StripEndKeepsWords(StripStart(s));
  }

  /** Two texts that agree on every word character, wherever either has one, have the same words. */
  lemma {:induction false} SameWordCharsSameWords(x: string, y: string)
    requires |x| == |y|
    requires forall i :: 0 <= i < |x| && (IsWordChar(x[i]) || IsWordChar(y[i])) ==> x[i] == y[i]
    ensures FindWords(x) == FindWords(y)
    decreases |x|
  {
    if x != [] {
      assert forall i :: 0 <= i < |x| - 1 ==> x[1..][i] == x[i + 1] && y[1..][i] == y[i + 1];
      if !IsWordChar(x[0]) {
        SameWordCharsSameWords(x[1..], y[1..]);
      } else {
        var n := WordRunLength(x);
        SameWordRun(x, y);
        assert x[..n] == y[..n];
        assert forall i :: 0 <= i < |x| - n ==> x[n..][i] == x[n + i] && y[n..][i] == y[n + i];
        SameWordCharsSameWords(x[n..], y[n..]);
      }
    }
  }

  lemma {:induction false} SameWordRun(x: string, y: string)
    requires |x| == |y|
    requires forall i :: 0 <= i < |x| && (IsWordChar(x[i]) || IsWordChar(y[i])) ==> x[i] == y[i]
    ensures WordRunLength(x) == WordRunLength(y)
    decreases |x|
  {
    if x != [] && IsWordChar(x[0]) {
      assert forall i :: 0 <= i < |x| - 1 ==> x[1..][i] == x[i + 1] && y[1..][i] == y[i + 1];
      SameWordRun(x[1..], y[1..]);
    }
  }

  /** Masking the disallowed characters as spaces changes no word. */
  lemma MaskKeepsWords(s: string)
    ensures FindWords(MaskDisallowed(s)) == FindWords(s)
  {
    SameWordCharsSameWords(MaskDisallowed(s), s);
  }

  /** The text starts with a word character. */
  predicate StartsWord(s: string) {
    s != [] && IsWordChar(s[0])
  }

  /** A word character in front of a text joins its first word, or forms a word of its own. */
  lemma FindWordsCons(c: char, x: string)
    requires IsWordChar(c)
    ensures StartsWord(x) ==> FindWords(x) != [] && FindWords([c] + x) == [[c] + FindWords(x)[0]] + FindWords(x)[1..]
    ensures !StartsWord(x) ==> FindWords([c] + x) == [[c]] + FindWords(x)
  {
    var t := [c] + x;
    assert t[1..] == x;
    if StartsWord(x) {
      var n := WordRunLength(x);
      assert WordRunLength(t) == n + 1;
      assert t[..n + 1] == [c] + x[..n];
      assert t[n + 1..] == x[n..];
    } else {
      assert WordRunLength(t) == 1;
      assert t[..1] == [c];
    }
  }

  /** Texts with the same words that agree on starting with a word character keep that after any one character. */
  lemma ConsKeepsWords(c: char, x: string, y: string)
    requires FindWords(x) == FindWords(y) && StartsWord(x) == StartsWord(y)
    ensures FindWords([c] + x) == FindWords([c] + y)
  {
    if IsWordChar(c) {
      FindWordsCons(c, x);
      FindWordsCons(c, y);
    } else {
      assert ([c] + x)[1..] == x && ([c] + y)[1..] == y;
    }
  }

  /**
    Collapsing whitespace keeps the words of a text; after a non-space it
    also keeps whether the text starts with a word character.
  */
  lemma {:induction false} CollapseSpacesKeepsWords(s: string, afterSpace: bool)
    ensures FindWords(CollapseSpaces(s, afterSpace)) == FindWords(s)
    ensures !afterSpace ==> StartsWord(CollapseSpaces(s, afterSpace)) == StartsWord(s)
    decreases |s|
  {
    if s != [] {
      var r := CollapseSpaces(s, afterSpace);
      if IsSpace(s[0]) {
        var rest := CollapseSpaces(s[1..], true);
        CollapseSpacesKeepsWords(s[1..], true);
        assert !IsWordChar(s[0]);
        if !afterSpace {
          assert r == " " + rest && r[1..] == rest;
        }
      } else {
        var rest := CollapseSpaces(s[1..], false);
        CollapseSpacesKeepsWords(s[1..], false);
        assert r == [s[0]] + rest;
        assert s == [s[0]] + s[1..];
        ConsKeepsWords(s[0], rest, s[1..]);
      }
    }
  }

  /** The characters of a text other than whitespace, in order. */
  function NonSpaces(s: string): (r: string)
    ensures |r| <= |s|
    ensures forall i :: 0 <= i < |r| ==> !IsSpace(r[i])
  {
    if s == [] then [] else (if IsSpace(s[0]) then [] else [s[0]]) + NonSpaces(s[1..])
  }

  /** Collapsing whitespace keeps every other character, in order. */
  lemma {:induction false} CollapseSpacesKeepsNonSpaces(s: string, afterSpace: bool)
    ensures NonSpaces(CollapseSpaces(s, afterSpace)) == NonSpaces(s)
    decreases |s|
  {
    if s != [] {
      var rest := CollapseSpaces(s[1..], IsSpace(s[0]));
      CollapseSpacesKeepsNonSpaces(s[1..], IsSpace(s[0]));
      if IsSpace(s[0]) {
        if !afterSpace {
          assert (" " + rest)[1..] == rest;
        }
      } else {
        assert ([s[0]] + rest)[1..] == rest;
      }
    }
  }

  /** Text over the output alphabet tokenises to its own words. */
  lemma TokenizeOutputText(u: UnicodeLibrary, text: string)
    requires Faithful(u)
    requires AllOutputChars(text)
    ensures Tokenize(u, text) == FindWords(text)
  {
    if text != [] {
      var s := Strip(text);
      var lo := StripIsSlice(text);
      assert forall i :: 0 <= i < |s| ==> s[i] == text[lo + i];
      assert AllOutputChars(s);
      assert u.nfkc(s) == s;
      CaseFoldKeepsOutput(u, s);
      NoDottedIUnchanged(s);
      NormalizeIsJoinedWords(u, text);
      FindJoinedWords(FindWords(s));
      StripKeepsWords(text);
    }
  }

  /** `batch_normalize`: one normal form per input, in the same order. */
  function BatchNormalize(u: UnicodeLibrary, texts: seq<string>): (r: seq<string>)
    ensures |r| == |texts|
    ensures forall i :: 0 <= i < |texts| ==> r[i] == Normalize(u, texts[i])
  {
    if texts == [] then [] else [Normalize(u, texts[0])] + BatchNormalize(u, texts[1..])
  }
}
