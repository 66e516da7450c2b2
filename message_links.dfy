/**
  The chat window's link splitter (`parseMessage`): a bot message is cut
  into plain-text parts and link parts, a link being a match of the regular
  expression `https?://[^\s)]+`.
*/
module MessageLinks {

  /** JavaScript's `\s`: the ECMAScript white space and line terminator characters. */
  predicate IsJsSpace(c: char) {
    c == ' ' || c == '\t' || c == '\n' || c == '\U{0B}' || c == '\U{0C}' || c == '\r'
    || c == '\U{A0}' || c == '\U{1680}' || ('\U{2000}' <= c <= '\U{200A}')
    || c == '\U{2028}' || c == '\U{2029}' || c == '\U{202F}' || c == '\U{205F}'
    || c == '\U{3000}' || c == '\U{FEFF}'
  }

  /** `[^\s)]`: a character a link may contain after its scheme. */
  predicate IsUrlChar(c: char) {
    !IsJsSpace(c) && c != ')'
  }

  /** `text` holds `http://` at position `i`. */
  predicate HttpAt(text: string, i: nat) {
    && i + 7 <= |text|
    && text[i] == 'h' && text[i + 1] == 't' && text[i + 2] == 't' && text[i + 3] == 'p'
    && text[i + 4] == ':' && text[i + 5] == '/' && text[i + 6] == '/'
  }

  /** `text` holds `https://` at position `i`. */
  predicate HttpsAt(text: string, i: nat) {
    && i + 8 <= |text|
    && text[i] == 'h' && text[i + 1] == 't' && text[i + 2] == 't' && text[i + 3] == 'p' && text[i + 4] == 's'
    && text[i + 5] == ':' && text[i + 6] == '/' && text[i + 7] == '/'
  }

  /** The length of the run of link characters starting at `j` (`[^\s)]+` matches greedily). */
  function RunLength(text: string, j: nat): (n: nat)
    requires j <= |text|
    ensures j + n <= |text|
    decreases |text| - j
  {
    if j == |text| || !IsUrlChar(text[j]) then 0 else 1 + RunLength(text, j + 1)
  }

  /** The run holds only link characters and stops at the end of the text or at a space or `)`. */
  lemma {:induction false} RunIsMaximal(text: string, j: nat)
    requires j <= |text|
    ensures forall k :: j <= k < j + RunLength(text, j) ==> IsUrlChar(text[k])
    ensures j + RunLength(text, j) == |text| || !IsUrlChar(text[j + RunLength(text, j)])
    decreases |text| - j
  {
    if j < |text| && IsUrlChar(text[j]) {
      RunIsMaximal(text, j + 1);
    }
  }

  /**
    The length of the match of `https?://[^\s)]+` starting at `i`, or 0 when
    none starts there: the optional `s` is tried first and given up when the
    rest fails.
  */
  function MatchLength(text: string, i: nat): (n: nat)
    requires i <= |text|
    ensures i + n <= |text|
  {
    if HttpsAt(text, i) && RunLength(text, i + 8) > 0 then 8 + RunLength(text, i + 8)
    else if HttpAt(text, i) && RunLength(text, i + 7) > 0 then 7 + RunLength(text, i + 7)
    else 0
  }

  /** A link as the expression matches it: a scheme, then at least one link character and only those. */
  predicate IsLink(url: string) {
    && ((|url| > 8 && HttpsAt(url, 0)) || (|url| > 7 && HttpAt(url, 0)))
    && forall k :: 7 <= k < |url| ==> IsUrlChar(url[k])
  }

  /** A match found at `i` is a link, and it is maximal: the text ends or a space or `)` follows. */
  lemma MatchIsMaximalLink(text: string, i: nat)
    requires i <= |text| && MatchLength(text, i) > 0
    ensures var n := MatchLength(text, i);
      && i + n <= |text|
      && IsLink(text[i..i + n])
      && (i + n == |text| || !IsUrlChar(text[i + n]))
  {
    var n := MatchLength(text, i);
    var url := text[i..i + n];
    assert forall k :: 0 <= k < |url| ==> url[k] == text[i + k];
    if HttpsAt(text, i) && RunLength(text, i + 8) > 0 {
      RunIsMaximal(text, i + 8);
      assert HttpsAt(url, 0);
    } else {
      RunIsMaximal(text, i + 7);
      assert HttpAt(url, 0);
    }
  }

  /** `urlRegex.exec(text)` from `from`: the leftmost position at or after `from` where a match starts, or `|text|`. */
  function NextMatch(text: string, from: nat): (i: nat)
    requires from <= |text|
    ensures from <= i <= |text|
    ensures i < |text| ==> MatchLength(text, i) > 0
    decreases |text| - from
  {
    if from == |text| then |text|
    else if MatchLength(text, from) > 0 then from
    else NextMatch(text, from + 1)
  }

  /** No match starts in `text[a..b]`, matching against the whole text. */
  predicate NoMatchStarts(text: string, a: nat, b: nat)
    requires a <= b <= |text|
  {
    forall j :: a <= j < b ==> MatchLength(text, j) == 0
  }

  /** The match `exec` finds is the leftmost: none starts between `from` and it. */
  lemma {:induction false} NextMatchIsLeftmost(text: string, from: nat)
    requires from <= |text|
    ensures NoMatchStarts(text, from, NextMatch(text, from))
    decreases |text| - from
  {
    if from < |text| && MatchLength(text, from) == 0 {
      NextMatchIsLeftmost(text, from + 1);
    }
  }

  /** A part of a rendered message: plain text, or a link with its position (the element's `key`). */
  datatype Part = Text(s: string) | Link(url: string, start: nat)

  /** What `parseMessage` returns: the list of parts, or the text itself when the list is empty. */
  datatype Parsed = Parts(parts: seq<Part>) | Unchanged(text: string)

  /** No match starts right where a match ends (a space or `)` is there), so the next one starts later. */
  lemma NextMatchAfterLink(text: string, i: nat)
    requires i < |text| && MatchLength(text, i) > 0
    ensures var e := i + MatchLength(text, i);
      e <= |text| && (e < |text| ==> MatchLength(text, e) == 0 && NextMatch(text, e) > e)
  {
    MatchIsMaximalLink(text, i);
    var e := i + MatchLength(text, i);
    if e < |text| {
      assert text[e] != 'h';
    }
  }

  // ---------------------------------------------------------------------------
  // The successive matches and the parts built around them
  // ---------------------------------------------------------------------------

  /** Where a match starts and how long it is. */
  datatype Span = Span(start: nat, len: nat)

  function End(s: Span): nat {
    s.start + s.len
  }

  /** Non-empty spans lying one after another at or after `from`, ending by `n`. */
  predicate InOrder(n: nat, from: nat, ms: seq<Span>)
    decreases |ms|
  {
    if ms == [] then from <= n
    else from <= ms[0].start && ms[0].len > 0 && End(ms[0]) <= n && InOrder(n, End(ms[0]), ms[1..])
  }

  /** At least one character separates two spans. */
  predicate Separated(ms: seq<Span>)
    decreases |ms|
  {
    |ms| < 2 || (End(ms[0]) < ms[1].start && Separated(ms[1..]))
  }

  /** Each span is the match at its start. */
  predicate AreMatches(text: string, ms: seq<Span>)
    decreases |ms|
  {
    ms == [] || (ms[0].start <= |text| && MatchLength(text, ms[0].start) == ms[0].len && AreMatches(text, ms[1..]))
  }

  /** No match starts before a span, nor between two spans, nor after the last. */
  predicate GapsClean(text: string, from: nat, ms: seq<Span>)
    requires InOrder(|text|, from, ms)
    decreases |ms|
  {
    if ms == [] then NoMatchStarts(text, from, |text|)
    else NoMatchStarts(text, from, ms[0].start) && GapsClean(text, End(ms[0]), ms[1..])
  }

  /** The matches `urlRegex.exec` finds one after another from `from` on. */
  function Matches(text: string, from: nat): (ms: seq<Span>)
    requires from <= |text|
    ensures InOrder(|text|, from, ms)
    decreases |text| - from
  {
    if NextMatch(text, from) == |text| then []
    else
      NextMatchAfterLink(text, NextMatch(text, from));
      [Span(NextMatch(text, from), MatchLength(text, NextMatch(text, from)))]
        + Matches(text, NextMatch(text, from) + MatchLength(text, NextMatch(text, from)))
  }

  /** Each match found is the match at its start. */
  lemma {:induction false} MatchesAreMatches(text: string, from: nat)
    requires from <= |text|
    ensures AreMatches(text, Matches(text, from))
    decreases |text| - from
  {
    var i := NextMatch(text, from);
    if i < |text| {
      var n := MatchLength(text, i);
      MatchesStep(text, from, i, n);
      MatchesAreMatches(text, i + n);
    }
  }

  /** At least one character separates two matches found one after the other. */
  lemma {:induction false} MatchesSeparated(text: string, from: nat)
    requires from <= |text|
    ensures Separated(Matches(text, from))
    decreases |text| - from
  {
    var i := NextMatch(text, from);
    if i < |text| {
      var n := MatchLength(text, i);
      MatchesStep(text, from, i, n);
      var ms, rest := Matches(text, from), Matches(text, i + n);
      MatchesSeparated(text, i + n);
      if rest != [] {
        NextMatchAfterLink(text, i);
        MatchesHead(text, i + n);
        assert ms[1] == rest[0];
      }
    }
  }

  /** The first match found from `from` on is the one `exec` finds. */
  lemma MatchesHead(text: string, from: nat)
    requires from <= |text|
    ensures Matches(text, from) != [] ==> Matches(text, from)[0].start == NextMatch(text, from)
  {
    var i := NextMatch(text, from);
    if i < |text| {
      MatchesStep(text, from, i, MatchLength(text, i));
    }
  }

  /** The matches are the leftmost ones: no match starts before, between or after them. */
  lemma {:induction false} MatchesGapsClean(text: string, from: nat)
    requires from <= |text|
    ensures GapsClean(text, from, Matches(text, from))
    decreases |text| - from
  {
    NextMatchIsLeftmost(text, from);
    var i := NextMatch(text, from);
    if i < |text| {
      var n := MatchLength(text, i);
      MatchesStep(text, from, i, n);
      MatchesGapsClean(text, i + n);
    } else {
      assert Matches(text, from) == [];
    }
  }

  /** The parts of `text` from `from` on around the spans `ms`: the text before each span, the span as a link, and the text after the last. */
  function Build(text: string, from: nat, ms: seq<Span>): seq<Part>
    requires InOrder(|text|, from, ms)
    decreases |ms|
  {
    if ms == [] then Gap(text, from, |text|)
    else Gap(text, from, ms[0].start) + [Link(text[ms[0].start..End(ms[0])], ms[0].start)] + Build(text, End(ms[0]), ms[1..])
  }

  /** The text between `from` and `to` as a part, if there is any. */
  function Gap(text: string, from: nat, to: nat): seq<Part>
    requires from <= to <= |text|
  {
    if from < to then [Text(text[from..to])] else []
  }

  /** The parts of `text` from `from` on, around the matches found from there. */
  function Segments(text: string, from: nat): seq<Part>
    requires from <= |text|
  {
    Build(text, from, Matches(text, from))
  }

  /** The result `parseMessage` gives for `text`. */
  function ParseResult(text: string): Parsed {
    if |Segments(text, 0)| > 0 then Parts(Segments(text, 0)) else Unchanged(text)
  }

  /** One `exec` step: the matches from `from` on are the next match and those after it. */
  lemma MatchesStep(text: string, from: nat, i: nat, n: nat)
    requires from <= |text| && i == NextMatch(text, from) < |text| && n == MatchLength(text, i)
    ensures i + n <= |text|
    ensures Matches(text, from) == [Span(i, n)] + Matches(text, i + n)
    ensures Matches(text, from) != [] && Matches(text, from)[0] == Span(i, n)
    ensures Matches(text, from)[1..] == Matches(text, i + n)
  {
  }

  /** One pass of the loop: the text before the next link, the link, and the parts after it. */
  lemma SegmentsStep(text: string, from: nat, i: nat, n: nat)
    requires from <= |text| && i == NextMatch(text, from) < |text| && n == MatchLength(text, i)
    ensures i + n <= |text|
    ensures Segments(text, from) == Gap(text, from, i) + [Link(text[i..i + n], i)] + Segments(text, i + n)
  {
    MatchesStep(text, from, i, n);
  }

  /** After the last link only the remaining text is left. */
  lemma SegmentsLast(text: string, from: nat)
    requires from <= |text| && NextMatch(text, from) == |text|
    ensures Segments(text, from) == Gap(text, from, |text|)
  {
    assert Matches(text, from) == [];
  }

  /** Pushes the text between `from` and `to` when there is any (`text.slice(from, to)`). */
  method PushText(parts: seq<Part>, text: string, from: nat, to: nat) returns (r: seq<Part>)
    requires from <= to <= |text|
    ensures r == parts + Gap(text, from, to)
  {
    r := parts;
    if to > from {
      r := r + [Text(text[from..to])];
    }
  }

  /** The loop's invariant survives one pass: the text before the link and the link move from the parts still to come to the parts collected. */
  lemma LoopStep(parts: seq<Part>, text: string, from: nat, i: nat, n: nat)
    requires from <= |text| && i == NextMatch(text, from) < |text| && n == MatchLength(text, i)
    requires parts + Segments(text, from) == Segments(text, 0)
    ensures i + n <= |text|
    ensures parts + Gap(text, from, i) + [Link(text[i..i + n], i)] + Segments(text, i + n) == Segments(text, 0)
  {
    SegmentsStep(text, from, i, n);
    var gap, link := Gap(text, from, i), [Link(text[i..i + n], i)];
    assert parts + gap + link + Segments(text, i + n) == parts + (gap + link + Segments(text, i + n));
  }

  /** `parseMessage`: scan the text for links, collecting the text before each and the text after the last. */
  method ParseMessage(text: string) returns (r: Parsed)
    ensures r == ParseResult(text)
  {
    var parts: seq<Part> := [];
    var lastIndex := 0;
    var m := NextMatch(text, 0);
    while m < |text|
      invariant lastIndex <= m <= |text|
      invariant m == NextMatch(text, lastIndex)
      invariant parts + Segments(text, lastIndex) == Segments(text, 0)
      decreases |text| - lastIndex
    {
      var len := MatchLength(text, m);
      LoopStep(parts, text, lastIndex, m, len);
      parts := PushText(parts, text, lastIndex, m);
      parts := parts + [Link(text[m..m + len], m)];
      lastIndex := m + len;
      m := NextMatch(text, lastIndex);
    }
    SegmentsLast(text, lastIndex);
    parts := PushText(parts, text, lastIndex, |text|);
    if |parts| > 0 {
      r := Parts(parts);
    } else {
      r := Unchanged(text);
    }
  }

  // ---------------------------------------------------------------------------
  // What the parts promise
  // ---------------------------------------------------------------------------

  /** The text the parts show, in order. */
  function Flatten(parts: seq<Part>): string {
    if parts == [] then ""
    else (match parts[0] case Text(s) => s case Link(url, _) => url) + Flatten(parts[1..])
  }

  lemma {:induction false} FlattenAppend(a: seq<Part>, b: seq<Part>)
    ensures Flatten(a + b) == Flatten(a) + Flatten(b)
  {
    if a == [] {
      assert a + b == b;
    } else {
      assert (a + b)[0] == a[0];
      assert (a + b)[1..] == a[1..] + b;
      FlattenAppend(a[1..], b);
    }
  }

  lemma FlattenGap(text: string, from: nat, to: nat)
    requires from <= to <= |text|
    ensures Flatten(Gap(text, from, to)) == text[from..to]
  {
  }

  lemma FlattenLink(p: Part)
    requires p.Link?
    ensures Flatten([p]) == p.url
  {
  }

  /** The parts around the spans show exactly the text from `from` on. */
  lemma {:induction false} BuildFlatten(text: string, from: nat, ms: seq<Span>)
    requires InOrder(|text|, from, ms)
    ensures Flatten(Build(text, from, ms)) == text[from..]
    decreases |ms|
  {
    if ms == [] {
      FlattenGap(text, from, |text|);
    } else {
      var s, rest := ms[0], ms[1..];
      var gap, link, tail := Gap(text, from, s.start), Link(text[s.start..End(s)], s.start), Build(text, End(s), rest);
      assert Build(text, from, ms) == gap + [link] + tail;
      BuildFlatten(text, End(s), rest);
      FlattenAppend(gap + [link], tail);
      FlattenAppend(gap, [link]);
      FlattenGap(text, from, s.start);
      FlattenLink(link);
      assert text[from..] == text[from..s.start] + text[s.start..End(s)] + text[End(s)..];
    }
  }

  /** Text read on its own holds no link. */
  predicate NoLinkIn(s: string) {
    forall j :: 0 <= j <= |s| ==> MatchLength(s, j) == 0
  }

  /** A match inside a piece of the text is a match in the whole text. */
  lemma MatchInPiece(text: string, a: nat, b: nat, j: nat)
    requires a <= b <= |text| && j <= b - a
    requires MatchLength(text[a..b], j) > 0
    ensures MatchLength(text, a + j) > 0
  {
    var s := text[a..b];
    assert forall k :: 0 <= k < |s| ==> s[k] == text[a + k];
    if HttpsAt(s, j) && RunLength(s, j + 8) > 0 {
      assert HttpsAt(text, a + j);
      assert IsUrlChar(s[j + 8]);
    } else {
      assert HttpAt(text, a + j);
      assert IsUrlChar(s[j + 7]);
    }
  }

  /** A piece of the text where no match starts holds no link. */
  lemma NoLinkInGap(text: string, a: nat, b: nat)
    requires a <= b <= |text| && NoMatchStarts(text, a, b)
    ensures NoLinkIn(text[a..b])
  {
    forall j | 0 <= j <= b - a ensures MatchLength(text[a..b], j) == 0 {
      if MatchLength(text[a..b], j) > 0 {
        MatchInPiece(text, a, b, j);
      }
    }
  }

  /** A part of the parts of `text` from `from` on as it should be. */
  predicate WellFormedPart(text: string, from: nat, p: Part) {
    match p
    case Text(s) => s != [] && NoLinkIn(s)
    case Link(url, start) =>
      && from <= start && start + |url| <= |text|
      && text[start..start + |url|] == url
      && MatchLength(text, start) == |url|
      && IsLink(url)
      && (start + |url| == |text| || !IsUrlChar(text[start + |url|]))
  }

  /**
    Every part around the matches is well formed: text parts are non-empty
    and hold no link; each link is the match at its start, complete and
    maximal.
  */
  lemma {:induction false} BuildWellFormed(text: string, from: nat, ms: seq<Span>)
    requires InOrder(|text|, from, ms) && GapsClean(text, from, ms) && AreMatches(text, ms)
    ensures forall p :: p in Build(text, from, ms) ==> WellFormedPart(text, from, p)
    decreases |ms|
  {
    if ms == [] {
      if from < |text| {
        NoLinkInGap(text, from, |text|);
      }
    } else {
      var s, rest := ms[0], ms[1..];
      BuildWellFormed(text, End(s), rest);
      LinkWellFormed(text, from, s);
      if from < s.start {
        NoLinkInGap(text, from, s.start);
      }
      forall p | p in Build(text, End(s), rest) ensures WellFormedPart(text, from, p) {
        assert WellFormedPart(text, End(s), p);
      }
    }
  }

  /** The link part of a match is well formed. */
  lemma LinkWellFormed(text: string, from: nat, s: Span)
    requires from <= s.start && End(s) <= |text| && s.len > 0 && MatchLength(text, s.start) == s.len
    ensures WellFormedPart(text, from, Link(text[s.start..End(s)], s.start))
  {
    MatchIsMaximalLink(text, s.start);
  }


  /** Every link around the spans starts at or after the first span. */
  lemma {:induction false} BuildStartAfter(text: string, from: nat, ms: seq<Span>)
    requires InOrder(|text|, from, ms)
    ensures forall p :: p in Build(text, from, ms) && p.Link? ==> ms != [] && p.start >= ms[0].start
    decreases |ms|
  {
    if ms != [] {
      var rest := ms[1..];
      BuildStartAfter(text, End(ms[0]), rest);
    }
  }

  /** Links come in increasing, non-overlapping positions, with at least one character between two links. */
  predicate LinksInOrder(parts: seq<Part>) {
    forall p, q :: 0 <= p < q < |parts| && parts[p].Link? && parts[q].Link? ==>
      parts[p].start + |parts[p].url| < parts[q].start
  }

  /** Two text parts never follow each other. */
  predicate NoAdjacentText(parts: seq<Part>) {
    forall p :: 0 <= p < |parts| - 1 ==> !(parts[p].Text? && parts[p + 1].Text?)
  }

  lemma {:induction false} BuildLinksInOrder(text: string, from: nat, ms: seq<Span>)
    requires InOrder(|text|, from, ms) && Separated(ms)
    ensures LinksInOrder(Build(text, from, ms))
    decreases |ms|
  {
    if ms != [] {
      var s, rest := ms[0], ms[1..];
      var head := Gap(text, from, s.start) + [Link(text[s.start..End(s)], s.start)];
      var tail := Build(text, End(s), rest);
      BuildLinksInOrder(text, End(s), rest);
      BuildStartAfter(text, End(s), rest);
      var parts := head + tail;
      forall p, q | 0 <= p < q < |parts| && parts[p].Link? && parts[q].Link?
        ensures parts[p].start + |parts[p].url| < parts[q].start
      {
        if q >= |head| {
          assert parts[q] == tail[q - |head|];
          assert parts[q] in tail;
          assert rest[0] == ms[1];
          if p < |head| {
            assert parts[p] == Link(text[s.start..End(s)], s.start);
          }
        }
      }
    }
  }

  lemma {:induction false} BuildNoAdjacentText(text: string, from: nat, ms: seq<Span>)
    requires InOrder(|text|, from, ms)
    ensures NoAdjacentText(Build(text, from, ms))
    decreases |ms|
  {
    if ms != [] {
      var s, rest := ms[0], ms[1..];
      var head := Gap(text, from, s.start) + [Link(text[s.start..End(s)], s.start)];
      var tail := Build(text, End(s), rest);
      BuildNoAdjacentText(text, End(s), rest);
      var parts := head + tail;
      forall p | 0 <= p < |parts| - 1 ensures !(parts[p].Text? && parts[p + 1].Text?) {
        if p >= |head| {
          assert parts[p] == tail[p - |head|] && parts[p + 1] == tail[p - |head| + 1];
        }
      }
    }
  }

  /**
    What `parseMessage` promises: the empty text comes back unchanged and any
    other text as a non-empty list of parts; the parts show the text exactly;
    text parts are non-empty and hold no link; each link is the match at its
    position, starts with its scheme and is maximal; links come in
    increasing, non-overlapping positions; and no two text parts are
    adjacent.
  */
  lemma ParseResultProperties(text: string)
    ensures ParseResult(text).Unchanged? <==> text == ""
    ensures ParseResult(text).Unchanged? ==> ParseResult(text).text == text
    ensures ParseResult(text).Parts? ==>
      var parts := ParseResult(text).parts;
      && Flatten(parts) == text
      && (forall p :: p in parts ==> WellFormedPart(text, 0, p))
      && LinksInOrder(parts)
      && NoAdjacentText(parts)
  {
    var ms := Matches(text, 0);
    MatchesAreMatches(text, 0);
    MatchesSeparated(text, 0);
    MatchesGapsClean(text, 0);
    BuildFlatten(text, 0, ms);
    BuildWellFormed(text, 0, ms);
    BuildLinksInOrder(text, 0, ms);
    BuildNoAdjacentText(text, 0, ms);
    assert text[0..] == text;
  }
}
