/**
 * Arabic text normalisation, digit extraction, tokenisation and the
 * footnote heuristics of the typo corrector (src/utils/textUtils.ts).
 * Each regular expression of the source is written out as a predicate or
 * a scanning function over characters.
 */
module TextUtils {
  import opened Types

  // ---------------------------------------------------------------------
  // Character classes
  // ---------------------------------------------------------------------

  /** JavaScript's `\s` and the characters `trim()` removes. */
  predicate IsWhitespace(c: char) {
    || c == '\t' || c == '\n' || c == '\U{000B}' || c == '\U{000C}' || c == '\r'
    || c == ' ' || c == '\U{00A0}' || c == '\U{1680}'
    || ('\U{2000}' <= c <= '\U{200A}')
    || c == '\U{2028}' || c == '\U{2029}' || c == '\U{202F}' || c == '\U{205F}'
    || c == '\U{3000}' || c == '\U{FEFF}'
  }

  /** Arabic tatweel (kashida), U+0640. */
  predicate IsTatweel(c: char) {
    c == '\U{0640}'
  }

  /** The Arabic diacritic ranges U+0610-U+061A, U+064B-U+065F, U+0670, U+06D6-U+06ED. */
  predicate IsDiacritic(c: char) {
    || ('\U{0610}' <= c <= '\U{061A}')
    || ('\U{064B}' <= c <= '\U{065F}')
    || c == '\U{0670}'
    || ('\U{06D6}' <= c <= '\U{06ED}')
  }

  /** A Western (0-9) or Arabic-Indic (U+0660-U+0669) digit. */
  predicate IsDigit(c: char) {
    ('0' <= c <= '9') || ('\U{0660}' <= c <= '\U{0669}')
  }

  /** `[a-z]` under the case-insensitive flag. */
  predicate IsAsciiLetter(c: char) {
    ('a' <= c <= 'z') || ('A' <= c <= 'Z')
  }

  predicate AllDigits(s: string) {
    forall i :: 0 <= i < |s| ==> IsDigit(s[i])
  }

  predicate NoDigits(s: string) {
    forall i :: 0 <= i < |s| ==> !IsDigit(s[i])
  }

  predicate AllWhitespace(s: string) {
    forall i :: 0 <= i < |s| ==> IsWhitespace(s[i])
  }

  /** A non-empty run of non-whitespace characters: what a token looks like. */
  predicate IsToken(w: string) {
    |w| > 0 && forall i :: 0 <= i < |w| ==> !IsWhitespace(w[i])
  }

  // ---------------------------------------------------------------------
  // Scanning helpers
  // ---------------------------------------------------------------------

  /** Index of the first `c` in `s` at or after `from`. */
  function IndexOf(s: string, c: char, from: nat): (r: Option<nat>)
    ensures r.Some? ==> from <= r.value < |s| && s[r.value] == c
    ensures r.Some? ==> forall i :: from <= i < r.value ==> s[i] != c
    ensures r.None? ==> forall i :: from <= i < |s| ==> s[i] != c
    decreases |s| - from
  {
    if from >= |s| then None
    else if s[from] == c then Some(from)
    else IndexOf(s, c, from + 1)
  }

  /** The first position at or after `i` that holds no whitespace, or |s|. */
  function SkipWhitespace(s: string, i: nat): (k: nat)
    requires i <= |s|
    ensures i <= k <= |s|
    decreases |s| - i
  {
    if i < |s| && IsWhitespace(s[i]) then SkipWhitespace(s, i + 1) else i
  }

  lemma {:induction false} SkipWhitespaceSpec(s: string, i: nat)
    requires i <= |s|
    ensures var k := SkipWhitespace(s, i);
            && (forall m :: i <= m < k ==> IsWhitespace(s[m]))
            && (k == |s| || !IsWhitespace(s[k]))
    decreases |s| - i
  {
    if i < |s| && IsWhitespace(s[i]) {
      SkipWhitespaceSpec(s, i + 1);
    }
  }

  /** One past the last position before `j` (and at or after `lo`) that holds no whitespace; or `lo`. */
  function SkipWhitespaceBack(s: string, lo: nat, j: nat): (k: nat)
    requires lo <= j <= |s|
    ensures lo <= k <= j
    decreases j
  {
    if lo < j && IsWhitespace(s[j - 1]) then SkipWhitespaceBack(s, lo, j - 1) else j
  }

  lemma {:induction false} SkipWhitespaceBackSpec(s: string, lo: nat, j: nat)
    requires lo <= j <= |s|
    ensures var k := SkipWhitespaceBack(s, lo, j);
            && (forall m :: k <= m < j ==> IsWhitespace(s[m]))
            && (k == lo || !IsWhitespace(s[k - 1]))
    decreases j
  {
    if lo < j && IsWhitespace(s[j - 1]) {
      SkipWhitespaceBackSpec(s, lo, j - 1);
    }
  }

  /** `String.prototype.trim`: the middle of `s` without whitespace at either end. */
  function Trim(s: string): (r: string)
    ensures |r| <= |s|
  {
    var i := SkipWhitespace(s, 0);
    s[i..SkipWhitespaceBack(s, i, |s|)]
  }

  /**
   * Trimming leaves no whitespace at either end, cuts only whitespace, is
   * empty exactly for whitespace-only text, and leaves text with no
   * whitespace at its ends as it is.
   */
  lemma TrimSpec(s: string)
    ensures var r := Trim(s);
            && (r == [] || (!IsWhitespace(r[0]) && !IsWhitespace(r[|r| - 1])))
            && (exists i, j :: 0 <= i <= j <= |s| && r == s[i..j] && AllWhitespace(s[..i]) && AllWhitespace(s[j..]))
            && (r == [] <==> AllWhitespace(s))
            && (s == [] || (!IsWhitespace(s[0]) && !IsWhitespace(s[|s| - 1])) ==> r == s)
  {
    var i := SkipWhitespace(s, 0);
    var j := SkipWhitespaceBack(s, i, |s|);
    SkipWhitespaceSpec(s, 0);
    SkipWhitespaceBackSpec(s, i, |s|);
    var r := s[i..j];
    assert AllWhitespace(s[..i]) && AllWhitespace(s[j..]);
    if r == [] {
      assert i == |s| && s[..i] == s;
    } else {
      assert r[0] == s[i] && r[|r| - 1] == s[j - 1];
      assert !AllWhitespace(s) by { assert !IsWhitespace(s[i]); }
    }
  }

  /** The characters of `s` for which `drop` is false, in order. */
  function Remove(s: string, drop: char -> bool): (r: string)
    ensures |r| <= |s|
  {
    if s == [] then []
    else if drop(s[0]) then Remove(s[1..], drop)
    else [s[0]] + Remove(s[1..], drop)
  }

  /** Nothing `drop` selects is left, and nothing changes when it selects nothing. */
  lemma {:induction false} RemoveSpec(s: string, drop: char -> bool)
    ensures forall i :: 0 <= i < |Remove(s, drop)| ==> !drop(Remove(s, drop)[i])
    ensures (forall i :: 0 <= i < |s| ==> !drop(s[i])) ==> Remove(s, drop) == s
  {
    if s != [] {
      RemoveSpec(s[1..], drop);
      if forall i :: 0 <= i < |s| ==> !drop(s[i]) {
        assert forall i :: 0 <= i < |s[1..]| ==> !drop(s[1..][i]) by {
          forall i | 0 <= i < |s[1..]| ensures !drop(s[1..][i]) {
            assert s[1..][i] == s[i + 1];
          }
        }
        assert s == [s[0]] + s[1..];
      }
    }
  }

  /** Removing characters never brings in one that was absent. */
  lemma {:induction false} RemoveKeepsAbsence(s: string, drop: char -> bool, absent: char -> bool)
    requires forall i :: 0 <= i < |s| ==> !absent(s[i])
    ensures forall i :: 0 <= i < |Remove(s, drop)| ==> !absent(Remove(s, drop)[i])
  {
    if s != [] {
      assert forall i :: 0 <= i < |s[1..]| ==> !absent(s[1..][i]) by {
        forall i | 0 <= i < |s[1..]| ensures !absent(s[1..][i]) {
          assert s[1..][i] == s[i + 1];
        }
      }
      RemoveKeepsAbsence(s[1..], drop, absent);
    }
  }

  /** Trimming never brings in a character that was absent. */
  lemma TrimKeepsAbsence(s: string, absent: char -> bool)
    requires forall i :: 0 <= i < |s| ==> !absent(s[i])
    ensures forall i :: 0 <= i < |Trim(s)| ==> !absent(Trim(s)[i])
  {
    var i := SkipWhitespace(s, 0);
    var j := SkipWhitespaceBack(s, i, |s|);
    forall k | 0 <= k < |Trim(s)| ensures !absent(Trim(s)[k]) {
      assert Trim(s)[k] == s[i + k];
    }
  }

  // ---------------------------------------------------------------------
  // Tags
  // ---------------------------------------------------------------------

  /**
   * `basicTag` (`<\/?[a-z][^>]*?>` with the `i` flag) anchored at the start of
   * `s`: a `<`, an optional `/`, an ASCII letter, and then everything up to
   * and including the first `>`. Gives the length of the match.
   */
  function BasicTagAt(s: string): (r: Option<nat>)
    ensures r.Some? ==> 3 <= r.value <= |s| && s[0] == '<' && s[r.value - 1] == '>'
  {
    if |s| >= 2 && s[0] == '<'
       && (IsAsciiLetter(s[1]) || (|s| >= 3 && s[1] == '/' && IsAsciiLetter(s[2])))
    then
      match IndexOf(s, '>', 1)
      case Some(e) => Some(e + 1)
      case None => None
    else None
  }

  /**
   * `htmlTag` (`<\/?[^>]+>`) anchored at the start of `s`: a `<`, at least one
   * character that is not `>`, and the first `>` after it.
   */
  function HtmlTagAt(s: string): (r: Option<nat>)
    ensures r.Some? ==> 3 <= r.value <= |s| && s[0] == '<' && s[r.value - 1] == '>'
  {
    if |s| >= 2 && s[0] == '<' && s[1] != '>' then
      match IndexOf(s, '>', 2)
      case Some(e) => Some(e + 1)
      case None => None
    else None
  }

  /** `text.replace(basicTag, '')`: the leftmost tag-like run only (no `g` flag). */
  function StripFirstTag(s: string): (r: string)
    ensures |r| <= |s|
  {
    if s == [] then []
    else match BasicTagAt(s)
      case Some(n) => s[n..]
      case None => [s[0]] + StripFirstTag(s[1..])
  }

  /** `text.replace(htmlTag, ' ')`: every tag-like run becomes one space. */
  function ReplaceHtmlTags(s: string): string
  {
    if s == [] then []
    else match HtmlTagAt(s)
      case Some(n) => " " + ReplaceHtmlTags(s[n..])
      case None => [s[0]] + ReplaceHtmlTags(s[1..])
  }

  /**
   * `s.replace(new RegExp(pat, 'g'), rep)` for a pattern without regular
   * expression metacharacters: leftmost, non-overlapping occurrences. The
   * empty pattern matches at every position, as it does in JavaScript.
   */
  function ReplaceAll(s: string, pat: string, rep: string): string
  {
    if pat == [] then rep + (if s == [] then [] else [s[0]] + ReplaceAll(s[1..], pat, rep))
    else if |s| < |pat| then s
    else if s[..|pat|] == pat then rep + ReplaceAll(s[|pat|..], pat, rep)
    else [s[0]] + ReplaceAll(s[1..], pat, rep)
  }

  // ---------------------------------------------------------------------
  // normalizeArabicText
  // ---------------------------------------------------------------------

  predicate IsTatweelOrDiacritic(c: char) {
    IsTatweel(c) || IsDiacritic(c)
  }

  /**
   * Strips the first tag-like run, every tatweel and every diacritic, then
   * trims. The result carries none of the removed characters and no
   * whitespace at either end.
   */
  function NormalizeArabicText(text: string): string {
    Trim(Remove(Remove(StripFirstTag(text), IsTatweel), IsDiacritic))
  }

  /**
   * The normalised text carries no tatweel and no diacritic, has no
   * whitespace at either end, and is empty for empty text.
   */
  lemma NormalizeArabicTextIsClean(text: string)
    ensures var r := NormalizeArabicText(text);
            && (forall i :: 0 <= i < |r| ==> !IsTatweel(r[i]) && !IsDiacritic(r[i]))
            && (r == [] || (!IsWhitespace(r[0]) && !IsWhitespace(r[|r| - 1])))
            && (text == [] ==> r == [])
  {
    var noTatweel := Remove(StripFirstTag(text), IsTatweel);
    var noMarks := Remove(noTatweel, IsDiacritic);
    assert NormalizeArabicText(text) == Trim(noMarks);
    RemoveSpec(StripFirstTag(text), IsTatweel);
    RemoveKeepsAbsence(noTatweel, IsDiacritic, IsTatweel);
    RemoveSpec(noTatweel, IsDiacritic);
    TrimKeepsAbsence(noMarks, IsTatweelOrDiacritic);
    TrimSpec(noMarks);
  }

  /**
   * Normalising is idempotent once no tag-like run is left in the normalised
   * text (with two or more tags in the input it is not: the second survives
   * the first pass).
   */
  lemma NormalizeIdempotentWithoutTags(text: string)
    requires StripFirstTag(NormalizeArabicText(text)) == NormalizeArabicText(text)
    ensures NormalizeArabicText(NormalizeArabicText(text)) == NormalizeArabicText(text)
  {
    var r := NormalizeArabicText(text);
    NormalizeArabicTextIsClean(text);
    RemoveSpec(r, IsTatweel);
    RemoveSpec(r, IsDiacritic);
    TrimSpec(r);
  }

  // ---------------------------------------------------------------------
  // extractDigits
  // ---------------------------------------------------------------------

  /** Position of the first digit at or after `i`, or |s| when there is none. */
  function FirstDigit(s: string, i: nat): (p: nat)
    requires i <= |s|
    ensures i <= p <= |s|
    decreases |s| - i
  {
    if i == |s| || IsDigit(s[i]) then i else FirstDigit(s, i + 1)
  }

  lemma {:induction false} FirstDigitSpec(s: string, i: nat)
    requires i <= |s|
    ensures var p := FirstDigit(s, i);
            && (forall m :: i <= m < p ==> !IsDigit(s[m]))
            && (p < |s| ==> IsDigit(s[p]))
    decreases |s| - i
  {
    if i < |s| && !IsDigit(s[i]) {
      FirstDigitSpec(s, i + 1);
    }
  }

  /** End of the run of digits that starts at `i`. */
  function DigitRunEnd(s: string, i: nat): (e: nat)
    requires i <= |s|
    ensures i <= e <= |s|
    decreases |s| - i
  {
    if i < |s| && IsDigit(s[i]) then DigitRunEnd(s, i + 1) else i
  }

  lemma {:induction false} DigitRunEndSpec(s: string, i: nat)
    requires i <= |s|
    ensures var e := DigitRunEnd(s, i);
            && (forall m :: i <= m < e ==> IsDigit(s[m]))
            && (e == |s| || !IsDigit(s[e]))
    decreases |s| - i
  {
    if i < |s| && IsDigit(s[i]) {
      DigitRunEndSpec(s, i + 1);
    }
  }

  /**
   * `s.match(/[0-9٠-٩]+/)?.[0] ?? ''`: the first maximal run of Western or
   * Arabic-Indic digits, or "" when `s` has no digit.
   */
  function ExtractDigits(s: string): string {
    var p := FirstDigit(s, 0);
    s[p..DigitRunEnd(s, p)]
  }

  /** `r` sits at `p` in `s`, after only non-digits and before no digit. */
  predicate MaximalRunAt(s: string, r: string, p: nat) {
    && p + |r| <= |s| && s[p..p + |r|] == r
    && NoDigits(s[..p]) && (p + |r| == |s| || !IsDigit(s[p + |r|]))
  }

  /**
   * The extracted run is empty exactly when `s` has no digit; otherwise it
   * is a substring of `s` made of digits, preceded only by non-digits and
   * not followed by a digit.
   */
  lemma ExtractDigitsSpec(s: string)
    ensures var r := ExtractDigits(s);
            && (r == [] <==> NoDigits(s))
            && AllDigits(r)
            && (r != [] ==> exists p :: 0 <= p <= |s| && MaximalRunAt(s, r, p))
  {
    var p := FirstDigit(s, 0);
    var e := DigitRunEnd(s, p);
    FirstDigitSpec(s, 0);
    DigitRunEndSpec(s, p);
    var r := s[p..e];
    if p < |s| {
      assert e > p;
      assert s[p..p + |r|] == r;
      assert NoDigits(s[..p]);
      assert MaximalRunAt(s, r, p);
    } else {
      assert s[..p] == s;
    }
  }

  // ---------------------------------------------------------------------
  // tokenizeText
  // ---------------------------------------------------------------------

  /** Length of the run of non-whitespace characters at the start of `s`. */
  function WordLength(s: string): (n: nat)
    ensures n <= |s|
  {
    if s == [] || IsWhitespace(s[0]) then 0 else 1 + WordLength(s[1..])
  }

  /** The first word is a run of non-whitespace that ends the text or meets whitespace. */
  lemma {:induction false} WordLengthSpec(s: string)
    ensures var n := WordLength(s);
            && (forall i :: 0 <= i < n ==> !IsWhitespace(s[i]))
            && (n == |s| || IsWhitespace(s[n]))
  {
    if s != [] && !IsWhitespace(s[0]) {
      WordLengthSpec(s[1..]);
      forall i | 1 <= i < WordLength(s) ensures !IsWhitespace(s[i]) {
        assert s[i] == s[1..][i - 1];
      }
    }
  }

  /**
   * `s.trim().split(/\s+/).filter(Boolean)`: the maximal runs of
   * non-whitespace characters, in order.
   */
  function Words(s: string): (r: seq<string>)
    ensures forall k :: 0 <= k < |r| ==> IsToken(r[k])
    decreases |s|
  {
    if s == [] then []
    else if IsWhitespace(s[0]) then Words(s[1..])
    else
      var n := WordLength(s);
      WordLengthSpec(s);
      [s[..n]] + Words(s[n..])
  }

  /** Puts every occurrence of `symbol` between two spaces. */
  function SpaceSymbol(s: string, symbol: string): string {
    ReplaceAll(s, symbol, " " + symbol + " ")
  }

  /** The loop of `tokenizeText` over the preserved symbols, in order. */
  function SpaceSymbols(s: string, symbols: seq<string>): string
    decreases |symbols|
  {
    if symbols == [] then s else SpaceSymbols(SpaceSymbol(s, symbols[0]), symbols[1..])
  }

  /** What `tokenizeText(text, preserveSymbols)` returns. */
  function Tokens(text: string, preserveSymbols: seq<string>): (r: seq<string>)
    ensures forall k :: 0 <= k < |r| ==> IsToken(r[k])
    ensures AllWhitespace(text) ==> r == []
  {
    TrimSpec(text);
    if Trim(text) == [] then []
    else Words(SpaceSymbols(ReplaceHtmlTags(text), preserveSymbols))
  }

  /**
   * Empty or whitespace-only text gives no token; otherwise tags become
   * spaces, each preserved symbol is surrounded by spaces, and the text is
   * split on whitespace. No token is empty or holds whitespace.
   */
  method TokenizeText(text: string, preserveSymbols: seq<string>) returns (tokens: seq<string>)
    ensures tokens == Tokens(text, preserveSymbols)
    ensures forall k :: 0 <= k < |tokens| ==> IsToken(tokens[k])
    ensures AllWhitespace(text) ==> tokens == []
  {
    TrimSpec(text);
    if Trim(text) == [] {
      return [];
    }
    var processedText := ReplaceHtmlTags(text);
    for k := 0 to |preserveSymbols|
      invariant SpaceSymbols(processedText, preserveSymbols[k..])
                == SpaceSymbols(ReplaceHtmlTags(text), preserveSymbols)
    {
      assert preserveSymbols[k..][1..] == preserveSymbols[k + 1..];
      processedText := SpaceSymbol(processedText, preserveSymbols[k]);
    }
    tokens := Words(processedText);
  }

  // ----- Every occurrence of a preserved symbol becomes its own token -----

  /** `s.split(pat)` for a non-empty literal pattern. */
  function SplitOn(s: string, pat: string): (r: seq<string>)
    requires pat != []
    ensures |r| > 0
    decreases |s|
  {
    if |s| < |pat| then [s]
    else if s[..|pat|] == pat then [[]] + SplitOn(s[|pat|..], pat)
    else
      var r := SplitOn(s[1..], pat);
      [[s[0]] + r[0]] + r[1..]
  }

  /** The words of each piece, with `symbol` as a token of its own between pieces. */
  function WordsAround(pieces: seq<string>, symbol: string): seq<string>
    requires |pieces| > 0
    decreases |pieces|
  {
    if |pieces| == 1 then Words(pieces[0])
    else Words(pieces[0]) + [symbol] + WordsAround(pieces[1..], symbol)
  }

  /** The words of `[c] + x` in terms of the words of `x`. */
  function GlueChar(c: char, x: string, w: seq<string>): seq<string> {
    if IsWhitespace(c) then w
    else if x != [] && !IsWhitespace(x[0]) && w != [] then [[c] + w[0]] + w[1..]
    else [[c]] + w
  }

  /** A character glued onto a word that starts `x` extends that word. */
  lemma WordsConsJoin(c: char, x: string)
    requires !IsWhitespace(c) && x != [] && !IsWhitespace(x[0])
    ensures Words(x) != []
    ensures Words([c] + x) == [[c] + Words(x)[0]] + Words(x)[1..]
  {
    var s := [c] + x;
    var m := WordLength(x);
    assert s[0] == c && s[1..] == x;
    assert m == 1 + WordLength(x[1..]);
    assert WordLength(s) == 1 + m;
    assert Words(x) == [x[..m]] + Words(x[m..]);
    assert s[..1 + m] == [c] + x[..m];
    assert s[1 + m..] == x[m..];
  }

  /** A character before whitespace or the end is a word of its own. */
  lemma WordsConsAlone(c: char, x: string)
    requires !IsWhitespace(c) && (x == [] || IsWhitespace(x[0]))
    ensures Words([c] + x) == [[c]] + Words(x)
  {
    var s := [c] + x;
    assert s[0] == c && s[1..] == x;
    assert WordLength(s) == 1;
    assert s[..1] == [c];
  }

  lemma WordsCons(c: char, x: string)
    ensures Words([c] + x) == GlueChar(c, x, Words(x))
    ensures x != [] && !IsWhitespace(x[0]) ==> Words(x) != []
  {
    if IsWhitespace(c) {
      assert ([c] + x)[1..] == x;
    } else if x != [] && !IsWhitespace(x[0]) {
      WordsConsJoin(c, x);
    } else {
      WordsConsAlone(c, x);
    }
  }

  lemma {:induction false} WordLengthOfToken(w: string, x: string)
    requires forall i :: 0 <= i < |w| ==> !IsWhitespace(w[i])
    ensures WordLength(w + " " + x) == |w|
  {
    if w != [] {
      assert (w + " " + x)[1..] == w[1..] + " " + x;
      WordLengthOfToken(w[1..], x);
    }
  }

  lemma WordsOfSpacedToken(w: string, x: string)
    requires IsToken(w)
    ensures Words(" " + w + " " + x) == [w] + Words(x)
  {
    var s := " " + w + " " + x;
    var t := w + " " + x;
    assert s[0] == ' ' && s[1..] == t;
    assert Words(s) == Words(t);
    WordLengthOfToken(w, x);
    assert t[..|w|] == w;
    assert t[|w|..] == " " + x;
    assert Words(t) == [w] + Words(" " + x);
    assert (" " + x)[0] == ' ' && (" " + x)[1..] == x;
    assert Words(" " + x) == Words(x);
  }

  /** The first piece of the split is where the replaced text starts. */
  lemma FirstPieceStartsReplaced(s: string, symbol: string)
    requires symbol != []
    ensures var x := ReplaceAll(s, symbol, " " + symbol + " ");
            var r0 := SplitOn(s, symbol)[0];
            (r0 != [] ==> x != [] && x[0] == r0[0]) && (r0 == [] ==> x == [] || x[0] == ' ')
  {
  }

  lemma ReplaceAllNoMatchStep(s: string, symbol: string, rep: string)
    requires symbol != [] && |s| >= |symbol| && s[..|symbol|] != symbol
    ensures ReplaceAll(s, symbol, rep) == [s[0]] + ReplaceAll(s[1..], symbol, rep)
    ensures SplitOn(s, symbol) == [[s[0]] + SplitOn(s[1..], symbol)[0]] + SplitOn(s[1..], symbol)[1..]
  {
  }

  lemma ReplaceAllMatchStep(s: string, symbol: string, rep: string)
    requires symbol != [] && |s| >= |symbol| && s[..|symbol|] == symbol
    ensures ReplaceAll(s, symbol, rep) == rep + ReplaceAll(s[|symbol|..], symbol, rep)
    ensures SplitOn(s, symbol) == [[]] + SplitOn(s[|symbol|..], symbol)
  {
  }

  /** Gluing a character onto two texts that start alike gives words that differ only in the tail. */
  lemma GlueAppend(c: char, x: string, y: string, w: seq<string>, tail: seq<string>)
    requires (x != [] && !IsWhitespace(x[0])) <==> (y != [] && !IsWhitespace(y[0]))
    requires x != [] && !IsWhitespace(x[0]) ==> w != []
    ensures GlueChar(c, x, w) + tail == GlueChar(c, y, w + tail)
  {
    if !IsWhitespace(c) && x != [] && !IsWhitespace(x[0]) {
      assert (w + tail)[0] == w[0];
      assert (w + tail)[1..] == w[1..] + tail;
    }
  }

  lemma WordsAroundFirst(pieces: seq<string>, symbol: string)
    requires |pieces| > 0
    ensures WordsAround(pieces, symbol)
            == Words(pieces[0]) + (if |pieces| == 1 then [] else [symbol] + WordsAround(pieces[1..], symbol))
  {
  }

  /**
   * With one preserved symbol that is itself a token, the words of the
   * spaced text are the words of the pieces between the symbol's
   * occurrences, with the symbol as a separate token at each occurrence.
   */
  lemma {:induction false} SpacedSymbolTokens(s: string, symbol: string)
    requires IsToken(symbol)
    ensures Words(SpaceSymbol(s, symbol)) == WordsAround(SplitOn(s, symbol), symbol)
    decreases |s|
  {
    var rep := " " + symbol + " ";
    if |s| < |symbol| {
    } else if s[..|symbol|] == symbol {
      var rest := s[|symbol|..];
      SpacedSymbolTokens(rest, symbol);
      ReplaceAllMatchStep(s, symbol, rep);
      WordsOfSpacedToken(symbol, ReplaceAll(rest, symbol, rep));
      var pieces := [[]] + SplitOn(rest, symbol);
      WordsAroundFirst(pieces, symbol);
      assert pieces[1..] == SplitOn(rest, symbol);
      assert Words([]) == [];
    } else {
      var x := ReplaceAll(s[1..], symbol, rep);
      var r := SplitOn(s[1..], symbol);
      SpacedSymbolTokens(s[1..], symbol);
      ReplaceAllNoMatchStep(s, symbol, rep);
      FirstPieceStartsReplaced(s[1..], symbol);
      WordsCons(s[0], x);
      WordsCons(s[0], r[0]);
      var tail := if |r| == 1 then [] else [symbol] + WordsAround(r[1..], symbol);
      WordsAroundFirst(r, symbol);
      var pieces := [[s[0]] + r[0]] + r[1..];
      WordsAroundFirst(pieces, symbol);
      assert pieces[1..] == r[1..];
      GlueAppend(s[0], r[0], x, Words(r[0]), tail);
    }
  }

  /** tokenizeText with one preserved symbol splits the text around each of its occurrences. */
  lemma TokenizeAroundSymbol(text: string, symbol: string)
    requires IsToken(symbol)
    requires !AllWhitespace(text)
    ensures Tokens(text, [symbol]) == WordsAround(SplitOn(ReplaceHtmlTags(text), symbol), symbol)
  {
    var s := ReplaceHtmlTags(text);
    assert [symbol][1..] == [];
    assert SpaceSymbols(s, [symbol]) == SpaceSymbol(s, symbol);
    TrimSpec(text);
    SpacedSymbolTokens(s, symbol);
  }

  // ----- Several preserved symbols: each one splits every word in turn -----

  /** Each word split around `symbol`: the words of the word once the symbol is spaced out. */
  function SplitWords(words: seq<string>, symbol: string): seq<string>
    decreases |words|
  {
    if words == [] then [] else Words(SpaceSymbol(words[0], symbol)) + SplitWords(words[1..], symbol)
  }

  /** The words split around each symbol in turn, in the order the symbols are listed. */
  function SplitAllWords(words: seq<string>, symbols: seq<string>): seq<string>
    decreases |symbols|
  {
    if symbols == [] then words else SplitAllWords(SplitWords(words, symbols[0]), symbols[1..])
  }

  /** `pat` occurs in `s` at position `i`. */
  predicate MatchesAt(s: string, pat: string, i: int) {
    0 <= i && i + |pat| <= |s| && s[i..i + |pat|] == pat
  }

  /** `pat` occurs nowhere in `s`. */
  predicate FreeOf(s: string, pat: string) {
    forall i :: 0 <= i <= |s| ==> !MatchesAt(s, pat, i)
  }

  /** `ReplaceAll` at a position where the pattern does not start. */
  lemma ReplaceAllSkip(s: string, pat: string, rep: string)
    requires pat != [] && |s| >= |pat| && s[..|pat|] != pat
    ensures ReplaceAll(s, pat, rep) == [s[0]] + ReplaceAll(s[1..], pat, rep)
  {
  }

  /** `ReplaceAll` at a position where the pattern starts. */
  lemma ReplaceAllReplace(s: string, pat: string, rep: string)
    requires pat != [] && |s| >= |pat| && s[..|pat|] == pat
    ensures ReplaceAll(s, pat, rep) == rep + ReplaceAll(s[|pat|..], pat, rep)
  {
  }

  lemma AppendAssoc(p: string, x: string, y: string)
    ensures p + (x + y) == (p + x) + y
  {
  }

  /** `ReplaceAll` of `a + b` when the pattern does not start the joined text. */
  lemma ReplaceAppendSkip(a: string, b: string, pat: string, rep: string)
    requires pat != [] && a != [] && |a + b| >= |pat| && (a + b)[..|pat|] != pat
    ensures ReplaceAll(a + b, pat, rep) == [a[0]] + ReplaceAll(a[1..] + b, pat, rep)
  {
    var s := a + b;
    assert s[1..] == a[1..] + b;
    ReplaceAllSkip(s, pat, rep);
  }

  /** `ReplaceAll` of `a + b` when the pattern starts `a`. */
  lemma ReplaceAppendMatch(a: string, b: string, pat: string, rep: string)
    requires pat != [] && |a| >= |pat| && a[..|pat|] == pat
    ensures ReplaceAll(a + b, pat, rep) == rep + ReplaceAll(a[|pat|..] + b, pat, rep)
  {
    var s := a + b;
    assert s[..|pat|] == pat by {
      assert s[..|pat|] == a[..|pat|];
    }
    assert s[|pat|..] == a[|pat|..] + b;
    ReplaceAllReplace(s, pat, rep);
  }

  /** Leading whitespace is copied unchanged: no token-shaped pattern starts in it. */
  lemma {:induction false} ReplaceAllAfterWhitespace(a: string, b: string, pat: string, rep: string)
    requires IsToken(pat) && AllWhitespace(a)
    ensures ReplaceAll(a + b, pat, rep) == a + ReplaceAll(b, pat, rep)
    decreases |a|
  {
    if a == [] {
      assert a + b == b;
    } else {
      ReplaceAllAfterWhitespace(a[1..], b, pat, rep);
      WhitespaceStep(a, b, pat, rep);
    }
  }

  /** One step of the lemma above: the first whitespace character is copied. */
  lemma WhitespaceStep(a: string, b: string, pat: string, rep: string)
    requires IsToken(pat) && a != [] && IsWhitespace(a[0])
    requires ReplaceAll(a[1..] + b, pat, rep) == a[1..] + ReplaceAll(b, pat, rep)
    ensures ReplaceAll(a + b, pat, rep) == a + ReplaceAll(b, pat, rep)
  {
    if |a + b| >= |pat| {
      assert (a + b)[..|pat|] != pat by {
        assert (a + b)[..|pat|][0] == a[0];
        assert !IsWhitespace(pat[0]);
      }
      ReplaceAppendSkip(a, b, pat, rep);
      AppendAssoc([a[0]], a[1..], ReplaceAll(b, pat, rep));
    } else {
      assert ReplaceAll(b, pat, rep) == b;
    }
    assert a == [a[0]] + a[1..];
  }

  /** No token-shaped match runs across the start of whitespace, so the replacement splits there. */
  lemma {:induction false} ReplaceAllBeforeWhitespace(a: string, b: string, pat: string, rep: string)
    requires IsToken(pat) && (b == [] || IsWhitespace(b[0]))
    ensures ReplaceAll(a + b, pat, rep) == ReplaceAll(a, pat, rep) + ReplaceAll(b, pat, rep)
    decreases |a|
  {
    if a == [] {
      assert a + b == b;
    } else if |a| < |pat| {
      ShortBeforeWhitespace(a, b, pat, rep);
    } else if a[..|pat|] == pat {
      ReplaceAllBeforeWhitespace(a[|pat|..], b, pat, rep);
      MatchBeforeWhitespace(a, b, pat, rep);
    } else {
      ReplaceAllBeforeWhitespace(a[1..], b, pat, rep);
      NoMatchBeforeWhitespace(a, b, pat, rep);
    }
  }

  lemma MatchBeforeWhitespace(a: string, b: string, pat: string, rep: string)
    requires pat != [] && |a| >= |pat| && a[..|pat|] == pat
    requires ReplaceAll(a[|pat|..] + b, pat, rep) == ReplaceAll(a[|pat|..], pat, rep) + ReplaceAll(b, pat, rep)
    ensures ReplaceAll(a + b, pat, rep) == ReplaceAll(a, pat, rep) + ReplaceAll(b, pat, rep)
  {
    ReplaceAppendMatch(a, b, pat, rep);
    ReplaceAllReplace(a, pat, rep);
    AppendAssoc(rep, ReplaceAll(a[|pat|..], pat, rep), ReplaceAll(b, pat, rep));
  }

  lemma NoMatchBeforeWhitespace(a: string, b: string, pat: string, rep: string)
    requires pat != [] && |a| >= |pat| && a[..|pat|] != pat
    requires ReplaceAll(a[1..] + b, pat, rep) == ReplaceAll(a[1..], pat, rep) + ReplaceAll(b, pat, rep)
    ensures ReplaceAll(a + b, pat, rep) == ReplaceAll(a, pat, rep) + ReplaceAll(b, pat, rep)
  {
    assert (a + b)[..|pat|] != pat by {
      assert (a + b)[..|pat|] == a[..|pat|];
    }
    ReplaceAppendSkip(a, b, pat, rep);
    ReplaceAllSkip(a, pat, rep);
    AppendAssoc([a[0]], ReplaceAll(a[1..], pat, rep), ReplaceAll(b, pat, rep));
  }

  /** The case of the lemma above where `a` is shorter than the pattern, so nothing in `a` is replaced. */
  lemma {:induction false} ShortBeforeWhitespace(a: string, b: string, pat: string, rep: string)
    requires IsToken(pat) && (b == [] || IsWhitespace(b[0]))
    requires |a| < |pat|
    ensures ReplaceAll(a + b, pat, rep) == a + ReplaceAll(b, pat, rep)
    decreases |a|
  {
    if a == [] {
      assert a + b == b;
    } else {
      ShortBeforeWhitespace(a[1..], b, pat, rep);
      ShortStep(a, b, pat, rep);
    }
  }

  /** One step of the lemma above: the pattern cannot match at the start, as it would reach into the whitespace. */
  lemma ShortStep(a: string, b: string, pat: string, rep: string)
    requires IsToken(pat) && (b == [] || IsWhitespace(b[0]))
    requires a != [] && |a| < |pat|
    requires ReplaceAll(a[1..] + b, pat, rep) == a[1..] + ReplaceAll(b, pat, rep)
    ensures ReplaceAll(a + b, pat, rep) == a + ReplaceAll(b, pat, rep)
  {
    if |a + b| >= |pat| {
      assert (a + b)[..|pat|] != pat by {
        assert (a + b)[..|pat|][|a|] == b[0];
        assert !IsWhitespace(pat[|a|]);
      }
      ReplaceAppendSkip(a, b, pat, rep);
      AppendAssoc([a[0]], a[1..], ReplaceAll(b, pat, rep));
    } else {
      assert ReplaceAll(b, pat, rep) == b;
    }
    assert a == [a[0]] + a[1..];
  }

  /** Text that ends before whitespace (or the end) contributes its own words. */
  lemma {:induction false} WordsAppend(x: string, y: string)
    requires y == [] || IsWhitespace(y[0])
    ensures Words(x + y) == Words(x) + Words(y)
    decreases |x|
  {
    if x == [] {
      assert x + y == y;
    } else {
      var c, rest := x[0], x[1..];
      assert x == [c] + rest && x + y == [c] + (rest + y);
      WordsAppend(rest, y);
      WordsCons(c, rest);
      WordsCons(c, rest + y);
      if rest == [] {
        assert rest + y == y;
      } else {
        assert (rest + y)[0] == rest[0];
      }
      GlueAppend(c, rest, rest + y, Words(rest), Words(y));
    }
  }

  /** Spacing out one symbol in a text splits each of its words around that symbol. */
  lemma {:induction false} WordsOfSpaceSymbol(s: string, symbol: string)
    requires IsToken(symbol)
    ensures Words(SpaceSymbol(s, symbol)) == SplitWords(Words(s), symbol)
    decreases |s|
  {
    var rep := " " + symbol + " ";
    if s == [] {
    } else if IsWhitespace(s[0]) {
      assert [s[0]] + s[1..] == s;
      ReplaceAllAfterWhitespace([s[0]], s[1..], symbol, rep);
      WordsCons(s[0], ReplaceAll(s[1..], symbol, rep));
      WordsOfSpaceSymbol(s[1..], symbol);
    } else {
      var n := WordLength(s);
      WordLengthSpec(s);
      var w, rest := s[..n], s[n..];
      assert s == w + rest;
      ReplaceAllBeforeWhitespace(w, rest, symbol, rep);
      if rest != [] {
        assert [rest[0]] + rest[1..] == rest;
        ReplaceAllAfterWhitespace([rest[0]], rest[1..], symbol, rep);
      }
      WordsAppend(ReplaceAll(w, symbol, rep), ReplaceAll(rest, symbol, rep));
      WordsOfSpaceSymbol(rest, symbol);
      assert Words(s) == [w] + Words(rest);
      assert ([w] + Words(rest))[1..] == Words(rest);
    }
  }

  /** Spacing out each symbol in turn splits the words around each symbol in turn. */
  lemma {:induction false} WordsOfSpaceSymbols(s: string, symbols: seq<string>)
    requires forall k :: 0 <= k < |symbols| ==> IsToken(symbols[k])
    ensures Words(SpaceSymbols(s, symbols)) == SplitAllWords(Words(s), symbols)
    decreases |symbols|
  {
    if symbols != [] {
      WordsOfSpaceSymbols(SpaceSymbol(s, symbols[0]), symbols[1..]);
      WordsOfSpaceSymbol(s, symbols[0]);
    }
  }

  /**
   * tokenizeText with any list of preserved symbols: the words of the
   * tag-free text, split around the first symbol, then the second, and so on.
   */
  lemma TokensSplitEachSymbolInTurn(text: string, preserveSymbols: seq<string>)
    requires forall k :: 0 <= k < |preserveSymbols| ==> IsToken(preserveSymbols[k])
    ensures Tokens(text, preserveSymbols)
            == if AllWhitespace(text) then [] else SplitAllWords(Words(ReplaceHtmlTags(text)), preserveSymbols)
  {
    TrimSpec(text);
    WordsOfSpaceSymbols(ReplaceHtmlTags(text), preserveSymbols);
  }

  /** A token is its own single word. */
  lemma WordsOfToken(w: string)
    requires IsToken(w)
    ensures Words(w) == [w]
  {
    WordLengthSpec(w);
    assert w[..|w|] == w;
  }

  /** A text free of the pattern is left as it is. */
  lemma {:induction false} ReplaceAllFreeOf(s: string, pat: string, rep: string)
    requires pat != [] && FreeOf(s, pat)
    ensures ReplaceAll(s, pat, rep) == s
    decreases |s|
  {
    if |s| >= |pat| {
      assert !MatchesAt(s, pat, 0) && s[0..|pat|] == s[..|pat|];
      forall i | 0 <= i <= |s[1..]| ensures !MatchesAt(s[1..], pat, i) {
        assert !MatchesAt(s, pat, i + 1);
        if 0 <= i && i + |pat| <= |s[1..]| {
          assert s[1..][i..i + |pat|] == s[i + 1..i + 1 + |pat|];
        }
      }
      ReplaceAllFreeOf(s[1..], pat, rep);
    }
  }

  /**
   * A word that is one of the preserved symbols stays a single token through
   * every pass, provided no other symbol occurs inside it.
   */
  lemma {:induction false} SymbolWordSurvives(w: string, symbols: seq<string>)
    requires IsToken(w)
    requires forall k :: 0 <= k < |symbols| ==> IsToken(symbols[k])
    requires forall k :: 0 <= k < |symbols| ==> symbols[k] == w || FreeOf(w, symbols[k])
    ensures SplitAllWords([w], symbols) == [w]
    decreases |symbols|
  {
    if symbols != [] {
      var symbol := symbols[0];
      var rep := " " + symbol + " ";
      if symbol == w {
        assert w[..|w|] == w && w[|w|..] == [];
        assert ReplaceAll([], symbol, rep) == [];
        assert SpaceSymbol(w, symbol) == " " + w + " " + [];
        WordsOfSpacedToken(w, []);
      } else {
        ReplaceAllFreeOf(w, symbol, rep);
        WordsOfToken(w);
      }
      assert Words(SpaceSymbol(w, symbol)) == [w];
      assert [w][1..] == [];
      assert SplitWords([w], symbol) == [w];
      SymbolWordSurvives(w, symbols[1..]);
    }
  }

  /** Split passes work word by word. */
  lemma {:induction false} SplitAllWordsAppend(a: seq<string>, b: seq<string>, symbols: seq<string>)
    ensures SplitAllWords(a + b, symbols) == SplitAllWords(a, symbols) + SplitAllWords(b, symbols)
    decreases |symbols|
  {
    if symbols != [] {
      SplitWordsAppend(a, b, symbols[0]);
      SplitAllWordsAppend(SplitWords(a, symbols[0]), SplitWords(b, symbols[0]), symbols[1..]);
    }
  }

  lemma {:induction false} SplitWordsAppend(a: seq<string>, b: seq<string>, symbol: string)
    ensures SplitWords(a + b, symbol) == SplitWords(a, symbol) + SplitWords(b, symbol)
    decreases |a|
  {
    if a == [] {
      assert a + b == b;
    } else {
      assert (a + b)[0] == a[0] && (a + b)[1..] == a[1..] + b;
      SplitWordsAppend(a[1..], b, symbol);
    }
  }

  /**
   * Words that are each either a preserved symbol or free of every symbol
   * (symbols already set apart by spaces, as in `بسم ﷽ الله ﷻ الرحمن`) come
   * through every pass unchanged.
   */
  lemma {:induction false} SeparatedWordsUnchanged(words: seq<string>, symbols: seq<string>)
    requires forall j :: 0 <= j < |words| ==> IsToken(words[j])
    requires forall k :: 0 <= k < |symbols| ==> IsToken(symbols[k])
    requires forall j, k :: 0 <= j < |words| && 0 <= k < |symbols|
               ==> symbols[k] == words[j] || FreeOf(words[j], symbols[k])
    ensures SplitAllWords(words, symbols) == words
    decreases |words|
  {
    if words == [] {
      EmptyWordsStayEmpty(symbols);
    } else {
      assert words == [words[0]] + words[1..];
      SymbolWordSurvives(words[0], symbols);
      SeparatedWordsUnchanged(words[1..], symbols);
      SplitAllWordsAppend([words[0]], words[1..], symbols);
    }
  }

  lemma {:induction false} EmptyWordsStayEmpty(symbols: seq<string>)
    ensures SplitAllWords([], symbols) == []
    decreases |symbols|
  {
    if symbols != [] {
      EmptyWordsStayEmpty(symbols[1..]);
    }
  }

  /**
   * A later symbol that occurs inside an earlier one splits the earlier
   * symbol's token: with symbols `xy` then `y`, the token `xy` becomes `x`, `y`.
   */
  lemma OverlappingSymbolsSplitEarlierToken(x: char, y: char)
    requires !IsWhitespace(x) && !IsWhitespace(y) && x != y
    ensures SplitAllWords([[x, y]], [[x, y], [y]]) == [[x], [y]]
  {
    var rep := " " + [y] + " ";
    SymbolWordSurvives([x, y], [[x, y]]);
    assert SplitWords([[x, y]], [x, y]) == [[x, y]];
    assert [x, y][..1] == [x] && [x, y][1..] == [y] && [y][..1] == [y] && [y][1..] == [];
    assert ReplaceAll([y], [y], rep) == rep + ReplaceAll([], [y], rep);
    assert ReplaceAll([x, y], [y], rep) == [x] + ReplaceAll([y], [y], rep);
    WordsOfSpacedToken([y], []);
    assert rep == " " + [y] + " " + [];
    WordsCons(x, rep);
    assert [x] + rep == [x] + ReplaceAll([y], [y], rep);
    assert Words(SpaceSymbol([x, y], [y])) == [[x], [y]];
    assert [[x, y]][1..] == [];
    assert SplitWords([[x, y]], [y]) == [[x], [y]];
    var symbols := [[x, y], [y]];
    assert symbols[0] == [x, y] && symbols[1..] == [[y]] && [[y]][1..] == [];
    assert SplitAllWords([[x, y]], symbols) == SplitAllWords([[x, y]], [[y]]);
    assert SplitAllWords([[x, y]], [[y]]) == SplitAllWords([[x], [y]], []);
  }

  // ---------------------------------------------------------------------
  // Footnote patterns
  // ---------------------------------------------------------------------

  /** `s` without a leading `(`, if it has one. */
  function DropOpenParen(s: string): string {
    if |s| > 0 && s[0] == '(' then s[1..] else s
  }

  /** `s` without a trailing Arabic comma U+060C or full stop, if it has one. */
  function DropTrailingStop(s: string): string {
    if |s| > 0 && (s[|s| - 1] == '\U{060C}' || s[|s| - 1] == '.') then s[..|s| - 1] else s
  }

  /** `s` without a trailing `)`, if it has one. */
  function DropCloseParen(s: string): string {
    if |s| > 0 && s[|s| - 1] == ')' then s[..|s| - 1] else s
  }

  /**
   * `footnoteStandalone` (`^\(?[0-9٠-٩]+\)?[،.]?$`): the whole token is an
   * optional `(`, digits, an optional `)` and an optional comma or full stop.
   * The four parts use disjoint characters, so peeling them off from the
   * outside is the only way the pattern can match.
   */
  predicate IsStandaloneFootnote(t: string) {
    var core := DropCloseParen(DropTrailingStop(DropOpenParen(t)));
    |core| > 0 && AllDigits(core)
  }

  /** `footnoteEmbedded` (`\([0-9٠-٩]+\)`): a parenthesised digit run anywhere in the token. */
  predicate HasEmbeddedFootnote(t: string) {
    exists i, j :: 0 <= i < j < |t| && EmbeddedFootnoteAt(t, i, j)
  }

  /** `t[i..j + 1]` is `(`, one or more digits, `)`. */
  predicate EmbeddedFootnoteAt(t: string, i: int, j: int) {
    0 <= i && i + 1 < j < |t| && t[i] == '(' && t[j] == ')' && AllDigits(t[i + 1..j])
  }

  /** The outcome of `handleFootnoteFusion` on `result`: whether the token was handled, and the new `result`. */
  datatype FusionResult = FusionResult(handled: bool, result: seq<string>)

  /**
   * A standalone footnote followed by an embedded one with the same digits
   * is replaced by the embedded one; an embedded one followed by a standalone
   * one with the same digits absorbs it; otherwise nothing happens. The
   * replacement writes the last slot, which an empty list does not have.
   */
  function FuseFootnotes(result: seq<string>, previousToken: string, currentToken: string): FusionResult {
    if EmbeddedReplacesStandalone(previousToken, currentToken) then
      FusionResult(true, if result == [] then result else result[..|result| - 1] + [currentToken])
    else if EmbeddedAbsorbsStandalone(previousToken, currentToken) then
      FusionResult(true, result)
    else
      FusionResult(false, result)
  }

  /** A standalone footnote followed by an embedded footnote with the same digits. */
  predicate EmbeddedReplacesStandalone(previousToken: string, currentToken: string) {
    && IsStandaloneFootnote(previousToken) && HasEmbeddedFootnote(currentToken)
    && ExtractDigits(previousToken) == ExtractDigits(currentToken)
  }

  /** An embedded footnote followed by a standalone footnote with the same digits. */
  predicate EmbeddedAbsorbsStandalone(previousToken: string, currentToken: string) {
    && HasEmbeddedFootnote(previousToken) && IsStandaloneFootnote(currentToken)
    && ExtractDigits(previousToken) == ExtractDigits(currentToken)
  }

  /**
   * Footnote fusion never changes the length of `result` and touches at most
   * its last slot: a standalone footnote followed by an embedded one with the
   * same digits writes the current token there, and every other case leaves
   * `result` as it was.
   */
  lemma FuseFootnotesKeepsShape(result: seq<string>, previousToken: string, currentToken: string)
    ensures var f := FuseFootnotes(result, previousToken, currentToken);
            && (f.handled <==> EmbeddedReplacesStandalone(previousToken, currentToken)
                               || EmbeddedAbsorbsStandalone(previousToken, currentToken))
            && |f.result| == |result|
            && (|result| > 0 ==> f.result[..|result| - 1] == result[..|result| - 1])
            && (!f.handled ==> f.result == result)
            && (|result| > 0 && f.result != result ==> f.result[|result| - 1] == currentToken)
            && (EmbeddedReplacesStandalone(previousToken, currentToken) && result != []
                ==> f.result == result[..|result| - 1] + [currentToken])
            && (!EmbeddedReplacesStandalone(previousToken, currentToken) ==> f.result == result)
  {
  }

  /** A JavaScript array of tokens that callers share and update in place. */
  class TokenList {
    var items: seq<string>

    constructor ()
      ensures items == []
    {
      items := [];
    }

    /** `push` */
    method Push(token: string)
      modifies this
      ensures items == old(items) + [token]
    {
      items := items + [token];
    }

    /** `items[items.length - 1] = token`; on an empty array this sets no element. */
    method SetLast(token: string)
      modifies this
      ensures |items| == |old(items)|
      ensures old(items) != [] ==> items == old(items)[..|old(items)| - 1] + [token]
      ensures old(items) == [] ==> items == []
    {
      if items != [] {
        items := items[..|items| - 1] + [token];
      }
    }
  }

  /**
   * `handleFootnoteFusion`: fuses or skips the current token, overwriting
   * the last slot of the shared `result` in place when fusing.
   */
  method HandleFootnoteFusion(result: TokenList, previousToken: string, currentToken: string)
    returns (handled: bool)
    modifies result
    ensures FusionResult(handled, result.items) == FuseFootnotes(old(result.items), previousToken, currentToken)
    ensures |result.items| == |old(result.items)|
  {
    var prevIsStandalone := IsStandaloneFootnote(previousToken);
    var currHasEmbedded := HasEmbeddedFootnote(currentToken);
    var currIsStandalone := IsStandaloneFootnote(currentToken);
    var prevHasEmbedded := HasEmbeddedFootnote(previousToken);
    var prevDigits := ExtractDigits(previousToken);
    var currDigits := ExtractDigits(currentToken);
    if prevIsStandalone && currHasEmbedded && prevDigits == currDigits {
      result.SetLast(currentToken);
      return true;
    }
    if prevHasEmbedded && currIsStandalone && prevDigits == currDigits {
      return true;
    }
    return false;
  }

  /**
   * `handleFootnoteSelection`: nothing when neither token embeds a footnote;
   * otherwise the single token that does, or the shorter of two that both
   * do (ties to `tokenA`).
   */
  function HandleFootnoteSelection(tokenA: string, tokenB: string): (r: Option<seq<string>>)
    ensures r.None? <==> !HasEmbeddedFootnote(tokenA) && !HasEmbeddedFootnote(tokenB)
    ensures r.Some? ==> |r.value| == 1 && HasEmbeddedFootnote(r.value[0])
    ensures r.Some? ==> forall t :: t in r.value ==> t == tokenA || t == tokenB
    ensures r.Some? && HasEmbeddedFootnote(tokenA) ==> |r.value[0]| <= |tokenA|
    ensures r.Some? && HasEmbeddedFootnote(tokenB) ==> |r.value[0]| <= |tokenB|
    ensures r.Some? && HasEmbeddedFootnote(tokenA) && HasEmbeddedFootnote(tokenB) && |tokenA| == |tokenB|
            ==> r.value[0] == tokenA
  {
    var aHasEmbedded := HasEmbeddedFootnote(tokenA);
    var bHasEmbedded := HasEmbeddedFootnote(tokenB);
    if aHasEmbedded && !bHasEmbedded then Some([tokenA])
    else if bHasEmbedded && !aHasEmbedded then Some([tokenB])
    else if aHasEmbedded && bHasEmbedded then Some([if |tokenA| <= |tokenB| then tokenA else tokenB])
    else None
  }

  /**
   * `handleStandaloneFootnotes`: exactly one standalone footnote gives both
   * tokens, the footnote first; two give the shorter (ties to `tokenA`);
   * none gives nothing.
   */
  function HandleStandaloneFootnotes(tokenA: string, tokenB: string): (r: Option<seq<string>>)
    ensures r.None? <==> !IsStandaloneFootnote(tokenA) && !IsStandaloneFootnote(tokenB)
    ensures r.Some? ==> forall t :: t in r.value ==> t == tokenA || t == tokenB
    ensures r.Some? && IsStandaloneFootnote(tokenA) != IsStandaloneFootnote(tokenB)
            ==> |r.value| == 2 && IsStandaloneFootnote(r.value[0]) && !IsStandaloneFootnote(r.value[1])
                && multiset(r.value) == multiset{tokenA, tokenB}
    ensures r.Some? && IsStandaloneFootnote(tokenA) && IsStandaloneFootnote(tokenB)
            ==> |r.value| == 1 && (r.value[0] == tokenA || r.value[0] == tokenB)
                && |r.value[0]| <= |tokenA| && |r.value[0]| <= |tokenB|
                && (|tokenA| == |tokenB| ==> r.value[0] == tokenA)
  {
    var aIsFootnote := IsStandaloneFootnote(tokenA);
    var bIsFootnote := IsStandaloneFootnote(tokenB);
    if aIsFootnote && !bIsFootnote then Some([tokenA, tokenB])
    else if bIsFootnote && !aIsFootnote then Some([tokenB, tokenA])
    else if aIsFootnote && bIsFootnote then Some([if |tokenA| <= |tokenB| then tokenA else tokenB])
    else None
  }
}
