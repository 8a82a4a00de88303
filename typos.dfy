/**
 * Cross-engine typo correction (src/utils/typos.ts): the tokens of an
 * observation are aligned with those of the reference engine's matching
 * observation, the better token of each aligned pair is kept, and echoes
 * and split footnotes are merged afterwards.
 */
module Typos {
  import opened Types
  import opened TextUtils
  import opened Similarity
  import opened Alignment

  /** `typoSymbols.find(symbol => symbol === a || symbol === b)`. */
  function FindSymbol(typoSymbols: seq<string>, a: string, b: string): (r: Option<string>)
    ensures r.None? <==> a !in typoSymbols && b !in typoSymbols
    ensures r.Some? ==> r.value in typoSymbols && (r.value == a || r.value == b)
  {
    if typoSymbols == [] then None
    else if typoSymbols[0] == a || typoSymbols[0] == b then Some(typoSymbols[0])
    else FindSymbol(typoSymbols[1..], a, b)
  }

  /** `find` yields the first symbol equal to either token. */
  lemma {:induction false} FindSymbolIsFirst(typoSymbols: seq<string>, a: string, b: string, i: nat)
    requires i < |typoSymbols| && (typoSymbols[i] == a || typoSymbols[i] == b)
    requires forall j :: 0 <= j < i ==> typoSymbols[j] != a && typoSymbols[j] != b
    ensures FindSymbol(typoSymbols, a, b) == Some(typoSymbols[i])
  {
    if i > 0 {
      assert typoSymbols[0] != a && typoSymbols[0] != b;
      FindSymbolIsFirst(typoSymbols[1..], a, b, i - 1);
    }
  }

  /**
   * `selectBestTokens`: the token(s) kept for one aligned pair. A gap keeps
   * the other side; tokens equal after normalisation keep the original
   * (with its diacritics); then embedded footnotes, standalone footnotes and
   * typo symbols decide; otherwise the original is kept only when it is
   * more similar than the threshold to the reference token.
   * For two gaps the source would return `[null]`; an alignment never pairs
   * two gaps, so a present side is required.
   */
  function SelectBestTokens(originalToken: Option<string>, suryaToken: Option<string>, options: FixTypoOptions)
    : (r: seq<string>)
    requires originalToken.Some? || suryaToken.Some?
    ensures 1 <= |r| <= 2
    ensures forall t :: t in r ==> Some(t) == originalToken || Some(t) == suryaToken
    ensures originalToken.None? ==> r == [suryaToken.value]
    ensures originalToken.Some? && suryaToken.None? ==> r == [originalToken.value]
  {
    if originalToken.None? then [suryaToken.value]
    else if suryaToken.None? then [originalToken.value]
    else SelectBetween(originalToken.value, suryaToken.value, options)
  }

  /** `selectBestTokens` once both sides hold a token. */
  function SelectBetween(original: string, surya: string, options: FixTypoOptions): (r: seq<string>)
    ensures 1 <= |r| <= 2
    ensures forall t :: t in r ==> t == original || t == surya
  {
    if NormalizeArabicText(original) == NormalizeArabicText(surya) then [original]
    else
      var selection := HandleFootnoteSelection(original, surya);
      if selection.Some? then selection.value
      else
        var footnotes := HandleStandaloneFootnotes(original, surya);
        if footnotes.Some? then footnotes.value
        else if original in options.typoSymbols || surya in options.typoSymbols then
          var typoSymbol := FindSymbol(options.typoSymbols, original, surya);
          // `find` yields a symbol here; an empty one is falsy and gives way to the original.
          if typoSymbol.Some? && typoSymbol.value != "" then [typoSymbol.value] else [original]
        else
          var similarity := CalculateSimilarity(NormalizeArabicText(original), NormalizeArabicText(surya));
          [if similarity > options.similarityThreshold then original else surya]
  }

  /** Tokens that agree once normalised keep the original, diacritics and all. */
  lemma SelectBestTokensKeepsAgreeingOriginal(original: string, surya: string, options: FixTypoOptions)
    requires NormalizeArabicText(original) == NormalizeArabicText(surya)
    ensures SelectBestTokens(Some(original), Some(surya), options) == [original]
  {
  }

  /** An embedded footnote on either side wins; with one on both sides the shorter token (ties: the original). */
  lemma SelectBestTokensPrefersEmbeddedFootnote(original: string, surya: string, options: FixTypoOptions)
    requires NormalizeArabicText(original) != NormalizeArabicText(surya)
    requires HasEmbeddedFootnote(original) || HasEmbeddedFootnote(surya)
    ensures var r := SelectBestTokens(Some(original), Some(surya), options);
            && |r| == 1 && HasEmbeddedFootnote(r[0])
            && (HasEmbeddedFootnote(original) && HasEmbeddedFootnote(surya)
                ==> r[0] == if |original| <= |surya| then original else surya)
            && (!HasEmbeddedFootnote(original) ==> r[0] == surya)
            && (!HasEmbeddedFootnote(surya) ==> r[0] == original)
  {
  }

  /**
   * Without embedded footnotes, a standalone footnote on one side keeps both
   * tokens, the footnote first; on both sides, the shorter (ties: the original).
   */
  lemma SelectBestTokensKeepsStandaloneFootnote(original: string, surya: string, options: FixTypoOptions)
    requires NormalizeArabicText(original) != NormalizeArabicText(surya)
    requires !HasEmbeddedFootnote(original) && !HasEmbeddedFootnote(surya)
    requires IsStandaloneFootnote(original) || IsStandaloneFootnote(surya)
    ensures var r := SelectBestTokens(Some(original), Some(surya), options);
            && (IsStandaloneFootnote(original) && !IsStandaloneFootnote(surya) ==> r == [original, surya])
            && (!IsStandaloneFootnote(original) && IsStandaloneFootnote(surya) ==> r == [surya, original])
            && (IsStandaloneFootnote(original) && IsStandaloneFootnote(surya)
                ==> r == [if |original| <= |surya| then original else surya])
  {
  }

  /**
   * Without footnotes, a typo symbol on either side decides the token kept:
   * the first symbol in `typoSymbols` that equals either token, so the
   * original when only it is a symbol and the reference token when only that
   * one is. Tokens are never empty, so the symbol `find` yields is never the
   * falsy `""`.
   */
  lemma SelectBestTokensPrefersTypoSymbol(original: string, surya: string, options: FixTypoOptions)
    requires original != [] && surya != []
    requires NormalizeArabicText(original) != NormalizeArabicText(surya)
    requires !HasEmbeddedFootnote(original) && !HasEmbeddedFootnote(surya)
    requires !IsStandaloneFootnote(original) && !IsStandaloneFootnote(surya)
    requires original in options.typoSymbols || surya in options.typoSymbols
    ensures var r := SelectBestTokens(Some(original), Some(surya), options);
            && r == [FindSymbol(options.typoSymbols, original, surya).value]
            && r[0] in options.typoSymbols && (r[0] == original || r[0] == surya)
            && (original !in options.typoSymbols ==> r == [surya])
            && (surya !in options.typoSymbols ==> r == [original])
  {
  }

  /** When the first matching typo symbol is the empty string, `find` yields a falsy value and the original is kept. */
  lemma SelectBestTokensEmptySymbolKeepsOriginal(original: string, surya: string, options: FixTypoOptions)
    requires NormalizeArabicText(original) != NormalizeArabicText(surya)
    requires !HasEmbeddedFootnote(original) && !HasEmbeddedFootnote(surya)
    requires !IsStandaloneFootnote(original) && !IsStandaloneFootnote(surya)
    requires FindSymbol(options.typoSymbols, original, surya) == Some("")
    ensures SelectBestTokens(Some(original), Some(surya), options) == [original]
  {
  }

  /** Otherwise the original survives exactly when it is more similar than the threshold to the reference token. */
  lemma SelectBestTokensBySimilarity(original: string, surya: string, options: FixTypoOptions)
    requires NormalizeArabicText(original) != NormalizeArabicText(surya)
    requires !HasEmbeddedFootnote(original) && !HasEmbeddedFootnote(surya)
    requires !IsStandaloneFootnote(original) && !IsStandaloneFootnote(surya)
    requires original !in options.typoSymbols && surya !in options.typoSymbols
    ensures SelectBestTokens(Some(original), Some(surya), options)
            == if CalculateSimilarity(NormalizeArabicText(original), NormalizeArabicText(surya))
                  > options.similarityThreshold then [original] else [surya]
  {
  }

  // ---------------------------------------------------------------------
  // Duplicate removal
  // ---------------------------------------------------------------------

  /** `areSimilarAfterNormalization` at the high threshold, as a value, so the loop below can be stated over it. */
  function Echo(highSimilarityThreshold: real): (string, string) -> bool {
    (a, b) => AreSimilarAfterNormalization(a, b, highSimilarityThreshold)
  }

  /** Every token echoes itself unless the threshold is above 1. */
  lemma EchoReflexive(token: string, highSimilarityThreshold: real)
    ensures Echo(highSimilarityThreshold)(token, token) <==> highSimilarityThreshold <= 1.0
  {
  }

  /**
   * One iteration of `removeDuplicateTokens` on the tokens kept so far: an
   * echo of the last token keeps the shorter of the two, a footnote fusion
   * rewrites or skips, anything else is appended.
   */
  function DedupStep(kept: seq<string>, currentToken: string, echo: (string, string) -> bool): (r: seq<string>)
    ensures |kept| <= |r| <= |kept| + 1
    ensures r != []
    ensures |kept| > 0 ==> r[..|kept| - 1] == kept[..|kept| - 1]
  {
    if kept == [] then [currentToken]
    else
      var previousToken := kept[|kept| - 1];
      if echo(previousToken, currentToken) then
        if |currentToken| < |previousToken| then kept[..|kept| - 1] + [currentToken] else kept
      else
        var fusion := FuseFootnotes(kept, previousToken, currentToken);
        if fusion.handled then fusion.result else kept + [currentToken]
  }

  /** The tokens `removeDuplicateTokens` returns: `DedupStep` folded over the input from the left. */
  function Dedup(tokens: seq<string>, echo: (string, string) -> bool): seq<string> {
    if tokens == [] then []
    else DedupStep(Dedup(tokens[..|tokens| - 1], echo), tokens[|tokens| - 1], echo)
  }

  lemma DedupSnoc(tokens: seq<string>, k: nat, echo: (string, string) -> bool)
    requires k < |tokens|
    ensures Dedup(tokens[..k + 1], echo) == DedupStep(Dedup(tokens[..k], echo), tokens[k], echo)
  {
    assert tokens[..k + 1][..k] == tokens[..k];
  }

  /** `removeDuplicateTokens`: one pass over the tokens, updating the shared result list in place. */
  method RemoveDuplicateTokens(tokens: seq<string>, highSimilarityThreshold: real) returns (r: seq<string>)
    ensures r == Dedup(tokens, Echo(highSimilarityThreshold))
  {
    ghost var echo := Echo(highSimilarityThreshold);
    if |tokens| == 0 {
      return tokens;
    }
    var result := new TokenList();
    for k := 0 to |tokens|
      invariant result.items == Dedup(tokens[..k], echo)
    {
      DedupSnoc(tokens, k, echo);
      var currentToken := tokens[k];
      if |result.items| == 0 {
        result.Push(currentToken);
        continue;
      }
      var previousToken := result.items[|result.items| - 1];
      if AreSimilarAfterNormalization(previousToken, currentToken, highSimilarityThreshold) {
        assert echo(previousToken, currentToken);
        if |currentToken| < |previousToken| {
          result.SetLast(currentToken);
        }
        continue;
      }
      assert !echo(previousToken, currentToken);
      var handled := HandleFootnoteFusion(result, previousToken, currentToken);
      if handled {
        continue;
      }
      result.Push(currentToken);
    }
    assert tokens[..|tokens|] == tokens;
    r := result.items;
  }

  lemma DedupStepDrawsFrom(kept: seq<string>, currentToken: string, echo: (string, string) -> bool)
    ensures forall t :: t in DedupStep(kept, currentToken, echo) ==> t in kept || t == currentToken
  {
    var r := DedupStep(kept, currentToken, echo);
    if kept != [] {
      FuseFootnotesKeepsShape(kept, kept[|kept| - 1], currentToken);
      assert r == kept || r == kept[..|kept| - 1] + [currentToken] || r == kept + [currentToken];
    }
  }

  /** Every kept token is one of the input tokens. */
  lemma {:induction false} DedupDrawsFromInput(tokens: seq<string>, echo: (string, string) -> bool)
    ensures forall t :: t in Dedup(tokens, echo) ==> t in tokens
  {
    if tokens != [] {
      var init := tokens[..|tokens| - 1];
      DedupDrawsFromInput(init, echo);
      DedupStepDrawsFrom(Dedup(init, echo), tokens[|tokens| - 1], echo);
    }
  }

  /** Duplicate removal never lengthens the list, and keeps at least one token of a non-empty one. */
  lemma {:induction false} DedupLength(tokens: seq<string>, echo: (string, string) -> bool)
    ensures |Dedup(tokens, echo)| <= |tokens|
    ensures tokens != [] <==> Dedup(tokens, echo) != []
  {
    if tokens != [] {
      DedupLength(tokens[..|tokens| - 1], echo);
    }
  }

  /** Neither echoes nor fusable footnotes: `removeDuplicateTokens` appends the current token. */
  predicate Distinct(previousToken: string, currentToken: string, echo: (string, string) -> bool) {
    && !echo(previousToken, currentToken)
    && !EmbeddedReplacesStandalone(previousToken, currentToken)
    && !EmbeddedAbsorbsStandalone(previousToken, currentToken)
  }

  /** When no two neighbouring tokens are echoes or fusable footnotes, nothing is removed. */
  lemma {:induction false} DedupKeepsDistinctTokens(tokens: seq<string>, echo: (string, string) -> bool)
    requires forall k :: 0 < k < |tokens| ==> Distinct(tokens[k - 1], tokens[k], echo)
    ensures Dedup(tokens, echo) == tokens
  {
    if |tokens| > 1 {
      var init := tokens[..|tokens| - 1];
      DedupKeepsDistinctTokens(init, echo);
      var previousToken := init[|init| - 1];
      var currentToken := tokens[|tokens| - 1];
      assert Distinct(previousToken, currentToken, echo);
      FuseFootnotesKeepsShape(init, previousToken, currentToken);
      assert DedupStep(init, currentToken, echo) == init + [currentToken];
      assert init + [currentToken] == tokens;
    }
  }

  /** A token repeated right after itself is an echo: the repetition is dropped. */
  lemma DedupStepAbsorbsRepeat(kept: seq<string>, token: string, echo: (string, string) -> bool)
    requires echo(token, token)
    ensures DedupStep(DedupStep(kept, token, echo), token, echo) == DedupStep(kept, token, echo)
  {
    var once := DedupStep(kept, token, echo);
    if kept != [] {
      var previousToken := kept[|kept| - 1];
      FuseFootnotesKeepsShape(kept, previousToken, token);
      if !echo(previousToken, token) {
        var fusion := FuseFootnotes(kept, previousToken, token);
        if fusion.handled && fusion.result == kept {
          assert once == kept;
        } else {
          assert once[|once| - 1] == token;
        }
      }
    }
  }

  /** Reading a self-echoing token twice in a row gives the same tokens as reading it once. */
  lemma DedupDropsRepeat(tokens: seq<string>, token: string, echo: (string, string) -> bool)
    requires echo(token, token)
    ensures Dedup(tokens + [token, token], echo) == Dedup(tokens + [token], echo)
  {
    var once := tokens + [token];
    var twice := tokens + [token, token];
    assert twice[..|twice| - 1] == once && twice[|twice| - 1] == token;
    assert once[..|once| - 1] == tokens && once[|once| - 1] == token;
    assert Dedup(twice, echo) == DedupStep(Dedup(once, echo), token, echo);
    assert Dedup(once, echo) == DedupStep(Dedup(tokens, echo), token, echo);
    DedupStepAbsorbsRepeat(Dedup(tokens, echo), token, echo);
  }

  /**
   * A token that echoes the last kept token is never appended: the list
   * keeps its length and its last slot holds the shorter of the two, the
   * earlier one on a tie.
   */
  lemma DedupEchoKeepsShorter(tokens: seq<string>, token: string, echo: (string, string) -> bool)
    requires Dedup(tokens, echo) != []
    requires echo(Dedup(tokens, echo)[|Dedup(tokens, echo)| - 1], token)
    ensures var kept := Dedup(tokens, echo);
            var last := kept[|kept| - 1];
            var r := Dedup(tokens + [token], echo);
            && |r| == |kept|
            && r[..|kept| - 1] == kept[..|kept| - 1]
            && r[|kept| - 1] == (if |token| < |last| then token else last)
  {
    var next := tokens + [token];
    assert next[..|next| - 1] == tokens && next[|next| - 1] == token;
  }

  // ---------------------------------------------------------------------
  // Text alignment and the observation pass
  // ---------------------------------------------------------------------

  /** `alignedPairs.flatMap(([original, surya]) => selectBestTokens(original, surya, options))`. */
  function SelectAll(pairs: seq<AlignedTokenPair>, options: FixTypoOptions): (r: seq<string>)
    requires NoEmptyPair(pairs)
  {
    if pairs == [] then []
    else SelectBestTokens(pairs[0].a, pairs[0].b, options) + SelectAll(pairs[1..], options)
  }

  /** The merged tokens of two non-empty token lists, before duplicate removal. */
  function MergedTokens(originalTokens: seq<string>, suryaTokens: seq<string>, options: FixTypoOptions): seq<string> {
    SelectAll(Aligned(originalTokens, suryaTokens, Scorer(options.typoSymbols, options.similarityThreshold)), options)
  }

  /**
   * `processTextAlignment`: an observation with no tokens takes the
   * reference text, a reference with no tokens keeps the observation's
   * text; otherwise the merged, de-duplicated tokens joined by spaces.
   */
  function ProcessTextAlignment(originalText: string, suryaText: string, options: FixTypoOptions): (r: string)
    ensures Tokens(originalText, options.typoSymbols) == [] ==> r == suryaText
    ensures Tokens(originalText, options.typoSymbols) != [] && Tokens(suryaText, options.typoSymbols) == []
            ==> r == originalText
    ensures Tokens(originalText, options.typoSymbols) != [] && Tokens(suryaText, options.typoSymbols) != []
            ==> r == Join(Dedup(MergedTokens(Tokens(originalText, options.typoSymbols),
                                             Tokens(suryaText, options.typoSymbols), options),
                                Echo(options.highSimilarityThreshold)))
  {
    var originalTokens := Tokens(originalText, options.typoSymbols);
    var suryaTokens := Tokens(suryaText, options.typoSymbols);
    if |originalTokens| == 0 then suryaText
    else if |suryaTokens| == 0 then originalText
    else
      var mergedTokens := MergedTokens(originalTokens, suryaTokens, options);
      Join(Dedup(mergedTokens, Echo(options.highSimilarityThreshold)))
  }

  lemma {:induction false} SelectAllDrawsFromPairs(pairs: seq<AlignedTokenPair>, options: FixTypoOptions)
    requires NoEmptyPair(pairs)
    ensures forall t :: t in SelectAll(pairs, options) ==> t in Lefts(pairs) || t in Rights(pairs)
  {
    if pairs != [] {
      SelectAllDrawsFromPairs(pairs[1..], options);
      LeftsCons(pairs);
      RightsCons(pairs);
    }
  }

  lemma {:induction false} LeftsCons(pairs: seq<AlignedTokenPair>)
    requires pairs != []
    ensures Lefts(pairs) == OptionList(pairs[0].a) + Lefts(pairs[1..])
    decreases |pairs|
  {
    var init := pairs[..|pairs| - 1];
    var last := OptionList(pairs[|pairs| - 1].a);
    if |pairs| == 1 {
      assert init == [] && pairs[1..] == [];
    } else {
      LeftsCons(init);
      assert init[0] == pairs[0];
      assert init[1..] == pairs[1..][..|pairs[1..]| - 1];
      assert pairs[1..][|pairs[1..]| - 1] == pairs[|pairs| - 1];
      calc {
        Lefts(pairs);
        Lefts(init) + last;
        OptionList(pairs[0].a) + Lefts(init[1..]) + last;
        OptionList(pairs[0].a) + Lefts(pairs[1..]);
      }
    }
  }

  lemma {:induction false} RightsCons(pairs: seq<AlignedTokenPair>)
    requires pairs != []
    ensures Rights(pairs) == OptionList(pairs[0].b) + Rights(pairs[1..])
    decreases |pairs|
  {
    var init := pairs[..|pairs| - 1];
    var last := OptionList(pairs[|pairs| - 1].b);
    if |pairs| == 1 {
      assert init == [] && pairs[1..] == [];
    } else {
      RightsCons(init);
      assert init[0] == pairs[0];
      assert init[1..] == pairs[1..][..|pairs[1..]| - 1];
      assert pairs[1..][|pairs[1..]| - 1] == pairs[|pairs| - 1];
      calc {
        Rights(pairs);
        Rights(init) + last;
        OptionList(pairs[0].b) + Rights(init[1..]) + last;
        OptionList(pairs[0].b) + Rights(pairs[1..]);
      }
    }
  }

  /** Every token of the corrected text comes from one of the two engines' token lists. */
  lemma MergedTokensFromInputs(originalTokens: seq<string>, suryaTokens: seq<string>, options: FixTypoOptions)
    ensures forall t :: t in Dedup(MergedTokens(originalTokens, suryaTokens, options), Echo(options.highSimilarityThreshold))
                        ==> t in originalTokens || t in suryaTokens
  {
    var pairs := Aligned(originalTokens, suryaTokens, Scorer(options.typoSymbols, options.similarityThreshold));
    SelectAllDrawsFromPairs(pairs, options);
    DedupDrawsFromInput(MergedTokens(originalTokens, suryaTokens, options), Echo(options.highSimilarityThreshold));
  }

  lemma {:induction false} SelectAllOfZip(tokens: seq<string>, options: FixTypoOptions)
    ensures SelectAll(Zip(tokens), options) == tokens
  {
    if tokens != [] {
      SelectAllOfZip(tokens[1..], options);
      assert Zip(tokens)[1..] == Zip(tokens[1..]);
    }
  }

  /** When both engines read the same tokens, the merge keeps exactly those tokens. */
  lemma MergedTokensOfAgreeingEngines(tokens: seq<string>, options: FixTypoOptions)
    ensures MergedTokens(tokens, tokens, options) == tokens
  {
    AlignedWithItself(tokens, options.typoSymbols, options.similarityThreshold);
    SelectAllOfZip(tokens, options);
  }

  /** `typoSymbolsRegex.test(text)`: the alternation of the symbols matches somewhere in `text`. */
  predicate MentionsTypoSymbol(text: string, typoSymbols: seq<string>) {
    // An empty alternation is the empty pattern, which matches every string.
    |typoSymbols| == 0 || exists k :: 0 <= k < |typoSymbols| && Contains(text, typoSymbols[k])
  }

  /** `pattern` occurs in `text`, starting at some position. */
  predicate Contains(text: string, pattern: string) {
    exists i :: 0 <= i <= |text| - |pattern| && OccursAt(text, pattern, i)
  }

  predicate OccursAt(text: string, pattern: string, i: int)
    requires 0 <= i <= |text| - |pattern|
  {
    text[i..i + |pattern|] == pattern
  }

  /** The observation kept or corrected for one index. */
  function FixObservation(suryaObservation: Observation, observation: Observation, options: FixTypoOptions)
    : (r: Observation)
    ensures r.bbox == observation.bbox
    ensures !MentionsTypoSymbol(suryaObservation.text, options.typoSymbols) ==> r == observation
    ensures MentionsTypoSymbol(suryaObservation.text, options.typoSymbols)
            ==> r.text == ProcessTextAlignment(observation.text, suryaObservation.text, options)
  {
    if !MentionsTypoSymbol(suryaObservation.text, options.typoSymbols) then observation
    else observation.(text := ProcessTextAlignment(observation.text, suryaObservation.text, options))
  }

  /**
   * `findAndFixTypos`: arrays of different lengths are an error; otherwise
   * each observation whose reference text mentions a typo symbol has its
   * text re-aligned, and every other observation is kept as it is.
   */
  function FindAndFixTypos(suryaObservations: seq<Observation>, observations: seq<Observation>,
                           options: FixTypoOptions): (r: Result<seq<Observation>>)
    ensures r.Failure? <==> |suryaObservations| != |observations|
    ensures r.Failure? ==> r.error == "The two observation arrays must have the same length"
    ensures r.Success? ==> |r.value| == |observations|
    ensures r.Success? ==> forall i :: 0 <= i < |observations| ==>
              r.value[i] == FixObservation(suryaObservations[i], observations[i], options)
  {
    if |suryaObservations| != |observations| then
      Failure("The two observation arrays must have the same length")
    else
      Success(seq(|observations|, i requires 0 <= i < |observations| =>
        FixObservation(suryaObservations[i], observations[i], options)))
  }

  /** Observations keep their boxes and order; only texts can change. */
  lemma FindAndFixTyposKeepsBoxes(suryaObservations: seq<Observation>, observations: seq<Observation>,
                                  options: FixTypoOptions)
    requires |suryaObservations| == |observations|
    ensures var r := FindAndFixTypos(suryaObservations, observations, options).value;
            forall i :: 0 <= i < |observations| ==> r[i].bbox == observations[i].bbox
  {
  }

  /** With symbols given and no reference text mentioning one, nothing changes. */
  lemma FindAndFixTyposWithoutSymbols(suryaObservations: seq<Observation>, observations: seq<Observation>,
                                      options: FixTypoOptions)
    requires |suryaObservations| == |observations|
    requires forall i :: 0 <= i < |suryaObservations| ==>
               !MentionsTypoSymbol(suryaObservations[i].text, options.typoSymbols)
    ensures FindAndFixTypos(suryaObservations, observations, options) == Success(observations)
  {
    var r := FindAndFixTypos(suryaObservations, observations, options).value;
    assert forall i :: 0 <= i < |observations| ==> r[i] == observations[i];
    assert r == observations;
  }
}
