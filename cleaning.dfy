/** Field cleaning: word segmentation turn by turn (`seg_proc`, `cut_sentence`),
    noise and stop-word filtering (`filter_words`) and their composition
    (`sentence_proc`). */
module Cleaning {
  import opened PyStr

  /** The fixed noise tokens: the turn separator, brackets, and the markers
      for a voice message and a picture. */
  const RemoveWords: seq<string> := ["|", "[", "]", "语音", "图片"]

  /** The process-wide resources, fixed before any cleaning: the stop-word
      set and the word segmenter (the external segmenter's token list for one
      line of text). */
  datatype Resources = Resources(stopWords: set<string>, segment: string -> seq<string>)

  /** A token survives filtering when it is non-empty, not noise and not a stop word. */
  predicate Kept(w: string, stopWords: set<string>)
  {
    w != "" && w !in RemoveWords && w !in stopWords
  }

  /** First pass of `filter_words`: drop empty tokens and noise tokens. */
  function DropNoise(words: seq<string>): (r: seq<string>)
    ensures |r| <= |words|
    decreases |words|
  {
    if |words| == 0 then []
    else (if words[0] != "" && words[0] !in RemoveWords then [words[0]] else []) + DropNoise(words[1..])
  }

  /** Second pass of `filter_words`: drop stop words. */
  function DropStopWords(words: seq<string>, stopWords: set<string>): (r: seq<string>)
    ensures |r| <= |words|
    decreases |words|
  {
    if |words| == 0 then []
    else (if words[0] !in stopWords then [words[0]] else []) + DropStopWords(words[1..], stopWords)
  }

  /** A token is left by the first pass exactly when it is an input token,
      non-empty and not noise. */
  lemma {:induction false} DropNoiseMembers(words: seq<string>)
    ensures forall w :: w in DropNoise(words) <==> w in words && w != "" && w !in RemoveWords
    decreases |words|
  {
    if |words| > 0 {
      DropNoiseMembers(words[1..]);
      assert words == [words[0]] + words[1..];
    }
  }

  /** A token is left by the second pass exactly when it is an input token
      and not a stop word. */
  lemma {:induction false} DropStopWordsMembers(words: seq<string>, stopWords: set<string>)
    ensures forall w :: w in DropStopWords(words, stopWords) <==> w in words && w !in stopWords
    decreases |words|
  {
    if |words| > 0 {
      DropStopWordsMembers(words[1..], stopWords);
      assert words == [words[0]] + words[1..];
    }
  }

  /** Both passes over a token list. */
  function FilterTokens(words: seq<string>, stopWords: set<string>): (r: seq<string>)
    ensures |r| <= |words|
  {
    DropStopWords(DropNoise(words), stopWords)
  }

  /** A token survives both passes exactly when it is an input token and kept. */
  lemma FilterTokensMembers(words: seq<string>, stopWords: set<string>)
    ensures forall w :: w in FilterTokens(words, stopWords) <==> w in words && Kept(w, stopWords)
  {
    DropNoiseMembers(words);
    DropStopWordsMembers(DropNoise(words), stopWords);
  }

  /** `filter_words(sentence)`: the `' '`-split tokens that are kept. */
  function FilterWords(sentence: string, stopWords: set<string>): (r: seq<string>)
    ensures forall w :: w in r <==> w in Split(sentence, ' ') && Kept(w, stopWords)
  {
    FilterTokensMembers(Split(sentence, ' '), stopWords);
    FilterTokens(Split(sentence, ' '), stopWords)
  }

  lemma {:induction false} DropNoiseAppend(a: seq<string>, b: seq<string>)
    ensures DropNoise(a + b) == DropNoise(a) + DropNoise(b)
    decreases |a|
  {
    if |a| > 0 {
      assert (a + b)[1..] == a[1..] + b;
      DropNoiseAppend(a[1..], b);
    } else {
      assert a + b == b;
    }
  }

  lemma {:induction false} DropStopWordsAppend(a: seq<string>, b: seq<string>, stopWords: set<string>)
    ensures DropStopWords(a + b, stopWords) == DropStopWords(a, stopWords) + DropStopWords(b, stopWords)
    decreases |a|
  {
    if |a| > 0 {
      assert (a + b)[1..] == a[1..] + b;
      DropStopWordsAppend(a[1..], b, stopWords);
    } else {
      assert a + b == b;
    }
  }

  /** Filtering keeps order: it works token by token, so the filtered
      concatenation is the concatenation of the filtered parts, and a single
      token is kept exactly when `Kept` holds of it. */
  lemma FilterTokensAppend(a: seq<string>, b: seq<string>, stopWords: set<string>)
    ensures FilterTokens(a + b, stopWords) == FilterTokens(a, stopWords) + FilterTokens(b, stopWords)
    ensures forall w :: FilterTokens([w], stopWords) == if Kept(w, stopWords) then [w] else []
  {
    DropNoiseAppend(a, b);
    DropStopWordsAppend(DropNoise(a), DropNoise(b), stopWords);
  }

  /** A list whose tokens are all kept is left as it is. */
  lemma {:induction false} FilterTokensKeepsAll(words: seq<string>, stopWords: set<string>)
    requires forall i :: 0 <= i < |words| ==> Kept(words[i], stopWords)
    ensures FilterTokens(words, stopWords) == words
    decreases |words|
  {
    if |words| > 0 {
      FilterTokensKeepsAll(words[1..], stopWords);
      FilterTokensAppend([words[0]], words[1..], stopWords);
      assert words == [words[0]] + words[1..];
    }
  }

  /** Filtering is idempotent through the rejoin that `sentence_proc` does;
      this covers the empty result too, whose rejoin `""` splits to `[""]`. */
  lemma FilterWordsIdempotent(sentence: string, stopWords: set<string>)
    ensures FilterWords(Join(FilterWords(sentence, stopWords), " "), stopWords)
            == FilterWords(sentence, stopWords)
  {
    var words := FilterWords(sentence, stopWords);
    if |words| == 0 {
      assert Split("", ' ') == [""];
      assert FilterTokens([""], stopWords) == [];
    } else {
      assert forall i :: 0 <= i < |words| ==> words[i] in words;
      SplitPiecesWithoutSeparator(sentence, ' ');
      SplitJoin(words, ' ');
      FilterTokensKeepsAll(words, stopWords);
    }
  }

  /** `cut_sentence(line)`: the segmenter's tokens joined by single spaces.
      No tokens give the empty string; tokens without a space are exactly
      what splitting the result on `' '` gives back. */
  function CutSentence(line: string, segment: string -> seq<string>): (r: string)
    ensures |segment(line)| == 0 ==> r == ""
    ensures |segment(line)| >= 1 && (forall i :: 0 <= i < |segment(line)| ==> ' ' !in segment(line)[i]) ==>
              Split(r, ' ') == segment(line)
  {
    var words := segment(line);
    if |words| >= 1 && forall i :: 0 <= i < |words| ==> ' ' !in words[i] then
      SplitJoin(words, ' ');
      Join(words, " ")
    else
      Join(words, " ")
  }

  /** `cut_sentence` applied to each turn, in order. */
  function CutEach(turns: seq<string>, segment: string -> seq<string>): (r: seq<string>)
    ensures |r| == |turns|
    ensures forall i :: 0 <= i < |r| ==> r[i] == CutSentence(turns[i], segment)
    decreases |turns|
  {
    if |turns| == 0 then [] else [CutSentence(turns[0], segment)] + CutEach(turns[1..], segment)
  }

  /** What `seg_proc` returns: the field split on `'|'`, each turn segmented
      on its own, and the turns rejoined with `" | "`. */
  function Segmented(sentence: string, segment: string -> seq<string>): string
  {
    Join(CutEach(Split(sentence, '|'), segment), " | ")
  }

  /** `seg_proc`, with its loop that appends one segmented turn at a time. */
  method SegProc(sentence: string, segment: string -> seq<string>) returns (r: string)
    ensures r == Segmented(sentence, segment)
  {
    var tokens := Split(sentence, '|');
    var result: seq<string> := [];
    var i := 0;
    while i < |tokens|
      invariant 0 <= i <= |tokens| && |result| == i
      invariant forall k :: 0 <= k < i ==> result[k] == CutSentence(tokens[k], segment)
    {
      result := result + [CutSentence(tokens[i], segment)];
      i := i + 1;
    }
    assert result == CutEach(tokens, segment);
    r := Join(result, " | ");
  }

  /** The `' '`-tokens of segmented turns rejoined with `" | "`: each turn's
      tokens, with a `"|"` token between consecutive turns. */
  function TurnTokens(cuts: seq<string>): seq<string>
    requires |cuts| >= 1
    decreases |cuts|
  {
    if |cuts| == 1 then Split(cuts[0], ' ')
    else Split(cuts[0], ' ') + ["|"] + TurnTokens(cuts[1..])
  }

  /** Concatenation of each segmented turn's filtered tokens. */
  function FilterEach(cuts: seq<string>, stopWords: set<string>): seq<string>
    decreases |cuts|
  {
    if |cuts| == 0 then [] else FilterWords(cuts[0], stopWords) + FilterEach(cuts[1..], stopWords)
  }

  lemma {:induction false} SplitTurnJoin(cuts: seq<string>)
    requires |cuts| >= 1
    ensures Split(Join(cuts, " | "), ' ') == TurnTokens(cuts)
    decreases |cuts|
  {
    if |cuts| > 1 {
      var head, rest := cuts[0], Join(cuts[1..], " | ");
      var tail := "|" + [' '] + rest;
      assert Join(cuts, " | ") == head + " | " + rest;
      assert head + " | " + rest == head + [' '] + tail;
      SplitTurnJoin(cuts[1..]);
      SplitNoSeparator("|", ' ');
      SplitAround("|", ' ', rest);
      SplitAround(head, ' ', tail);
      assert Split(head, ' ') + (["|"] + TurnTokens(cuts[1..])) == Split(head, ' ') + ["|"] + TurnTokens(cuts[1..]);
    }
  }

  /** `seg_proc` keeps every turn: there is one turn per `'|'` plus one, and
      the segmented string's tokens are those of each segmented turn with a
      `"|"` token between consecutive turns. */
  lemma SegmentedTokens(sentence: string, segment: string -> seq<string>)
    ensures |CutEach(Split(sentence, '|'), segment)| == Count(sentence, '|') + 1
    ensures Split(Segmented(sentence, segment), ' ') == TurnTokens(CutEach(Split(sentence, '|'), segment))
  {
    SplitLength(sentence, '|');
    SplitTurnJoin(CutEach(Split(sentence, '|'), segment));
  }

  lemma {:induction false} FilterTurnTokens(cuts: seq<string>, stopWords: set<string>)
    requires |cuts| >= 1
    ensures FilterTokens(TurnTokens(cuts), stopWords) == FilterEach(cuts, stopWords)
    decreases |cuts|
  {
    var first := Split(cuts[0], ' ');
    if |cuts| == 1 {
      assert FilterEach(cuts[1..], stopWords) == [];
    } else {
      FilterTurnTokens(cuts[1..], stopWords);
      FilterTokensAppend(first + ["|"], TurnTokens(cuts[1..]), stopWords);
      FilterTokensAppend(first, ["|"], stopWords);
      assert !Kept("|", stopWords);
    }
  }

  /** `sentence_proc(sentence)`: the kept tokens of the segmented field, joined
      by single spaces. The result is empty exactly when no token is kept;
      otherwise its tokens are exactly the kept ones, none of them empty,
      noise or a stop word. In particular no `"|"` token is left. */
  function SentenceProc(sentence: string, res: Resources): (r: string)
    ensures r == "" <==> FilterWords(Segmented(sentence, res.segment), res.stopWords) == []
    ensures r != "" ==> Split(r, ' ') == FilterWords(Segmented(sentence, res.segment), res.stopWords)
    ensures r != "" ==> forall i :: 0 <= i < |Split(r, ' ')| ==> Kept(Split(r, ' ')[i], res.stopWords)
    ensures "|" !in Split(r, ' ')
  {
    var words := FilterWords(Segmented(sentence, res.segment), res.stopWords);
    var r := Join(words, " ");
    if |words| == 0 then
      assert Split(r, ' ') == [""];
      r
    else
      assert forall i :: 0 <= i < |words| ==> words[i] in words;
      SplitPiecesWithoutSeparator(Segmented(sentence, res.segment), ' ');
      SplitJoin(words, ' ');
      JoinEnds(words, " ");
      assert words[0] != "";
      r
  }

  /** Each turn is segmented and filtered on its own, and the `"|"` tokens
      that `seg_proc` puts between turns are dropped: the tokens of
      `sentence_proc` are the concatenation of each turn's kept tokens. */
  lemma SentenceProcTurns(sentence: string, res: Resources)
    ensures var perTurn := FilterEach(CutEach(Split(sentence, '|'), res.segment), res.stopWords);
            && (SentenceProc(sentence, res) == "" <==> perTurn == [])
            && (perTurn != [] ==> Split(SentenceProc(sentence, res), ' ') == perTurn)
  {
    var cuts := CutEach(Split(sentence, '|'), res.segment);
    SegmentedTokens(sentence, res.segment);
    FilterTurnTokens(cuts, res.stopWords);
  }
}
