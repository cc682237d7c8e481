/** Fixed-length padding (`pad_proc`), id encoding (`transform_data`) and the
    one-sentence pipeline (`preprocess_sentence`). */
module Encoding {
  import opened PyStr
  import opened Vocabulary
  import opened Cleaning

  function Min(a: int, b: int): int { if a <= b then a else b }

  /** `words[:max_len]` with Python's slice semantics: a negative bound
      counts from the end. */
  function Truncate(words: seq<string>, maxLen: int): (r: seq<string>)
    ensures maxLen >= 0 ==> |r| == Min(maxLen, |words|)
    ensures maxLen < 0 ==> |r| == if |words| + maxLen > 0 then |words| + maxLen else 0
    ensures r == words[..|r|]
  {
    if maxLen >= |words| then words
    else if maxLen >= 0 then words[..maxLen]
    else if |words| + maxLen > 0 then words[..|words| + maxLen]
    else []
  }

  /** `[word if word in vocab else UNKNOWN_TOKEN for word in words]` */
  function ReplaceUnknown(words: seq<string>, members: set<string>): (r: seq<string>)
    ensures |r| == |words|
    ensures forall i :: 0 <= i < |r| ==> r[i] == if words[i] in members then words[i] else UnknownToken
    decreases |words|
  {
    if |words| == 0 then []
    else [if words[0] in members then words[0] else UnknownToken] + ReplaceUnknown(words[1..], members)
  }

  /** `[token] * n`, which is empty when `n` is not positive. */
  function Repeat(token: string, n: int): (r: seq<string>)
    ensures |r| == if n > 0 then n else 0
    ensures forall i :: 0 <= i < |r| ==> r[i] == token
    decreases if n > 0 then n else 0
  {
    if n <= 0 then [] else [token] + Repeat(token, n - 1)
  }

  /** The token list that `pad_proc` joins: start marker, the truncated words
      with out-of-vocabulary ones replaced, stop marker, padding. */
  function PadTokens(sentence: string, maxLen: int, members: set<string>): seq<string>
  {
    var words := Truncate(Split(Strip(sentence), ' '), maxLen);
    [StartDecoding] + ReplaceUnknown(words, members) + [StopDecoding] + Repeat(PadToken, maxLen - |words|)
  }

  /** `pad_proc(sentence, max_len, vocab)`, `members` being the words `vocab`
      holds. For `max_len >= 0` the result has exactly `max_len + 2` tokens,
      whatever the input, the empty string included. */
  function PadProc(sentence: string, maxLen: int, members: set<string>): (r: string)
    ensures Split(r, ' ') == PadTokens(sentence, maxLen, members)
    ensures maxLen >= 0 ==> |Split(r, ' ')| == maxLen + 2
  {
    var tokens := PadTokens(sentence, maxLen, members);
    PadTokensLength(sentence, maxLen, members);
    PadTokensWithoutSpace(sentence, maxLen, members);
    SplitJoin(tokens, ' ');
    Join(tokens, " ")
  }

  /** Whether no token of the list contains a space. */
  predicate SpaceFree(tokens: seq<string>)
  {
    forall i :: 0 <= i < |tokens| ==> ' ' !in tokens[i]
  }

  /** Where each part of `[start] + middle + [stop] + padding` lands. */
  lemma FramedLayout(t: seq<string>, start: string, middle: seq<string>, stop: string, padding: seq<string>)
    requires t == [start] + middle + [stop] + padding
    ensures |t| == |middle| + 2 + |padding|
    ensures t[0] == start && t[|middle| + 1] == stop
    ensures forall i :: 1 <= i <= |middle| ==> t[i] == middle[i - 1]
    ensures forall i :: |middle| + 1 < i < |t| ==> t[i] == padding[i - |middle| - 2]
  {
  }

  /** A framed list is space-free when each of its parts is. */
  lemma FramedSpaceFree(start: string, middle: seq<string>, stop: string, padding: seq<string>)
    requires ' ' !in start && ' ' !in stop && SpaceFree(middle) && SpaceFree(padding)
    ensures SpaceFree([start] + middle + [stop] + padding)
  {
    var t := [start] + middle + [stop] + padding;
    FramedLayout(t, start, middle, stop, padding);
    forall i | 0 <= i < |t| ensures ' ' !in t[i] {
      if 1 <= i <= |middle| {
        assert t[i] == middle[i - 1];
      } else if i > |middle| + 1 {
        assert t[i] == padding[i - |middle| - 2];
      }
    }
  }

  /** The kept words of a stripped, split sentence contain no space. */
  lemma KeptWordsSpaceFree(sentence: string, maxLen: int, members: set<string>)
    ensures SpaceFree(ReplaceUnknown(Truncate(Split(Strip(sentence), ' '), maxLen), members))
  {
    var all := Split(Strip(sentence), ' ');
    var words := Truncate(all, maxLen);
    SplitPiecesWithoutSeparator(Strip(sentence), ' ');
    forall i | 0 <= i < |words| ensures ' ' !in words[i] {
      assert words[i] == all[i];
    }
  }

  /** There are at least two padded tokens, and `max_len + 2` of them when
      `max_len` is not negative. */
  lemma PadTokensLength(sentence: string, maxLen: int, members: set<string>)
    ensures |PadTokens(sentence, maxLen, members)| >= 2
    ensures maxLen >= 0 ==> |PadTokens(sentence, maxLen, members)| == maxLen + 2
  {
    var words := Truncate(Split(Strip(sentence), ' '), maxLen);
    var padding := Repeat(PadToken, maxLen - |words|);
    assert |PadTokens(sentence, maxLen, members)| == |words| + 2 + |padding|;
  }

  /** No padded token contains a space. */
  lemma PadTokensWithoutSpace(sentence: string, maxLen: int, members: set<string>)
    ensures SpaceFree(PadTokens(sentence, maxLen, members))
  {
    var words := Truncate(Split(Strip(sentence), ' '), maxLen);
    KeptWordsSpaceFree(sentence, maxLen, members);
    MarkersWithoutSpace();
    RepeatSpaceFree(PadToken, maxLen - |words|);
    FramedSpaceFree(StartDecoding, ReplaceUnknown(words, members), StopDecoding, Repeat(PadToken, maxLen - |words|));
  }

  lemma MarkersWithoutSpace()
    ensures ' ' !in StartDecoding && ' ' !in StopDecoding && ' ' !in PadToken
  {
  }

  lemma RepeatSpaceFree(token: string, n: int)
    requires ' ' !in token
    ensures SpaceFree(Repeat(token, n))
  {
  }

  /** The layout of a padded sentence: with `k` the number of words kept, token
      0 is the start marker, tokens 1..k are the first `k` words of the
      stripped input (each replaced by the unknown token when not a member),
      token k+1 is the stop marker and every later token is padding. */
  lemma PadProcLayout(sentence: string, maxLen: int, members: set<string>)
    requires maxLen >= 0
    ensures var words := Split(Strip(sentence), ' ');
            var k := Min(maxLen, |words|);
            var t := Split(PadProc(sentence, maxLen, members), ' ');
            && |t| == maxLen + 2
            && t[0] == StartDecoding
            && (forall i :: 1 <= i <= k ==> t[i] == if words[i - 1] in members then words[i - 1] else UnknownToken)
            && t[k + 1] == StopDecoding
            && (forall i :: k + 1 < i < |t| ==> t[i] == PadToken)
  {
    var words := Split(Strip(sentence), ' ');
    var kept := Truncate(words, maxLen);
    var middle := ReplaceUnknown(kept, members);
    var padding := Repeat(PadToken, maxLen - |kept|);
    var t := PadTokens(sentence, maxLen, members);
    FramedLayout(t, StartDecoding, middle, StopDecoding, padding);
    forall i | 1 <= i <= |kept|
      ensures t[i] == if words[i - 1] in members then words[i - 1] else UnknownToken
    {
      assert kept[i - 1] == words[i - 1];
    }
  }

  /** An input that is empty or all white space still yields one word, `""`:
      the padded result is the start marker, the unknown token (when `""` is
      not a member), the stop marker and `max_len - 1` padding tokens; with
      `max_len == 0` it is just the two markers. */
  lemma PadProcBlankInput(sentence: string, maxLen: int, members: set<string>)
    requires AllSpace(sentence)
    requires maxLen >= 0 && "" !in members
    ensures maxLen == 0 ==> Split(PadProc(sentence, maxLen, members), ' ') == [StartDecoding, StopDecoding]
    ensures maxLen >= 1 ==> Split(PadProc(sentence, maxLen, members), ' ')
                            == [StartDecoding, UnknownToken, StopDecoding] + Repeat(PadToken, maxLen - 1)
  {
    assert Strip(sentence) == "";
    assert Split("", ' ') == [""];
    var t := Split(PadProc(sentence, maxLen, members), ' ');
    PadProcLayout(sentence, maxLen, members);
    if maxLen == 0 {
      assert t == [StartDecoding, StopDecoding];
    } else {
      var expected := [StartDecoding, UnknownToken, StopDecoding] + Repeat(PadToken, maxLen - 1);
      assert |t| == |expected|;
      forall i | 0 <= i < |t| ensures t[i] == expected[i] {
        if i >= 3 { assert expected[i] == Repeat(PadToken, maxLen - 1)[i - 3]; }
      }
    }
  }

  /** The id of one word: its table entry, or the unknown index. Every id
      is an id of the table or the unknown index, and a word without an
      entry gets the unknown index. */
  function Lookup(v: Vocab, w: string): (r: int)
    ensures r in v.word2id.Values || r == v.unknownIndex
    ensures w !in v.word2id ==> r == v.unknownIndex
  {
    if w in v.word2id then v.word2id[w] else v.unknownIndex
  }

  function LookupEach(words: seq<string>, v: Vocab): (ids: seq<int>)
    ensures |ids| == |words|
    ensures forall i :: 0 <= i < |ids| ==> ids[i] == Lookup(v, words[i])
    decreases |words|
  {
    if |words| == 0 then [] else [Lookup(v, words[0])] + LookupEach(words[1..], v)
  }

  /** `transform_data(sentence, vocab)`: exactly one id per `' '`-split token,
      in order; a token with a table entry gets that entry and any other token
      the unknown index, so no token makes it fail. */
  function TransformData(sentence: string, v: Vocab): (ids: seq<int>)
    ensures |ids| == |Split(sentence, ' ')|
    ensures forall i :: 0 <= i < |ids| ==>
              (Split(sentence, ' ')[i] in v.word2id ==> ids[i] == v.word2id[Split(sentence, ' ')[i]])
              && (Split(sentence, ' ')[i] !in v.word2id ==> ids[i] == v.unknownIndex)
  {
    LookupEach(Split(sentence, ' '), v)
  }

  /** Encoding a padded sentence gives `max_len + 2` ids laid out like the
      padded tokens. The two membership tests stay distinct: a word is first
      replaced by the unknown token unless it is in `members`, and the
      resulting token is then looked up in the id table. */
  lemma EncodedPadLayout(sentence: string, maxLen: int, members: set<string>, v: Vocab)
    requires maxLen >= 0
    ensures var words := Split(Strip(sentence), ' ');
            var k := Min(maxLen, |words|);
            var ids := TransformData(PadProc(sentence, maxLen, members), v);
            && |ids| == maxLen + 2
            && ids[0] == Lookup(v, StartDecoding)
            && (forall i :: 1 <= i <= k ==>
                  ids[i] == if words[i - 1] in members then Lookup(v, words[i - 1]) else Lookup(v, UnknownToken))
            && ids[k + 1] == Lookup(v, StopDecoding)
            && (forall i :: k + 1 < i < |ids| ==> ids[i] == Lookup(v, PadToken))
  {
    PadProcLayout(sentence, maxLen, members);
  }

  /** Decoding through the reverse table built from the same word list gives
      the padded tokens back, provided the word list has no repeats and holds
      the four reserved tokens and every member word. */
  lemma DecodePadded(sentence: string, maxLen: int, members: set<string>, index2word: seq<string>, unknownIndex: int)
    requires NoDuplicates(index2word)
    requires StartDecoding in index2word && StopDecoding in index2word
    requires PadToken in index2word && UnknownToken in index2word
    requires forall w :: w in members ==> w in index2word
    ensures var ids := TransformData(PadProc(sentence, maxLen, members), Vocab(WordToIndex(index2word), unknownIndex));
            var reverse := IndexToWord(index2word);
            forall i :: 0 <= i < |ids| ==> ids[i] in reverse && reverse[ids[i]] == PadTokens(sentence, maxLen, members)[i]
  {
    var vocab, reverse := WordToIndex(index2word), IndexToWord(index2word);
    var t := PadTokens(sentence, maxLen, members);
    PaddedTokensListed(sentence, maxLen, members, index2word);
    TablesAreInverse(index2word);
    forall i | 0 <= i < |t|
      ensures Lookup(Vocab(vocab, unknownIndex), t[i]) in reverse
      ensures reverse[Lookup(Vocab(vocab, unknownIndex), t[i])] == t[i]
    {
      assert t[i] in vocab;
    }
  }

  /** Every padded token is in a word list that holds the four reserved
      tokens and every member word. */
  lemma PaddedTokensListed(sentence: string, maxLen: int, members: set<string>, index2word: seq<string>)
    requires StartDecoding in index2word && StopDecoding in index2word
    requires PadToken in index2word && UnknownToken in index2word
    requires forall w :: w in members ==> w in index2word
    ensures forall i :: 0 <= i < |PadTokens(sentence, maxLen, members)| ==> PadTokens(sentence, maxLen, members)[i] in index2word
  {
    var t := PadTokens(sentence, maxLen, members);
    var words := Truncate(Split(Strip(sentence), ' '), maxLen);
    forall i | 0 <= i < |t| ensures t[i] in index2word {
      if 1 <= i <= |words| {
        assert t[i] == ReplaceUnknown(words, members)[i - 1];
      } else if i > |words| + 1 {
        assert t[i] == Repeat(PadToken, maxLen - |words|)[i - |words| - 2];
      }
    }
  }

  /** `preprocess_sentence(sentence, max_len, vocab)`: clean, pad to
      `max_len - 2` words, encode, and wrap as a one-row matrix. Membership in
      the vocabulary object is taken as having an entry in its id table. For
      `max_len >= 2` the row has exactly `max_len` ids, starting with the start
      marker's id. */
  function PreprocessSentence(sentence: string, maxLen: int, v: Vocab, res: Resources): (r: seq<seq<int>>)
    ensures |r| == 1
    ensures maxLen >= 2 ==> |r[0]| == maxLen && r[0][0] == Lookup(v, StartDecoding)
  {
    var cleaned := SentenceProc(sentence, res);
    var padded := PadProc(cleaned, maxLen - 2, v.word2id.Keys);
    var ids := TransformData(padded, v);
    if maxLen >= 2 then
      EncodedPadLayout(cleaned, maxLen - 2, v.word2id.Keys, v);
      [ids]
    else [ids]
  }
}
