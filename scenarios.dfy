/** Small worked cases of the pipeline, derived from the general contracts. */
module Scenarios {
  import opened PyStr
  import opened Vocabulary
  import opened Cleaning
  import opened Encoding

  /** Filtering one token in front of a list. */
  lemma FilterFront(w: string, rest: seq<string>, stopWords: set<string>)
    ensures FilterTokens([w] + rest, stopWords) == (if Kept(w, stopWords) then [w] else []) + FilterTokens(rest, stopWords)
  {
    FilterTokensAppend([w], rest, stopWords);
  }

  lemma FilterDropKeep(c: string, d: string, stopWords: set<string>)
    requires !Kept(c, stopWords) && Kept(d, stopWords)
    ensures FilterTokens([c, d], stopWords) == [d]
  {
    FilterFront(d, [], stopWords);
    assert [d] + [] == [d];
    FilterFront(c, [d], stopWords);
    assert [c] + [d] == [c, d];
  }

  lemma FilterDropDropKeep(b: string, c: string, d: string, stopWords: set<string>)
    requires !Kept(b, stopWords) && !Kept(c, stopWords) && Kept(d, stopWords)
    ensures FilterTokens([b, c, d], stopWords) == [d]
  {
    FilterDropKeep(c, d, stopWords);
    FilterFront(b, [c, d], stopWords);
    assert [b] + [c, d] == [b, c, d];
  }

  lemma FilterKeepDropDropKeep(a: string, b: string, c: string, d: string, stopWords: set<string>)
    requires Kept(a, stopWords) && !Kept(b, stopWords) && !Kept(c, stopWords) && Kept(d, stopWords)
    ensures FilterTokens([a, b, c, d], stopWords) == [a, d]
  {
    FilterDropDropKeep(b, c, d, stopWords);
    FilterFront(a, [b, c, d], stopWords);
    assert [a] + [b, c, d] == [a, b, c, d];
  }

  lemma SplitFourWords()
    ensures Split("你好 的 图片 师傅", ' ') == ["你好", "的", "图片", "师傅"]
  {
    var ws := ["你好", "的", "图片", "师傅"];
    assert ws[1..][1..][1..] == ["师傅"];
    assert Join(ws[1..][1..], " ") == "图片" + " " + "师傅";
    assert Join(ws[1..], " ") == "的" + " " + ("图片" + " " + "师傅");
    assert Join(ws, " ") == "你好 的 图片 师傅";
    SplitJoin(ws, ' ');
  }

  /** With the stop word "的", the picture marker "图片" and the stop word are
      dropped and the other two tokens keep their order. */
  lemma FilterExample()
    ensures FilterWords("你好 的 图片 师傅", {"的"}) == ["你好", "师傅"]
  {
    SplitFourWords();
    ExampleKept();
    FilterKeepDropDropKeep("你好", "的", "图片", "师傅", {"的"});
  }

  /** Which of the four example tokens survive the stop word "的". */
  lemma ExampleKept()
    ensures Kept("你好", {"的"}) && !Kept("的", {"的"}) && !Kept("图片", {"的"}) && Kept("师傅", {"的"})
  {
    assert "图片" == RemoveWords[4];
  }

  lemma SplitTwoWords(a: string, b: string)
    requires |a| == 1 && |b| == 1 && a[0] != ' ' && b[0] != ' '
    ensures Split(a + " " + b, ' ') == [a, b]
  {
    assert Join([a, b], " ") == a + " " + b;
    SplitJoin([a, b], ' ');
  }

  /** Two one-letter words, stripped, split and truncated to at most `maxLen`. */
  lemma TwoWordsKept(a: string, b: string, maxLen: int)
    requires |a| == 1 && |b| == 1 && !IsSpace(a[0]) && !IsSpace(b[0])
    requires maxLen >= 2
    ensures Truncate(Split(Strip(a + " " + b), ' '), maxLen) == [a, b]
  {
    var s := a + " " + b;
    assert StripStart(s) == s;
    assert s[..|s| - 1] == a + " ";
    assert StripEnd(s) == s;
    SplitTwoWords(a, b);
  }

  /** Two member words padded to three: start, both words, stop, one pad. */
  lemma PadTwoMembers(a: string, b: string, members: set<string>)
    requires |a| == 1 && |b| == 1 && !IsSpace(a[0]) && !IsSpace(b[0])
    requires a in members && b in members
    ensures Split(PadProc(a + " " + b, 3, members), ' ') == [StartDecoding, a, b, StopDecoding, PadToken]
  {
    TwoWordsKept(a, b, 3);
    assert ReplaceUnknown([a, b], members) == [a, b];
    assert Repeat(PadToken, 1) == [PadToken];
  }

  /** A word outside the member set becomes the unknown token; with exactly
      `max_len` words there is no padding. */
  lemma PadMemberAndStranger(a: string, b: string, members: set<string>)
    requires |a| == 1 && |b| == 1 && !IsSpace(a[0]) && !IsSpace(b[0])
    requires a in members && b !in members
    ensures Split(PadProc(a + " " + b, 2, members), ' ') == [StartDecoding, a, UnknownToken, StopDecoding]
  {
    TwoWordsKept(a, b, 2);
    assert ReplaceUnknown([a, b], members) == [a, UnknownToken];
    assert Repeat(PadToken, 0) == [];
  }

  /** Each word's id is its position in a ranked list that starts with the
      reserved tokens and then holds two one-letter words. */
  lemma ExampleTable(index2word: seq<string>, a: string, c: string)
    requires |a| == 1 && |c| == 1 && a != c
    requires index2word == [PadToken, UnknownToken, StartDecoding, StopDecoding, a, c]
    ensures var vocab := WordToIndex(index2word);
            && StartDecoding in vocab && vocab[StartDecoding] == 2
            && StopDecoding in vocab && vocab[StopDecoding] == 3
            && a in vocab && vocab[a] == 4
            && UnknownToken in vocab && vocab[UnknownToken] == 1
            && PadToken in vocab && vocab[PadToken] == 0
            && c in vocab && vocab[c] == 5
  {
    assert NoDuplicates(index2word);
    TablesAreInverse(index2word);
    assert index2word[1] == UnknownToken && index2word[2] == StartDecoding;
    assert index2word[3] == StopDecoding && index2word[4] == a;
    assert index2word[0] == PadToken && index2word[5] == c;
  }

  /** Encoding a string depends only on its tokens. */
  lemma EncodeTokens(padded: string, v: Vocab, tokens: seq<string>)
    requires Split(padded, ' ') == tokens
    ensures TransformData(padded, v) == LookupEach(tokens, v)
  {
  }

  /** Looking up four tokens gives their four ids, in order. */
  lemma LookupFour(t0: string, t1: string, t2: string, t3: string, v: Vocab)
    ensures LookupEach([t0, t1, t2, t3], v) == [Lookup(v, t0), Lookup(v, t1), Lookup(v, t2), Lookup(v, t3)]
  {
    var ids := LookupEach([t0, t1, t2, t3], v);
    assert |ids| == 4;
  }

  /** The ids of the padded tokens under that table. */
  lemma LookupExample(index2word: seq<string>, a: string, c: string)
    requires |a| == 1 && |c| == 1 && a != c
    requires index2word == [PadToken, UnknownToken, StartDecoding, StopDecoding, a, c]
    ensures LookupEach([StartDecoding, a, UnknownToken, StopDecoding], Vocab(WordToIndex(index2word), 1)) == [2, 4, 1, 3]
  {
    var v := Vocab(WordToIndex(index2word), 1);
    ExampleTable(index2word, a, c);
    LookupFour(StartDecoding, a, UnknownToken, StopDecoding, v);
  }

  /** Padding a member and a non-member to two words, then encoding with the
      table of that list, whose unknown index is the unknown token's id. */
  lemma EncodeExample(index2word: seq<string>, a: string, b: string, c: string, members: set<string>)
    requires |a| == 1 && |b| == 1 && |c| == 1 && a != c
    requires !IsSpace(a[0]) && !IsSpace(b[0])
    requires a in members && b !in members
    requires index2word == [PadToken, UnknownToken, StartDecoding, StopDecoding, a, c]
    ensures TransformData(PadProc(a + " " + b, 2, members), Vocab(WordToIndex(index2word), 1)) == [2, 4, 1, 3]
  {
    PadMemberAndStranger(a, b, members);
    EncodeTokens(PadProc(a + " " + b, 2, members), Vocab(WordToIndex(index2word), 1),
                 [StartDecoding, a, UnknownToken, StopDecoding]);
    LookupExample(index2word, a, c);
  }
}
