/** The reserved tokens, the id lookup table used for encoding, and the
    forward and reverse tables built from the embedding trainer's ranked word
    list. */
module Vocabulary {

  /** The four reserved tokens of the vocabulary class. Only their being
      distinct, non-empty and free of white space matters to the pipeline. */
  const StartDecoding: string := "<START>"
  const StopDecoding: string := "<STOP>"
  const PadToken: string := "<PAD>"
  const UnknownToken: string := "<UNK>"

  /** The lookup side of the vocabulary object: its `word2id` table and the
      index that stands for every word the table does not hold. */
  datatype Vocab = Vocab(word2id: map<string, int>, unknownIndex: int)

  predicate NoDuplicates(words: seq<string>)
  {
    forall i, j :: 0 <= i < j < |words| ==> words[i] != words[j]
  }

  /** `{word: index for index, word in enumerate(index2word)}`: later entries
      overwrite earlier ones, so each word maps to its LAST position. */
  function WordToIndex(index2word: seq<string>): (vocab: map<string, int>)
    ensures forall w :: w in vocab <==> w in index2word
    ensures forall w :: w in vocab ==> 0 <= vocab[w] < |index2word| && index2word[vocab[w]] == w
    ensures forall w, j :: w in vocab && vocab[w] < j < |index2word| ==> index2word[j] != w
    decreases |index2word|
  {
    if |index2word| == 0 then map[]
    else
      var n := |index2word| - 1;
      var front := index2word[..n];
      var earlier := WordToIndex(front);
      assert index2word == front + [index2word[n]];
      assert forall j :: 0 <= j < n ==> front[j] == index2word[j];
      earlier[index2word[n] := n]
  }

  /** `{index: word for index, word in enumerate(index2word)}`: the keys are
      exactly the positions of the list, and each maps to the word there. */
  function IndexToWord(index2word: seq<string>): (r: map<int, string>)
    ensures forall i :: i in r <==> 0 <= i < |index2word|
    ensures forall i :: 0 <= i < |index2word| ==> r[i] == index2word[i]
  {
    map i | 0 <= i < |index2word| :: index2word[i]
  }

  /** With no repeated word, the two tables are mutual inverses, the reverse
      table's keys are exactly the positions, and the forward table's ids are
      exactly the positions (dense, starting at 0). */
  lemma TablesAreInverse(index2word: seq<string>)
    requires NoDuplicates(index2word)
    ensures var vocab, reverse := WordToIndex(index2word), IndexToWord(index2word);
            && (forall i :: i in reverse <==> 0 <= i < |index2word|)
            && (forall w :: w in vocab ==> vocab[w] in reverse && reverse[vocab[w]] == w)
            && (forall i :: i in reverse ==> reverse[i] in vocab && vocab[reverse[i]] == i)
            && (forall i :: i in vocab.Values <==> 0 <= i < |index2word|)
  {
    var vocab, reverse := WordToIndex(index2word), IndexToWord(index2word);
    forall i | i in reverse
      ensures reverse[i] in vocab && vocab[reverse[i]] == i
    {
      var w := index2word[i];
      assert w in index2word;
    }
    forall i | 0 <= i < |index2word|
      ensures i in vocab.Values
    {
      assert i in reverse;
      assert vocab[reverse[i]] == i;
    }
  }
}
