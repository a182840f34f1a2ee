/**
 * `compute_tf_idf`: clean the text, split it into documents, count term and document
 * frequencies, then rank. The end-to-end contract: the result is the first
 * min(50, vocabulary size) distinct words of the cleaned text, ordered by document frequency
 * ascending (idf descending), ties in order of first occurrence, each with its tf and idf.
 */
module Pipeline {
  import opened Seqs
  import opened Normalizer
  import opened Text
  import opened Segmenter
  import opened Counting
  import opened Ranking

  /** `clean_text(text).split()`: the tokens counted for tf. */
  function Tokens(text: string): seq<string> {
    Words(Clean(text))
  }

  /** `split_into_documents(clean_text(text))`: the documents counted for df. */
  function Docs(text: string): seq<string> {
    Documents(Clean(text))
  }

  /** The words of a list of rows. */
  function WordsOf(rs: seq<Row>): seq<string> {
    seq(|rs|, i requires 0 <= i < |rs| => rs[i].word)
  }

  /**
   * The ranking order on words: smaller document frequency (larger idf) first; for equal
   * document frequency, the word that occurs first in the text first.
   */
  ghost predicate Before(tokens: seq<string>, docs: seq<string>, u: string, w: string) {
    || DocFreq(docs, u) < DocFreq(docs, w)
    || (DocFreq(docs, u) == DocFreq(docs, w) && IndexOf(tokens, u) < IndexOf(tokens, w))
  }

  /** What the two counting loops establish about their results. */
  ghost predicate Counted(tokens: seq<string>, docs: seq<string>, order: seq<string>,
                          tf: map<string, nat>, df: map<string, nat>) {
    && order == Vocabulary(tokens)
    && (forall w :: w in tf <==> w in tokens)
    && (forall w :: w in tf ==> tf[w] == multiset(tokens)[w])
    && (forall w :: w in df <==> DocFreq(docs, w) > 0)
    && (forall w :: w in df ==> df[w] == DocFreq(docs, w))
  }

  /** Each row carries its word's tf and idf; rows are distinct because the words are. */
  lemma {:induction false} RowsContent(tokens: seq<string>, docs: seq<string>, order: seq<string>,
                    tf: map<string, nat>, df: map<string, nat>)
    requires Counted(tokens, docs, order, tf, df)
    ensures |BuildRows(order, tf, df, |docs|)| == |order|
    ensures forall k :: 0 <= k < |order| ==>
      BuildRows(order, tf, df, |docs|)[k] == Row(order[k], multiset(tokens)[order[k]], Ratio(|docs|, DocFreq(docs, order[k])))
    ensures Distinct(BuildRows(order, tf, df, |docs|))
  {
    var rows := BuildRows(order, tf, df, |docs|);
    forall k | 0 <= k < |order|
      ensures rows[k] == Row(order[k], multiset(tokens)[order[k]], Ratio(|docs|, DocFreq(docs, order[k])))
    {
      assert order[k] in tokens;
      assert Get(df, order[k]) == DocFreq(docs, order[k]);
    }
    assert forall i, j :: 0 <= i < j < |rows| ==> rows[i].word == order[i] && rows[j].word == order[j];
  }

  /** The built rows, one per vocabulary word with its tf and idf, in vocabulary order. */
  ghost predicate RowsOfCounts(tokens: seq<string>, docs: seq<string>, order: seq<string>, rows: seq<Row>) {
    && |docs| >= 1
    && order == Vocabulary(tokens)
    && |rows| == |order|
    && Distinct(rows)
    && (forall k :: 0 <= k < |order| ==>
          rows[k] == Row(order[k], multiset(tokens)[order[k]], Ratio(|docs|, DocFreq(docs, order[k]))))
  }

  /** Stable-sort order on rows is exactly the `Before` order on their words. */
  lemma {:induction false} PrecedesIsBefore(tokens: seq<string>, docs: seq<string>, order: seq<string>, rows: seq<Row>, a: int, b: int)
    requires RowsOfCounts(tokens, docs, order, rows)
    requires 0 <= a < |rows| && 0 <= b < |rows|
    ensures Precedes(rows, rows[a], rows[b]) <==> Before(tokens, docs, order[a], order[b])
  {
    RatioOrder(|docs|, DocFreq(docs, order[a]), DocFreq(docs, order[b]));
    IndexOfDistinct(rows, a);
    IndexOfDistinct(rows, b);
    VocabularyFirstOccurrence(tokens);
  }

  /** Each entry of a reordering of the rows carries its word's counts. */
  lemma {:induction false} SortedContent(tokens: seq<string>, docs: seq<string>, order: seq<string>, rows: seq<Row>, s: seq<Row>, i: int)
    requires RowsOfCounts(tokens, docs, order, rows)
    requires multiset(s) == multiset(rows)
    requires 0 <= i < |s|
    ensures s[i].word in tokens
    ensures s[i].tf == multiset(tokens)[s[i].word]
    ensures s[i].ratio == Ratio(|docs|, DocFreq(docs, s[i].word))
  {
    assert s[i] in multiset(rows);
    var k :| 0 <= k < |rows| && s[i] == rows[k];
  }

  /** In a stable ranking of the rows, earlier words come `Before` later ones. */
  lemma {:induction false} SortedOrder(tokens: seq<string>, docs: seq<string>, order: seq<string>, rows: seq<Row>, s: seq<Row>, i: int, j: int)
    requires RowsOfCounts(tokens, docs, order, rows)
    requires multiset(s) == multiset(rows) && Ranked(rows, s)
    requires 0 <= i < j < |s|
    ensures Before(tokens, docs, s[i].word, s[j].word)
  {
    assert s[i] in multiset(rows);
    assert s[j] in multiset(rows);
    var a :| 0 <= a < |rows| && s[i] == rows[a];
    var b :| 0 <= b < |rows| && s[j] == rows[b];
    PrecedesIsBefore(tokens, docs, order, rows, a, b);
  }

  /** A word cut off by the top-n truncation comes after every word that was kept. */
  lemma {:induction false} SortedTop(tokens: seq<string>, docs: seq<string>, order: seq<string>, rows: seq<Row>, s: seq<Row>,
                  n: nat, w: string, i: int)
    requires RowsOfCounts(tokens, docs, order, rows)
    requires multiset(s) == multiset(rows) && Ranked(rows, s)
    requires n <= |s|
    requires w in tokens && w !in WordsOf(s[..n])
    requires 0 <= i < n
    ensures Before(tokens, docs, s[i].word, w)
  {
    assert w in Vocabulary(tokens);
    var b :| 0 <= b < |order| && order[b] == w;
    assert rows[b] in multiset(s);
    var k :| 0 <= k < |s| && s[k] == rows[b];
    assert forall m :: 0 <= m < n ==> WordsOf(s[..n])[m] == s[m].word;
    SortedOrder(tokens, docs, order, rows, s, i, k);
  }

  /** The rows built from the counts, and their stable sort. */
  lemma {:induction false} RankSetup(tokens: seq<string>, docs: seq<string>, order: seq<string>,
                                     tf: map<string, nat>, df: map<string, nat>)
    requires |docs| >= 1
    requires Counted(tokens, docs, order, tf, df)
    ensures RowsOfCounts(tokens, docs, order, BuildRows(order, tf, df, |docs|))
    ensures multiset(SortByRatio(BuildRows(order, tf, df, |docs|))) == multiset(BuildRows(order, tf, df, |docs|))
    ensures Ranked(BuildRows(order, tf, df, |docs|), SortByRatio(BuildRows(order, tf, df, |docs|)))
    ensures |SortByRatio(BuildRows(order, tf, df, |docs|))| == |Elems(tokens)|
  {
    var rows := BuildRows(order, tf, df, |docs|);
    RowsContent(tokens, docs, order, tf, df);
    var s := SortByRatio(rows);
    SortRanked(rows);
    assert |s| == |multiset(s)| == |multiset(rows)| == |rows|;
    VocabularySize(tokens);
  }

  /** A prefix of a reordering of the rows: every entry carries a word of the text with its tf and idf. */
  lemma {:induction false} PrefixContent(tokens: seq<string>, docs: seq<string>, order: seq<string>,
                                         rows: seq<Row>, s: seq<Row>, r: seq<Row>)
    requires RowsOfCounts(tokens, docs, order, rows)
    requires multiset(s) == multiset(rows)
    requires |r| <= |s| && r == s[..|r|]
    ensures forall i :: 0 <= i < |r| ==> r[i].word in tokens
    ensures forall i :: 0 <= i < |r| ==> r[i].tf == multiset(tokens)[r[i].word]
    ensures forall i :: 0 <= i < |r| ==> r[i].ratio == Ratio(|docs|, DocFreq(docs, r[i].word))
  {
    forall i | 0 <= i < |r|
      ensures r[i].word in tokens
      ensures r[i].tf == multiset(tokens)[r[i].word]
      ensures r[i].ratio == Ratio(|docs|, DocFreq(docs, r[i].word))
    {
      assert r[i] == s[i];
      SortedContent(tokens, docs, order, rows, s, i);
    }
  }

  /** A prefix of a stable ranking of the rows is in `Before` order. */
  lemma {:induction false} PrefixOrder(tokens: seq<string>, docs: seq<string>, order: seq<string>,
                                       rows: seq<Row>, s: seq<Row>, r: seq<Row>)
    requires RowsOfCounts(tokens, docs, order, rows)
    requires multiset(s) == multiset(rows) && Ranked(rows, s)
    requires |r| <= |s| && r == s[..|r|]
    ensures forall i, j :: 0 <= i < j < |r| ==> Before(tokens, docs, r[i].word, r[j].word)
  {
    forall i, j | 0 <= i < j < |r| ensures Before(tokens, docs, r[i].word, r[j].word) {
      assert r[i] == s[i] && r[j] == s[j];
      SortedOrder(tokens, docs, order, rows, s, i, j);
    }
  }

  /** Every word of the text missing from a prefix of a stable ranking comes after the whole prefix. */
  lemma {:induction false} PrefixTop(tokens: seq<string>, docs: seq<string>, order: seq<string>,
                                     rows: seq<Row>, s: seq<Row>, r: seq<Row>)
    requires RowsOfCounts(tokens, docs, order, rows)
    requires multiset(s) == multiset(rows) && Ranked(rows, s)
    requires |r| <= |s| && r == s[..|r|]
    ensures forall w, i :: w in tokens && w !in WordsOf(r) && 0 <= i < |r| ==> Before(tokens, docs, r[i].word, w)
  {
    forall w, i | w in tokens && w !in WordsOf(r) && 0 <= i < |r|
      ensures Before(tokens, docs, r[i].word, w)
    {
      assert r[i] == s[i];
      SortedTop(tokens, docs, order, rows, s, |r|, w, i);
    }
  }

  /** Every ranked row carries a word of the text with its tf and idf. */
  lemma {:induction false} RankContent(tokens: seq<string>, docs: seq<string>, order: seq<string>,
                                       tf: map<string, nat>, df: map<string, nat>)
    requires |docs| >= 1
    requires Counted(tokens, docs, order, tf, df)
    ensures var r := Rank(order, tf, df, |docs|);
      && |r| == Min(TopN, |Elems(tokens)|)
      && (forall i :: 0 <= i < |r| ==> r[i].word in tokens)
      && (forall i :: 0 <= i < |r| ==> r[i].tf == multiset(tokens)[r[i].word])
      && (forall i :: 0 <= i < |r| ==> r[i].ratio == Ratio(|docs|, DocFreq(docs, r[i].word)))
  {
    var rows := BuildRows(order, tf, df, |docs|);
    var s := SortByRatio(rows);
    RankSetup(tokens, docs, order, tf, df);
    PrefixContent(tokens, docs, order, rows, s, Top(s));
  }

  /** The ranked words are in `Before` order. */
  lemma {:induction false} RankOrder(tokens: seq<string>, docs: seq<string>, order: seq<string>,
                                     tf: map<string, nat>, df: map<string, nat>)
    requires |docs| >= 1
    requires Counted(tokens, docs, order, tf, df)
    ensures var r := Rank(order, tf, df, |docs|);
      forall i, j :: 0 <= i < j < |r| ==> Before(tokens, docs, r[i].word, r[j].word)
  {
    var rows := BuildRows(order, tf, df, |docs|);
    var s := SortByRatio(rows);
    RankSetup(tokens, docs, order, tf, df);
    PrefixOrder(tokens, docs, order, rows, s, Top(s));
  }

  /** Every word of the text that is not ranked comes after every ranked word. */
  lemma {:induction false} RankTop(tokens: seq<string>, docs: seq<string>, order: seq<string>,
                                   tf: map<string, nat>, df: map<string, nat>)
    requires |docs| >= 1
    requires Counted(tokens, docs, order, tf, df)
    ensures var r := Rank(order, tf, df, |docs|);
      forall w, i :: w in tokens && w !in WordsOf(r) && 0 <= i < |r| ==> Before(tokens, docs, r[i].word, w)
  {
    var rows := BuildRows(order, tf, df, |docs|);
    var s := SortByRatio(rows);
    RankSetup(tokens, docs, order, tf, df);
    PrefixTop(tokens, docs, order, rows, s, Top(s));
  }

  /** Every counted word has document frequency between 1 and both its tf and the number of documents. */
  lemma {:induction false} DocFreqBounds(text: string, w: string)
    requires w in Tokens(text)
    ensures 1 <= DocFreq(Docs(text), w) <= multiset(Tokens(text))[w]
    ensures DocFreq(Docs(text), w) <= |Docs(text)|
  {
    DocumentsKeepWords(Clean(text));
    DocFreqPositive(Docs(text), w);
    DocFreqAtMostCount(Docs(text), w);
  }

  /** `compute_tf_idf`. */
  method ComputeTfIdf(text: string) returns (result: seq<Row>)
    ensures |result| == Min(TopN, |Elems(Tokens(text))|)
    ensures forall i :: 0 <= i < |result| ==> result[i].word in Tokens(text)
    ensures forall i :: 0 <= i < |result| ==> result[i].tf == multiset(Tokens(text))[result[i].word]
    ensures forall i :: 0 <= i < |result| ==>
      result[i].ratio == Ratio(|Docs(text)|, DocFreq(Docs(text), result[i].word))
    ensures forall i :: 0 <= i < |result| ==>
      1 <= DocFreq(Docs(text), result[i].word) <= result[i].tf && DocFreq(Docs(text), result[i].word) <= |Docs(text)|
    ensures forall i, j :: 0 <= i < j < |result| ==> result[i].ratio >= result[j].ratio
    ensures forall i, j :: 0 <= i < j < |result| ==> Before(Tokens(text), Docs(text), result[i].word, result[j].word)
    ensures forall w, i :: w in Tokens(text) && w !in WordsOf(result) && 0 <= i < |result| ==>
      Before(Tokens(text), Docs(text), result[i].word, w)
  {
    var cleaned := Clean(text);
    var documents := Documents(cleaned);
    var totalDocs := |documents|;
    var wordsAll := Words(cleaned);
    var order, tf := CountTerms(wordsAll);
    var df := CountDocs(documents);
    result := Rank(order, tf, df, totalDocs);

    RankContent(wordsAll, documents, order, tf, df);
    RankOrder(wordsAll, documents, order, tf, df);
    RankTop(wordsAll, documents, order, tf, df);
    forall i | 0 <= i < |result|
      ensures 1 <= DocFreq(documents, result[i].word) <= result[i].tf
      ensures DocFreq(documents, result[i].word) <= totalDocs
    {
      DocFreqBounds(text, result[i].word);
    }
    forall i, j | 0 <= i < j < |result| ensures result[i].ratio >= result[j].ratio {
      RatioOrder(totalDocs, DocFreq(documents, result[i].word), DocFreq(documents, result[j].word));
    }
  }
}
