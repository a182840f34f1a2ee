/**
 * The frequency counter: term frequency (`Counter(text.split())`) over the whole cleaned text,
 * and document frequency (one count per document whose token set contains the word).
 */
module Counting {
  import opened Seqs
  import opened Text

  /** `counter.get(w, 0)`. */
  function Get(m: map<string, nat>, w: string): nat {
    if w in m then m[w] else 0
  }

  /**
   * The distinct words of `ws` in order of first occurrence: the key order of `Counter(ws)`,
   * since a Python dict keeps insertion order.
   */
  function Vocabulary(ws: seq<string>): (d: seq<string>)
    ensures Distinct(d)
    ensures forall w :: w in d <==> w in ws
  {
    if |ws| == 0 then []
    else
      var init := ws[..|ws| - 1];
      var w := ws[|ws| - 1];
      assert ws == init + [w];
      var d := Vocabulary(init);
      if w in d then d else d + [w]
  }

  /** The vocabulary lists words in the order in which they first occur. */
  lemma {:induction false} VocabularyFirstOccurrence(ws: seq<string>)
    ensures forall i, j :: 0 <= i < j < |Vocabulary(ws)| ==>
      IndexOf(ws, Vocabulary(ws)[i]) < IndexOf(ws, Vocabulary(ws)[j])
  {
    if |ws| > 0 {
      var init := ws[..|ws| - 1];
      var x := ws[|ws| - 1];
      assert ws == init + [x];
      var d' := Vocabulary(init);
      var d := Vocabulary(ws);
      VocabularyFirstOccurrence(init);
      forall y | y in init ensures IndexOf(ws, y) == IndexOf(init, y) {
        IndexOfAppend(init, x, y);
      }
      if x !in d' {
        IndexOfNewLast(init, x);
        assert d == d' + [x];
        assert forall i :: 0 <= i < |d'| ==> d[i] == d'[i] && d'[i] in init;
      }
    }
  }

  /** The result has as many entries as there are distinct words. */
  lemma {:induction false} VocabularySize(ws: seq<string>)
    ensures |Vocabulary(ws)| == |Elems(ws)|
  {
    var d := Vocabulary(ws);
    DistinctCard(d);
    assert Elems(d) == Elems(ws);
  }

  /** `Counter(ws)`: the words in insertion order, and the number of times each occurs. */
  method CountTerms(ws: seq<string>) returns (order: seq<string>, tf: map<string, nat>)
    ensures order == Vocabulary(ws)
    ensures forall w :: w in tf <==> w in ws
    ensures forall w :: w in tf ==> tf[w] == multiset(ws)[w]
  {
    order := [];
    tf := map[];
    var i := 0;
    while i < |ws|
      invariant 0 <= i <= |ws|
      invariant order == Vocabulary(ws[..i])
      invariant forall w :: w in tf <==> w in ws[..i]
      invariant forall w :: w in tf ==> tf[w] == multiset(ws[..i])[w]
    {
      var w := ws[i];
      assert ws[..i + 1] == ws[..i] + [w];
      if w !in tf {
        order := order + [w];
      }
      tf := tf[w := Get(tf, w) + 1];
      i := i + 1;
    }
    assert ws[..|ws|] == ws;
  }

  /** Sum of the counts in `m` of the words listed in `d`. */
  function SumCounts(d: seq<string>, m: multiset<string>): nat {
    if |d| == 0 then 0 else SumCounts(d[..|d| - 1], m) + m[d[|d| - 1]]
  }

  /** One more occurrence of `x` adds one to the sum exactly when `x` is listed. */
  lemma {:induction false} SumCountsAdd(d: seq<string>, m: multiset<string>, x: string)
    requires Distinct(d)
    ensures SumCounts(d, m + multiset{x}) == SumCounts(d, m) + (if x in d then 1 else 0)
  {
    if |d| > 0 {
      var init := d[..|d| - 1];
      assert d == init + [d[|d| - 1]];
      assert Distinct(init);
      SumCountsAdd(init, m, x);
    }
  }

  /** The term frequencies add up to the number of tokens. */
  lemma {:induction false} TfSum(ws: seq<string>)
    ensures SumCounts(Vocabulary(ws), multiset(ws)) == |ws|
  {
    if |ws| > 0 {
      var init := ws[..|ws| - 1];
      var x := ws[|ws| - 1];
      assert ws == init + [x];
      var d := Vocabulary(ws);
      var d' := Vocabulary(init);
      TfSum(init);
      SumCountsAdd(d, multiset(init), x);
      if x !in d' {
        assert d == d' + [x];
        assert d[..|d| - 1] == d';
        assert multiset(init)[x] == 0;
      }
    }
  }

  /** Number of documents whose tokens include `w`. */
  function DocFreq(docs: seq<string>, w: string): (n: nat)
    ensures n <= |docs|
  {
    if |docs| == 0 then 0
    else DocFreq(docs[..|docs| - 1], w) + (if w in Words(docs[|docs| - 1]) then 1 else 0)
  }

  /** The documents, by index, whose tokens include `w`. */
  ghost function DocsContaining(docs: seq<string>, w: string): set<nat> {
    set i: nat | i < |docs| && w in Words(docs[i])
  }

  /** Document frequency counts documents, not occurrences. */
  lemma {:induction false} DocFreqCountsDocuments(docs: seq<string>, w: string)
    ensures DocFreq(docs, w) == |DocsContaining(docs, w)|
  {
    if |docs| > 0 {
      var n := |docs| - 1;
      DocFreqCountsDocuments(docs[..n], w);
      DocsContainingCount(docs, w);
    }
  }

  /** Counting the documents containing `w`, last document split off. */
  lemma {:induction false} DocsContainingCount(docs: seq<string>, w: string)
    requires |docs| > 0
    ensures |DocsContaining(docs, w)| ==
      |DocsContaining(docs[..|docs| - 1], w)| + (if w in Words(docs[|docs| - 1]) then 1 else 0)
  {
    var n := |docs| - 1;
    DocsContainingSnoc(docs, w);
    var a := DocsContaining(docs[..n], w);
    if w in Words(docs[n]) {
      assert |a + {n}| == |a| + 1;
    }
  }

  /** The documents containing `w`, last document split off. */
  lemma {:induction false} DocsContainingSnoc(docs: seq<string>, w: string)
    requires |docs| > 0
    ensures |docs| - 1 !in DocsContaining(docs[..|docs| - 1], w)
    ensures DocsContaining(docs, w) ==
      DocsContaining(docs[..|docs| - 1], w) + (if w in Words(docs[|docs| - 1]) then {|docs| - 1} else {})
  {
    var n := |docs| - 1;
    var init := docs[..n];
    var a := DocsContaining(init, w);
    var b := DocsContaining(docs, w);
    var c := if w in Words(docs[n]) then {n} else {};
    forall i: nat | i in b ensures i in a + c {
      if i < n {
        assert docs[i] == init[i];
      }
    }
    forall i: nat | i in a + c ensures i in b {
      if i < n {
        assert docs[i] == init[i];
      }
    }
  }

  /** The tokens of documents, last document split off. */
  lemma {:induction false} AllWordsSnoc(docs: seq<string>)
    requires |docs| > 0
    ensures AllWords(docs) == AllWords(docs[..|docs| - 1]) + Words(docs[|docs| - 1])
  {
    var n := |docs| - 1;
    assert docs == docs[..n] + [docs[n]];
    AllWordsAppend(docs[..n], [docs[n]]);
    assert AllWords([docs[n]]) == Words(docs[n]) + AllWords([]);
  }

  /** A word has positive document frequency exactly when some document contains it. */
  lemma {:induction false} DocFreqPositive(docs: seq<string>, w: string)
    ensures DocFreq(docs, w) > 0 <==> w in AllWords(docs)
  {
    if |docs| > 0 {
      DocFreqPositive(docs[..|docs| - 1], w);
      AllWordsSnoc(docs);
    }
  }

  /** Each document containing `w` holds at least one occurrence of it: df never exceeds tf. */
  lemma {:induction false} DocFreqAtMostCount(docs: seq<string>, w: string)
    ensures DocFreq(docs, w) <= multiset(AllWords(docs))[w]
  {
    if |docs| > 0 {
      var d := docs[|docs| - 1];
      DocFreqAtMostCount(docs[..|docs| - 1], w);
      AllWordsSnoc(docs);
      assert w in Words(d) ==> multiset(Words(d))[w] >= 1;
    }
  }

  /** Adding one more document to the df counts: `w` is counted once if it is in `seen`. */
  lemma {:induction false} DocFreqSnoc(docs: seq<string>, i: nat, w: string)
    requires i < |docs|
    ensures DocFreq(docs[..i + 1], w) == DocFreq(docs[..i], w) + (if w in Words(docs[i]) then 1 else 0)
  {
    assert docs[..i + 1][..i] == docs[..i];
  }

  /** The inner loop: every word of `seen` (distinct words) counted once more. */
  method CountDocument(df0: map<string, nat>, seen: seq<string>) returns (df: map<string, nat>)
    requires Distinct(seen)
    ensures forall w :: w in df <==> w in df0 || w in seen
    ensures forall w :: w in df ==> df[w] == Get(df0, w) + (if w in seen then 1 else 0)
  {
    df := df0;
    var j := 0;
    while j < |seen|
      invariant 0 <= j <= |seen|
      invariant forall w :: w in df <==> w in df0 || w in seen[..j]
      invariant forall w :: w in df ==> df[w] == Get(df0, w) + (if w in seen[..j] then 1 else 0)
    {
      var w := seen[j];
      assert seen[..j + 1] == seen[..j] + [w];
      assert w !in seen[..j];
      df := df[w := Get(df, w) + 1];
      j := j + 1;
    }
    assert seen[..|seen|] == seen;
  }

  /**
   * The document-frequency loop: for each document, every word of its token set once.
   * The set is visited in first-occurrence order; the counts do not depend on that order.
   */
  method CountDocs(docs: seq<string>) returns (df: map<string, nat>)
    ensures forall w :: w in df <==> DocFreq(docs, w) > 0
    ensures forall w :: w in df ==> df[w] == DocFreq(docs, w)
  {
    df := map[];
    var i := 0;
    while i < |docs|
      invariant 0 <= i <= |docs|
      invariant forall w :: w in df <==> DocFreq(docs[..i], w) > 0
      invariant forall w :: w in df ==> df[w] == DocFreq(docs[..i], w)
    {
      var seen := Vocabulary(Words(docs[i]));
      df := CountDocument(df, seen);
      forall w ensures DocFreq(docs[..i + 1], w) == DocFreq(docs[..i], w) + (if w in seen then 1 else 0) {
        DocFreqSnoc(docs, i, w);
      }
      i := i + 1;
    }
    assert docs[..|docs|] == docs;
  }

  /** Example: `cat dog` is read as the two tokens `cat` and `dog`. */
  lemma {:induction false} WordsExamplePair(a: string, b: string)
    requires IsWord(a) && IsWord(b)
    ensures Words(a + " " + b) == [a, b]
  {
    WordsUnwords([a, b]);
    assert Unwords([a, b]) == a + " " + Unwords([b]);
  }

  /** Example: the tokens `cat dog cat bird` have the vocabulary `cat`, `dog`, `bird`. */
  lemma {:induction false} VocabularyExample(ws: seq<string>)
    requires ws == ["cat", "dog", "cat", "bird"]
    ensures Vocabulary(ws) == ["cat", "dog", "bird"]
  {
    var cat, dog, bird := "cat", "dog", "bird";
    assert cat != dog by { assert cat[0] != dog[0]; }
    assert bird != cat by { assert bird[0] != cat[0]; }
    assert bird != dog by { assert bird[0] != dog[0]; }
    assert Vocabulary([cat]) == [cat] by {
      assert [cat][..0] == Vocabulary([]);
    }
    assert Vocabulary([cat, dog]) == [cat, dog] by {
      assert [cat, dog][..1] == [cat];
    }
    assert Vocabulary([cat, dog, cat]) == [cat, dog] by {
      assert [cat, dog, cat][..2] == [cat, dog];
    }
    assert ws[..3] == [cat, dog, cat];
  }

  /** Document frequency over two documents. */
  lemma {:induction false} DocFreqPair(d0: string, d1: string, w: string)
    ensures DocFreq([d0, d1], w) ==
      (if w in Words(d0) then 1 else 0) + (if w in Words(d1) then 1 else 0)
  {
    var docs := [d0, d1];
    assert docs[..1] == [d0];
    assert [d0][..0] == [];
  }

  /** The tokens of the example document `cat dog`. */
  lemma {:induction false} WordsExampleCatDog()
    ensures Words("cat dog") == ["cat", "dog"]
  {
    var cat, dog := "cat", "dog";
    assert IsWord(cat) && IsWord(dog);
    WordsExamplePair(cat, dog);
    var t := cat + " " + dog;
    assert t[0] == 'c' && t[1] == 'a' && t[2] == 't' && t[3] == ' ';
    assert t[4] == 'd' && t[5] == 'o' && t[6] == 'g';
    assert "cat dog" == t;
  }

  /** The tokens of the example document `cat bird`. */
  lemma {:induction false} WordsExampleCatBird()
    ensures Words("cat bird") == ["cat", "bird"]
  {
    var cat, bird := "cat", "bird";
    assert IsWord(cat) && IsWord(bird);
    WordsExamplePair(cat, bird);
    var u := cat + " " + bird;
    assert u[0] == 'c' && u[1] == 'a' && u[2] == 't' && u[3] == ' ';
    assert u[4] == 'b' && u[5] == 'i' && u[6] == 'r' && u[7] == 'd';
    assert "cat bird" == u;
  }

  /** Example: over the documents `cat dog` and `cat bird`, `w` is counted once per document. */
  lemma {:induction false} DocFreqExample(docs: seq<string>, w: string)
    requires docs == ["cat dog", "cat bird"]
    ensures DocFreq(docs, w) ==
      (if w == "cat" then 2 else if w == "dog" || w == "bird" then 1 else 0)
  {
    var cat, dog, bird := "cat", "dog", "bird";
    assert cat != dog by { assert cat[0] != dog[0]; }
    assert bird != cat by { assert bird[0] != cat[0]; }
    assert bird != dog by { assert bird[0] != dog[0]; }
    WordsExampleCatDog();
    WordsExampleCatBird();
    DocFreqPair(docs[0], docs[1], w);
    assert docs == [docs[0], docs[1]];
  }
}
