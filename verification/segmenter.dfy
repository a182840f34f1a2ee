/**
 * The segmenter (`split_into_documents`): split on the literal "\n\n", strip every piece, drop
 * pieces that are empty after stripping, and fall back to the stripped whole text when nothing
 * survives.
 */
module Segmenter {
  import opened Chars
  import opened Text

  /** `[p.strip() for p in ps if p.strip()]`. */
  function StrippedPieces(ps: seq<string>): (ds: seq<string>)
    ensures |ds| <= |ps|
  {
    if |ps| == 0 then []
    else
      var d := Strip(ps[0]);
      var rest := StrippedPieces(ps[1..]);
      if d != [] then [d] + rest else rest
  }

  /** A document: non-empty, without leading or trailing whitespace. */
  predicate IsDocument(d: string) {
    |d| > 0 && IsStripped(d)
  }

  /** Every kept piece is a non-empty stripped text. */
  lemma {:induction false} StrippedPiecesAreDocuments(ps: seq<string>)
    ensures forall i :: 0 <= i < |StrippedPieces(ps)| ==> IsDocument(StrippedPieces(ps)[i])
  {
    if |ps| > 0 {
      var d := Strip(ps[0]);
      var rest := StrippedPieces(ps[1..]);
      StrippedPiecesAreDocuments(ps[1..]);
      if d != [] {
        assert StrippedPieces(ps) == [d] + rest;
        assert forall i :: 1 <= i < 1 + |rest| ==> ([d] + rest)[i] == rest[i - 1];
      }
    }
  }

  /** Every index of `m` moved one piece to the right. */
  function Shift(m: seq<nat>): (r: seq<nat>)
    ensures |r| == |m|
    ensures forall k :: 0 <= k < |m| ==> r[k] == m[k] + 1
  {
    seq(|m|, k requires 0 <= k < |m| => m[k] + 1)
  }

  /** Indices, in increasing order, of the pieces whose strip is non-empty: the pieces kept. */
  function KeptIndices(ps: seq<string>): (m: seq<nat>)
    ensures |m| <= |ps|
  {
    if |ps| == 0 then []
    else if Strip(ps[0]) != [] then [0] + Shift(KeptIndices(ps[1..]))
    else Shift(KeptIndices(ps[1..]))
  }

  /**
   * `ds` lists the non-empty strips of `ps` through the index list `m`: the k-th entry is the
   * strip of piece `m[k]`, the indices increase strictly, and no piece with a non-empty strip
   * is missing.
   */
  ghost predicate Indexes(ps: seq<string>, ds: seq<string>, m: seq<nat>) {
    && |m| == |ds|
    && (forall k :: 0 <= k < |m| ==> m[k] < |ps| && ds[k] == Strip(ps[m[k]]))
    && (forall k, l :: 0 <= k < l < |m| ==> m[k] < m[l])
    && (forall j :: 0 <= j < |ps| && Strip(ps[j]) != [] ==> j in m)
  }

  /** A first piece whose strip is empty is skipped: the later indices move by one. */
  lemma {:induction false} IndexesSkip(ps: seq<string>, ds: seq<string>, m: seq<nat>)
    requires |ps| > 0 && Strip(ps[0]) == []
    requires Indexes(ps[1..], ds, m)
    ensures Indexes(ps, ds, Shift(m))
  {
    var tail := ps[1..];
    var r := Shift(m);
    assert forall k :: 0 <= k < |r| ==> ps[r[k]] == tail[m[k]];
    forall j | 0 <= j < |ps| && Strip(ps[j]) != [] ensures j in r {
      assert j > 0 && ps[j] == tail[j - 1];
      var k :| 0 <= k < |m| && m[k] == j - 1;
      assert r[k] == j;
    }
  }

  /** A first piece whose strip is non-empty is kept, as index 0. */
  lemma {:induction false} IndexesKeep(ps: seq<string>, ds: seq<string>, m: seq<nat>)
    requires |ps| > 0 && Strip(ps[0]) != []
    requires Indexes(ps[1..], ds, m)
    ensures Indexes(ps, [Strip(ps[0])] + ds, [0] + Shift(m))
  {
    KeepEntries(ps, ds, m);
    KeepIncreasing(m);
    KeepComplete(ps, m);
  }

  lemma {:induction false} KeepEntries(ps: seq<string>, ds: seq<string>, m: seq<nat>)
    requires |ps| > 0
    requires |m| == |ds|
    requires forall k :: 0 <= k < |m| ==> m[k] < |ps[1..]| && ds[k] == Strip(ps[1..][m[k]])
    ensures forall k :: 0 <= k < |m| + 1 ==>
      ([0] + Shift(m))[k] < |ps| && ([Strip(ps[0])] + ds)[k] == Strip(ps[([0] + Shift(m))[k]])
  {
    var tail := ps[1..];
    var n := [0] + Shift(m);
    var es := [Strip(ps[0])] + ds;
    forall k | 0 <= k < |n| ensures n[k] < |ps| && es[k] == Strip(ps[n[k]]) {
      if k > 0 {
        assert n[k] == m[k - 1] + 1 && es[k] == ds[k - 1];
        assert ps[n[k]] == tail[m[k - 1]];
      }
    }
  }

  lemma {:induction false} KeepIncreasing(m: seq<nat>)
    requires forall k, l :: 0 <= k < l < |m| ==> m[k] < m[l]
    ensures forall k, l :: 0 <= k < l < |m| + 1 ==> ([0] + Shift(m))[k] < ([0] + Shift(m))[l]
  {
    var n := [0] + Shift(m);
    forall k, l | 0 <= k < l < |n| ensures n[k] < n[l] {
      assert n[l] == m[l - 1] + 1;
      if k > 0 {
        assert n[k] == m[k - 1] + 1;
      }
    }
  }

  lemma {:induction false} KeepComplete(ps: seq<string>, m: seq<nat>)
    requires |ps| > 0
    requires forall j :: 0 <= j < |ps[1..]| && Strip(ps[1..][j]) != [] ==> j in m
    ensures forall j :: 0 <= j < |ps| && Strip(ps[j]) != [] ==> j in [0] + Shift(m)
  {
    var tail := ps[1..];
    var n := [0] + Shift(m);
    forall j | 0 <= j < |ps| && Strip(ps[j]) != [] ensures j in n {
      if j > 0 {
        assert ps[j] == tail[j - 1];
        var k :| 0 <= k < |m| && m[k] == j - 1;
        assert n[k + 1] == j;
      }
    }
  }

  /**
   * Where the documents come from: the k-th kept document is the strip of piece
   * `KeptIndices(ps)[k]`, those indices increase strictly, and every piece whose strip is
   * non-empty is among them.
   */
  lemma {:induction false} StrippedPiecesIndices(ps: seq<string>)
    ensures Indexes(ps, StrippedPieces(ps), KeptIndices(ps))
  {
    if |ps| > 0 {
      StrippedPiecesIndices(ps[1..]);
      if Strip(ps[0]) != [] {
        IndexesKeep(ps, StrippedPieces(ps[1..]), KeptIndices(ps[1..]));
      } else {
        IndexesSkip(ps, StrippedPieces(ps[1..]), KeptIndices(ps[1..]));
      }
    }
  }

  /** Pieces without a separator give documents without a separator. */
  lemma {:induction false} StrippedPiecesNoBlank(ps: seq<string>)
    requires forall i :: 0 <= i < |ps| ==> !HasBlank(ps[i])
    ensures forall i :: 0 <= i < |StrippedPieces(ps)| ==> !HasBlank(StrippedPieces(ps)[i])
  {
    StrippedPiecesIndices(ps);
    forall k | 0 <= k < |StrippedPieces(ps)| ensures !HasBlank(StrippedPieces(ps)[k]) {
      StripNoBlank(ps[KeptIndices(ps)[k]]);
    }
  }

  /** `split_into_documents`: never empty, every document stripped. */
  function Documents(text: string): (docs: seq<string>)
    ensures |docs| >= 1
    ensures forall i :: 0 <= i < |docs| ==> IsStripped(docs[i])
  {
    var kept := StrippedPieces(SplitOnBlank(text));
    StrippedPiecesAreDocuments(SplitOnBlank(text));
    if kept == [] then [Strip(text)] else kept
  }

  /** Dropping and stripping pieces loses no token. */
  lemma {:induction false} StrippedPiecesKeepWords(ps: seq<string>)
    ensures AllWords(StrippedPieces(ps)) == AllWords(ps)
  {
    if |ps| > 0 {
      var d := Strip(ps[0]);
      var tail := StrippedPieces(ps[1..]);
      StrippedPiecesKeepWords(ps[1..]);
      WordsStrip(ps[0]);
      if d != [] {
        assert ([d] + tail)[1..] == tail;
      } else {
        assert Words(ps[0]) == Words([]) == [];
      }
    }
  }

  /**
   * Tokens never cross a document boundary: the documents' tokens, concatenated in order, are
   * exactly the tokens of the whole text.
   */
  lemma {:induction false} DocumentsKeepWords(text: string)
    ensures AllWords(Documents(text)) == Words(text)
  {
    var kept := StrippedPieces(SplitOnBlank(text));
    StrippedPiecesKeepWords(SplitOnBlank(text));
    SplitKeepsWords(text);
    if kept == [] {
      WordsStrip(text);
      assert AllWords([Strip(text)]) == Words(Strip(text)) + AllWords([]);
    }
  }

  /** A non-empty stripped text has at least one token. */
  lemma {:induction false} StrippedHasWord(d: string)
    requires |d| > 0 && IsStripped(d)
    ensures |Words(d)| > 0
  {
    WordsEmptyIffAllSpace(d);
  }

  /** Every document of `ds` contributes a token, so no tokens means no documents. */
  lemma {:induction false} NoWordsNoPieces(ds: seq<string>)
    requires forall i :: 0 <= i < |ds| ==> IsDocument(ds[i])
    ensures AllWords(ds) == [] <==> ds == []
  {
    if |ds| > 0 {
      StrippedHasWord(ds[0]);
    }
  }

  /**
   * The fallback `[text.strip()]` is taken exactly for whitespace-only text, and then yields the
   * single empty document; in every other case no document is empty.
   */
  lemma {:induction false} DocumentsFallback(text: string)
    ensures Documents(text) == [""] <==> AllSpace(text)
    ensures !AllSpace(text) ==> forall i :: 0 <= i < |Documents(text)| ==> |Documents(text)[i]| > 0
  {
    var kept := StrippedPieces(SplitOnBlank(text));
    StrippedPiecesKeepWords(SplitOnBlank(text));
    SplitKeepsWords(text);
    StrippedPiecesAreDocuments(SplitOnBlank(text));
    NoWordsNoPieces(kept);
    WordsEmptyIffAllSpace(text);
  }

  /**
   * A text without a blank line is one document, its strip; every document is free of the
   * separator "\n\n", so the blank lines are exactly where documents end.
   */
  lemma {:induction false} DocumentsNoBlank(text: string)
    requires !HasBlank(text)
    ensures Documents(text) == [Strip(text)]
  {
    SplitUnique(text, [text]);
    assert StrippedPieces([text]) == (if Strip(text) != [] then [Strip(text)] else []) + StrippedPieces([]);
  }

  /** No document contains the separator "\n\n". */
  lemma {:induction false} DocumentsHaveNoBlank(text: string)
    ensures forall i :: 0 <= i < |Documents(text)| ==> !HasBlank(Documents(text)[i])
  {
    var ps := SplitOnBlank(text);
    SplitOnBlankShape(text);
    StrippedPiecesNoBlank(ps);
    if StrippedPieces(ps) == [] {
      StrippedPiecesKeepWords(ps);
      SplitKeepsWords(text);
      WordsEmptyIffAllSpace(text);
      StripEmptyIffAllSpace(text);
      assert !HasBlank(Strip(text));
    }
  }

  /**
   * Outside the whitespace-only fallback, the documents are exactly the stripped non-empty
   * pieces of `split("\n\n")`, in order (see `StrippedPiecesIndices`).
   */
  lemma {:induction false} DocumentsArePieces(text: string)
    requires !AllSpace(text)
    ensures Documents(text) == StrippedPieces(SplitOnBlank(text))
  {
    DocumentsFallback(text);
    StrippedPiecesKeepWords(SplitOnBlank(text));
    SplitKeepsWords(text);
    WordsEmptyIffAllSpace(text);
  }

  /** Pieces that are already non-empty and stripped pass through unchanged. */
  lemma {:induction false} StrippedPiecesKeepsStripped(ps: seq<string>)
    requires forall i :: 0 <= i < |ps| ==> IsDocument(ps[i])
    ensures StrippedPieces(ps) == ps
  {
    if |ps| > 0 {
      StripStripped(ps[0]);
      StrippedPiecesKeepsStripped(ps[1..]);
      assert [ps[0]] + ps[1..] == ps;
    }
  }

  lemma {:induction false} SplitExampleTwo(s: string)
    requires s == "cat dog\n\ncat bird"
    ensures SplitOnBlank(s) == ["cat dog", "cat bird"]
  {
    var ps := ["cat dog", "cat bird"];
    assert Join(ps) == s;
    assert !HasBlank(ps[0]) && !HasBlank(ps[1]);
    SplitUnique(s, ps);
  }

  /** Example: a blank line separates two documents. */
  lemma {:induction false} DocumentsExampleTwo(s: string)
    requires s == "cat dog\n\ncat bird"
    ensures Documents(s) == ["cat dog", "cat bird"]
  {
    var ps := ["cat dog", "cat bird"];
    assert IsStripped(ps[0]) by { assert ps[0][0] == 'c' && ps[0][6] == 'g'; }
    assert IsStripped(ps[1]) by { assert ps[1][0] == 'c' && ps[1][7] == 'd'; }
    StrippedPiecesKeepsStripped(ps);
    SplitExampleTwo(s);
  }

  /** Example: running text without a blank line is a single document. */
  lemma {:induction false} DocumentsExampleOne(s: string)
    requires s == "hello world hello"
    ensures Documents(s) == [s]
  {
    assert !HasBlank(s);
    SplitUnique(s, [s]);
    StripStripped(s);
    assert StrippedPieces([s]) == [s] + StrippedPieces([]);
  }

  /** Example: whitespace-only text, blank lines included, is the single empty document. */
  lemma {:induction false} DocumentsExampleBlank(s: string)
    requires s == " \n\n\n "
    ensures Documents(s) == [""]
  {
    assert AllSpace(s);
    DocumentsFallback(s);
  }
}
