/**
 * The three Python string primitives the pipeline is built from, over the whitespace of
 * `Chars.IsSpace`: `str.split()` (tokens), `str.strip()`, and `str.split("\n\n")`.
 */
module Text {
  import opened Chars

  predicate AllSpace(s: string) {
    forall i :: 0 <= i < |s| ==> IsSpace(s[i])
  }

  /** A token: a non-empty run of non-whitespace characters. */
  predicate IsWord(w: string) {
    |w| > 0 && forall i :: 0 <= i < |w| ==> !IsSpace(w[i])
  }

  /** No leading and no trailing whitespace. */
  predicate IsStripped(s: string) {
    |s| == 0 || (!IsSpace(s[0]) && !IsSpace(s[|s| - 1]))
  }

  // ---------------------------------------------------------------------------
  // Tokens: `str.split()` without arguments
  // ---------------------------------------------------------------------------

  /** Length of the run of non-whitespace at the start of `s`. */
  function WordLen(s: string): (n: nat)
    ensures n <= |s|
    ensures forall i :: 0 <= i < n ==> !IsSpace(s[i])
    ensures n < |s| ==> IsSpace(s[n])
  {
    if |s| == 0 || IsSpace(s[0]) then 0 else 1 + WordLen(s[1..])
  }

  /** The three facts in `WordLen`'s contract determine it. */
  lemma {:induction false} WordLenUnique(s: string, k: nat)
    requires k <= |s|
    requires forall i :: 0 <= i < k ==> !IsSpace(s[i])
    requires k < |s| ==> IsSpace(s[k])
    ensures WordLen(s) == k
  {
  }

  /**
   * `s.split()`: the maximal runs of non-whitespace, in order, with empty strings dropped; every
   * token is a non-empty run without whitespace.
   */
  function Words(s: string): (ws: seq<string>)
    ensures forall i :: 0 <= i < |ws| ==> IsWord(ws[i])
    decreases |s|
  {
    if |s| == 0 then []
    else if IsSpace(s[0]) then Words(s[1..])
    else
      var n := WordLen(s);
      var rest := Words(s[n..]);
      assert forall i :: 1 <= i < 1 + |rest| ==> ([s[..n]] + rest)[i] == rest[i - 1];
      [s[..n]] + rest
  }

  /** `" ".join(ws)`, the inverse of `Words` on lists of tokens. */
  function Unwords(ws: seq<string>): string {
    if |ws| == 0 then ""
    else if |ws| == 1 then ws[0]
    else ws[0] + " " + Unwords(ws[1..])
  }

  /** A token followed by whitespace (or by nothing) is read back whole. */
  lemma {:induction false} WordLenOfWord(w: string, t: string)
    requires IsWord(w)
    requires |t| == 0 || IsSpace(t[0])
    ensures WordLen(w + t) == |w|
  {
    WordLenUnique(w + t, |w|);
  }

  /** Tokenizing a space-joined list of tokens gives the list back. */
  lemma {:induction false} WordsUnwords(ws: seq<string>)
    requires forall i :: 0 <= i < |ws| ==> IsWord(ws[i])
    ensures Words(Unwords(ws)) == ws
  {
    if |ws| == 1 {
      var w := ws[0];
      WordLenOfWord(w, "");
      assert w + "" == w;
      assert w[..|w|] == w && w[|w|..] == "";
    } else if |ws| > 1 {
      var w := ws[0];
      var rest := Unwords(ws[1..]);
      var s := w + (" " + rest);
      assert Unwords(ws) == s;
      WordLenOfWord(w, " " + rest);
      assert s[..|w|] == w;
      assert s[|w|..] == " " + rest;
      assert (" " + rest)[1..] == rest;
      WordsUnwords(ws[1..]);
      assert Words(s) == [w] + ws[1..];
    }
  }

  /** Whitespace-only text has no tokens, and text with a non-space character has one. */
  lemma {:induction false} WordsEmptyIffAllSpace(s: string)
    ensures Words(s) == [] <==> AllSpace(s)
    decreases |s|
  {
    if |s| > 0 {
      WordsEmptyIffAllSpace(s[1..]);
      if IsSpace(s[0]) {
        assert AllSpace(s) <==> AllSpace(s[1..]) by {
          if AllSpace(s[1..]) {
            forall i | 0 <= i < |s| ensures IsSpace(s[i]) {
              if i > 0 { assert s[i] == s[1..][i - 1]; }
            }
          }
        }
      }
    }
  }

  /** Leading whitespace does not change the tokens. */
  lemma {:induction false} WordsSkipSpaces(sp: string, r: string)
    requires AllSpace(sp)
    ensures Words(sp + r) == Words(r)
  {
    if |sp| > 0 {
      assert (sp + r)[1..] == sp[1..] + r;
      WordsSkipSpaces(sp[1..], r);
    } else {
      assert sp + r == r;
    }
  }

  /** Tokens never straddle whitespace: text cut just before a whitespace character tokenizes piecewise. */
  lemma {:induction false} WordsAppendSpace(a: string, b: string)
    requires |b| > 0 && IsSpace(b[0])
    ensures Words(a + b) == Words(a) + Words(b)
    decreases |a|
  {
    if |a| == 0 {
      assert a + b == b;
    } else if IsSpace(a[0]) {
      WordsAppendSpace(a[1..], b);
      WordsAppendSpaceSkip(a, b);
    } else {
      WordsAppendSpace(a[WordLen(a)..], b);
      WordsAppendSpaceWord(a, b);
    }
  }

  /** Inductive step of `WordsAppendSpace` over a leading whitespace character of `a`. */
  lemma {:induction false} WordsAppendSpaceSkip(a: string, b: string)
    requires |b| > 0 && IsSpace(b[0])
    requires |a| > 0 && IsSpace(a[0])
    requires Words(a[1..] + b) == Words(a[1..]) + Words(b)
    ensures Words(a + b) == Words(a) + Words(b)
  {
    WordsLeadingSpace(a, b);
  }

  /** Inductive step of `WordsAppendSpace` over the first token of `a`. */
  lemma {:induction false} WordsAppendSpaceWord(a: string, b: string)
    requires |b| > 0 && IsSpace(b[0])
    requires |a| > 0 && !IsSpace(a[0])
    requires Words(a[WordLen(a)..] + b) == Words(a[WordLen(a)..]) + Words(b)
    ensures Words(a + b) == Words(a) + Words(b)
  {
    var n := WordLen(a);
    WordsFirstWord(a, b);
    assert Words(a) == [a[..n]] + Words(a[n..]);
  }

  /** A whitespace character at the start of `a` is skipped, whatever follows `a`. */
  lemma {:induction false} WordsLeadingSpace(a: string, b: string)
    requires |a| > 0 && IsSpace(a[0])
    ensures Words(a) == Words(a[1..])
    ensures Words(a + b) == Words(a[1..] + b)
  {
    assert (a + b)[0] == a[0];
    assert (a + b)[1..] == a[1..] + b;
  }

  /** A first token of `a` is not lengthened by appending text that starts with whitespace. */
  lemma {:induction false} WordsFirstWord(a: string, b: string)
    requires |b| > 0 && IsSpace(b[0])
    requires |a| > 0 && !IsSpace(a[0])
    ensures Words(a + b) == [a[..WordLen(a)]] + Words(a[WordLen(a)..] + b)
  {
    var ab := a + b;
    var n := WordLen(a);
    assert forall i :: 0 <= i < n ==> ab[i] == a[i];
    assert n < |a| ==> ab[n] == a[n];
    assert n == |a| ==> ab[n] == b[0];
    WordLenUnique(ab, n);
    assert ab[0] == a[0];
    assert ab[..n] == a[..n];
    assert ab[n..] == a[n..] + b;
  }

  // ---------------------------------------------------------------------------
  // `str.strip()`
  // ---------------------------------------------------------------------------

  /** Number of whitespace characters at the start of `s`. */
  function LeadingSpace(s: string): (k: nat)
    ensures k <= |s|
    ensures forall i :: 0 <= i < k ==> IsSpace(s[i])
    ensures k < |s| ==> !IsSpace(s[k])
  {
    if |s| > 0 && IsSpace(s[0]) then 1 + LeadingSpace(s[1..]) else 0
  }

  /** Number of whitespace characters at the end of `s`. */
  function TrailingSpace(s: string): (k: nat)
    ensures k <= |s|
    ensures forall i :: |s| - k <= i < |s| ==> IsSpace(s[i])
    ensures k < |s| ==> !IsSpace(s[|s| - 1 - k])
  {
    if |s| > 0 && IsSpace(s[|s| - 1]) then 1 + TrailingSpace(s[..|s| - 1]) else 0
  }

  /** `s.lstrip()`: the suffix left after dropping leading whitespace. */
  function TrimLeft(s: string): string {
    s[LeadingSpace(s)..]
  }

  /** `s.rstrip()`: the prefix left after dropping trailing whitespace. */
  function TrimRight(s: string): string {
    s[..|s| - TrailingSpace(s)]
  }

  /**
   * `s.strip()`: the text between the leading and the trailing whitespace, kept verbatim; what
   * follows it is whitespace only.
   */
  function Strip(s: string): (r: string)
    ensures IsStripped(r)
    ensures |r| <= |s|
    ensures LeadingSpace(s) + |r| <= |s| && r == s[LeadingSpace(s)..LeadingSpace(s) + |r|]
    ensures AllSpace(s[LeadingSpace(s) + |r|..])
  {
    var k := LeadingSpace(s);
    var l := TrimLeft(s);
    assert |l| > 0 ==> !IsSpace(l[0]);
    var r := TrimRight(l);
    assert r == s[k..k + |r|];
    assert s[k + |r|..] == l[|r|..];
    r
  }

  /** Whitespace before `k` and from `n` on, non-whitespace at `k` and at `n - 1`: the strip is `s[k..n]`. */
  lemma {:induction false} StripAt(s: string, k: nat, n: nat)
    requires k < n <= |s|
    requires forall i :: 0 <= i < k ==> IsSpace(s[i])
    requires !IsSpace(s[k]) && !IsSpace(s[n - 1])
    requires forall i :: n <= i < |s| ==> IsSpace(s[i])
    ensures Strip(s) == s[k..n]
  {
    assert LeadingSpace(s) == k;
  }

  /**
   * `strip()` is determined by its contract: a non-empty stripped text between two runs of
   * whitespace is what stripping the whole gives back.
   */
  lemma {:induction false} StripUnique(a: string, r: string, b: string)
    requires AllSpace(a) && AllSpace(b)
    requires |r| > 0 && IsStripped(r)
    ensures Strip(a + r + b) == r
  {
    var s := a + r + b;
    var n := |a| + |r|;
    assert forall i :: 0 <= i < |a| ==> s[i] == a[i];
    assert forall i :: n <= i < |s| ==> s[i] == b[i - n];
    assert s[|a|] == r[0] && s[n - 1] == r[|r| - 1];
    StripAt(s, |a|, n);
    assert s[|a|..n] == r;
  }

  /** `s.strip()` is empty exactly when `s` is whitespace only. */
  lemma {:induction false} StripEmptyIffAllSpace(s: string)
    ensures Strip(s) == [] <==> AllSpace(s)
  {
    var l := TrimLeft(s);
    assert |l| > 0 ==> !IsSpace(l[0]);
    assert |l| > 0 ==> TrailingSpace(l) < |l|;
  }

  /** Stripping a stripped text changes nothing. */
  lemma {:induction false} StripStripped(s: string)
    requires IsStripped(s)
    ensures Strip(s) == s
  {
  }

  /** Dropping leading whitespace does not change the tokens. */
  lemma {:induction false} WordsTrimLeft(s: string)
    ensures Words(TrimLeft(s)) == Words(s)
    decreases |s|
  {
    if |s| > 0 && IsSpace(s[0]) {
      WordsTrimLeft(s[1..]);
      assert TrimLeft(s) == TrimLeft(s[1..]);
    }
  }

  /** Dropping trailing whitespace does not change the tokens. */
  lemma {:induction false} WordsTrimRight(s: string)
    ensures Words(TrimRight(s)) == Words(s)
  {
    var k := TrailingSpace(s);
    var r := TrimRight(s);
    assert |r| == |s| - k;
    var tail := s[|r|..];
    assert s == r + tail;
    if k > 0 {
      assert AllSpace(tail) by {
        assert forall j :: 0 <= j < |tail| ==> tail[j] == s[|r| + j];
      }
      WordsAppendSpace(r, tail);
      WordsEmptyIffAllSpace(tail);
      assert Words(s) == Words(r) + [];
      assert Words(r) + [] == Words(r);
    } else {
      assert r == s;
    }
  }

  /** Stripping does not change the tokens. */
  lemma {:induction false} WordsStrip(s: string)
    ensures Words(Strip(s)) == Words(s)
  {
    WordsTrimLeft(s);
    WordsTrimRight(TrimLeft(s));
  }

  // ---------------------------------------------------------------------------
  // `str.split("\n\n")`
  // ---------------------------------------------------------------------------

  /** The separator "\n\n" occurs somewhere in `s`. */
  predicate HasBlank(s: string) {
    exists i :: 0 <= i && i + 1 < |s| && s[i] == '\n' && s[i + 1] == '\n'
  }

  /** `s.split("\n\n")`: cut at each leftmost non-overlapping occurrence of the separator. */
  function SplitOnBlank(s: string): (ps: seq<string>)
    ensures |ps| >= 1
    decreases |s|
  {
    if |s| < 2 then [s]
    else if s[0] == '\n' && s[1] == '\n' then [""] + SplitOnBlank(s[2..])
    else
      var rest := SplitOnBlank(s[1..]);
      [[s[0]] + rest[0]] + rest[1..]
  }

  /**
   * The pieces of `split("\n\n")` contain no separator, none but the last ends with '\n'
   * (otherwise the separator would have started one character earlier), and the first piece
   * is a prefix of the text, followed by the first separator when there are more pieces.
   */
  lemma {:induction false} SplitOnBlankShape(s: string)
    ensures IsLeftmostSplit(SplitOnBlank(s))
    ensures |SplitOnBlank(s)[0]| <= |s| && SplitOnBlank(s)[0] == s[..|SplitOnBlank(s)[0]|]
    ensures |SplitOnBlank(s)| >= 2 ==>
      |SplitOnBlank(s)[0]| + 2 <= |s| && s[|SplitOnBlank(s)[0]|] == '\n' && s[|SplitOnBlank(s)[0]| + 1] == '\n'
    decreases |s|
  {
    var ps := SplitOnBlank(s);
    if |s| < 2 {
      assert !HasBlank(s);
    } else if s[0] == '\n' && s[1] == '\n' {
      SplitOnBlankShape(s[2..]);
      ShapeAfterBlank(SplitOnBlank(s[2..]));
    } else {
      var rest := SplitOnBlank(s[1..]);
      SplitOnBlankShape(s[1..]);
      ShapeAfterChar(s, rest);
    }
  }

  /** A leading empty piece keeps a leftmost split leftmost. */
  lemma {:induction false} ShapeAfterBlank(rest: seq<string>)
    requires IsLeftmostSplit(rest)
    ensures IsLeftmostSplit([""] + rest)
  {
    var ps := [""] + rest;
    assert !HasBlank(ps[0]);
    assert forall i :: 1 <= i < |ps| ==> ps[i] == rest[i - 1];
  }

  /** Prepending a character that does not start a separator keeps a leftmost split leftmost. */
  lemma {:induction false} ShapeAfterChar(s: string, rest: seq<string>)
    requires |s| >= 2 && !(s[0] == '\n' && s[1] == '\n')
    requires IsLeftmostSplit(rest)
    requires |rest[0]| <= |s| - 1 && rest[0] == s[1..][..|rest[0]|]
    requires |rest| >= 2 ==> |rest[0]| + 2 <= |s| - 1 && s[1..][|rest[0]|] == '\n' && s[1..][|rest[0]| + 1] == '\n'
    ensures IsLeftmostSplit([[s[0]] + rest[0]] + rest[1..])
    ensures |[s[0]] + rest[0]| <= |s| && [s[0]] + rest[0] == s[..1 + |rest[0]|]
    ensures |rest| >= 2 ==> 1 + |rest[0]| + 2 <= |s| && s[1 + |rest[0]|] == '\n' && s[1 + |rest[0]| + 1] == '\n'
  {
    var first := [s[0]] + rest[0];
    var ps := [first] + rest[1..];
    assert |rest[0]| > 0 ==> rest[0][0] == s[1];
    PrependNoBlank(s[0], rest[0]);
    assert forall i :: 1 <= i < |ps| ==> ps[i] == rest[i];
    if |rest| >= 2 {
      if |rest[0]| == 0 {
        assert s[1] == '\n';
      } else {
        assert first[|first| - 1] == rest[0][|rest[0]| - 1];
      }
    }
    assert s[..1 + |rest[0]|] == [s[0]] + s[1..][..|rest[0]|];
  }

  /** Putting a character in front of a separator-free text creates no separator, unless both are newlines. */
  lemma {:induction false} PrependNoBlank(c: char, p: string)
    requires !HasBlank(p)
    requires c != '\n' || |p| == 0 || p[0] != '\n'
    ensures !HasBlank([c] + p)
  {
    var first := [c] + p;
    forall i | 0 <= i && i + 1 < |first| ensures !(first[i] == '\n' && first[i + 1] == '\n') {
      if i > 0 {
        assert p[i - 1] == first[i] && p[i] == first[i + 1];
      }
    }
  }

  /** `"\n\n".join(ps)`. */
  function Join(ps: seq<string>): string {
    if |ps| == 0 then ""
    else if |ps| == 1 then ps[0]
    else ps[0] + "\n\n" + Join(ps[1..])
  }

  /** Growing the first piece by one character grows the joined text by that character. */
  lemma {:induction false} JoinPrepend(c: char, ps: seq<string>)
    requires |ps| >= 1
    ensures Join([[c] + ps[0]] + ps[1..]) == [c] + Join(ps)
  {
    var qs := [[c] + ps[0]] + ps[1..];
    if |ps| > 1 {
      assert qs[1..] == ps[1..];
      assert Join(qs) == ([c] + ps[0]) + "\n\n" + Join(ps[1..]);
    }
  }

  /** Splitting on the separator and joining with it gives the text back. */
  lemma {:induction false} JoinSplit(s: string)
    ensures Join(SplitOnBlank(s)) == s
    decreases |s|
  {
    if |s| < 2 {
    } else if s[0] == '\n' && s[1] == '\n' {
      var rest := SplitOnBlank(s[2..]);
      JoinSplit(s[2..]);
      assert ([""] + rest)[1..] == rest;
      assert s == "\n\n" + s[2..];
    } else {
      var rest := SplitOnBlank(s[1..]);
      JoinSplit(s[1..]);
      JoinPrepend(s[0], rest);
      assert s == [s[0]] + s[1..];
    }
  }

  /** A piece without the separator has no separator in any of its parts. */
  lemma {:induction false} NoBlankInSuffix(p: string, k: nat)
    requires k <= |p|
    requires !HasBlank(p)
    ensures !HasBlank(p[k..])
  {
    forall i | 0 <= i && i + 1 < |p[k..]| ensures !(p[k..][i] == '\n' && p[k..][i + 1] == '\n') {
      assert p[k..][i] == p[k + i] && p[k..][i + 1] == p[k + i + 1];
    }
  }

  /** A slice of a separator-free text is separator-free. */
  lemma {:induction false} NoBlankInSlice(p: string, i: nat, j: nat)
    requires i <= j <= |p|
    requires !HasBlank(p)
    ensures !HasBlank(p[i..j])
  {
    forall n | 0 <= n && n + 1 < |p[i..j]| ensures !(p[i..j][n] == '\n' && p[i..j][n + 1] == '\n') {
      assert p[i..j][n] == p[i + n] && p[i..j][n + 1] == p[i + n + 1];
    }
  }

  /** Stripping a separator-free text cannot create a separator. */
  lemma {:induction false} StripNoBlank(p: string)
    requires !HasBlank(p)
    ensures !HasBlank(Strip(p))
  {
    NoBlankInSlice(p, LeadingSpace(p), LeadingSpace(p) + |Strip(p)|);
  }

  /** Conditions under which a list of pieces is the leftmost split of its join. */
  ghost predicate IsLeftmostSplit(ps: seq<string>) {
    && |ps| >= 1
    && (forall i :: 0 <= i < |ps| ==> !HasBlank(ps[i]))
    && (forall i :: 0 <= i < |ps| - 1 ==> |ps[i]| == 0 || ps[i][|ps[i]| - 1] != '\n')
  }

  /**
   * `SplitOnBlank` is the only way to cut a text into pieces that join back to it, contain no
   * separator, and (but for the last) do not end with '\n'.
   */
  lemma {:induction false} SplitUnique(s: string, ps: seq<string>)
    requires IsLeftmostSplit(ps)
    requires Join(ps) == s
    ensures SplitOnBlank(s) == ps
    decreases |s|
  {
    if |ps| == 1 {
      assert s == ps[0];
      assert |s| >= 2 ==> !(s[0] == '\n' && s[1] == '\n');
      if |s| >= 2 {
        NoBlankInSuffix(s, 1);
        SplitUnique(s[1..], [s[1..]]);
        assert [s[0]] + s[1..] == s;
      }
    } else if |ps[0]| == 0 {
      SplitStepEmpty(s, ps);
      SplitUnique(s[2..], ps[1..]);
    } else {
      SplitStepHead(s, ps);
      SplitUnique(s[1..], [ps[0][1..]] + ps[1..]);
    }
  }

  /** A leading empty piece stands for a separator at the start of the text. */
  lemma {:induction false} SplitStepEmpty(s: string, ps: seq<string>)
    requires IsLeftmostSplit(ps)
    requires Join(ps) == s
    requires |ps| >= 2 && |ps[0]| == 0
    ensures |s| >= 2 && s[0] == '\n' && s[1] == '\n'
    ensures s[2..] == Join(ps[1..])
    ensures IsLeftmostSplit(ps[1..])
    ensures ps == [""] + ps[1..]
  {
    assert s == ps[0] + "\n\n" + Join(ps[1..]);
  }

  /** A nonempty leading piece: dropping the first character of the text drops it from that piece. */
  lemma {:induction false} SplitStepHead(s: string, ps: seq<string>)
    requires IsLeftmostSplit(ps)
    requires Join(ps) == s
    requires |ps| >= 2 && |ps[0]| > 0
    ensures |s| >= 2 && !(s[0] == '\n' && s[1] == '\n')
    ensures Join([ps[0][1..]] + ps[1..]) == s[1..]
    ensures IsLeftmostSplit([ps[0][1..]] + ps[1..])
    ensures ps == [[s[0]] + ps[0][1..]] + ps[1..]
  {
    var p := ps[0];
    assert s == p + "\n\n" + Join(ps[1..]);
    assert s[0] == p[0];
    assert |p| >= 2 ==> !(p[0] == '\n' && p[1] == '\n');
    assert |p| == 1 ==> p[0] != '\n';
    var q := p[1..];
    var qs := [q] + ps[1..];
    assert qs[1..] == ps[1..];
    JoinPrepend(p[0], qs);
    assert [p[0]] + q == p;
    assert [[p[0]] + q] + ps[1..] == ps;
    assert s == [s[0]] + s[1..];
    NoBlankInSuffix(p, 1);
    assert forall i :: 1 <= i < |qs| ==> qs[i] == ps[i];
    assert |q| > 0 ==> q[|q| - 1] == p[|p| - 1];
  }

  // ---------------------------------------------------------------------------
  // Tokens of several pieces of text
  // ---------------------------------------------------------------------------

  /** The tokens of each text, concatenated in order. */
  function AllWords(docs: seq<string>): seq<string> {
    if |docs| == 0 then [] else Words(docs[0]) + AllWords(docs[1..])
  }

  lemma {:induction false} AllWordsAppend(a: seq<string>, b: seq<string>)
    ensures AllWords(a + b) == AllWords(a) + AllWords(b)
  {
    if |a| == 0 {
      assert a + b == b;
    } else {
      assert (a + b)[1..] == a[1..] + b;
      AllWordsAppend(a[1..], b);
    }
  }

  /** The separator is whitespace, so the tokens of joined pieces are the pieces' tokens. */
  lemma {:induction false} WordsJoin(ps: seq<string>)
    ensures Words(Join(ps)) == AllWords(ps)
  {
    if |ps| == 1 {
    } else if |ps| > 1 {
      var tail := "\n\n" + Join(ps[1..]);
      assert Join(ps) == ps[0] + tail;
      WordsAppendSpace(ps[0], tail);
      WordsSkipSpaces("\n\n", Join(ps[1..]));
      WordsJoin(ps[1..]);
    }
  }

  /** The tokens of the pieces of `s.split("\n\n")` are the tokens of `s`. */
  lemma {:induction false} SplitKeepsWords(s: string)
    ensures AllWords(SplitOnBlank(s)) == Words(s)
  {
    JoinSplit(s);
    WordsJoin(SplitOnBlank(s));
  }
}
