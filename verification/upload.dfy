/**
 * The upload filter (`allowed_file`): a file name is accepted when it has a dot and the part
 * after the last dot, lower-cased, is one of the allowed extensions (only `txt`).
 */
module Upload {
  import opened Chars
  import opened Normalizer

  /** The extensions accepted for upload. */
  const AllowedExtensions: set<string> := {"txt"}

  /** `filename.rsplit('.', 1)[1]`: the text after the last dot. */
  function AfterLastDot(f: string): (e: string)
    requires '.' in f
    ensures |e| < |f|
    ensures e == f[|f| - |e|..]
    ensures f[|f| - |e| - 1] == '.'
    ensures '.' !in e
  {
    if f[|f| - 1] == '.' then []
    else AfterLastDot(f[..|f| - 1]) + [f[|f| - 1]]
  }

  /**
   * `allowed_file`: a name is accepted exactly when it ends in a dot followed by `t`, `x`, `t`
   * in either case; anything before that dot, other dots included, does not matter.
   */
  function AllowedFile(f: string): (b: bool)
    ensures b <==> EndsInDotTxt(f)
  {
    DotTxtIff(f);
    '.' in f && Lower(AfterLastDot(f)) in AllowedExtensions
  }

  /** The name ends in `.txt`, with the three letters in either case. */
  predicate EndsInDotTxt(f: string) {
    |f| >= 4 && f[|f| - 4] == '.' && IsT(f[|f| - 3]) && IsX(f[|f| - 2]) && IsT(f[|f| - 1])
  }

  predicate IsT(c: char) { c == 't' || c == 'T' }
  predicate IsX(c: char) { c == 'x' || c == 'X' }

  /** Every dotted capital I leaves a combining dot in the lower-cased text. */
  lemma {:induction false} LowerKeepsDots(e: string)
    ensures multiset(Lower(e))[CombiningDot] >= multiset(e)[DottedCapitalI]
  {
    if |e| > 0 {
      var h := LowerOf(e[0]);
      var t := Lower(e[1..]);
      LowerKeepsDots(e[1..]);
      LowerOfKeepsDot(e[0]);
      assert e == [e[0]] + e[1..];
      assert multiset(e) == multiset([e[0]]) + multiset(e[1..]);
      assert Lower(e) == h + t;
      assert multiset(h + t) == multiset(h) + multiset(t);
    }
  }

  /** The lower-case form of a dotted capital I holds a combining dot. */
  lemma {:induction false} LowerOfKeepsDot(c: char)
    ensures multiset(LowerOf(c))[CombiningDot] >= multiset([c])[DottedCapitalI]
  {
    if c == DottedCapitalI {
      assert LowerOf(c)[1] == CombiningDot;
    }
  }

  lemma {:induction false} LowerSingle(c: char)
    ensures Lower([c]) == LowerOf(c)
  {
    assert [c][1..] == [];
  }

  lemma {:induction false} LowerCharTx(c: char)
    ensures LowerChar(c) == 't' <==> IsT(c)
    ensures LowerChar(c) == 'x' <==> IsX(c)
  {
  }

  lemma {:induction false} LowerThree(a: char, b: char, c: char)
    ensures Lower([a, b, c]) == LowerOf(a) + LowerOf(b) + LowerOf(c)
  {
    assert [a, b, c] == [a] + [b] + [c];
    LowerAppend([a] + [b], [c]);
    LowerAppend([a], [b]);
    LowerSingle(a);
    LowerSingle(b);
    LowerSingle(c);
  }

  lemma {:induction false} LowerThreeTxt(a: char, b: char, c: char)
    ensures Lower([a, b, c]) == "txt" <==> IsT(a) && IsX(b) && IsT(c)
  {
    LowerThree(a, b, c);
    LowerCharTx(a);
    LowerCharTx(b);
    LowerCharTx(c);
    var l := LowerOf(a) + LowerOf(b) + LowerOf(c);
    if a == DottedCapitalI || b == DottedCapitalI || c == DottedCapitalI {
      assert |l| > 3;
    } else {
      assert l == [LowerChar(a), LowerChar(b), LowerChar(c)];
    }
  }

  /** Only three-character strings can lower-case to `txt`. */
  lemma {:induction false} LowerTxtLength(e: string)
    requires Lower(e) == "txt"
    ensures |e| == 3
  {
    LowerLength(e);
    LowerKeepsDots(e);
  }

  /** A three-character string lower-cases to `txt` exactly when it is `txt` in some mix of cases. */
  lemma {:induction false} LowerIsTxtThree(e: string)
    requires |e| == 3
    ensures Lower(e) == "txt" <==> IsT(e[0]) && IsX(e[1]) && IsT(e[2])
  {
    assert e == [e[0], e[1], e[2]];
    LowerThreeTxt(e[0], e[1], e[2]);
  }

  /** The strings whose lower-case form is `txt` are exactly the case variants of `txt`. */
  lemma {:induction false} LowerIsTxt(e: string)
    ensures Lower(e) == "txt" <==> |e| == 3 && IsT(e[0]) && IsX(e[1]) && IsT(e[2])
  {
    if |e| == 3 {
      LowerIsTxtThree(e);
    } else if Lower(e) == "txt" {
      LowerTxtLength(e);
    }
  }

  /** A name ends in `.txt` exactly when the text after its last dot is `txt` in some case. */
  lemma {:induction false} DotTxtSuffix(f: string)
    requires '.' in f
    ensures EndsInDotTxt(f) <==>
      var e := AfterLastDot(f); |e| == 3 && IsT(e[0]) && IsX(e[1]) && IsT(e[2])
  {
    var e := AfterLastDot(f);
    assert forall i :: |f| - |e| <= i < |f| ==> f[i] == e[i - (|f| - |e|)];
    if EndsInDotTxt(f) {
      assert forall i :: |f| - 3 <= i < |f| ==> f[i] != '.';
      assert |e| == 3;
    }
  }

  /** The extension test of `allowed_file` holds exactly for the names ending in `.txt`. */
  lemma {:induction false} DotTxtIff(f: string)
    ensures ('.' in f && Lower(AfterLastDot(f)) in AllowedExtensions) <==> EndsInDotTxt(f)
  {
    if '.' in f {
      var e := AfterLastDot(f);
      assert Lower(e) in AllowedExtensions <==> Lower(e) == "txt";
      LowerIsTxt(e);
      DotTxtSuffix(f);
    } else {
      assert |f| >= 4 ==> f[|f| - 4] in f;
    }
  }

  /** An upper-case extension is accepted. */
  lemma {:induction false} AllowedFileExampleUpper(f: string)
    requires f == "a.TXT"
    ensures AllowedFile(f)
  {
    assert f[1] == '.' && f[2] == 'T' && f[3] == 'X' && f[4] == 'T';
  }

  /** A name that is only the extension, with no dot, is refused. */
  lemma {:induction false} AllowedFileExampleNoDot(f: string)
    requires f == "txt"
    ensures !AllowedFile(f)
  {
  }

  /** Only the last extension counts. */
  lemma {:induction false} AllowedFileExampleDouble(f: string)
    requires f == "a.txt.gz"
    ensures !AllowedFile(f)
  {
    assert f[7] == 'z';
  }
}
