/**
 * The normalizer (`clean_text`): lower-case the text, then replace every character outside
 * `[a-zа-яё0-9\s]` by one space, so that separators are kept rather than collapsed.
 */
module Normalizer {
  import opened Chars

  /** Lower-case form of one character, as a string (only `DottedCapitalI` expands). */
  function LowerOf(c: char): string {
    if c == DottedCapitalI then ['i', CombiningDot] else [LowerChar(c)]
  }

  /**
   * `str.lower()`: every character is replaced by its lower-case form. The result is never
   * shorter and holds no capital letter of the modelled tables.
   */
  function Lower(s: string): (r: string)
    ensures |r| >= |s|
    ensures forall i :: 0 <= i < |r| ==> !IsCapital(r[i]) && r[i] != KelvinSign && r[i] != DottedCapitalI
  {
    if |s| == 0 then []
    else
      var h := LowerOf(s[0]);
      var t := Lower(s[1..]);
      assert forall i :: |h| <= i < |h| + |t| ==> (h + t)[i] == t[i - |h|];
      h + t
  }

  /** Lower-casing lengthens the text by one character per dotted capital I, and by nothing else. */
  lemma {:induction false} LowerLength(s: string)
    ensures |Lower(s)| == |s| + multiset(s)[DottedCapitalI]
  {
    if |s| > 0 {
      LowerLength(s[1..]);
      assert s == [s[0]] + s[1..];
    }
  }

  lemma {:induction false} LowerAppend(a: string, b: string)
    ensures Lower(a + b) == Lower(a) + Lower(b)
  {
    if |a| > 0 {
      assert (a + b)[1..] == a[1..] + b;
      LowerAppend(a[1..], b);
    } else {
      assert a + b == b;
    }
  }

  /** Without the dotted capital I, lower-casing is character by character. */
  lemma {:induction false} LowerPointwise(s: string)
    requires DottedCapitalI !in s
    ensures |Lower(s)| == |s|
    ensures forall i :: 0 <= i < |s| ==> Lower(s)[i] == LowerChar(s[i])
  {
    if |s| > 0 {
      assert s[0] in s;
      assert DottedCapitalI !in s[1..] by {
        forall i | 0 <= i < |s[1..]| ensures s[1..][i] != DottedCapitalI {
          assert s[1..][i] == s[i + 1];
        }
      }
      LowerPointwise(s[1..]);
    }
  }

  /** The lower-case form of one character is already lower-case. */
  lemma {:induction false} LowerOfFixed(c: char)
    ensures Lower(LowerOf(c)) == LowerOf(c)
  {
    if c == DottedCapitalI {
      assert LowerOf(c) == ['i'] + [CombiningDot];
      LowerAppend(['i'], [CombiningDot]);
      assert Lower(['i']) == ['i'];
      assert Lower([CombiningDot]) == [CombiningDot];
    } else {
      LowerCharIdempotent(c);
      assert Lower([LowerChar(c)]) == LowerOf(LowerChar(c)) + Lower([]);
    }
  }

  /** Lower-casing an already lower-cased text changes nothing. */
  lemma {:induction false} LowerIdempotent(s: string)
    ensures Lower(Lower(s)) == Lower(s)
  {
    if |s| > 0 {
      var c := s[0];
      assert Lower(s) == LowerOf(c) + Lower(s[1..]);
      LowerAppend(LowerOf(c), Lower(s[1..]));
      LowerOfFixed(c);
      LowerIdempotent(s[1..]);
    }
  }

  /** `re.sub(r"[^a-zа-яё0-9\s]", " ", text)`: each character outside the class becomes one space. */
  function KeepAllowed(s: string): (r: string)
    ensures |r| == |s|
    ensures forall i :: 0 <= i < |s| && IsAllowed(s[i]) ==> r[i] == s[i]
    ensures forall i :: 0 <= i < |s| && !IsAllowed(s[i]) ==> r[i] == ' '
  {
    if |s| == 0 then []
    else [if IsAllowed(s[0]) then s[0] else ' '] + KeepAllowed(s[1..])
  }

  /** `clean_text`. */
  function Clean(s: string): (r: string)
    ensures forall i :: 0 <= i < |r| ==> IsAllowed(r[i])
    ensures |r| == |s| + multiset(s)[DottedCapitalI]
  {
    LowerLength(s);
    KeepAllowed(Lower(s))
  }

  /** On text made of allowed characters only, lower-casing is the identity. */
  lemma {:induction false} LowerFixesAllowed(s: string)
    requires forall i :: 0 <= i < |s| ==> IsAllowed(s[i])
    ensures Lower(s) == s
  {
    if |s| > 0 {
      LowerFixesAllowed(s[1..]);
    }
  }

  /** Normalizing twice is the same as normalizing once. */
  lemma {:induction false} CleanIdempotent(s: string)
    ensures Clean(Clean(s)) == Clean(s)
  {
    var c := Clean(s);
    LowerFixesAllowed(c);
    assert KeepAllowed(c) == c;
  }

  /** Normalization sees the text only through its lower-case form. */
  lemma {:induction false} CleanIgnoresCase(s: string)
    ensures Clean(Lower(s)) == Clean(s)
  {
    LowerIdempotent(s);
  }

  /**
   * Without the dotted capital I, normalization keeps every position: whitespace stays where it
   * was, every other character either becomes its lower-case form (when that is allowed) or one
   * space. Hence a non-space of the result is a non-space of the input, and tokens are never merged.
   */
  lemma {:induction false} CleanPointwise(s: string)
    requires DottedCapitalI !in s
    ensures |Clean(s)| == |s|
    ensures forall i :: 0 <= i < |s| && IsAllowed(LowerChar(s[i])) ==> Clean(s)[i] == LowerChar(s[i])
    ensures forall i :: 0 <= i < |s| && !IsAllowed(LowerChar(s[i])) ==> Clean(s)[i] == ' '
    ensures forall i :: 0 <= i < |s| && IsSpace(s[i]) ==> Clean(s)[i] == s[i]
    ensures forall i :: 0 <= i < |s| && !IsSpace(Clean(s)[i]) ==> !IsSpace(s[i])
  {
    LowerPointwise(s);
  }

  /** Concrete behaviour: case does not matter. */
  lemma {:induction false} CleanExampleCase(s: string)
    requires s == "ABC"
    ensures Clean(s) == "abc"
  {
    var r := Clean(s);
    CleanPointwise(s);
    assert r[0] == 'a' by { assert LowerChar(s[0]) == 'a'; }
    assert r[1] == 'b' by { assert LowerChar(s[1]) == 'b'; }
    assert r[2] == 'c' by { assert LowerChar(s[2]) == 'c'; }
  }

  /** Concrete behaviour: Cyrillic capitals are lower-cased, punctuation becomes one space. */
  lemma {:induction false} CleanExampleCyrillic(s: string)
    requires s == "Ёж!"
    ensures Clean(s) == "ёж "
  {
    var r := Clean(s);
    CleanPointwise(s);
    assert r[0] == 'ё' by { assert LowerChar(s[0]) == 'ё'; }
    assert r[1] == 'ж' by { assert LowerChar(s[1]) == 'ж'; }
    assert r[2] == ' ' by { assert !IsAllowed(LowerChar(s[2])); }
  }

  /** Concrete behaviour of the two characters whose lower-case form is unusual. */
  lemma {:induction false} CleanExampleSpecial()
    ensures Clean([DottedCapitalI]) == "i "
    ensures Clean([KelvinSign]) == "k"
  {
    assert Lower([DottedCapitalI]) == ['i', CombiningDot] + Lower([]);
    assert Lower([KelvinSign]) == ['k'] + Lower([]);
  }
}
