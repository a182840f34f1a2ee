/**
 * The scorer and ranker: one `(word, tf, idf)` row per vocabulary word, sorted by idf
 * descending with a stable sort, truncated to the first 50 rows.
 *
 * The idf is `ln(total_docs / (df + 1))`. The model keeps the exact argument of the logarithm:
 * `ln` is strictly increasing, so ordering rows by the argument orders them by the idf.
 */
module Ranking {
  import opened Seqs
  import opened Counting

  /** A result row; `ratio` is `total_docs / (df + 1)`, the number whose logarithm is the idf. */
  datatype Row = Row(word: string, tf: nat, ratio: real)

  /** Length of the ranking shown to the user. */
  const TopN: nat := 50

  /** The argument of the logarithm in `idf = ln(total_docs / (df + 1))`. */
  function Ratio(total: nat, df: nat): real {
    total as real / (df + 1) as real
  }

  /** For a fixed positive number of documents, a larger df gives a strictly smaller idf. */
  lemma {:induction false} RatioStrictlyDecreasing(total: nat, d1: nat, d2: nat)
    requires total >= 1
    requires d1 < d2
    ensures Ratio(total, d1) > Ratio(total, d2)
  {
    var t := total as real;
    var a := (d1 + 1) as real;
    var b := (d2 + 1) as real;
    var x := Ratio(total, d1);
    var y := Ratio(total, d2);
    assert x * a == t;
    assert y * b == t;
    assert y > 0.0;
    assert (b - a) * y > 0.0;
    assert (x - y) * a > 0.0;
  }

  /** Hence the idf order is exactly the reverse df order. */
  lemma {:induction false} RatioOrder(total: nat, d1: nat, d2: nat)
    requires total >= 1
    ensures Ratio(total, d1) >= Ratio(total, d2) <==> d1 <= d2
    ensures Ratio(total, d1) == Ratio(total, d2) <==> d1 == d2
  {
    if d1 < d2 {
      RatioStrictlyDecreasing(total, d1, d2);
    } else if d2 < d1 {
      RatioStrictlyDecreasing(total, d2, d1);
    }
  }

  /** `RatioOrder` for every pair of document frequencies at once. */
  lemma {:induction false} RatioOrderAll(total: nat)
    ensures total >= 1 ==> forall d1: nat, d2: nat :: Ratio(total, d1) >= Ratio(total, d2) <==> d1 <= d2
  {
    if total >= 1 {
      forall d1: nat, d2: nat ensures Ratio(total, d1) >= Ratio(total, d2) <==> d1 <= d2 {
        RatioOrder(total, d1, d2);
      }
    }
  }

  /**
   * The rows built from `tf_counter.items()`, with `df_counter.get(word, 0)`: one row per key,
   * in key order, carrying the word's count; when there is a document, a row's idf is at least
   * another's exactly when its df is at most the other's.
   */
  function BuildRows(order: seq<string>, tf: map<string, nat>, df: map<string, nat>, total: nat): (rs: seq<Row>)
    ensures |rs| == |order|
    ensures forall i :: 0 <= i < |rs| ==> rs[i].word == order[i] && rs[i].tf == Get(tf, order[i])
    ensures total >= 1 ==> forall i, j :: 0 <= i < |rs| && 0 <= j < |rs| ==>
      (rs[i].ratio >= rs[j].ratio <==> Get(df, order[i]) <= Get(df, order[j]))
  {
    RatioOrderAll(total);
    seq(|order|, i requires 0 <= i < |order| => Row(order[i], Get(tf, order[i]), Ratio(total, Get(df, order[i]))))
  }

  // ---------------------------------------------------------------------------
  // Stable sort by idf, descending
  // ---------------------------------------------------------------------------

  ghost predicate Descending(rs: seq<Row>) {
    forall i, j :: 0 <= i < j < |rs| ==> rs[i].ratio >= rs[j].ratio
  }

  /** Where `e` goes in a descending list: after every row whose key is at least its own. */
  function InsertPos(s: seq<Row>, e: Row): (p: nat)
    ensures p <= |s|
    ensures forall i :: 0 <= i < p ==> s[i].ratio >= e.ratio
    ensures p < |s| ==> s[p].ratio < e.ratio
  {
    if |s| == 0 || s[0].ratio < e.ratio then 0 else 1 + InsertPos(s[1..], e)
  }

  function Insert(s: seq<Row>, e: Row): seq<Row> {
    var p := InsertPos(s, e);
    s[..p] + [e] + s[p..]
  }

  /** Where each row of `Insert(s, e)` comes from. */
  lemma {:induction false} InsertIndex(s: seq<Row>, e: Row)
    ensures |Insert(s, e)| == |s| + 1
    ensures forall k :: 0 <= k < InsertPos(s, e) ==> Insert(s, e)[k] == s[k]
    ensures Insert(s, e)[InsertPos(s, e)] == e
    ensures forall k :: InsertPos(s, e) < k <= |s| ==> Insert(s, e)[k] == s[k - 1]
  {
  }

  lemma {:induction false} InsertPermutes(s: seq<Row>, e: Row)
    ensures multiset(Insert(s, e)) == multiset(s) + multiset{e}
  {
    var p := InsertPos(s, e);
    assert s == s[..p] + s[p..];
  }

  lemma {:induction false} InsertSorted(s: seq<Row>, e: Row)
    requires Descending(s)
    ensures Descending(Insert(s, e))
  {
    var p := InsertPos(s, e);
    var r := Insert(s, e);
    InsertIndex(s, e);
    forall i, j | 0 <= i < j < |r| ensures r[i].ratio >= r[j].ratio {
      if j < p {
      } else if j == p {
      } else if i <= p {
        assert s[j - 1].ratio <= s[p].ratio;
      } else {
      }
    }
  }

  /** Insertion sort by `ratio`, largest first; each new row goes after all rows with an equal key. */
  function SortByRatio(xs: seq<Row>): (r: seq<Row>)
    ensures multiset(r) == multiset(xs)
    ensures Descending(r)
  {
    if |xs| == 0 then []
    else
      var init := xs[..|xs| - 1];
      var x := xs[|xs| - 1];
      assert xs == init + [x];
      var s := SortByRatio(init);
      InsertPermutes(s, x);
      InsertSorted(s, x);
      Insert(s, x)
  }

  /**
   * The order a stable sort by `ratio` descending puts rows of `xs` in: larger key first, and
   * for equal keys, the row that comes first in `xs` first.
   */
  ghost predicate Precedes(xs: seq<Row>, a: Row, b: Row) {
    a.ratio > b.ratio || (a.ratio == b.ratio && IndexOf(xs, a) < IndexOf(xs, b))
  }

  /** `r` lists its rows in `Precedes` order: sorted, and stable with respect to `xs`. */
  ghost predicate Ranked(xs: seq<Row>, r: seq<Row>) {
    forall i, j :: 0 <= i < j < |r| ==> Precedes(xs, r[i], r[j])
  }

  lemma {:induction false} InsertRanked(xs: seq<Row>, s: seq<Row>, x: Row)
    requires Ranked(xs, s)
    requires forall y :: y in s ==> IndexOf(xs, y) < IndexOf(xs, x)
    ensures Ranked(xs, Insert(s, x))
  {
    var p := InsertPos(s, x);
    var r := Insert(s, x);
    InsertIndex(s, x);
    forall i, j | 0 <= i < j < |r| ensures Precedes(xs, r[i], r[j]) {
      if j < p {
      } else if j == p {
        assert s[i] in s;
      } else if i < p {
      } else if i == p {
        assert p < j - 1 ==> Precedes(xs, s[p], s[j - 1]);
      } else {
      }
    }
  }

  /** The sort is stable: on rows without repetitions, its result is in `Precedes` order. */
  lemma {:induction false} SortRanked(xs: seq<Row>)
    requires Distinct(xs)
    ensures Ranked(xs, SortByRatio(xs))
  {
    if |xs| > 0 {
      var init := xs[..|xs| - 1];
      var x := xs[|xs| - 1];
      assert xs == init + [x];
      assert Distinct(init);
      SortRanked(init);
      var s := SortByRatio(init);
      forall y | y in init ensures IndexOf(xs, y) == IndexOf(init, y) {
        IndexOfAppend(init, x, y);
      }
      IndexOfNewLast(init, x);
      forall y | y in s ensures IndexOf(xs, y) < IndexOf(xs, x) {
        assert y in multiset(init);
      }
      assert Ranked(xs, s) by {
        forall i, j | 0 <= i < j < |s| ensures Precedes(xs, s[i], s[j]) {
          assert Precedes(init, s[i], s[j]);
          assert s[i] in multiset(init) && s[j] in multiset(init);
        }
      }
      InsertRanked(xs, s, x);
    }
  }

  /**
   * A stable sort has only one possible result: two arrangements of the same rows that are both
   * in `Precedes` order are equal. So any stable sort by `ratio` (Python's included) agrees with
   * `SortByRatio`.
   */
  lemma {:induction false} RankedUnique(xs: seq<Row>, r1: seq<Row>, r2: seq<Row>)
    requires Ranked(xs, r1) && Ranked(xs, r2)
    requires multiset(r1) == multiset(r2)
    ensures r1 == r2
    decreases |r1|
  {
    assert |r1| == |multiset(r1)| == |multiset(r2)| == |r2|;
    if |r1| > 0 {
      RankedSameHead(xs, r1, r2);
      SameHeadTails(r1, r2);
      RankedTail(xs, r1);
      RankedTail(xs, r2);
      RankedUnique(xs, r1[1..], r2[1..]);
      assert r1 == [r1[0]] + r1[1..] && r2 == [r2[0]] + r2[1..];
    }
  }

  /** Removing the same first row from two arrangements of the same rows leaves arrangements of the same rows. */
  lemma {:induction false} SameHeadTails(r1: seq<Row>, r2: seq<Row>)
    requires multiset(r1) == multiset(r2)
    requires |r1| > 0 && |r2| > 0 && r1[0] == r2[0]
    ensures multiset(r1[1..]) == multiset(r2[1..])
  {
    var a := r1[0];
    assert r1 == [a] + r1[1..] && r2 == [a] + r2[1..];
    assert multiset(r1) == multiset{a} + multiset(r1[1..]);
    assert multiset(r2) == multiset{a} + multiset(r2[1..]);
    assert multiset(r1[1..]) == multiset(r1) - multiset{a};
    assert multiset(r2[1..]) == multiset(r2) - multiset{a};
  }

  /** Two `Precedes`-ordered arrangements of the same rows start with the same row. */
  lemma {:induction false} RankedSameHead(xs: seq<Row>, r1: seq<Row>, r2: seq<Row>)
    requires Ranked(xs, r1) && Ranked(xs, r2)
    requires multiset(r1) == multiset(r2)
    requires |r1| > 0 && |r2| > 0
    ensures r1[0] == r2[0]
  {
    var a := r1[0];
    var b := r2[0];
    assert a in multiset(r2) && b in multiset(r1);
    var k :| 0 <= k < |r2| && r2[k] == a;
    var m :| 0 <= m < |r1| && r1[m] == b;
    assert m > 0 ==> Precedes(xs, a, b);
    assert k > 0 ==> Precedes(xs, b, a);
  }

  lemma {:induction false} RankedTail(xs: seq<Row>, r: seq<Row>)
    requires Ranked(xs, r) && |r| > 0
    ensures Ranked(xs, r[1..])
  {
    forall i, j | 0 <= i < j < |r[1..]| ensures Precedes(xs, r[1..][i], r[1..][j]) {
      assert r[1..][i] == r[i + 1] && r[1..][j] == r[j + 1];
    }
  }

  /** `data[:50]`. */
  function Top(rs: seq<Row>): (r: seq<Row>)
    ensures |r| == Min(TopN, |rs|)
    ensures r == rs[..|r|]
  {
    rs[..Min(TopN, |rs|)]
  }

  /** Build the rows, sort them by idf descending (stably), keep the first 50. */
  function Rank(order: seq<string>, tf: map<string, nat>, df: map<string, nat>, total: nat): (r: seq<Row>)
    ensures |r| == Min(TopN, |order|)
    ensures Descending(r)
    ensures multiset(r) <= multiset(BuildRows(order, tf, df, total))
  {
    var rows := BuildRows(order, tf, df, total);
    SortLength(rows);
    TopKeeps(SortByRatio(rows));
    Top(SortByRatio(rows))
  }

  /** Sorting keeps the number of rows. */
  lemma {:induction false} SortLength(xs: seq<Row>)
    ensures |SortByRatio(xs)| == |xs|
  {
    assert |SortByRatio(xs)| == |multiset(SortByRatio(xs))| == |multiset(xs)|;
  }

  /** The first rows of a descending list are descending and are some of its rows. */
  lemma {:induction false} TopKeeps(s: seq<Row>)
    requires Descending(s)
    ensures Descending(Top(s))
    ensures multiset(Top(s)) <= multiset(s)
  {
    var r := Top(s);
    assert s == r + s[|r|..];
    assert multiset(s) == multiset(r) + multiset(s[|r|..]);
  }
}
