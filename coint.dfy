/** All-pairs cointegration screening (src/coint.py). */
module Coint {

  /** The default significance level of find_cointegrated_pairs. */
  const DefaultSignificance: real := 0.2

  /** One accepted pair: the column positions (first < second), the two ticker names and the
      stored p-value `round(pval, 4)`. */
  datatype Candidate = Candidate(first: nat, second: nat, tickerA: string, tickerB: string, pValue: real)

  /** The price matrix: one column of prices per ticker. */
  datatype Market = Market(tickers: seq<string>, prices: seq<seq<real>>) {
    predicate WellFormed() {
      |tickers| == |prices|
    }
  }

  /** The oracles the screen calls: the Engle-Granger p-value of two series, and `round(., 4)`. */
  datatype Tests = Tests(pValue: (seq<real>, seq<real>) -> real, round4: real -> real)

  function RawPValue(m: Market, t: Tests, i: nat, j: nat): real
    requires m.WellFormed() && i < |m.tickers| && j < |m.tickers|
  {
    t.pValue(m.prices[i], m.prices[j])
  }

  function CandidateFor(m: Market, t: Tests, i: nat, j: nat): Candidate
    requires m.WellFormed() && i < |m.tickers| && j < |m.tickers|
  {
    Candidate(i, j, m.tickers[i], m.tickers[j], t.round4(RawPValue(m, t, i, j)))
  }

  /** The accepted pairs (i, i+1), ..., (i, j-1), in combinations order. */
  function RowPairs(m: Market, t: Tests, significance: real, i: nat, j: nat): seq<Candidate>
    requires m.WellFormed() && i < |m.tickers| && j <= |m.tickers|
  {
    if j <= i + 1 then []
    else
      RowPairs(m, t, significance, i, j - 1)
      + (if RawPValue(m, t, i, j - 1) < significance then [CandidateFor(m, t, i, j - 1)] else [])
  }

  /** The accepted pairs whose first column is below i, in combinations order. */
  function PairsBefore(m: Market, t: Tests, significance: real, i: nat): seq<Candidate>
    requires m.WellFormed() && i <= |m.tickers|
  {
    if i == 0 then []
    else PairsBefore(m, t, significance, i - 1) + RowPairs(m, t, significance, i - 1, |m.tickers|)
  }

  /** The list built by the loop: a pair is in it exactly when its unrounded p-value is below
      the significance level. */
  function Screened(m: Market, t: Tests, significance: real): (r: seq<Candidate>)
    requires m.WellFormed()
    ensures forall c :: c in r ==> IsAccepted(m, t, significance, c)
    ensures forall p: nat, q: nat :: p < q < |m.tickers| && RawPValue(m, t, p, q) < significance ==>
              CandidateFor(m, t, p, q) in r
  {
    PairsBeforeAccepted(m, t, significance, |m.tickers|);
    PairsBeforeComplete(m, t, significance, |m.tickers|);
    PairsBefore(m, t, significance, |m.tickers|)
  }

  /** What a candidate of this screen is: columns first < second, their names, an unrounded
      p-value below the threshold, and the rounded p-value stored. */
  predicate IsAccepted(m: Market, t: Tests, significance: real, c: Candidate)
    requires m.WellFormed()
  {
    && c.first < c.second < |m.tickers|
    && RawPValue(m, t, c.first, c.second) < significance
    && c == CandidateFor(m, t, c.first, c.second)
  }

  predicate NoDuplicates(s: seq<Candidate>) {
    forall a, b :: 0 <= a < b < |s| ==> s[a] != s[b]
  }

  predicate SortedByPValue(s: seq<Candidate>) {
    forall a, b :: 0 <= a < b < |s| ==> s[a].pValue <= s[b].pValue
  }

  /** The entries that carry the stored p-value `key`, in their order. */
  function WithPValue(s: seq<Candidate>, key: real): seq<Candidate> {
    if |s| == 0 then []
    else (if s[0].pValue == key then [s[0]] else []) + WithPValue(s[1..], key)
  }

  // ---------------------------------------------------------------------------------------
  // The stable ascending sort `list.sort(key=lambda x: x[2])`, as an insertion sort.

  /** Inserts c in front of the first entry whose key is not below c's. */
  function Insert(c: Candidate, s: seq<Candidate>): seq<Candidate> {
    if |s| == 0 then [c]
    else if c.pValue <= s[0].pValue then [c] + s
    else [s[0]] + Insert(c, s[1..])
  }

  lemma {:induction false} InsertPermutes(c: Candidate, s: seq<Candidate>)
    ensures multiset(Insert(c, s)) == multiset(s) + multiset{c}
  {
    if |s| > 0 && c.pValue > s[0].pValue {
      InsertPermutes(c, s[1..]);
      assert s == [s[0]] + s[1..];
    }
  }

  /** The sort: ascending by stored p-value, and a permutation of its input. */
  function SortByPValue(s: seq<Candidate>): (r: seq<Candidate>)
    ensures SortedByPValue(r)
    ensures multiset(r) == multiset(s)
  {
    if |s| == 0 then []
    else
      var rest := SortByPValue(s[1..]);
      SortStep(s, rest);
      Insert(s[0], rest)
  }

  /** Inserting the head into a sorted permutation of the tail gives a sorted permutation. */
  lemma SortStep(s: seq<Candidate>, rest: seq<Candidate>)
    requires |s| > 0 && SortedByPValue(rest) && multiset(rest) == multiset(s[1..])
    ensures SortedByPValue(Insert(s[0], rest))
    ensures multiset(Insert(s[0], rest)) == multiset(s)
  {
    InsertSorted(s[0], rest);
    InsertPermutes(s[0], rest);
    assert s == [s[0]] + s[1..];
  }

  /** Inserting into a list bounded below by lo, an entry also at least lo, keeps the bound. */
  lemma {:induction false} InsertKeepsLowerBound(c: Candidate, s: seq<Candidate>, lo: real)
    requires lo <= c.pValue
    requires forall k :: 0 <= k < |s| ==> lo <= s[k].pValue
    ensures forall k :: 0 <= k < |Insert(c, s)| ==> lo <= Insert(c, s)[k].pValue
  {
    if |s| > 0 && c.pValue > s[0].pValue {
      InsertKeepsLowerBound(c, s[1..], lo);
      var r := Insert(c, s[1..]);
      assert Insert(c, s) == [s[0]] + r;
      forall k | 0 <= k < |Insert(c, s)|
        ensures lo <= Insert(c, s)[k].pValue
      {
        if k > 0 {
          assert Insert(c, s)[k] == r[k - 1];
        }
      }
    }
  }

  lemma {:induction false} InsertSorted(c: Candidate, s: seq<Candidate>)
    requires SortedByPValue(s)
    ensures SortedByPValue(Insert(c, s))
  {
    if |s| == 0 {
    } else if c.pValue <= s[0].pValue {
      var out := [c] + s;
      forall a, b | 0 <= a < b < |out|
        ensures out[a].pValue <= out[b].pValue
      {
        assert out[b] == s[b - 1];
        if a > 0 {
          assert out[a] == s[a - 1];
        } else if b > 1 {
          assert s[0].pValue <= s[b - 1].pValue;
        }
      }
    } else {
      InsertSorted(c, s[1..]);
      forall k | 0 <= k < |s[1..]|
        ensures s[0].pValue <= s[1..][k].pValue
      {
        assert s[1..][k] == s[k + 1];
      }
      InsertKeepsLowerBound(c, s[1..], s[0].pValue);
      var r := Insert(c, s[1..]);
      var out := [s[0]] + r;
      forall a, b | 0 <= a < b < |out|
        ensures out[a].pValue <= out[b].pValue
      {
        assert out[b] == r[b - 1];
        if a > 0 {
          assert out[a] == r[a - 1];
        }
      }
      assert Insert(c, s) == out;
    }
  }

  lemma {:induction false} InsertStable(c: Candidate, s: seq<Candidate>, key: real)
    ensures WithPValue(Insert(c, s), key) == WithPValue([c] + s, key)
  {
    if |s| == 0 {
    } else if c.pValue <= s[0].pValue {
    } else {
      InsertStable(c, s[1..], key);
      assert ([c] + s)[1..] == s;
      assert ([s[0]] + Insert(c, s[1..]))[1..] == Insert(c, s[1..]);
      assert ([c] + s[1..])[1..] == s[1..];
    }
  }

  lemma {:induction false} InsertKeepsDistinct(c: Candidate, s: seq<Candidate>)
    requires NoDuplicates(s) && c !in s
    ensures NoDuplicates(Insert(c, s))
  {
    if |s| > 0 && c.pValue > s[0].pValue {
      InsertKeepsDistinct(c, s[1..]);
      InsertPermutes(c, s[1..]);
      var r := Insert(c, s[1..]);
      assert s[0] !in multiset(r);
    }
  }

  /** Stability: for every key, the entries carrying it keep their original order. */
  lemma {:induction false} SortStable(s: seq<Candidate>, key: real)
    ensures WithPValue(SortByPValue(s), key) == WithPValue(s, key)
  {
    if |s| > 0 {
      SortStable(s[1..], key);
      InsertStable(s[0], SortByPValue(s[1..]), key);
      assert ([s[0]] + SortByPValue(s[1..]))[1..] == SortByPValue(s[1..]);
    }
  }

  lemma {:induction false} SortKeepsDistinct(s: seq<Candidate>)
    requires NoDuplicates(s)
    ensures NoDuplicates(SortByPValue(s))
  {
    if |s| > 0 {
      assert NoDuplicates(s[1..]);
      SortKeepsDistinct(s[1..]);
      assert s[0] !in multiset(s[1..]);
      InsertKeepsDistinct(s[0], SortByPValue(s[1..]));
    }
  }

  // ---------------------------------------------------------------------------------------
  // What the filter keeps.

  lemma {:induction false} RowPairsAccepted(m: Market, t: Tests, significance: real, i: nat, j: nat)
    requires m.WellFormed() && i < |m.tickers| && j <= |m.tickers|
    ensures forall c :: c in RowPairs(m, t, significance, i, j) ==>
              IsAccepted(m, t, significance, c) && c.first == i && c.second < j
  {
    if j > i + 1 {
      RowPairsAccepted(m, t, significance, i, j - 1);
    }
  }

  lemma {:induction false} RowPairsComplete(m: Market, t: Tests, significance: real, i: nat, j: nat)
    requires m.WellFormed() && i < |m.tickers| && j <= |m.tickers|
    ensures forall q: nat :: i < q < j && RawPValue(m, t, i, q) < significance ==>
              CandidateFor(m, t, i, q) in RowPairs(m, t, significance, i, j)
  {
    if j > i + 1 {
      RowPairsComplete(m, t, significance, i, j - 1);
    }
  }

  /** Every pair of row i below column j has first column i and second column in (i, j). */
  lemma {:induction false} RowPairsColumns(m: Market, t: Tests, significance: real, i: nat, j: nat)
    requires m.WellFormed() && i < |m.tickers| && j <= |m.tickers|
    ensures forall c :: c in RowPairs(m, t, significance, i, j) ==> c.first == i && i < c.second < j
  {
    if j > i + 1 {
      RowPairsColumns(m, t, significance, i, j - 1);
    }
  }

  lemma {:induction false} RowPairsDistinct(m: Market, t: Tests, significance: real, i: nat, j: nat)
    requires m.WellFormed() && i < |m.tickers| && j <= |m.tickers|
    ensures NoDuplicates(RowPairs(m, t, significance, i, j))
  {
    if j > i + 1 {
      RowPairsDistinct(m, t, significance, i, j - 1);
      RowPairsColumns(m, t, significance, i, j - 1);
      var a := RowPairs(m, t, significance, i, j - 1);
      var b := if RawPValue(m, t, i, j - 1) < significance then [CandidateFor(m, t, i, j - 1)] else [];
      forall x, y | x in a && y in b
        ensures x != y
      {
        assert x.second < j - 1 == y.second;
      }
      ConcatDistinct(a, b);
    }
  }

  lemma {:induction false} RowPairsLength(m: Market, t: Tests, significance: real, i: nat, j: nat)
    requires m.WellFormed() && i < |m.tickers| && i < j <= |m.tickers|
    ensures |RowPairs(m, t, significance, i, j)| <= j - i - 1
  {
    if j > i + 1 {
      RowPairsLength(m, t, significance, i, j - 1);
    }
  }

  lemma {:induction false} PairsBeforeAccepted(m: Market, t: Tests, significance: real, i: nat)
    requires m.WellFormed() && i <= |m.tickers|
    ensures forall c :: c in PairsBefore(m, t, significance, i) ==>
              IsAccepted(m, t, significance, c) && c.first < i
  {
    if i > 0 {
      PairsBeforeAccepted(m, t, significance, i - 1);
      RowPairsAccepted(m, t, significance, i - 1, |m.tickers|);
    }
  }

  lemma {:induction false} PairsBeforeComplete(m: Market, t: Tests, significance: real, i: nat)
    requires m.WellFormed() && i <= |m.tickers|
    ensures forall p: nat, q: nat :: p < i && p < q < |m.tickers| && RawPValue(m, t, p, q) < significance ==>
              CandidateFor(m, t, p, q) in PairsBefore(m, t, significance, i)
  {
    if i > 0 {
      PairsBeforeComplete(m, t, significance, i - 1);
      RowPairsComplete(m, t, significance, i - 1, |m.tickers|);
    }
  }

  /** Every pair screened before row i has its first column below i. */
  lemma {:induction false} PairsBeforeColumns(m: Market, t: Tests, significance: real, i: nat)
    requires m.WellFormed() && i <= |m.tickers|
    ensures forall c :: c in PairsBefore(m, t, significance, i) ==> c.first < i
  {
    if i > 0 {
      PairsBeforeColumns(m, t, significance, i - 1);
      RowPairsColumns(m, t, significance, i - 1, |m.tickers|);
    }
  }

  lemma {:induction false} PairsBeforeDistinct(m: Market, t: Tests, significance: real, i: nat)
    requires m.WellFormed() && i <= |m.tickers|
    ensures NoDuplicates(PairsBefore(m, t, significance, i))
  {
    if i > 0 {
      var a := PairsBefore(m, t, significance, i - 1);
      var b := RowPairs(m, t, significance, i - 1, |m.tickers|);
      PairsBeforeDistinct(m, t, significance, i - 1);
      RowPairsDistinct(m, t, significance, i - 1, |m.tickers|);
      PairsBeforeColumns(m, t, significance, i - 1);
      RowPairsColumns(m, t, significance, i - 1, |m.tickers|);
      RowsApartDistinct(a, b, i - 1);
      assert PairsBefore(m, t, significance, i) == a + b;
    }
  }

  /** Pairs of earlier rows and pairs of row r never coincide: their first columns differ. */
  lemma RowsApartDistinct(a: seq<Candidate>, b: seq<Candidate>, r: nat)
    requires NoDuplicates(a) && NoDuplicates(b)
    requires forall x :: x in a ==> x.first < r
    requires forall y :: y in b ==> y.first == r
    ensures NoDuplicates(a + b)
  {
    forall x, y | x in a && y in b
      ensures x != y
    {
      assert x.first < r == y.first;
    }
    ConcatDistinct(a, b);
  }

  lemma ConcatDistinct(a: seq<Candidate>, b: seq<Candidate>)
    requires NoDuplicates(a) && NoDuplicates(b)
    requires forall x, y :: x in a && y in b ==> x != y
    ensures NoDuplicates(a + b)
  {
    forall x, y | 0 <= x < y < |a + b|
      ensures (a + b)[x] != (a + b)[y]
    {
      if y < |a| {
        assert (a + b)[x] == a[x] && (a + b)[y] == a[y];
      } else if x >= |a| {
        assert (a + b)[x] == b[x - |a|] && (a + b)[y] == b[y - |a|];
      } else {
        assert (a + b)[x] == a[x] && (a + b)[y] == b[y - |a|];
        assert a[x] in a && b[y - |a|] in b;
      }
    }
  }

  lemma {:induction false} PairsBeforeLength(m: Market, t: Tests, significance: real, i: nat)
    requires m.WellFormed() && i <= |m.tickers|
    ensures 2 * |PairsBefore(m, t, significance, i)| <= i * (2 * |m.tickers| - i - 1)
  {
    if i > 0 {
      var k := |m.tickers|;
      PairsBeforeLength(m, t, significance, i - 1);
      RowPairsLength(m, t, significance, i - 1, k);
      var earlier := |PairsBefore(m, t, significance, i - 1)|;
      var row := |RowPairs(m, t, significance, i - 1, k)|;
      assert |PairsBefore(m, t, significance, i)| == earlier + row;
      PairCountStep(i, k, earlier, row);
    }
  }

  /** Row i - 1 adds at most k - i pairs to the at most (i - 1)(2k - i) / 2 before it. */
  lemma PairCountStep(i: nat, k: nat, earlier: nat, row: nat)
    requires 0 < i <= k
    requires 2 * earlier <= (i - 1) * (2 * k - (i - 1) - 1) && row <= k - i
    ensures 2 * (earlier + row) <= i * (2 * k - i - 1)
  {
    assert (i - 1) * (2 * k - (i - 1) - 1) + 2 * (k - i) == i * (2 * k - i - 1);
  }

  /** The screen's list, before sorting: each pair appears once, so there are at most k(k-1)/2
      entries. */
  lemma ScreenedFacts(m: Market, t: Tests, significance: real)
    requires m.WellFormed()
    ensures NoDuplicates(Screened(m, t, significance))
    ensures 2 * |Screened(m, t, significance)| <= |m.tickers| * (|m.tickers| - 1)
  {
    PairsBeforeDistinct(m, t, significance, |m.tickers|);
    PairsBeforeLength(m, t, significance, |m.tickers|);
  }

  /** What the sorted output inherits from the screened list. */
  lemma ScreenedOutputFacts(m: Market, t: Tests, significance: real)
    requires m.WellFormed()
    ensures SortedByPValue(SortByPValue(Screened(m, t, significance)))
    ensures multiset(SortByPValue(Screened(m, t, significance))) == multiset(Screened(m, t, significance))
    ensures forall c :: c in SortByPValue(Screened(m, t, significance)) ==> IsAccepted(m, t, significance, c)
    ensures forall p: nat, q: nat :: p < q < |m.tickers| && RawPValue(m, t, p, q) < significance ==>
              CandidateFor(m, t, p, q) in SortByPValue(Screened(m, t, significance))
    ensures forall a, b :: 0 <= a < b < |SortByPValue(Screened(m, t, significance))| ==>
              var pairs := SortByPValue(Screened(m, t, significance));
              (pairs[a].first, pairs[a].second) != (pairs[b].first, pairs[b].second)
    ensures 2 * |SortByPValue(Screened(m, t, significance))| <= |m.tickers| * (|m.tickers| - 1)
  {
    var found := Screened(m, t, significance);
    var pairs := SortByPValue(found);
    ScreenedFacts(m, t, significance);
    SortKeepsDistinct(found);
    forall c | c in pairs
      ensures IsAccepted(m, t, significance, c)
    {
      assert c in multiset(found);
    }
    forall p: nat, q: nat | p < q < |m.tickers| && RawPValue(m, t, p, q) < significance
      ensures CandidateFor(m, t, p, q) in pairs
    {
      assert CandidateFor(m, t, p, q) in multiset(pairs);
    }
    forall a, b | 0 <= a < b < |pairs|
      ensures (pairs[a].first, pairs[a].second) != (pairs[b].first, pairs[b].second)
    {
      assert pairs[a] in pairs && pairs[b] in pairs;
    }
    assert |pairs| == |multiset(pairs)| == |found|;
  }

  /** find_cointegrated_pairs: the loop over `itertools.combinations` appends each accepted
      pair, then the list is stable-sorted ascending by its stored p-value. */
  method FindCointegratedPairs(m: Market, t: Tests, significance: real) returns (pairs: seq<Candidate>)
    requires m.WellFormed()
    ensures pairs == SortByPValue(Screened(m, t, significance))
    ensures SortedByPValue(pairs)
    ensures multiset(pairs) == multiset(Screened(m, t, significance))
    ensures forall c :: c in pairs ==> IsAccepted(m, t, significance, c)
    ensures forall p: nat, q: nat :: p < q < |m.tickers| && RawPValue(m, t, p, q) < significance ==>
              CandidateFor(m, t, p, q) in pairs
    ensures forall a, b :: 0 <= a < b < |pairs| ==>
              (pairs[a].first, pairs[a].second) != (pairs[b].first, pairs[b].second)
    ensures 2 * |pairs| <= |m.tickers| * (|m.tickers| - 1)
  {
    var found := TestAllPairs(m, t, significance);
    pairs := SortByPValue(found);
    ScreenedOutputFacts(m, t, significance);
  }

  /** The loop of find_cointegrated_pairs over `itertools.combinations(tickers, 2)`: it
      appends, in combinations order, every pair whose p-value is below the level. */
  method TestAllPairs(m: Market, t: Tests, significance: real) returns (found: seq<Candidate>)
    requires m.WellFormed()
    ensures found == PairsBefore(m, t, significance, |m.tickers|)
  {
    var k := |m.tickers|;
    found := [];
    var i := 0;
    while i < k
      invariant 0 <= i <= k
      invariant found == PairsBefore(m, t, significance, i)
    {
      var j := i + 1;
      while j < k
        invariant i + 1 <= j <= k
        invariant found == PairsBefore(m, t, significance, i) + RowPairs(m, t, significance, i, j)
      {
        var pval := t.pValue(m.prices[i], m.prices[j]);
        if pval < significance {
          found := found + [Candidate(i, j, m.tickers[i], m.tickers[j], t.round4(pval))];
        }
        j := j + 1;
      }
      i := i + 1;
    }
  }
}
