/** Labelled series and the pandas column operations the strategy relies on. */
module Columns {
  import opened Options

  /** A pandas Series: an index of labels (timestamps) and one value per stamp. */
  datatype Series = Series(index: seq<int>, values: seq<real>) {
    predicate WellFormed() {
      |index| == |values|
    }
  }

  predicate UniqueLabels(index: seq<int>) {
    forall p, q :: 0 <= p < q < |index| ==> index[p] != index[q]
  }

  /** pandas `dropna`: the defined values, in order. */
  function Defined(col: seq<Option<real>>): (s: seq<real>)
    ensures |s| <= |col|
  {
    if |col| == 0 then []
    else Defined(col[..|col| - 1]) + (if col[|col| - 1].Some? then [col[|col| - 1].value] else [])
  }

  /** A column with every cell defined. */
  function AllDefined(a: seq<real>): (col: seq<Option<real>>)
    ensures |col| == |a|
    ensures forall i :: 0 <= i < |a| ==> col[i] == Some(a[i])
  {
    seq(|a|, i requires 0 <= i < |a| => Some(a[i]))
  }

  /** dropna on a column with no NaN gives back its values. */
  lemma {:induction false} DefinedAllDefined(a: seq<real>)
    ensures Defined(AllDefined(a)) == a
  {
    if |a| > 0 {
      assert AllDefined(a)[..|a| - 1] == AllDefined(a[..|a| - 1]);
      DefinedAllDefined(a[..|a| - 1]);
      assert a[..|a| - 1] + [a[|a| - 1]] == a;
    }
  }

  /** dropna discards a leading NaN. */
  lemma {:induction false} DefinedSkipsLeadingNaN(col: seq<Option<real>>)
    ensures Defined([None] + col) == Defined(col)
  {
    if |col| > 0 {
      assert ([None] + col)[..|col|] == [None] + col[..|col| - 1];
      DefinedSkipsLeadingNaN(col[..|col| - 1]);
    }
  }

  /** Python's positional slice `s[-n:]`: the last n items, the whole sequence when it is
      shorter, and also the whole sequence when n is 0 (since `-0` is `0`). */
  function TakeLast<T>(s: seq<T>, n: nat): (r: seq<T>)
    ensures n == 0 || n >= |s| ==> r == s
    ensures 0 < n <= |s| ==> |r| == n && r == s[|s| - n..]
  {
    if n == 0 || n >= |s| then s else s[|s| - n..]
  }

  /** The first position holding a stamp, or |index| when there is none. */
  function Position(index: seq<int>, stamp: int): (p: nat)
    ensures p <= |index|
    ensures p < |index| ==> index[p] == stamp
    ensures forall q :: 0 <= q < p ==> index[q] != stamp
  {
    if |index| == 0 then 0
    else if index[0] == stamp then 0
    else 1 + Position(index[1..], stamp)
  }

  /** Label lookup `series.get(stamp)`: the value stored under a stamp, NaN when absent. */
  function Lookup(s: Series, stamp: int): (r: Option<real>)
    requires s.WellFormed()
    ensures r.Some? <==> stamp in s.index
    ensures r.Some? ==> exists p :: 0 <= p < |s.index| && s.index[p] == stamp && s.values[p] == r.value
  {
    var p := Position(s.index, stamp);
    if p < |s.index| then Some(s.values[p]) else None
  }

  /** On an index without duplicates a lookup finds exactly the value stored at the stamp's
      position, and finds nothing for a stamp that is absent. */
  lemma LookupUnique(s: Series, stamp: int)
    requires s.WellFormed() && UniqueLabels(s.index)
    ensures forall p :: 0 <= p < |s.index| && s.index[p] == stamp ==> Lookup(s, stamp) == Some(s.values[p])
    ensures stamp !in s.index ==> Lookup(s, stamp) == None
  {
  }
}
