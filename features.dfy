/** Two of the per-pair features: the count of z-score sign flips and the mean-reversion
    half-life of the spread. */
module Features {
  import opened Options
  import opened Columns

  // ---------------------------------------------------------------------------------------
  // ZCrossings: `((zscore.shift(1) * zscore) < 0).sum()`.

  /** Row t is a crossing when the z-score there and on the row before are both defined and
      their product is negative (a NaN product compares false). */
  predicate CrossingAt(z: seq<Option<real>>, t: nat)
    requires 1 <= t < |z|
  {
    z[t - 1].Some? && z[t].Some? && z[t - 1].value * z[t].value < 0.0
  }

  /** The number of crossings among rows 1 .. k-1. */
  function CrossingsBefore(z: seq<Option<real>>, k: nat): (n: nat)
    requires k <= |z|
    ensures n <= if k == 0 then 0 else k - 1
  {
    if k <= 1 then 0
    else CrossingsBefore(z, k - 1) + (if CrossingAt(z, k - 1) then 1 else 0)
  }

  /** The ZCrossings feature. */
  function ZCrossings(z: seq<Option<real>>): (n: nat)
    ensures n <= if |z| == 0 then 0 else |z| - 1
  {
    CrossingsBefore(z, |z|)
  }

  /** A crossing is a strict sign flip: one side negative and the other positive. */
  lemma CrossingIsSignFlip(z: seq<Option<real>>, t: nat)
    requires 1 <= t < |z|
    ensures CrossingAt(z, t) <==>
      && z[t - 1].Some? && z[t].Some?
      && ((z[t - 1].value < 0.0 && z[t].value > 0.0) || (z[t - 1].value > 0.0 && z[t].value < 0.0))
  {
    if z[t - 1].Some? && z[t].Some? {
      ProductSign(z[t - 1].value, z[t].value);
    }
  }

  lemma ProductSign(a: real, b: real)
    ensures a * b < 0.0 <==> (a < 0.0 && b > 0.0) || (a > 0.0 && b < 0.0)
  {
    if a < 0.0 && b > 0.0 {
      assert (-a) * b > 0.0;
    } else if a > 0.0 && b < 0.0 {
      assert a * (-b) > 0.0;
    } else if a <= 0.0 && b <= 0.0 {
      assert (-a) * (-b) >= 0.0;
    } else {
      assert a >= 0.0 && b >= 0.0;
    }
  }

  /** A zero z-score touches the mean without crossing it. */
  lemma ZeroNeverCrosses(z: seq<Option<real>>, t: nat)
    requires 1 <= t < |z|
    requires z[t - 1] == Some(0.0) || z[t] == Some(0.0)
    ensures !CrossingAt(z, t)
  {
  }

  /** The set of crossing rows below k. */
  function CrossingRows(z: seq<Option<real>>, k: nat): set<nat>
    requires k <= |z|
  {
    set t: nat | 1 <= t < k && CrossingAt(z, t)
  }

  /** The count is the number of rows where the sign flips. */
  lemma {:induction false} CrossingsBeforeCountsRows(z: seq<Option<real>>, k: nat)
    requires k <= |z|
    ensures CrossingsBefore(z, k) == |CrossingRows(z, k)|
  {
    if k <= 1 {
      assert CrossingRows(z, k) == {};
    } else {
      CrossingsBeforeCountsRows(z, k - 1);
      if CrossingAt(z, k - 1) {
        assert CrossingRows(z, k) == CrossingRows(z, k - 1) + {k - 1};
      } else {
        assert CrossingRows(z, k) == CrossingRows(z, k - 1);
      }
    }
  }

  lemma ZCrossingsCountsRows(z: seq<Option<real>>)
    ensures ZCrossings(z) == |CrossingRows(z, |z|)|
  {
    CrossingsBeforeCountsRows(z, |z|);
  }

  /** A z-score that never goes below zero never crosses. */
  lemma {:induction false} NoCrossingsWhenNonNegative(z: seq<Option<real>>, k: nat)
    requires k <= |z|
    requires forall t :: 0 <= t < |z| && z[t].Some? ==> z[t].value >= 0.0
    ensures CrossingsBefore(z, k) == 0
  {
    if k > 1 {
      NoCrossingsWhenNonNegative(z, k - 1);
      CrossingIsSignFlip(z, k - 1);
    }
  }

  // ---------------------------------------------------------------------------------------
  // estimate_half_life.

  /** `np.log(2)` as a double. */
  const Ln2: real := 0.6931471805599453

  /** `Series.shift(1)`: every value moves one row down and the first row becomes NaN. */
  function ShiftDown(s: seq<real>): (r: seq<Option<real>>)
    ensures |r| == |s|
    ensures |s| > 0 ==> r[0] == None
    ensures forall i :: 1 <= i < |s| ==> r[i] == Some(s[i - 1])
  {
    if |s| == 0 then [] else [None] + AllDefined(s[..|s| - 1])
  }

  /** `spread - lagged`, aligned on the labels of a spread whose labels are distinct: the
      first row has no lagged partner and is NaN. */
  function Difference(s: seq<real>, shifted: seq<Option<real>>): (d: seq<Option<real>>)
    requires |shifted| == |s|
    ensures |d| == |s|
    ensures forall i :: 0 <= i < |s| ==> (d[i].Some? <==> shifted[i].Some?)
    ensures forall i :: 0 <= i < |s| && d[i].Some? ==> d[i].value + shifted[i].value == s[i]
  {
    seq(|s|, i requires 0 <= i < |s| => if shifted[i].Some? then Some(s[i] - shifted[i].value) else None)
  }

  /** `lagged = spread.shift(1).dropna()` of a series with no NaN: every value but the last. */
  function Lagged(s: seq<real>): (r: seq<real>)
    ensures |s| >= 1 ==> r == s[..|s| - 1]
    ensures |s| == 0 ==> r == []
  {
    if |s| == 0 then Defined(ShiftDown(s))
    else
      ShiftDownCells(s);
      DefinedSkipsLeadingNaN(AllDefined(s[..|s| - 1]));
      DefinedAllDefined(s[..|s| - 1]);
      Defined(ShiftDown(s))
  }

  /** `delta = (spread - lagged).dropna()` of a series with no NaN: the successive changes. */
  function Increments(s: seq<real>): (r: seq<real>)
    ensures |s| >= 1 ==> r == Changes(s)
    ensures |s| == 0 ==> r == []
  {
    if |s| == 0 then Defined(Difference(s, ShiftDown(s)))
    else
      DifferenceCells(s);
      DefinedSkipsLeadingNaN(AllDefined(Changes(s)));
      DefinedAllDefined(Changes(s));
      Defined(Difference(s, ShiftDown(s)))
  }

  /** The successive changes s[i+1] - s[i]. */
  function Changes(s: seq<real>): (d: seq<real>)
    requires |s| >= 1
    ensures |d| == |s| - 1
    ensures forall i :: 0 <= i < |s| - 1 ==> s[i] + d[i] == s[i + 1]
  {
    seq(|s| - 1, i requires 0 <= i < |s| - 1 => s[i + 1] - s[i])
  }

  /** The shifted series is a NaN followed by every value but the last ... */
  lemma ShiftDownCells(s: seq<real>)
    requires |s| >= 1
    ensures ShiftDown(s) == [None] + AllDefined(s[..|s| - 1])
  {
  }

  /** ... and the difference a NaN followed by the successive changes. */
  lemma DifferenceCells(s: seq<real>)
    requires |s| >= 1
    ensures Difference(s, ShiftDown(s)) == [None] + AllDefined(Changes(s))
  {
    var d := Difference(s, ShiftDown(s));
    var e := [None] + AllDefined(Changes(s));
    forall i | 0 <= i < |s|
      ensures d[i] == e[i]
    {
      if i > 0 {
        assert ShiftDown(s)[i] == Some(s[i - 1]);
        assert d[i] == Some(s[i] - s[i - 1]);
        assert e[i] == AllDefined(Changes(s))[i - 1] == Some(Changes(s)[i - 1]);
      }
    }
  }

  /** The slope `np.polyfit(lagged, delta, 1)[0]` of the fitted regression, for a given fit:
      the regression of each change on the value it starts from. */
  function FittedSlope(spread: seq<Option<real>>, polyfitSlope: (seq<real>, seq<real>) -> real): (beta: real)
    ensures |Defined(spread)| >= 1 ==>
              beta == polyfitSlope(Defined(spread)[..|Defined(spread)| - 1], Changes(Defined(spread)))
  {
    polyfitSlope(Lagged(Defined(spread)), Increments(Defined(spread)))
  }

  /** The last two guards of estimate_half_life on the fitted slope: NaN for a slope >= 0,
      otherwise -ln 2 / slope, a positive h with h * slope == -ln 2. */
  function HalfLifeOfSlope(beta: real): (h: Option<real>)
    ensures h.Some? <==> beta < 0.0
    ensures h.Some? ==> h.value > 0.0 && h.value * beta == -Ln2
  {
    if beta >= 0.0 then None
    else if beta != 0.0 then Some(-Ln2 / beta)
    else None
  }

  /** estimate_half_life, its guards in source order; NaN is None. */
  function HalfLife(spread: seq<Option<real>>, polyfitSlope: (seq<real>, seq<real>) -> real): (h: Option<real>)
    ensures |Defined(spread)| < 2 ==> h == None
    ensures |Defined(spread)| >= 2 ==> (h.Some? <==> FittedSlope(spread, polyfitSlope) < 0.0)
    ensures h.Some? ==> h.value > 0.0 && h.value * FittedSlope(spread, polyfitSlope) == -Ln2
  {
    var s := Defined(spread);
    if |s| < 2 then None
    else
      var lagged := Lagged(s);
      var delta := Increments(s);
      if |lagged| != |delta| then None
      else HalfLifeOfSlope(polyfitSlope(lagged, delta))
  }

  /** Without the two guards that can never fire, the half-life is -ln 2 / slope for a
      negative slope and NaN otherwise. */
  lemma HalfLifeReference(spread: seq<Option<real>>, polyfitSlope: (seq<real>, seq<real>) -> real)
    ensures var slope := FittedSlope(spread, polyfitSlope);
      HalfLife(spread, polyfitSlope) ==
        if |Defined(spread)| >= 2 && slope < 0.0 then Some(-Ln2 / slope) else None
  {
  }
}
