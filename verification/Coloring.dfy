/** Cache colours: bit masks, runs of set colours (include/jailhouse/coloring-common.h) and
    where a byte of a coloured region lies in physical memory. */
module Coloring {
  import opened Common

  /** A run of set colours, both ends included. */
  datatype Run = Run(first: nat, last: nat)

  /** Bit b of x. */
  predicate Bit(x: nat, b: nat)
    decreases b
  {
    if b == 0 then x % 2 == 1 else Bit(x / 2, b - 1)
  }

  /** The mask loop: colour c is the (max - 1 - c)-th bit. */
  method BuildMask(colors: nat, max: nat) returns (mask: array<bool>)
    ensures fresh(mask) && mask.Length == max
    ensures forall c | 0 <= c < max :: mask[c] <==> Bit(colors, max - 1 - c)
  {
    mask := new bool[max];
    var c, rest := max - 1, colors;
    while c >= 0
      invariant -1 <= c < max
      invariant forall b | 0 <= b <= c :: Bit(rest, b) <==> Bit(colors, max - 1 - c + b)
      invariant forall d | c < d < max :: mask[d] <==> Bit(colors, max - 1 - d)
    {
      mask[c] := rest % 2 == 1;
      assert Bit(rest, 0) <==> mask[c];
      assert forall b | 0 <= b < c :: Bit(rest / 2, b) <==> Bit(rest, b + 1);
      rest, c := rest / 2, c - 1;
    }
  }

  /** The set colours in increasing order, from colour k on. */
  function SetColors(mask: seq<bool>, k: nat): seq<nat>
    requires k <= |mask|
    decreases |mask| - k
  {
    if k == |mask| then [] else if mask[k] then [k] + SetColors(mask, k + 1) else SetColors(mask, k + 1)
  }

  lemma {:induction false} SetColorsAre(mask: seq<bool>, k: nat)
    requires k <= |mask|
    ensures forall c :: c in SetColors(mask, k) <==> k <= c < |mask| && mask[c]
    ensures forall i | 0 <= i < |SetColors(mask, k)| :: k <= SetColors(mask, k)[i] < |mask|
    ensures forall i, j | 0 <= i < j < |SetColors(mask, k)| :: SetColors(mask, k)[i] < SetColors(mask, k)[j]
    decreases |mask| - k
  {
    if k < |mask| {
      SetColorsAre(mask, k + 1);
    }
  }

  function Interval(a: nat, b: nat): (s: seq<nat>)
    requires a <= b
    ensures |s| == b - a && forall i | 0 <= i < |s| :: s[i] == a + i
  {
    seq(b - a, i requires 0 <= i => a + i)
  }

  /** The colours of a list of runs, in order. */
  function Expand(runs: seq<Run>): seq<nat>
    requires WellFormed(runs)
  {
    if runs == [] then []
    else Expand(runs[..|runs| - 1]) + Interval(runs[|runs| - 1].first, runs[|runs| - 1].last + 1)
  }

  ghost predicate WellFormed(runs: seq<Run>) {
    forall i | 0 <= i < |runs| :: runs[i].first <= runs[i].last
  }

  /** The runs are separated by unset colours, so none can be longer. */
  ghost predicate Maximal(mask: seq<bool>, runs: seq<Run>) {
    forall i | 0 <= i < |runs| ::
      && runs[i].first <= runs[i].last < |mask|
      && (runs[i].last + 1 < |mask| ==> !mask[runs[i].last + 1])
      && (runs[i].first > 0 ==> !mask[runs[i].first - 1])
  }

  /** values lists the runs as pairs and is -1 behind them. */
  ghost predicate Encodes(values: seq<int>, runs: seq<Run>) {
    && 2 * |runs| <= |values|
    && (forall a | 0 <= a < |runs| :: values[2 * a] == runs[a].first && values[2 * a + 1] == runs[a].last)
    && (forall p | 2 * |runs| <= p < |values| :: values[p] == -1)
  }

  /** Colours k .. j - 1 are set and j is not: a run and the rest. */
  lemma {:induction false} SetColorsRun(mask: seq<bool>, k: nat, j: nat)
    requires k <= j <= |mask| && (forall c | k <= c < j :: mask[c])
    ensures SetColors(mask, k) == Interval(k, j) + SetColors(mask, j)
    decreases j - k
  {
    if k < j {
      SetColorsRun(mask, k + 1, j);
      assert Interval(k, j) == [k] + Interval(k + 1, j);
      assert [k] + (Interval(k + 1, j) + SetColors(mask, j)) == ([k] + Interval(k + 1, j)) + SetColors(mask, j);
    } else {
      assert Interval(k, j) + SetColors(mask, j) == SetColors(mask, j);
    }
  }

  lemma ExpandOne(runs: seq<Run>, r: Run)
    requires WellFormed(runs) && r.first <= r.last
    ensures WellFormed(runs + [r]) && Expand(runs + [r]) == Expand(runs) + Interval(r.first, r.last + 1)
  {
    assert (runs + [r])[..|runs|] == runs;
  }

  lemma EncodesOne(values: seq<int>, runs: seq<Run>, r: Run)
    requires Encodes(values, runs) && 2 * |runs| + 1 < |values|
    ensures Encodes(values[2 * |runs| := r.first][2 * |runs| + 1 := r.last], runs + [r])
  {
  }

  lemma MaximalOne(mask: seq<bool>, runs: seq<Run>, k: nat, j: nat)
    requires Maximal(mask, runs) && k < j <= |mask| && (j < |mask| ==> !mask[j]) && (k > 0 ==> !mask[k - 1])
    ensures Maximal(mask, runs + [Run(k, j - 1)])
  {
  }

  /** The inner loop of ranges_in_mask.  When the run reaches the end, the code reads one element
      past the mask; `beyond` is what it finds there, and it makes no difference. */
  method RunEnd(mask: array<bool>, k: nat, beyond: bool) returns (j: nat)
    requires k < mask.Length && mask[k]
    ensures k < j <= mask.Length && (forall c | k <= c < j :: mask[c]) && (j < mask.Length ==> !mask[j])
  {
    j := k + 1;
    while (if j < mask.Length then mask[j] else beyond) && j < mask.Length
      invariant k < j <= mask.Length && forall c | k <= c < j :: mask[c]
    {
      j := j + 1;
    }
  }

  method Reset(values: array<int>)
    modifies values
    ensures Encodes(values[..], [])
  {
    var p := 0;
    while p < values.Length
      invariant 0 <= p <= values.Length && forall q | 0 <= q < p :: values[q] == -1
    {
      values[p] := -1;
      p := p + 1;
    }
  }

  method WriteRun(values: array<int>, current: nat, first: nat, last: nat, ghost runs: seq<Run>)
    requires current == 2 * |runs| && current + 1 < values.Length && Encodes(values[..], runs)
    modifies values
    ensures Encodes(values[..], runs + [Run(first, last)])
  {
    EncodesOne(values[..], runs, Run(first, last));
    values[current] := first;
    values[current + 1] := last;
    assert values[..] == old(values[..])[current := first][current + 1 := last];
  }

  /** ranges_in_mask: the maximal runs of set colours in increasing order, padded with -1. */
  method RangesInMask(mask: array<bool>, values: array<int>, beyond: bool) returns (ghost runs: seq<Run>)
    requires values.Length == 2 * mask.Length
    modifies values
    ensures WellFormed(runs) && Encodes(values[..], runs)
    ensures Expand(runs) == SetColors(mask[..], 0) && Maximal(mask[..], runs)
  {
    hide Expand, SetColors, Encodes, Maximal, WellFormed;
    Reset(values);
    var k, current := 0, 0;
    runs := [];
    ghost var m := mask[..];
    ExpandNothing(m);
    while k < mask.Length
      invariant 0 <= k <= mask.Length + 1 && current == 2 * |runs| <= k
      invariant WellFormed(runs) && Encodes(values[..], runs) && Maximal(m, runs)
      invariant Expand(runs) + SetColors(m, Min(k, |m|)) == SetColors(m, 0)
      invariant 0 < k <= mask.Length ==> !mask[k - 1]
    {
      if mask[k] {
        var j := RunEnd(mask, k, beyond);
        ghost var r := Run(k, j - 1);
        RunFound(m, runs, k, j);
        WriteRun(values, current, k, j - 1, runs);
        MaximalOne(m, runs, k, j);
        current := current + 2;
        runs := runs + [r];
        k := j;
      } else {
        SkipUnset(m, k);
      }
      k := k + 1;
    }
    ExpandAll(m, runs);
  }

  lemma ExpandNothing(m: seq<bool>)
    ensures Maximal(m, []) && WellFormed([]) && Expand([]) + SetColors(m, 0) == SetColors(m, 0)
  {
  }

  lemma ExpandAll(m: seq<bool>, runs: seq<Run>)
    requires WellFormed(runs)
    ensures Expand(runs) + SetColors(m, |m|) == Expand(runs)
  {
  }

  lemma SkipUnset(m: seq<bool>, k: nat)
    requires k < |m| && !m[k]
    ensures SetColors(m, k) == SetColors(m, k + 1)
  {
  }

  lemma RunFound(m: seq<bool>, runs: seq<Run>, k: nat, j: nat)
    requires WellFormed(runs) && k < j <= |m| && (forall c | k <= c < j :: m[c]) && (j < |m| ==> !m[j])
    requires Expand(runs) + SetColors(m, k) == SetColors(m, 0)
    ensures WellFormed(runs + [Run(k, j - 1)])
    ensures Expand(runs + [Run(k, j - 1)]) + SetColors(m, Min(j + 1, |m|)) == SetColors(m, 0)
  {
    SetColorsRun(m, k, j);
    ExpandOne(runs, Run(k, j - 1));
    if j < |m| {
      SkipUnset(m, j);
    }
    assert Expand(runs) + (Interval(k, j) + SetColors(m, j)) == Expand(runs) + Interval(k, j) + SetColors(m, j);
  }
}
