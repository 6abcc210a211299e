/**
 The read-only view of a GIMP histogram that the equalize operation consumes.

 The histogram structure itself lives elsewhere; this module keeps only what
 the table builder reads from it: the number of channels it reports, the 256
 VALUE-channel bins (summed by the count query) and, for k = 0, 1, 2, the 256
 bins returned by the per-channel bin query. Counts are exact reals.
 */
module Histograms {

  /** Number of bins per channel. */
  const BinCount: nat := 256

  /** `value[i]` is bin i of the VALUE channel; `channels[k][i]` is what the
      per-channel query returns for channel index k and bin i. */
  datatype Histogram = Histogram(nChannels: nat, value: seq<real>, channels: seq<seq<real>>)
  {
    /** The fixed shape the builder indexes: 256 VALUE bins and three rows of 256 bins. */
    predicate Shaped() {
      && |value| == BinCount
      && |channels| == 3
      && forall k :: 0 <= k < 3 ==> |channels[k]| == BinCount
    }

    /** Every bin count is non-negative, as counts of pixels are. */
    predicate NonNegative() {
      && (forall i :: 0 <= i < |value| ==> value[i] >= 0.0)
      && (forall k, i :: 0 <= k < |channels| && 0 <= i < |channels[k]| ==> channels[k][i] >= 0.0)
    }
  }

  /** Sum of the first n entries of a row of bins; over non-negative counts the
      sum is non-negative. */
  function Prefix(row: seq<real>, n: nat): (sum: real)
    requires n <= |row|
    ensures NonNegativeRow(row) ==> 0.0 <= sum
    decreases n
  {
    if n == 0 then 0.0 else Prefix(row, n - 1) + row[n - 1]
  }

  /** The count query over bins 0..255 of the VALUE channel: the divisor of every table entry. */
  function Pixels(h: Histogram): (count: real)
    requires h.Shaped()
    ensures h.NonNegative() ==> 0.0 <= count
  {
    Prefix(h.value, BinCount)
  }

  predicate NonNegativeRow(row: seq<real>) {
    forall i :: 0 <= i < |row| ==> row[i] >= 0.0
  }

  /** With non-negative bins the running sum never decreases. */
  lemma {:induction false} PrefixMonotone(row: seq<real>, m: nat, n: nat)
    requires NonNegativeRow(row)
    requires m <= n <= |row|
    ensures 0.0 <= Prefix(row, m) <= Prefix(row, n)
    decreases n
  {
    if n == m {
      if m > 0 {
        PrefixMonotone(row, m - 1, m - 1);
      }
    } else {
      PrefixMonotone(row, m, n - 1);
    }
  }

  /** A row whose only non-zero bin is bin `b`, holding `c`. */
  function Spike(b: nat, c: real): (row: seq<real>)
    requires b < BinCount
    ensures |row| == BinCount
  {
    seq(BinCount, i => if i == b then c else 0.0)
  }

  /** The running sum of a spike is zero before its bin and `c` from it on. */
  lemma {:induction false} PrefixSpike(b: nat, c: real, n: nat)
    requires b < BinCount
    requires n <= BinCount
    ensures Prefix(Spike(b, c), n) == if n > b then c else 0.0
    decreases n
  {
    if n > 0 {
      PrefixSpike(b, c, n - 1);
    }
  }
}
