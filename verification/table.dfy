/**
 The equalization lookup table of the GIMP equalize operation: three rows
 (red, green, blue) of 256 entries, each a running sum of one channel's bins
 divided by the VALUE-channel pixel count. The table is rebuilt whenever a
 non-null histogram is assigned to the operation.
 */
module EqualizeTable {
  import opened Histograms

  datatype Option<T> = None | Some(value: T)

  /** `part[k][i]` for k in 0..2 and i in 0..255. */
  type Table = seq<seq<real>>

  predicate IsTable(t: Table) {
    |t| == 3 && forall k :: 0 <= k < 3 ==> |t[k]| == BinCount
  }

  /** A histogram reporting one or two channels is treated as grayscale:
      row 0 is copied into rows 1 and 2. */
  predicate Grayscale(h: Histogram) {
    h.nChannels == 1 || h.nChannels == 2
  }

  /** What the builder divides by must be positive; the histogram setter does
      not guard the division. */
  predicate Buildable(h: Histogram) {
    h.Shaped() && Pixels(h) > 0.0
  }

  /** The bins that end up determining row k. */
  function SourceRow(h: Histogram, k: nat): seq<real>
    requires h.Shaped() && k < 3
  {
    if Grayscale(h) then h.channels[0] else h.channels[k]
  }

  /** Reference value of one entry: cumulative count up to bin i over the pixel count. */
  function Entry(h: Histogram, k: nat, i: nat): real
    requires Buildable(h) && k < 3 && i < BinCount
  {
    Prefix(SourceRow(h, k), i + 1) / Pixels(h)
  }

  /** The whole reference table. */
  function Equalized(h: Histogram): (t: Table)
    requires Buildable(h)
    ensures IsTable(t)
  {
    seq(3, k requires 0 <= k < 3 => seq(BinCount, i requires 0 <= i < BinCount => Entry(h, k, i)))
  }

  /** Entries already final while the builder is at channel k, bin i. */
  predicate Covered(r: nat, j: nat, k: nat, i: nat, gray: bool) {
    r < k || (r == k && j < i) || (gray && (k >= 1 || j < i))
  }

  /**
   The table construction of the histogram setter, loop for loop: a running
   sum per channel, one division per bin, and in the grayscale case a copy of
   row 0's fresh entry into rows 1 and 2 on every iteration (so the passes over
   k = 1 and k = 2 overwrite their entry and immediately restore it). The prior
   table contents are all overwritten.
   */
  method BuildTable(h: Histogram, prior: Table) returns (part: Table)
    requires Buildable(h)
    requires IsTable(prior)
    ensures IsTable(part)
    ensures part == Equalized(h)
    ensures !Grayscale(h) ==>
              forall k, i :: 0 <= k < 3 && 0 <= i < BinCount ==>
                part[k][i] == Prefix(h.channels[k], i + 1) / Pixels(h)
    ensures Grayscale(h) ==>
              && part[1] == part[0] && part[2] == part[0]
              && forall i :: 0 <= i < BinCount ==> part[0][i] == Prefix(h.channels[0], i + 1) / Pixels(h)
  {
    var pixels := Pixels(h);
    var max := if h.nChannels == 1 || h.nChannels == 2 then 1 else 3;
    part := prior;
    var k := 0;
    while k < 3
      invariant 0 <= k <= 3
      invariant IsTable(part)
      invariant forall r, j :: 0 <= r < 3 && 0 <= j < BinCount && Covered(r, j, k, 0, max == 1) ==>
                  part[r][j] == Entry(h, r, j)
    {
      var sum := 0.0;
      var i := 0;
      while i < BinCount
        invariant 0 <= i <= BinCount
        invariant IsTable(part)
        invariant sum == Prefix(h.channels[k], i)
        invariant forall r, j :: 0 <= r < 3 && 0 <= j < BinCount && Covered(r, j, k, i, max == 1) ==>
                    part[r][j] == Entry(h, r, j)
      {
        var histi := h.channels[k][i];
        sum := sum + histi;
        part := part[k := part[k][i := sum / pixels]];
        if max == 1 {
          part := part[1 := part[1][i := part[0][i]]];
          part := part[2 := part[2][i := part[0][i]]];
        }
        i := i + 1;
      }
      k := k + 1;
    }
    forall r | 0 <= r < 3
      ensures part[r] == Equalized(h)[r]
    {
      assert forall j :: 0 <= j < BinCount ==> part[r][j] == Equalized(h)[r][j];
    }
  }

  /** State of one equalize operation instance: the histogram it holds and its table. */
  datatype Equalizer = Equalizer(histogram: Option<Histogram>, part: Table)

  /**
   Assigning the histogram property: the new histogram (possibly none) is
   stored, and the table is recomputed only when it is present.
   */
  method SetHistogram(self: Equalizer, value: Option<Histogram>) returns (next: Equalizer)
    requires IsTable(self.part)
    requires value.Some? ==> Buildable(value.value)
    ensures next.histogram == value
    ensures IsTable(next.part)
    ensures value.None? ==> next.part == self.part
    ensures value.Some? ==> next.part == Equalized(value.value)
  {
    if value.Some? {
      var part := BuildTable(value.value, self.part);
      next := Equalizer(value, part);
    } else {
      next := Equalizer(value, self.part);
    }
  }

  /** Entries of a row never decrease from left to right. */
  predicate Monotone(row: seq<real>) {
    forall i, j :: 0 <= i <= j < |row| ==> row[i] <= row[j]
  }

  lemma DivideMonotone(a: real, b: real, p: real)
    requires 0.0 <= a <= b && p > 0.0
    ensures 0.0 <= a / p <= b / p
  {
    assert b / p - a / p == (b - a) / p;
  }

  lemma DivideIsOne(a: real, p: real)
    requires p > 0.0
    ensures a / p == 1.0 <==> a == p
  {
    if a / p == 1.0 {
      assert a == (a / p) * p;
    }
  }

  lemma DivideSelf(c: real)
    requires c > 0.0
    ensures c / c == 1.0
  {
  }

  /** With non-negative counts every row of the table is a non-decreasing
      cumulative distribution. */
  lemma RowMonotone(h: Histogram, k: nat)
    requires Buildable(h) && k < 3
    requires h.NonNegative()
    ensures Monotone(Equalized(h)[k])
  {
    var t := Equalized(h);
    var row := SourceRow(h, k);
    assert NonNegativeRow(row) by {
      assert row == h.channels[if Grayscale(h) then 0 else k];
    }
    forall i, j | 0 <= i <= j < BinCount
      ensures t[k][i] <= t[k][j]
    {
      PrefixMonotone(row, i + 1, j + 1);
      DivideMonotone(Prefix(row, i + 1), Prefix(row, j + 1), Pixels(h));
    }
  }

  /** The last entry of row k is the channel's total over the pixel count:
      it is 1 exactly when those totals agree. */
  lemma LastEntry(h: Histogram, k: nat)
    requires Buildable(h) && k < 3
    ensures Equalized(h)[k][BinCount - 1] == Prefix(SourceRow(h, k), BinCount) / Pixels(h)
    ensures Equalized(h)[k][BinCount - 1] == 1.0 <==> Prefix(SourceRow(h, k), BinCount) == Pixels(h)
  {
    var total := Prefix(SourceRow(h, k), BinCount);
    assert Equalized(h)[k][BinCount - 1] == Entry(h, k, BinCount - 1);
    DivideIsOne(total, Pixels(h));
  }

  /** Every entry of a row lies between 0 and the row's last entry. */
  lemma EntryBounds(h: Histogram, k: nat, i: nat)
    requires Buildable(h) && k < 3 && i < BinCount
    requires NonNegativeRow(SourceRow(h, k))
    ensures 0.0 <= Equalized(h)[k][i] <= Equalized(h)[k][BinCount - 1]
  {
    var row := SourceRow(h, k);
    PrefixMonotone(row, i + 1, BinCount);
    DivideMonotone(Prefix(row, i + 1), Prefix(row, BinCount), Pixels(h));
  }

  /** With any channel count other than 1 or 2, row k is determined by channel
      k's bins and the pixel count alone. */
  lemma ColorRowIndependent(h1: Histogram, h2: Histogram, k: nat)
    requires Buildable(h1) && Buildable(h2) && k < 3
    requires !Grayscale(h1) && !Grayscale(h2)
    requires h1.channels[k] == h2.channels[k]
    requires Pixels(h1) == Pixels(h2)
    ensures Equalized(h1)[k] == Equalized(h2)[k]
  {
    assert forall i :: 0 <= i < BinCount ==> Equalized(h1)[k][i] == Equalized(h2)[k][i];
  }

  /** A histogram whose VALUE bins and channel bins all put their `c` pixels in
      bin `b` equalizes to a step: 0 before bin `b`, 1 from bin `b` on. */
  lemma SingleBinStep(nChannels: nat, b: nat, c: real, k: nat, i: nat)
    requires b < BinCount && c > 0.0
    requires k < 3 && i < BinCount
    ensures Buildable(Histogram(nChannels, Spike(b, c), [Spike(b, c), Spike(b, c), Spike(b, c)]))
    ensures Equalized(Histogram(nChannels, Spike(b, c), [Spike(b, c), Spike(b, c), Spike(b, c)]))[k][i]
            == if i >= b then 1.0 else 0.0
  {
    var h := Histogram(nChannels, Spike(b, c), [Spike(b, c), Spike(b, c), Spike(b, c)]);
    PrefixSpike(b, c, BinCount);
    PrefixSpike(b, c, i + 1);
    assert SourceRow(h, k) == Spike(b, c);
    assert Pixels(h) == c;
    assert Equalized(h)[k][i] == Prefix(Spike(b, c), i + 1) / c;
    if i >= b {
      assert Prefix(Spike(b, c), i + 1) == c;
      DivideSelf(c);
    } else {
      assert Prefix(Spike(b, c), i + 1) == 0.0;
    }
  }
}
