/**
 The per-sample side of the GIMP equalize operation: a float sample value is
 clamped, scaled to a bin index and looked up in the table; a buffer of RGBA
 float pixels is mapped pixel by pixel with the alpha channel copied.
 */
module EqualizeKernel {
  import opened Histograms
  import opened EqualizeTable

  /** Component offsets inside one RGBA float pixel. */
  const RED: nat := 0
  const GREEN: nat := 1
  const BLUE: nat := 2
  const ALPHA: nat := 3

  /** The CLAMP macro: the high bound is tested first, then the low one. */
  function Clamp(x: real, low: real, high: real): (r: real)
    ensures low <= high ==> low <= r <= high
    ensures low <= x <= high ==> r == x
    ensures x > high ==> r == high
    ensures x <= high && x < low ==> r == low
  {
    if x > high then high else if x < low then low else x
  }

  /**
   The bin a sample value reads: value * 255 clamped to [0, 255] and then
   truncated to an integer (on a value already in [0, 255] truncation is the
   floor).
   */
  function BinIndex(value: real): (index: int)
    ensures 0 <= index < BinCount
    ensures value <= 0.0 ==> index == 0
    ensures value >= 1.0 ==> index == BinCount - 1
    ensures 0.0 < value < 1.0 ==> index as real <= value * 255.0 < index as real + 1.0
  {
    Clamp(value * 255.0, 0.0, 255.0).Floor
  }

  /** A higher sample value never reads an earlier bin. */
  lemma BinIndexMonotone(v: real, w: real)
    requires v <= w
    ensures BinIndex(v) <= BinIndex(w)
  {
    assert Clamp(v * 255.0, 0.0, 255.0) <= Clamp(w * 255.0, 0.0, 255.0);
  }

  /** The table lookup for one colour component: values at or below 0 read the
      row's first entry, values at or above 1 its last, and anything between
      reads the entry at the floor of value * 255. */
  function Map(table: Table, component: nat, value: real): (r: real)
    requires IsTable(table) && component < 3
    ensures value <= 0.0 ==> r == table[component][0]
    ensures value >= 1.0 ==> r == table[component][BinCount - 1]
    ensures 0.0 < value < 1.0 ==> r == table[component][(value * 255.0).Floor]
  {
    table[component][BinIndex(value)]
  }

  /** Over a monotone row the lookup is monotone in the sample value. */
  lemma MapMonotone(table: Table, component: nat, v: real, w: real)
    requires IsTable(table) && component < 3
    requires Monotone(table[component])
    requires v <= w
    ensures Map(table, component, v) <= Map(table, component, w)
  {
    BinIndexMonotone(v, w);
  }

  /** Every result of the lookup is an entry of the component's row between
      its first and last entry. */
  lemma MapInRow(table: Table, component: nat, value: real)
    requires IsTable(table) && component < 3
    requires Monotone(table[component])
    ensures table[component][0] <= Map(table, component, value) <= table[component][BinCount - 1]
  {
    var i := BinIndex(value);
    assert table[component][0] <= table[component][i];
    assert table[component][i] <= table[component][BinCount - 1];
  }

  /** One output pixel: red, green and blue through their table rows, alpha copied. */
  function EqualizePixel(table: Table, p: seq<real>): (q: seq<real>)
    requires IsTable(table) && |p| == 4
    ensures |q| == 4
    ensures q[ALPHA] == p[ALPHA]
  {
    [Map(table, RED, p[RED]), Map(table, GREEN, p[GREEN]), Map(table, BLUE, p[BLUE]), p[ALPHA]]
  }

  /** The n-th pixel of an interleaved RGBA float buffer: four floats per pixel. */
  function Pixel(buf: seq<real>, n: nat): seq<real>
    requires 4 * n + 4 <= |buf|
  {
    buf[4 * n .. 4 * n + 4]
  }

  /** Reference result of mapping the first `samples` pixels of `src`. */
  function Equalize(table: Table, src: seq<real>, samples: nat): (out: seq<real>)
    requires IsTable(table) && 4 * samples <= |src|
    ensures |out| == 4 * samples
    decreases samples
  {
    if samples == 0 then []
    else Equalize(table, src, samples - 1) + EqualizePixel(table, Pixel(src, samples - 1))
  }

  /** Component c of output pixel n is component c of the kernel applied to
      input pixel n. */
  lemma {:induction false} EqualizeAt(table: Table, src: seq<real>, samples: nat, n: nat, c: nat)
    requires IsTable(table) && 4 * samples <= |src|
    requires n < samples && c < 4
    ensures Equalize(table, src, samples)[4 * n + c] == EqualizePixel(table, Pixel(src, n))[c]
    decreases samples
  {
    var prev := Equalize(table, src, samples - 1);
    var last := EqualizePixel(table, Pixel(src, samples - 1));
    if n < samples - 1 {
      EqualizeAt(table, src, samples - 1, n, c);
      assert (prev + last)[4 * n + c] == prev[4 * n + c];
    } else {
      assert (prev + last)[4 * n + c] == last[c];
    }
  }

  /** Each output float depends only on the input pixel it belongs to. */
  lemma PixelIndependence(table: Table, src1: seq<real>, src2: seq<real>, samples: nat, n: nat, c: nat)
    requires IsTable(table) && 4 * samples <= |src1| && 4 * samples <= |src2|
    requires n < samples && c < 4
    requires Pixel(src1, n) == Pixel(src2, n)
    ensures Equalize(table, src1, samples)[4 * n + c] == Equalize(table, src2, samples)[4 * n + c]
  {
    EqualizeAt(table, src1, samples, n, c);
    EqualizeAt(table, src2, samples, n, c);
  }

  /** Only the first `samples` pixels of the input are read. */
  lemma {:induction false} EqualizeReadsPrefix(table: Table, src1: seq<real>, src2: seq<real>, samples: nat)
    requires IsTable(table) && 4 * samples <= |src1| && 4 * samples <= |src2|
    requires src1[..4 * samples] == src2[..4 * samples]
    ensures Equalize(table, src1, samples) == Equalize(table, src2, samples)
    decreases samples
  {
    if samples > 0 {
      var n := samples - 1;
      assert src1[..4 * n] == src2[..4 * n] by {
        assert src1[..4 * n] == src1[..4 * samples][..4 * n];
        assert src2[..4 * n] == src2[..4 * samples][..4 * n];
      }
      EqualizeReadsPrefix(table, src1, src2, n);
      assert Pixel(src1, n) == Pixel(src2, n) by {
        assert Pixel(src1, n) == src1[..4 * samples][4 * n ..];
        assert Pixel(src2, n) == src2[..4 * samples][4 * n ..];
      }
    }
  }

  /** Pixel m of the buffer that starts at pixel d is pixel d + m of the whole buffer. */
  lemma PixelOfSuffix(src: seq<real>, d: nat, m: nat)
    requires 4 * (d + m) + 4 <= |src|
    ensures Pixel(src[4 * d..], m) == Pixel(src, d + m)
  {
    var rest := src[4 * d..];
    forall j | 0 <= j < 4
      ensures Pixel(rest, m)[j] == Pixel(src, d + m)[j]
    {
      assert Pixel(rest, m)[j] == rest[4 * m + j];
      assert rest[4 * m + j] == src[4 * d + 4 * m + j];
    }
  }

  /** Mapping a buffer in two consecutive regions gives the same pixels as
      mapping it in one call. */
  lemma {:induction false} RegionSplit(table: Table, src: seq<real>, a: nat, b: nat)
    requires IsTable(table) && 4 * (a + b) <= |src|
    ensures Equalize(table, src, a + b)
            == Equalize(table, src[..4 * a], a) + Equalize(table, src[4 * a..], b)
    decreases b
  {
    var head := Equalize(table, src[..4 * a], a);
    var rest := src[4 * a..];
    if b == 0 {
      EqualizeReadsPrefix(table, src, src[..4 * a], a);
      assert Equalize(table, rest, 0) == [];
    } else {
      var m := b - 1;
      RegionSplit(table, src, a, m);
      PixelOfSuffix(src, a, m);
      var last := EqualizePixel(table, Pixel(src, a + m));
      assert Equalize(table, src, a + b) == Equalize(table, src, a + m) + last;
      assert Equalize(table, rest, b) == Equalize(table, rest, m) + last;
      assert (head + Equalize(table, rest, m)) + last == head + (Equalize(table, rest, m) + last);
    }
  }

  /** One iteration of the callback's loop: the pixel at `offset` of `input`
      is mapped into the same place of `buf`; nothing else in `buf` changes. */
  method StorePixel(table: Table, input: seq<real>, buf: seq<real>, n: nat) returns (next: seq<real>)
    requires IsTable(table)
    requires 4 * n + 4 <= |input| && 4 * n + 4 <= |buf|
    ensures |next| == |buf|
    ensures next[..4 * n] == buf[..4 * n]
    ensures next[4 * n..4 * n + 4] == EqualizePixel(table, Pixel(input, n))
    ensures next[4 * n + 4..] == buf[4 * n + 4..]
  {
    var offset := 4 * n;
    next := buf;
    next := next[offset + RED := Map(table, RED, input[offset + RED])];
    next := next[offset + GREEN := Map(table, GREEN, input[offset + GREEN])];
    next := next[offset + BLUE := Map(table, BLUE, input[offset + BLUE])];
    next := next[offset + ALPHA := input[offset + ALPHA]];
  }

  /** A buffer whose first `samples` pixels are the reference result holds the
      kernel's output at each of those pixels. */
  lemma PixelsOfResult(table: Table, input: seq<real>, result: seq<real>, samples: nat)
    requires IsTable(table) && 4 * samples <= |input| && 4 * samples <= |result|
    requires result[..4 * samples] == Equalize(table, input, samples)
    ensures forall n :: 0 <= n < samples ==> Pixel(result, n) == EqualizePixel(table, Pixel(input, n))
  {
    forall n | 0 <= n < samples
      ensures Pixel(result, n) == EqualizePixel(table, Pixel(input, n))
    {
      forall c | 0 <= c < 4
        ensures Pixel(result, n)[c] == EqualizePixel(table, Pixel(input, n))[c]
      {
        EqualizeAt(table, input, samples, n, c);
        assert Pixel(result, n)[c] == result[..4 * samples][4 * n + c];
      }
    }
  }

  /** A buffer holding the kernel's output at each of its first `samples`
      pixels starts with the reference result: the converse of PixelsOfResult. */
  lemma ProcessIsEqualize(table: Table, input: seq<real>, result: seq<real>, samples: nat)
    requires IsTable(table) && 4 * samples <= |input| && 4 * samples <= |result|
    requires forall n :: 0 <= n < samples ==> Pixel(result, n) == EqualizePixel(table, Pixel(input, n))
    ensures result[..4 * samples] == Equalize(table, input, samples)
  {
    var reference := Equalize(table, input, samples);
    forall j | 0 <= j < 4 * samples
      ensures result[j] == reference[j]
    {
      var n, c := j / 4, j % 4;
      assert j == 4 * n + c;
      EqualizeAt(table, input, samples, n, c);
      assert Pixel(result, n)[c] == result[j];
    }
  }

  /**
   The point-filter callback over one buffer: `samples` pixels are read from
   `input` and written to `output` with a stride of four floats; the rest of
   `output` is left as it was, and the callback reports success.
   */
  method Process(table: Table, input: seq<real>, output: seq<real>, samples: nat)
    returns (result: seq<real>, ok: bool)
    requires IsTable(table)
    requires 4 * samples <= |input| && 4 * samples <= |output|
    ensures ok
    ensures |result| == |output|
    ensures forall n :: 0 <= n < samples ==> Pixel(result, n) == EqualizePixel(table, Pixel(input, n))
    ensures result[4 * samples..] == output[4 * samples..]
  {
    result := output;
    var remaining := samples;
    var offset := 0;
    while remaining > 0
      invariant remaining <= samples
      invariant offset == 4 * (samples - remaining) <= 4 * samples
      invariant |result| == |output|
      invariant result[..offset] == Equalize(table, input, samples - remaining)
      invariant result[offset..] == output[offset..]
    {
      var n := samples - remaining;
      ghost var before := result;
      result := StorePixel(table, input, result, n);
      assert result[..offset + 4] == before[..offset] + result[offset..offset + 4];
      offset := offset + 4;
      remaining := remaining - 1;
    }
    PixelsOfResult(table, input, result, samples);
    ok := true;
  }

  /** On a grayscale histogram's table a pixel with equal red, green and blue
      keeps them equal. */
  lemma GrayStaysGray(h: Histogram, p: seq<real>)
    requires Buildable(h) && Grayscale(h)
    requires |p| == 4 && p[RED] == p[GREEN] == p[BLUE]
    ensures EqualizePixel(Equalized(h), p)[RED] == EqualizePixel(Equalized(h), p)[GREEN]
    ensures EqualizePixel(Equalized(h), p)[GREEN] == EqualizePixel(Equalized(h), p)[BLUE]
  {
    var t := Equalized(h);
    var i := BinIndex(p[RED]);
    assert t[RED][i] == Entry(h, RED, i) == Entry(h, GREEN, i) == Entry(h, BLUE, i);
  }
}
