/**
 * The analysis worker: a reused workspace around the in-place transform, and the display
 * envelope. Numbers are exact: samples are reals, spectrum slots are elements of a ring.
 */
module DspEngine {
  import opened Options
  import opened Powers
  import opened Rings
  import opened Fft

  datatype AudioBlock = AudioBlock(sequence: nat, timestampNs: nat, channels: nat, samples: seq<int>)

  datatype UiFrame = UiFrame(sequence: nat, timestampNs: nat, envelope: seq<real>, spectrum: seq<real>)

  /** The numeric operations the worker calls: complex arithmetic and roots, and the real functions. */
  datatype Arithmetic<!C(!new)> = Arithmetic(
    ring: Ring<C>, root: nat -> C, embed: real -> C, magnitude: C -> real,
    pi: real, cos: real -> real, log10: real -> real)

  const INT32_NORM := 2147483648.0
  const UI_POINTS := 1024
  const FLOOR := 0.000000000001

  // ---- Sizes ----

  /** The exponent of the largest power of two that does not exceed n. */
  function FloorLog(n: nat): (m: nat)
    requires n >= 1
    ensures Pow2(m) <= n < Pow2(m + 1)
    decreases n
  {
    if n == 1 then 0 else FloorLog(n / 2) + 1
  }

  /** The exponent is the only one whose power is within a factor of two below n. */
  lemma FloorLogUnique(n: nat, e: nat)
    requires n >= 1 && Pow2(e) <= n < Pow2(e + 1)
    ensures e == FloorLog(n)
  {
    var m := FloorLog(n);
    Pow2Order(m + 1, e);
    Pow2Order(e + 1, m);
  }

  /** Doubles until the next doubling would pass n; below 2^63 no shift leaves the 64-bit range. */
  method FloorPow2(n: nat) returns (p: nat)
    requires n < 0x8000_0000_0000_0000
    ensures n >= 1 ==> p == Pow2(FloorLog(n))
    ensures n == 0 ==> p == 1
  {
    p := 1;
    ghost var e: nat := 0;
    while p * 2 <= n
      invariant p == Pow2(e) && (p <= n || p == 1)
      decreases n - p
    {
      assert p * 2 < 0x1_0000_0000_0000_0000;
      p, e := p * 2, e + 1;
    }
    if n >= 1 {
      FloorLogUnique(n, e);
    }
  }

  // ---- The envelope ----

  function Abs(x: real): (a: real)
    ensures a >= 0.0 && (a == x || a == -x)
  {
    if x < 0.0 then -x else x
  }

  function Max(a: real, b: real): real { if a < b then b else a }

  /** The largest absolute value among s[lo..hi], zero for an empty range. */
  function Peak(s: seq<real>, lo: nat, hi: nat): real
    requires lo <= hi <= |s|
    decreases hi - lo
  {
    if lo == hi then 0.0 else Max(Peak(s, lo, hi - 1), Abs(s[hi - 1]))
  }

  /** A peak is reached, and nothing in its range exceeds it. */
  lemma {:induction false} PeakBounds(s: seq<real>, lo: nat, hi: nat)
    requires lo <= hi <= |s|
    ensures Peak(s, lo, hi) >= 0.0
    ensures forall i | lo <= i < hi :: Abs(s[i]) <= Peak(s, lo, hi)
    ensures lo < hi ==> exists i :: lo <= i < hi && Abs(s[i]) == Peak(s, lo, hi)
    decreases hi - lo
  {
    if lo < hi {
      PeakBounds(s, lo, hi - 1);
      if Peak(s, lo, hi) == Abs(s[hi - 1]) {
      } else {
        var i :| lo <= i < hi - 1 && Abs(s[i]) == Peak(s, lo, hi - 1);
      }
    }
  }

  lemma {:induction false} PeakConcat(s: seq<real>, lo: nat, mid: nat, hi: nat)
    requires lo <= mid <= hi <= |s|
    ensures Peak(s, lo, hi) == Max(Peak(s, lo, mid), Peak(s, mid, hi))
    decreases hi - mid
  {
    if mid < hi {
      PeakConcat(s, lo, mid, hi - 1);
    } else {
      PeakBounds(s, lo, mid);
    }
  }

  function EnvelopeStep(n: nat): (step: nat)
    ensures step >= 1
  {
    if n / UI_POINTS > 1 then n / UI_POINTS else 1
  }

  function Min(a: nat, b: nat): nat { if b < a then b else a }

  /** The peaks of the chunks of length step from position i on; the last chunk may be shorter. */
  function ChunkPeaks(s: seq<real>, i: nat, step: nat): seq<real>
    requires step >= 1
    decreases |s| - i
  {
    if i >= |s| then [] else [Peak(s, i, Min(|s|, i + step))] + ChunkPeaks(s, i + step, step)
  }

  /** The envelope of a sample buffer. */
  function Envelope(s: seq<real>): seq<real> {
    ChunkPeaks(s, 0, EnvelopeStep(|s|))
  }

  /** Where chunk c begins. */
  function ChunkStart(c: nat, step: nat): nat { c * step }

  lemma ChunkStarts(c: nat, step: nat)
    ensures ChunkStart(0, step) == 0 && ChunkStart(c + 1, step) == ChunkStart(c, step) + step
  {
  }

  /** The chunks from i on cover what remains, and the last one is not empty. */
  lemma {:induction false} ChunkPeaksCount(s: seq<real>, i: nat, step: nat)
    requires step >= 1 && i <= |s|
    ensures var count := |ChunkPeaks(s, i, step)|;
            && i + ChunkStart(count, step) >= |s|
            && (count >= 1 ==> i + ChunkStart(count - 1, step) < |s|)
    decreases |s| - i
  {
    hide ChunkStart, Peak;
    ChunkStarts(0, step);
    if i < |s| {
      var rest := ChunkPeaks(s, i + step, step);
      assert |ChunkPeaks(s, i, step)| == |rest| + 1;
      ChunkStarts(|rest|, step);
      if i + step <= |s| {
        ChunkPeaksCount(s, i + step, step);
        if rest != [] {
          ChunkStarts(|rest| - 1, step);
        }
      } else {
        assert rest == [];
      }
    }
  }

  /** Chunk c of what remains after i starts at its place. */
  lemma {:induction false} ChunkPeaksAt(s: seq<real>, i: nat, step: nat, c: nat)
    requires step >= 1 && i <= |s| && c < |ChunkPeaks(s, i, step)|
    ensures i + ChunkStart(c, step) < |s|
    ensures ChunkPeaks(s, i, step)[c]
            == Peak(s, i + ChunkStart(c, step), Min(|s|, i + ChunkStart(c, step) + step))
    decreases c
  {
    hide ChunkStart, Peak;
    ChunkStarts(0, step);
    if c > 0 {
      ChunkStarts(c - 1, step);
      ChunkPeaksAt(s, i + step, step, c - 1);
    }
  }

  /** The envelope has ceil(n / step) points, never more than 2047, each the peak of its chunk. */
  lemma EnvelopeChunks(s: seq<real>)
    ensures var step := EnvelopeStep(|s|);
            && |Envelope(s)| == (|s| + step - 1) / step <= 2047
            && forall c | 0 <= c < |Envelope(s)| ::
                 && ChunkStart(c, step) < |s|
                 && Envelope(s)[c] == Peak(s, ChunkStart(c, step), Min(|s|, ChunkStart(c, step) + step))
  {
    var n, step, count := |s|, EnvelopeStep(|s|), |Envelope(s)|;
    ChunkPeaksCount(s, 0, step);
    EnvelopeCountIs(n, count);
    EnvelopeCountExact(s);
    hide ChunkStart, Peak, ChunkPeaks;
    forall c | 0 <= c < count
      ensures ChunkStart(c, step) < n
      ensures Envelope(s)[c] == Peak(s, ChunkStart(c, step), Min(n, ChunkStart(c, step) + step))
    {
      ChunkPeaksAt(s, 0, step, c);
    }
  }

  /** The only number of chunks that covers n samples with none to spare. */
  lemma EnvelopeCountIs(n: nat, count: nat)
    requires ChunkStart(count, EnvelopeStep(n)) >= n
    requires count >= 1 ==> ChunkStart(count - 1, EnvelopeStep(n)) < n
    ensures count == (n + EnvelopeStep(n) - 1) / EnvelopeStep(n)
  {
    var step := EnvelopeStep(n);
    if count >= 1 {
      ChunkStarts(count - 1, step);
    }
    BlockPosition(count, step, n + step - 1 - count * step);
  }

  /**
   * Below 2048 samples every sample is a point; from there on there are 1024 to 1536 points. So the
   * most points, 2047, are those of 2047 samples and of no other length. The chunks are the longest
   * of which 1024 fit.
   */
  lemma EnvelopeCountExact(s: seq<real>)
    ensures |s| < 2048 ==> |Envelope(s)| == |s|
    ensures |s| >= 2048 ==> 1024 <= |Envelope(s)| <= 1536
    ensures |Envelope(s)| == 2047 <==> |s| == 2047
    ensures |s| >= 1024 ==> 1024 * EnvelopeStep(|s|) <= |s| < 1024 * (EnvelopeStep(|s|) + 1)
  {
    var n, step, count := |s|, EnvelopeStep(|s|), |Envelope(s)|;
    ChunkPeaksCount(s, 0, step);
    hide Envelope;
    if n >= 2048 {
      assert 1024 * step <= n < 1024 * step + 1024;
      MulAtLeast(1024 - count, step);
      assert (1024 - count) * step == 1024 * step - ChunkStart(count, step);
      MulAtLeast(count - 1537, step);
      assert (count - 1537) * step == ChunkStart(count - 1, step) - 1536 * step;
    }
  }

  lemma {:induction false} ChunkPeaksMaximum(s: seq<real>, i: nat, step: nat)
    requires step >= 1 && i <= |s|
    ensures var e := ChunkPeaks(s, i, step); Peak(e, 0, |e|) == Peak(s, i, |s|)
    decreases |s| - i
  {
    if i < |s| {
      var end := Min(|s|, i + step);
      var rest := ChunkPeaks(s, i + step, step);
      var all := [Peak(s, i, end)] + rest;
      PeakConcat(s, i, end, |s|);
      PeakConcat(all, 0, 1, |all|);
      PeakShift(all, rest, |rest|);
      PeakBounds(s, i, end);
      assert Peak(all, 0, 1) == Peak(s, i, end);
      if i + step <= |s| {
        ChunkPeaksMaximum(s, i + step, step);
      } else {
        assert rest == [];
      }
    }
  }

  lemma {:induction false} PeakShift(all: seq<real>, rest: seq<real>, k: nat)
    requires |all| == |rest| + 1 && all[1..] == rest && k <= |rest|
    ensures Peak(all, 1, k + 1) == Peak(rest, 0, k)
  {
    if k > 0 {
      PeakShift(all, rest, k - 1);
      assert all[k] == all[1..][k - 1];
    }
  }

  /** The envelope shows the loudest sample of the buffer. */
  lemma EnvelopeMaximum(s: seq<real>)
    ensures Peak(Envelope(s), 0, |Envelope(s)|) == Peak(s, 0, |s|)
  {
    ChunkPeaksMaximum(s, 0, EnvelopeStep(|s|));
  }

  /** The inner loop: the absolute peak of one chunk. */
  method ChunkPeak(samples: array<real>, i: nat, end: nat) returns (maxAbs: real)
    requires i <= end <= samples.Length
    ensures maxAbs == Peak(samples[..], i, end)
  {
    maxAbs := 0.0;
    for j := i to end
      invariant maxAbs == Peak(samples[..], i, j)
    {
      maxAbs := Max(maxAbs, Abs(samples[j]));
    }
  }

  method BuildUiEnvelope(samples: array<real>) returns (envelope: seq<real>)
    ensures envelope == Envelope(samples[..])
  {
    var n := samples.Length;
    envelope := [];
    if n == 0 {
      return;
    }
    var step := if n / UI_POINTS > 1 then n / UI_POINTS else 1;
    var i := 0;
    while i < n
      invariant envelope + ChunkPeaks(samples[..], i, step) == Envelope(samples[..])
      decreases n - i
    {
      var maxAbs := ChunkPeak(samples, i, Min(n, i + step));
      envelope := envelope + [maxAbs];
      i := i + step;
    }
  }

  // ---- What one block gives ----

  function ChannelCount(b: AudioBlock): (c: nat)
    ensures c >= 1
  {
    if b.channels > 1 then b.channels else 1
  }

  function SamplesPerChannel(b: AudioBlock): nat { |b.samples| / ChannelCount(b) }

  lemma SampleCountShrinks(n: nat, c: nat)
    requires c >= 1
    ensures n / c <= n
  {
    MulAtLeast(c - 1, n / c);
    assert c * (n / c) == (c - 1) * (n / c) + n / c;
  }

  lemma FirstChannelInBounds(b: AudioBlock, i: nat)
    requires i < SamplesPerChannel(b)
    ensures i * ChannelCount(b) < |b.samples|
  {
    var c := ChannelCount(b);
    assert (SamplesPerChannel(b) - i) * c == SamplesPerChannel(b) * c - i * c;
    MulAtLeast(SamplesPerChannel(b) - i, c);
  }

  /** Sample i of the first channel, normalised. */
  function MonoSample(b: AudioBlock, i: nat): real
    requires i < SamplesPerChannel(b)
  {
    FirstChannelInBounds(b, i);
    b.samples[i * ChannelCount(b)] as real / INT32_NORM
  }

  function Mono(b: AudioBlock): (mono: seq<real>)
    ensures |mono| == SamplesPerChannel(b)
  {
    seq(SamplesPerChannel(b), (i: nat) requires i < SamplesPerChannel(b) => MonoSample(b, i))
  }

  /** The angle of point i of the window: once around the circle, both ends included. */
  function Angle<C(!new)>(arith: Arithmetic<C>, size: nat, i: nat): real
    requires size > 1
  {
    2.0 * arith.pi * i as real / (size - 1) as real
  }

  function Hann<C(!new)>(arith: Arithmetic<C>, size: nat, i: nat): real
    requires size > 1
  {
    0.5 - 0.5 * arith.cos(Angle(arith, size, i))
  }

  function Window<C(!new)>(arith: Arithmetic<C>, size: nat, i: nat): real {
    if size > 1 then Hann(arith, size, i) else 1.0
  }

  /** A windowed sample as a complex number with no imaginary part. */
  function Load<C(!new)>(arith: Arithmetic<C>, sample: real, weight: real): C {
    arith.embed(sample * weight)
  }

  function Windowed<C(!new)>(arith: Arithmetic<C>, mono: seq<real>, size: nat): seq<C>
    requires size <= |mono|
  {
    seq(size, (i: nat) requires i < size => Load(arith, mono[i], Window(arith, size, i)))
  }

  /** A slot's magnitude relative to full scale, in decibels, not below the floor. */
  function Decibels<C(!new)>(arith: Arithmetic<C>, v: C, size: nat): real
    requires size > 0
  {
    20.0 * arith.log10(Max(arith.magnitude(v) / size as real, FLOOR))
  }

  /** The lower half of the windowed transform, in decibels. */
  function Spectrum<C(!new)>(arith: Arithmetic<C>, mono: seq<real>): seq<real>
    requires |mono| >= 2
  {
    var m := FloorLog(|mono|);
    var size := Pow2(m);
    seq(size / 2, (k: nat) => Decibels(arith, Dft(arith.ring, Windowed(arith, mono, size), arith.root(m), k), size))
  }

  /** What a block shows on screen, as a function of the block alone. */
  function Processed<C(!new)>(arith: Arithmetic<C>, b: AudioBlock): UiFrame {
    if SamplesPerChannel(b) < 2 then UiFrame(b.sequence, b.timestampNs, [], [])
    else UiFrame(b.sequence, b.timestampNs, Envelope(Mono(b)), Spectrum(arith, Mono(b)))
  }

  // ---- What the screen shows means ----

  /** The first of several channels of equal length, sample by sample in turn. */
  function Interleave(channels: seq<seq<int>>, n: nat): seq<int>
    requires |channels| > 0 && forall c | c in channels :: |c| == n
  {
    seq(n * |channels|, (k: nat) requires k < n * |channels| =>
      InTurn(k, |channels|, n); channels[PlaceOf(k, |channels|)][BlockOf(k, |channels|)])
  }

  lemma InTurn(k: nat, c: nat, n: nat)
    requires c > 0 && k < n * c
    ensures PlaceOf(k, c) < c && BlockOf(k, c) < n
  {
    var b := BlockOf(k, c);
    MulAtLeast(n - b, c);
    assert (n - b) * c == n * c - b * c;
    assert k == b * c + PlaceOf(k, c);
  }

  /**
   * Of interleaved channels the worker takes the first, divided by 2^31; a block that names no channel
   * has one.
   */
  lemma MonoIsFirstChannel(b: AudioBlock, channels: seq<seq<int>>, n: nat)
    requires |channels| > 0 && forall c | c in channels :: |c| == n
    requires b.samples == Interleave(channels, n)
    requires b.channels == |channels| || (b.channels == 0 && |channels| == 1)
    ensures SamplesPerChannel(b) == n
    ensures forall i | 0 <= i < n :: Mono(b)[i] == channels[0][i] as real / 2147483648.0
  {
    var c := |channels|;
    assert ChannelCount(b) == c;
    assert |b.samples| == n * c + 0;
    BlockPosition(n, c, 0);
    forall i | 0 <= i < n
      ensures Mono(b)[i] == channels[0][i] as real / 2147483648.0
    {
      FirstChannelInBounds(b, i);
      BlockPosition(i, c, 0);
      assert b.samples[i * c] == channels[PlaceOf(i * c, c)][BlockOf(i * c, c)];
    }
  }

  /** Nothing on screen depends on the other channels. */
  lemma OtherChannelsDoNotShow<C(!new)>(arith: Arithmetic<C>, a: AudioBlock, b: AudioBlock,
                                        channels: seq<seq<int>>, others: seq<seq<int>>, n: nat)
    requires |channels| > 0 && (forall c | c in channels :: |c| == n) && a.samples == Interleave(channels, n)
    requires |others| > 0 && (forall c | c in others :: |c| == n) && b.samples == Interleave(others, n)
    requires a.channels == |channels| && b.channels == |others| && channels[0] == others[0]
    requires a.sequence == b.sequence && a.timestampNs == b.timestampNs
    ensures Processed(arith, a) == Processed(arith, b)
  {
    MonoIsFirstChannel(a, channels, n);
    MonoIsFirstChannel(b, others, n);
    hide Interleave, MonoSample;
    assert Mono(a) == Mono(b);
  }

  /** A frame keeps its block's number and time; below two samples it shows nothing else. */
  lemma FrameOfBlock<C(!new)>(arith: Arithmetic<C>, b: AudioBlock)
    ensures var frame := Processed(arith, b);
            && frame.sequence == b.sequence && frame.timestampNs == b.timestampNs
            && (SamplesPerChannel(b) < 2 ==> frame.envelope == [] && frame.spectrum == [])
            && (SamplesPerChannel(b) >= 2 ==>
                  && frame.envelope == Envelope(Mono(b)) && frame.envelope != []
                  && |frame.spectrum| == Pow2(FloorLog(SamplesPerChannel(b))) / 2 > 0)
  {
    if SamplesPerChannel(b) >= 2 {
      hide Dft, Decibels;
      var m := FloorLog(SamplesPerChannel(b));
      assert m > 0 && Pow2(m) == 2 * Pow2(m - 1);
    }
  }

  /** What the cosine must satisfy. */
  ghost predicate CosineLaws<C(!new)>(arith: Arithmetic<C>) {
    && arith.cos(0.0) == 1.0 && arith.cos(arith.pi) == -1.0
    && (forall x :: -1.0 <= arith.cos(x) <= 1.0)
    && (forall x :: arith.cos(2.0 * arith.pi - x) == arith.cos(x))
  }

  lemma AngleOpposite<C(!new)>(arith: Arithmetic<C>, size: nat, i: nat)
    requires size > 1 && i < size
    ensures Angle(arith, size, size - 1 - i) == 2.0 * arith.pi - Angle(arith, size, i)
    ensures Angle(arith, size, 0) == 0.0
    ensures 2 * i == size - 1 ==> Angle(arith, size, i) == arith.pi
  {
    var d, p, x := (size - 1) as real, 2.0 * arith.pi, i as real;
    assert (size - 1 - i) as real == d - x;
    assert p * (d - x) == p * d - p * x;
    DivideDifference(p * d, p * x, d);
    assert p * d / d == p;
    if 2 * i == size - 1 {
      assert p * x == arith.pi * d;
      assert arith.pi * d / d == arith.pi;
    }
  }

  lemma DivideDifference(a: real, b: real, d: real)
    requires d > 0.0
    ensures (a - b) / d == a / d - b / d
  {
  }

  /** The window rises from zero to one and falls back the same way, within zero and one. */
  lemma WindowShape<C(!new)>(arith: Arithmetic<C>, size: nat, i: nat)
    requires CosineLaws(arith) && size > 1 && i < size
    ensures 0.0 <= Window(arith, size, i) <= 1.0
    ensures Window(arith, size, 0) == Window(arith, size, size - 1) == 0.0
    ensures Window(arith, size, size - 1 - i) == Window(arith, size, i)
    ensures 2 * i == size - 1 ==> Window(arith, size, i) == 1.0
  {
    AngleOpposite(arith, size, i);
    AngleOpposite(arith, size, 0);
    hide Angle;
    assert arith.cos(2.0 * arith.pi - 0.0) == arith.cos(0.0);
  }

  /** So of the samples, each weighted by its place, the first and the last of the transform's length never count. */
  lemma EndsDoNotCount<C(!new)>(arith: Arithmetic<C>, mono: seq<real>, other: seq<real>, size: nat)
    requires CosineLaws(arith) && 1 < size <= |mono| && |other| == |mono|
    requires forall i | 0 < i < size - 1 :: other[i] == mono[i]
    ensures Windowed(arith, other, size) == Windowed(arith, mono, size)
    ensures forall i: nat | i < size :: Windowed(arith, mono, size)[i] == arith.embed(mono[i] * Window(arith, size, i))
  {
    hide Window;
    WindowShape(arith, size, 0);
    forall i: nat | i < size
      ensures Windowed(arith, other, size)[i] == Windowed(arith, mono, size)[i]
    {
      if i == 0 || i == size - 1 {
        assert other[i] * Window(arith, size, i) == 0.0 == mono[i] * Window(arith, size, i);
      }
    }
  }

  /** What the logarithm must satisfy. */
  ghost predicate LogarithmLaws<C(!new)>(arith: Arithmetic<C>) {
    && arith.log10(1.0) == 0.0
    && (forall x | x > 0.0 :: arith.log10(10.0 * x) == arith.log10(x) + 1.0)
    && (forall x, y | 0.0 < x <= y :: arith.log10(x) <= arith.log10(y))
  }

  lemma LogOfFloor<C(!new)>(arith: Arithmetic<C>)
    requires LogarithmLaws(arith)
    ensures arith.log10(FLOOR) == -12.0
  {
    assert arith.log10(10.0 * 0.1) == arith.log10(0.1) + 1.0;
    assert arith.log10(10.0 * 0.01) == arith.log10(0.01) + 1.0;
    assert arith.log10(10.0 * 0.001) == arith.log10(0.001) + 1.0;
    assert arith.log10(10.0 * 0.0001) == arith.log10(0.0001) + 1.0;
    assert arith.log10(10.0 * 0.00001) == arith.log10(0.00001) + 1.0;
    assert arith.log10(10.0 * 0.000001) == arith.log10(0.000001) + 1.0;
    assert arith.log10(10.0 * 0.0000001) == arith.log10(0.0000001) + 1.0;
    assert arith.log10(10.0 * 0.00000001) == arith.log10(0.00000001) + 1.0;
    assert arith.log10(10.0 * 0.000000001) == arith.log10(0.000000001) + 1.0;
    assert arith.log10(10.0 * 0.0000000001) == arith.log10(0.0000000001) + 1.0;
    assert arith.log10(10.0 * 0.00000000001) == arith.log10(0.00000000001) + 1.0;
    assert arith.log10(10.0 * 0.000000000001) == arith.log10(0.000000000001) + 1.0;
  }

  /** Never below -240 dB; 0 dB at full scale; 20 dB for every factor of ten above the floor. */
  lemma DecibelScale<C(!new)>(arith: Arithmetic<C>, v: C, w: C, size: nat)
    requires LogarithmLaws(arith) && size > 0
    ensures Decibels(arith, v, size) >= -240.0
    ensures arith.magnitude(v) <= 0.0 ==> Decibels(arith, v, size) == -240.0
    ensures arith.magnitude(v) == size as real ==> Decibels(arith, v, size) == 0.0
    ensures arith.magnitude(v) / size as real >= FLOOR && arith.magnitude(w) == 10.0 * arith.magnitude(v) ==>
              Decibels(arith, w, size) == Decibels(arith, v, size) + 20.0
  {
    LogOfFloor(arith);
    Quotients(arith.magnitude(v), size as real);
    var mag := arith.magnitude(v) / size as real;
    assert Max(mag, FLOOR) >= FLOOR;
    assert arith.log10(Max(mag, FLOOR)) >= arith.log10(FLOOR);
  }

  lemma Quotients(a: real, d: real)
    requires d > 0.0
    ensures 10.0 * a / d == 10.0 * (a / d)
    ensures a == d ==> a / d == 1.0
    ensures a <= 0.0 ==> a / d <= 0.0
  {
    var q := a / d;
    assert q * d == a;
  }

  /** The frames of the blocks among what a queue answered, in order. */
  function FramesOf<C(!new)>(arith: Arithmetic<C>, answers: seq<Option<Option<AudioBlock>>>): seq<UiFrame> {
    if answers == [] then []
    else
      var before, last := FramesOf(arith, answers[..|answers| - 1]), answers[|answers| - 1];
      if last.Some? && last.value.Some? then before + [Processed(arith, last.value.value)] else before
  }

  /** Empty answers and null frames show nothing, a block shows its frame, and the rounds follow each other. */
  lemma {:induction false} FramesInOrder<C(!new)>(
    arith: Arithmetic<C>, a: seq<Option<Option<AudioBlock>>>, b: seq<Option<Option<AudioBlock>>>, block: AudioBlock)
    ensures FramesOf(arith, [None]) == FramesOf(arith, [Some(None)]) == []
    ensures FramesOf(arith, [Some(Some(block))]) == [Processed(arith, block)]
    ensures FramesOf(arith, a + b) == FramesOf(arith, a) + FramesOf(arith, b)
    decreases |b|
  {
    hide Processed;
    assert FramesOf(arith, []) == [];
    if b == [] {
      assert a + b == a;
    } else {
      assert (a + b)[..|a + b| - 1] == a + b[..|b| - 1];
      FramesInOrder(arith, a, b[..|b| - 1], block);
    }
  }

  lemma FramesStep<C(!new)>(arith: Arithmetic<C>, answers: seq<Option<Option<AudioBlock>>>, n: nat)
    requires n <= |answers|
    ensures n == 0 ==> FramesOf(arith, answers[..n]) == []
    ensures n < |answers| ==>
      FramesOf(arith, answers[..n + 1])
      == FramesOf(arith, answers[..n])
         + if answers[n].Some? && answers[n].value.Some? then [Processed(arith, answers[n].value.value)] else []
  {
    if n < |answers| {
      assert answers[..n + 1][..n] == answers[..n];
    }
  }

  /** The arithmetic has a root for every block length up to that of n samples. */
  ghost predicate Suits<C(!new)>(arith: Arithmetic<C>, n: nat) {
    arith.ring.Lawful() && forall m: nat | Pow2(m) <= n :: StageRoots(arith.ring, arith.root, m)
  }

  class DspEngineWorker<C(0, !new)> {
    const arith: Arithmetic<C>
    var monoBuffer: array<real>
    var fftBuffer: array<C>
    var windowCache: array<real>
    var windowCacheSize: nat

    /** The cached window is the window of the size it is filed under. */
    ghost predicate Valid()
      reads this, windowCache
    {
      && monoBuffer != windowCache
      && fftBuffer as object != monoBuffer && fftBuffer as object != windowCache
      && windowCache.Length == windowCacheSize
      && forall i | 0 <= i < windowCacheSize :: windowCache[i] == Window(arith, windowCacheSize, i)
    }

    constructor (arith: Arithmetic<C>)
      ensures Valid() && fresh(monoBuffer) && fresh(fftBuffer) && fresh(windowCache) && this.arith == arith
    {
      this.arith := arith;
      monoBuffer := new real[0];
      fftBuffer := new C[0];
      windowCache := new real[0];
      windowCacheSize := 0;
    }

    method EnsureWorkspace(sampleCount: nat)
      requires Valid() && 1 <= sampleCount < 0x8000_0000_0000_0000
      modifies this
      ensures Valid() && monoBuffer.Length == sampleCount
      ensures fftBuffer.Length == windowCacheSize == Pow2(FloorLog(sampleCount))
      ensures monoBuffer == old(monoBuffer) || fresh(monoBuffer)
      ensures fftBuffer == old(fftBuffer) || fresh(fftBuffer)
      ensures windowCache == old(windowCache) || fresh(windowCache)
    {
      if monoBuffer.Length != sampleCount {
        monoBuffer := new real[sampleCount](_ => 0.0);
      }
      var fftSize := FloorPow2(sampleCount);
      if fftBuffer.Length != fftSize {
        var zero := arith.ring.zero;
        fftBuffer := new C[fftSize](_ => zero);
      }
      if windowCacheSize != fftSize {
        windowCache := new real[fftSize];
        FillWindow(fftSize);
        windowCacheSize := fftSize;
      }
    }

    method FillWindow(fftSize: nat)
      requires windowCache.Length == fftSize
      modifies windowCache
      ensures forall i | 0 <= i < fftSize :: windowCache[i] == Window(arith, fftSize, i)
    {
      if fftSize > 1 {
        for i := 0 to fftSize
          invariant forall k | 0 <= k < i :: windowCache[k] == Window(arith, fftSize, k)
        {
          windowCache[i] := Hann(arith, fftSize, i);
        }
      } else if fftSize == 1 {
        windowCache[0] := 1.0;
      }
    }

    /** Fills the whole transform buffer with the windowed samples. */
    method LoadWindowed(samples: array<real>, fftSize: nat)
      requires Valid() && fftBuffer.Length == windowCacheSize == fftSize <= samples.Length
      requires fftBuffer as object != samples
      modifies fftBuffer
      ensures fftBuffer[..] == Windowed(arith, samples[..], fftSize)
    {
      ghost var input, window := samples[..], windowCache[..];
      for i := 0 to fftSize
        invariant samples[..] == input && windowCache[..] == window
        invariant forall k | 0 <= k < i :: fftBuffer[k] == Load(arith, input[k], window[k])
      {
        fftBuffer[i] := Load(arith, samples[i], windowCache[i]);
      }
    }

    /** The spectrum of the samples, whatever the transform buffer held before. */
    method ComputeFftDb(samples: array<real>, fftSize: nat) returns (spectrum: seq<real>)
      requires Valid() && fftBuffer.Length == windowCacheSize == fftSize
      requires samples.Length >= 1 && fftBuffer as object != samples
      requires fftSize == Pow2(FloorLog(samples.Length)) && Suits(arith, samples.Length)
      modifies fftBuffer
      ensures samples.Length >= 2 ==> spectrum == Spectrum(arith, samples[..])
      ensures samples.Length < 2 ==> spectrum == []
    {
      Pow2Order(1, FloorLog(samples.Length));
      if fftSize < 2 || samples.Length < fftSize {
        return [];
      }
      ghost var m := FloorLog(samples.Length);
      LoadWindowed(samples, fftSize);
      ghost var x := fftBuffer[..];
      ghost var swapped := BitReverse(fftBuffer, m);
      Butterflies(arith.ring, arith.root, fftBuffer, x, m);
      spectrum := ToDecibels(fftSize);
    }

    method ToDecibels(fftSize: nat) returns (spectrum: seq<real>)
      requires fftBuffer.Length == fftSize > 0
      ensures |spectrum| == fftSize / 2
      ensures forall k | 0 <= k < |spectrum| :: spectrum[k] == Decibels(arith, fftBuffer[k], fftSize)
    {
      var half := fftSize / 2;
      spectrum := [];
      for i := 0 to half
        invariant |spectrum| == i
        invariant forall k | 0 <= k < i :: spectrum[k] == Decibels(arith, fftBuffer[k], fftSize)
      {
        var mag := arith.magnitude(fftBuffer[i]) / fftSize as real;
        mag := Max(mag, FLOOR);
        spectrum := spectrum + [20.0 * arith.log10(mag)];
      }
    }

    /** Overwrites the whole sample buffer with the first channel of the block. */
    method LoadMono(block: AudioBlock, channelCount: nat, samplesPerChannel: nat)
      requires Valid() && channelCount == ChannelCount(block)
      requires monoBuffer.Length == samplesPerChannel == SamplesPerChannel(block)
      modifies monoBuffer
      ensures Valid() && monoBuffer[..] == Mono(block)
    {
      for i := 0 to samplesPerChannel
        invariant forall k | 0 <= k < i :: monoBuffer[k] == MonoSample(block, k)
      {
        FirstChannelInBounds(block, i);
        monoBuffer[i] := block.samples[i * channelCount] as real / INT32_NORM;
      }
    }

    /** The result is the same whatever blocks, of whatever sizes, were processed before. */
    method ProcessBlock(block: AudioBlock) returns (frame: UiFrame)
      requires Valid() && |block.samples| < 0x8000_0000_0000_0000 && Suits(arith, SamplesPerChannel(block))
      modifies this, monoBuffer, fftBuffer
      ensures Valid() && frame == Processed(arith, block)
      ensures monoBuffer == old(monoBuffer) || fresh(monoBuffer)
      ensures fftBuffer == old(fftBuffer) || fresh(fftBuffer)
      ensures windowCache == old(windowCache) || fresh(windowCache)
    {
      frame := UiFrame(block.sequence, block.timestampNs, [], []);
      var channelCount := if block.channels > 1 then block.channels else 1;
      var samplesPerChannel := |block.samples| / channelCount;
      if samplesPerChannel < 2 {
        return;
      }
      SampleCountShrinks(|block.samples|, channelCount);
      EnsureWorkspace(samplesPerChannel);
      LoadMono(block, channelCount, samplesPerChannel);
      var envelope := BuildUiEnvelope(monoBuffer);
      var fftSize := FloorPow2(samplesPerChannel);
      var spectrum := ComputeFftDb(monoBuffer, fftSize);
      frame := frame.(envelope := envelope, spectrum := spectrum);
    }

    /**
     * The thread's loop, on what the queue answers in each round until the worker is stopped: nothing,
     * a null frame or a block. The frames handed to the window, if there is one, are those a new
     * worker would make of each block alone, in order.
     */
    method DspLoop(answers: seq<Option<Option<AudioBlock>>>, hasBridge: bool) returns (handed: seq<UiFrame>)
      requires Valid()
      requires forall b: AudioBlock | Some(Some(b)) in answers ::
                 |b.samples| < 0x8000_0000_0000_0000 && Suits(arith, SamplesPerChannel(b))
      modifies this, monoBuffer, fftBuffer
      ensures Valid() && handed == if hasBridge then FramesOf(arith, answers) else []
    {
      hide Processed, Suits, SamplesPerChannel, FramesOf;
      handed := [];
      FramesStep(arith, answers, 0);
      var n := 0;
      while n < |answers|
        invariant Valid() && 0 <= n <= |answers|
        invariant monoBuffer == old(monoBuffer) || fresh(monoBuffer)
        invariant fftBuffer == old(fftBuffer) || fresh(fftBuffer)
        invariant handed == if hasBridge then FramesOf(arith, answers[..n]) else []
      {
        var item := answers[n];
        FramesStep(arith, answers, n);
        n := n + 1;
        if item.None? || item.value.None? {
          continue;
        }
        assert item == Some(Some(item.value.value));
        var frame := ProcessBlock(item.value.value);
        if !hasBridge {
          continue;
        }
        handed := handed + [frame];
      }
      assert answers[..n] == answers;
    }
  }
}
