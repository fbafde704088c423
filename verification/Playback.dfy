/** Playing a WAV file: conversion to 16 bits and the loop that hands frames to the device. */
module Playback {
  import opened LittleEndian
  import WavReader

  type int16 = x: int | -0x8000 <= x < 0x8000

  function Clamp(x: real): real {
    if x < -1.0 then -1.0 else if x > 1.0 then 1.0 else x
  }

  /** Conversion to an integer drops the fraction, towards zero. */
  function Truncate(x: real): int {
    if x >= 0.0 then x.Floor else -((-x).Floor)
  }

  function ToPcm(x: real): int {
    Truncate(Clamp(x) * 32767.0)
  }

  /** Every converted sample fits 16 bits, short of the most negative one. */
  lemma PcmFits(x: real)
    ensures -32767 <= ToPcm(x) <= 32767
  {
    var y := Clamp(x) * 32767.0;
    assert -32767.0 <= y <= 32767.0;
  }

  /** Within full scale a sample goes to the next step towards zero; beyond it to the end of the range. */
  lemma PcmExactly(x: real)
    ensures 0.0 <= x <= 1.0 ==> ToPcm(x) as real <= x * 32767.0 < ToPcm(x) as real + 1.0
    ensures x >= 1.0 ==> ToPcm(x) == 32767
    ensures ToPcm(-x) == -ToPcm(x)
  {
  }

  /** One step closer to zero. */
  function TowardsZero(v: int): int {
    if v > 0 then v - 1 else if v < 0 then v + 1 else 0
  }

  /** Samples that came from a file as 16-bit values leave one step closer to zero. */
  lemma PcmOfSixteenBits(v: int16)
    ensures ToPcm(WavReader.Scale(v, 2)) == TowardsZero(v)
  {
    LittleEndian.PowersOfBytes();
    WavReader.ScaleInRange(v, 2);
    var x := WavReader.Scale(v, 2);
    var y := x * 32767.0;
    assert x * 32768.0 == v as real;
    assert y == v as real - x;
  }

  function Converted(pcm: seq<real>): seq<int> {
    seq(|pcm|, i requires 0 <= i < |pcm| => ToPcm(pcm[i]))
  }

  /** The number of samples in some frames. */
  function SamplesIn(frames: nat, channels: nat): nat {
    frames * channels
  }

  lemma SamplesAdd(a: nat, b: nat, channels: nat)
    ensures SamplesIn(a + b, channels) == SamplesIn(a, channels) + SamplesIn(b, channels)
  {
  }

  lemma WholeFramesFit(samples: nat, channels: nat)
    requires channels > 0
    ensures SamplesIn(samples / channels, channels) <= samples
  {
  }

  /** The whole frames among the samples. */
  function WholeFrames(samples: seq<int>, channels: nat): seq<int>
    requires channels > 0
  {
    WholeFramesFit(|samples|, channels);
    samples[..SamplesIn(|samples| / channels, channels)]
  }

  /** All samples but fewer than one frame, a whole number of frames. */
  lemma MostFrames(samples: seq<int>, channels: nat)
    requires channels > 0
    ensures var whole := WholeFrames(samples, channels);
            && whole <= samples && |samples| < |whole| + channels
            && |whole| == channels * (|samples| / channels)
  {
    var frames := |samples| / channels;
    WholeFramesFit(|samples|, channels);
    assert |samples| == channels * frames + |samples| % channels;
  }

  /** What was heard has been extended by a beginning of these samples. */
  ghost predicate HeardFrom(was: seq<int>, heard: seq<int>, samples: seq<int>) {
    && |was| <= |heard| <= |was| + |samples|
    && heard == was + samples[..|heard| - |was|]
  }

  /** An outcome the model does not determine. */
  method Any() returns (b: bool) {
    b := *;
  }

  /** How many frames the device takes of those offered, or a negative error. */
  method AnyCount(most: nat) returns (n: int)
    ensures n <= most
  {
    n := *;
    if n > most {
      n := most;
    }
  }

  /** How a playback ended, or that the device still has not taken everything. */
  datatype Outcome = Played | Failed | Waiting

  class Device {
    /** The samples the device has taken. */
    ghost var heard: seq<int>

    constructor ()
      ensures heard == []
    {
      heard := [];
    }

    /** Takes the first of the frames offered, or fails and takes none. */
    method WriteFrames(offered: seq<int>, count: nat, channels: nat) returns (n: int)
      requires |offered| == SamplesIn(count, channels)
      modifies this
      ensures n <= count
      ensures n <= 0 ==> heard == old(heard)
      ensures n > 0 ==> SamplesIn(n, channels) <= |offered| && heard == old(heard) + offered[..SamplesIn(n, channels)]
    {
      n := AnyCount(count);
      if n > 0 {
        SamplesAdd(n, count - n, channels);
        heard := heard + offered[..SamplesIn(n, channels)];
      }
    }

    /**
     * Plays the whole frames of the samples, in order and each once, however the device splits
     * them; in between it has heard a beginning of them. The run is followed until it ends or the
     * device has made no progress a given number of times.
     */
    method PlayWithAlsa(pcm: seq<real>, channels: nat, stalls: nat) returns (outcome: Outcome)
      requires channels > 0
      modifies this
      ensures outcome.Played? ==> heard == old(heard) + WholeFrames(Converted(pcm), channels)
      ensures HeardFrom(old(heard), heard, Converted(pcm))
    {
      hide SamplesIn, ToPcm;
      var ready := Any();
      if !ready {
        return Failed;
      }
      var samples := Converted(pcm);
      var total := |samples| / channels;
      WholeFramesFit(|samples|, channels);
      var written, patience: nat := 0, stalls;
      NoSamples(channels);
      while written < total
        invariant 0 <= written <= total
        invariant SamplesIn(written, channels) <= SamplesIn(total, channels) <= |samples|
        invariant heard == old(heard) + samples[..SamplesIn(written, channels)]
        decreases total - written, patience
      {
        if patience == 0 {
          return Waiting;
        }
        var from, to := SamplesIn(written, channels), SamplesIn(total, channels);
        SamplesAdd(written, total - written, channels);
        var n := WriteFrames(samples[from..to], total - written, channels);
        if n < 0 {
          var recovered := Any();
          if !recovered {
            return Failed;
          }
          patience := patience - 1;
        } else if n == 0 {
          patience := patience - 1;
        } else {
          SamplesAdd(written, n, channels);
          SamplesAdd(written + n, total - written - n, channels);
          var taken := SamplesIn(n, channels);
          assert samples[..from] + samples[from..to][..taken] == samples[..from + taken];
          written := written + n;
        }
      }
      var drained := Any();
      outcome := if drained then Played else Failed;
    }

    /** Reads, brings to the device's rate and plays a file; resample is the library's answer. */
    method PlayWavFile(bytes: seq<byte>, playbackRate: nat, resample: WavReader.Wav -> seq<real>, stalls: nat)
      returns (outcome: Outcome)
      modifies this
      ensures var wav := WavReader.ParseWav(bytes);
              var own := wav.Some? && wav.value.sampleRate == playbackRate;
              if wav.None? || (!own && resample(wav.value) == []) then outcome == Failed && heard == old(heard)
              else
                var samples := Converted(if own then wav.value.samples else resample(wav.value));
                && HeardFrom(old(heard), heard, samples)
                && (outcome.Played? ==> heard == old(heard) + WholeFrames(samples, wav.value.channels))
    {
      var wav := WavReader.ReadWav(bytes);
      if wav.None? {
        return Failed;
      }
      var resampled := AtRate(wav.value, playbackRate, resample);
      if resampled == [] {
        return Failed;
      }
      WavReader.SamplesAreFractions(bytes);
      outcome := PlayWithAlsa(resampled, wav.value.channels, stalls);
    }
  }

  /** The samples at the device's rate: the file's own, or the library's, none if it fails. */
  function AtRate(wav: WavReader.Wav, playbackRate: nat, resample: WavReader.Wav -> seq<real>): seq<real> {
    if wav.sampleRate == playbackRate then wav.samples else resample(wav)
  }

  lemma NoSamples(channels: nat)
    ensures SamplesIn(0, channels) == 0
  {
  }

  /** A 16-bit file played at its own rate: each sample one step closer to zero. */
  lemma BypassOfSixteenBits(values: seq<int16>)
    ensures Converted(WavReader.Scaled(values, 2))
            == seq(|values|, i requires 0 <= i < |values| => TowardsZero(values[i]))
  {
    forall i | 0 <= i < |values|
      ensures Converted(WavReader.Scaled(values, 2))[i]
              == TowardsZero(values[i])
    {
      PcmOfSixteenBits(values[i]);
    }
  }
}
