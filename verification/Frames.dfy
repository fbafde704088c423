/** Samples as bytes, and the frames built from descriptors of shared memory. */
module Frames {
  import opened LittleEndian
  import opened Options
  import opened Powers

  type int32 = x: int | -0x8000_0000 <= x < 0x8000_0000
  type uint32 = x: int | 0 <= x < 0x1_0000_0000

  const UINT64_RANGE := 0x1_0000_0000_0000_0000

  // ---- Little-endian samples ----

  /** The four bytes of a sample, lowest first, in two's complement. */
  function SampleBytes(v: int32): (b: seq<byte>)
    ensures |b| == 4
  {
    var u: int := if v < 0 then v + 0x1_0000_0000 else v;
    var u1 := u / 0x100;
    var u2 := u1 / 0x100;
    [u % 0x100, u1 % 0x100, u2 % 0x100, u2 / 0x100]
  }

  function SampleOf(b0: byte, b1: byte, b2: byte, b3: byte): int32 {
    var u: int := b0 + 0x100 * b1 + 0x1_0000 * b2 + 0x100_0000 * b3;
    if u < 0x8000_0000 then u else u - 0x1_0000_0000
  }

  lemma SampleRoundTrip(b0: byte, b1: byte, b2: byte, b3: byte)
    ensures SampleBytes(SampleOf(b0, b1, b2, b3)) == [b0, b1, b2, b3]
  {
    var u: int := b0 + 0x100 * b1 + 0x1_0000 * b2 + 0x100_0000 * b3;
    var t1: int, t2: int := b1 + 0x100 * b2 + 0x1_0000 * b3, b2 + 0x100 * b3;
    assert u == 0x100 * t1 + b0 && t1 == 0x100 * t2 + b1;
    assert u / 0x100 == t1 && t1 / 0x100 == t2 && t2 / 0x100 == b3;
  }

  /** The sample in memory is the two's complement value of its four bytes, lowest first. */
  lemma SampleIsLittleEndian(b0: byte, b1: byte, b2: byte, b3: byte)
    ensures SampleOf(b0, b1, b2, b3) == Signed(LeValue([b0, b1, b2, b3]), 4)
  {
    PowersOfBytes();
    LeExplicit([b0, b1, b2, b3]);
    assert Pow2(32) == 0x1_0000_0000 by { Pow2Byte(24); }
  }

  /** And it is written as the four bytes of its unsigned value, lowest first. */
  lemma SampleBytesAreLittleEndian(v: int32)
    ensures InRange(v, 4) && SampleBytes(v) == LeBytes(Unsigned(v, 4), 4)
  {
    RangesExplicit(v);
    assert Pow2(32) == 0x1_0000_0000 by { PowersOfBytes(); Pow2Byte(24); }
    var u := Unsigned(v, 4);
    LeBytesOfFour(u);
  }

  lemma LeBytesOfFour(u: nat)
    requires u < 0x1_0000_0000
    ensures LeBytes(u, 4) == [u % 0x100, u / 0x100 % 0x100, u / 0x100 / 0x100 % 0x100, u / 0x100 / 0x100 / 0x100]
  {
    var u1 := u / 0x100;
    var u2 := u1 / 0x100;
    var u3 := u2 / 0x100;
    assert LeBytes(u3, 1) == [u3 % 0x100] && u3 < 0x100;
    assert LeBytes(u2, 2) == [u2 % 0x100] + LeBytes(u3, 1);
    assert LeBytes(u1, 3) == [u1 % 0x100] + LeBytes(u2, 2);
    assert LeBytes(u, 4) == [u % 0x100] + LeBytes(u1, 3);
  }

  /** Sample i of a memory area is the value of bytes 4i to 4i + 3. */
  lemma {:induction false} SampleAtPlace(area: seq<byte>, i: nat)
    requires 4 * i + 4 <= |area|
    ensures i < |Samples(area)| && Samples(area)[i] == Signed(LeValue(area[4 * i..4 * i + 4]), 4)
    decreases i
  {
    if i == 0 {
      SampleIsLittleEndian(area[0], area[1], area[2], area[3]);
      assert area[0..4] == [area[0], area[1], area[2], area[3]];
    } else {
      SampleAtPlace(area[4..], i - 1);
      assert area[4..][4 * (i - 1)..4 * (i - 1) + 4] == area[4 * i..4 * i + 4];
    }
  }

  /** The bytes of a run of samples, in order. */
  function Bytes(samples: seq<int32>): (b: seq<byte>)
    ensures |b| == 4 * |samples|
  {
    if samples == [] then [] else SampleBytes(samples[0]) + Bytes(samples[1..])
  }

  /** The samples a memory area holds; an incomplete last sample is ignored. */
  function Samples(area: seq<byte>): seq<int32> {
    if |area| < 4 then [] else [SampleOf(area[0], area[1], area[2], area[3])] + Samples(area[4..])
  }

  lemma {:induction false} BytesConcat(a: seq<int32>, b: seq<int32>)
    ensures Bytes(a + b) == Bytes(a) + Bytes(b)
  {
    if a == [] {
      assert a + b == b;
    } else {
      assert (a + b)[1..] == a[1..] + b;
      BytesConcat(a[1..], b);
    }
  }

  /** Copying memory into samples and writing the samples out gives the memory back. */
  lemma {:induction false} BytesOfSamples(area: seq<byte>)
    requires |area| % 4 == 0
    ensures Bytes(Samples(area)) == area && 4 * |Samples(area)| == |area|
  {
    if area != [] {
      BytesOfSamples(area[4..]);
      SampleRoundTrip(area[0], area[1], area[2], area[3]);
      assert area == area[..4] + area[4..];
      assert area[..4] == [area[0], area[1], area[2], area[3]];
    }
  }

  // ---- Frames ----

  datatype Descriptor = Descriptor(sequence: uint32, shmOffset: uint32, sampleCount: uint32, channels: uint32)

  datatype Frame = Frame(desc: Descriptor, samples: seq<int32>)

  /** A shared pointer to a frame, possibly null. */
  type FramePtr = Option<Frame>

  function PtrBytes(p: FramePtr): seq<byte> {
    if p.None? then [] else Bytes(p.value.samples)
  }

  /** The bytes of a list of frames, in order. */
  function StreamBytes(ptrs: seq<FramePtr>): seq<byte> {
    if ptrs == [] then [] else PtrBytes(ptrs[0]) + StreamBytes(ptrs[1..])
  }

  lemma {:induction false} StreamConcat(a: seq<FramePtr>, b: seq<FramePtr>)
    ensures StreamBytes(a + b) == StreamBytes(a) + StreamBytes(b)
  {
    if a == [] {
      assert a + b == b;
    } else {
      assert (a + b)[1..] == a[1..] + b;
      StreamConcat(a[1..], b);
    }
  }

  lemma StreamSingle(p: FramePtr)
    ensures StreamBytes([p]) == PtrBytes(p)
  {
    assert StreamBytes([p]) == PtrBytes(p) + StreamBytes([]);
  }

  function TotalSamples(d: Descriptor): nat {
    d.sampleCount * d.channels
  }

  /** The area a descriptor names, in bytes. */
  function AreaBytes(d: Descriptor): nat {
    4 * TotalSamples(d)
  }

  /** The whole sequence of checks: not empty, and inside the shared memory. */
  predicate WellFormed(d: Descriptor, shmSize: nat) {
    d.sampleCount > 0 && d.channels > 0 && d.shmOffset + AreaBytes(d) <= shmSize
  }

  /** What a descriptor stands for: null, or a frame with a copy of its area. */
  function BuiltFrame(d: Descriptor, memory: seq<byte>): FramePtr {
    if WellFormed(d, |memory|)
    then Some(Frame(d, Samples(memory[d.shmOffset..d.shmOffset + AreaBytes(d)])))
    else None
  }

  /** A frame carries exactly the bytes of its area, all sampleCount * channels samples. */
  lemma FrameCarriesArea(d: Descriptor, memory: seq<byte>)
    requires BuiltFrame(d, memory).Some?
    ensures PtrBytes(BuiltFrame(d, memory)) == memory[d.shmOffset..d.shmOffset + AreaBytes(d)]
    ensures |BuiltFrame(d, memory).value.samples| == TotalSamples(d)
    ensures BuiltFrame(d, memory).value.desc == d
  {
    var area := memory[d.shmOffset..d.shmOffset + AreaBytes(d)];
    BytesOfSamples(area);
  }

  /** The checks accept a descriptor exactly if it names samples and every byte of them is in the memory. */
  lemma AcceptedExactly(d: Descriptor, memory: seq<byte>)
    ensures BuiltFrame(d, memory).Some?
            <==> d.sampleCount > 0 && d.channels > 0
                 && d.shmOffset + 4 * (d.sampleCount * d.channels) <= |memory|
  {
  }

  /** The sample at a place of the memory. */
  function MemorySample(memory: seq<byte>, at: nat): int
    requires at + 4 <= |memory|
  {
    Signed(LeValue(memory[at..at + 4]), 4)
  }

  lemma SampleInArea(memory: seq<byte>, offset: nat, size: nat, i: nat)
    requires offset + size <= |memory| && 4 * i + 4 <= size
    ensures i < |Samples(memory[offset..offset + size])|
    ensures Samples(memory[offset..offset + size])[i] == MemorySample(memory, offset + 4 * i)
  {
    var area := memory[offset..offset + size];
    SampleAtPlace(area, i);
    SliceOfSlice(memory, offset, size, 4 * i, 4);
  }

  lemma SliceOfSlice(s: seq<byte>, lo: nat, size: nat, at: nat, count: nat)
    requires lo + size <= |s| && at + count <= size
    ensures s[lo..lo + size][at..at + count] == s[lo + at..lo + at + count]
  {
    var inner, outer := s[lo..lo + size][at..at + count], s[lo + at..lo + at + count];
    forall k | 0 <= k < count
      ensures inner[k] == outer[k]
    {
      assert inner[k] == s[lo..lo + size][at + k] == s[lo + (at + k)];
    }
  }

  /** A frame's samples: sample i is the value of the memory's bytes offset + 4i to offset + 4i + 3. */
  ghost predicate SamplesFrom(samples: seq<int32>, memory: seq<byte>, offset: nat) {
    forall i | 0 <= i < |samples| ::
      offset + 4 * i + 4 <= |memory| && samples[i] == MemorySample(memory, offset + 4 * i)
  }

  lemma AreaSamples(memory: seq<byte>, offset: nat, count: nat)
    requires offset + 4 * count <= |memory|
    ensures var samples := Samples(memory[offset..offset + 4 * count]);
            |samples| == count && SamplesFrom(samples, memory, offset)
  {
    var samples := Samples(memory[offset..offset + 4 * count]);
    BytesOfSamples(memory[offset..offset + 4 * count]);
    hide Samples, MemorySample, Bytes;
    forall i | 0 <= i < |samples|
      ensures offset + 4 * i + 4 <= |memory| && samples[i] == MemorySample(memory, offset + 4 * i)
    {
      SampleInArea(memory, offset, 4 * count, i);
    }
  }

  lemma FrameSamples(d: Descriptor, memory: seq<byte>)
    requires BuiltFrame(d, memory).Some?
    ensures |BuiltFrame(d, memory).value.samples| == d.sampleCount * d.channels
    ensures SamplesFrom(BuiltFrame(d, memory).value.samples, memory, d.shmOffset)
  {
    hide SamplesFrom;
    AreaSamples(memory, d.shmOffset, TotalSamples(d));
  }

  lemma MulMonotone(x: nat, y: nat, z: nat)
    requires x <= z
    ensures x * y <= z * y
  {
  }

  lemma TotalSamplesBounds(d: Descriptor)
    ensures TotalSamples(d) < UINT64_RANGE
    ensures d.sampleCount > 0 && d.channels > 0 ==> TotalSamples(d) > 0
  {
    MulMonotone(d.sampleCount, d.channels, 0xFFFF_FFFF);
    MulAtLeast(d.sampleCount, d.channels);
  }

  /** Unsigned 64-bit arithmetic. */
  function Wrap64(x: nat): nat { x % UINT64_RANGE }

  /** The size checks of build_frame on 64-bit values; the number of bytes to copy if they pass. */
  function CheckedBytes(totalSamples: nat, offset: nat, shmSize: nat): Option<nat> {
    var byteCount := Wrap64(totalSamples * 4);
    if totalSamples == 0 || totalSamples > (UINT64_RANGE - 1) / 4 then None
    else if offset > shmSize || byteCount > shmSize || Wrap64(offset + byteCount) > shmSize then None
    else Some(byteCount)
  }

  /** None of the products and sums wraps, so the checks ask only whether the area fits. */
  lemma ChecksAskFit(totalSamples: nat, offset: uint32, shmSize: nat)
    requires totalSamples < UINT64_RANGE && shmSize <= 0x8000_0000_0000_0000
    ensures CheckedBytes(totalSamples, offset, shmSize)
         == if totalSamples > 0 && offset + 4 * totalSamples <= shmSize then Some(4 * totalSamples) else None
  {
  }

  lemma WrapBelow(x: nat)
    requires x < UINT64_RANGE
    ensures Wrap64(x) == x
  {
  }

  lemma ChecksAskWellFormed(d: Descriptor, shmSize: nat)
    requires d.sampleCount > 0 && d.channels > 0 && shmSize <= 0x8000_0000_0000_0000
    ensures CheckedBytes(Wrap64(TotalSamples(d)), d.shmOffset, shmSize)
         == if WellFormed(d, shmSize) then Some(AreaBytes(d)) else None
  {
    TotalSamplesBounds(d);
    WrapBelow(TotalSamples(d));
    ChecksAskFit(TotalSamples(d), d.shmOffset, shmSize);
  }

  /** build_frame accepts exactly the well-formed descriptors and copies exactly their area. */
  method BuildFrame(d: Descriptor, mapped: bool, memory: seq<byte>) returns (frame: FramePtr)
    requires |memory| <= 0x8000_0000_0000_0000
    ensures frame == if mapped then BuiltFrame(d, memory) else None
    ensures frame.Some? ==> frame.value.desc == d && SamplesFrom(frame.value.samples, memory, d.shmOffset)
  {
    hide SamplesFrom;
    if !mapped || d.sampleCount == 0 || d.channels == 0 {
      return None;
    }
    var byteCount := CheckedBytes(Wrap64(TotalSamples(d)), d.shmOffset, |memory|);
    ChecksAskWellFormed(d, |memory|);
    if byteCount.None? {
      return None;
    }
    FrameSamples(d, memory);
    return Some(Frame(d, Samples(memory[d.shmOffset..d.shmOffset + byteCount.value])));
  }
}
