/**
 * The WAV reader: a walk over RIFF chunks of an input file, the decoding of PCM samples, and the
 * proof that reading undoes writing.
 */
module WavReader {
  import opened Options
  import opened Powers
  import opened Bits
  import opened LittleEndian

  // ---- Samples ----

  predicate SampleWidth(width: nat) {
    width == 2 || width == 3 || width == 4
  }

  /** The 24-bit decoding: three bytes joined, the sign bit spread over the top byte. */
  function DecodePcm24(p: seq<byte>): int
    requires |p| == 3
  {
    var value := Or(Or(p[0], ShiftLeft(p[1], 8)), ShiftLeft(p[2], 16));
    var extended := if And(value, 0x80_0000) != 0 then Or(value, 0xFF00_0000) else value;
    if extended < 0x8000_0000 then extended else extended - 0x1_0000_0000
  }

  lemma SignedOfThree(u: nat)
    ensures Signed(u, 3) == if u < 0x80_0000 then u as int else u as int - 0x100_0000
  {
    PowersOfBytes();
  }

  lemma JoinedBytes(p: seq<byte>)
    requires |p| == 3
    ensures var value := p[0] as nat + 0x100 * p[1] as nat + 0x1_0000 * p[2] as nat;
            && (value < 0x80_0000 ==> DecodePcm24(p) == value)
            && (value >= 0x80_0000 ==> DecodePcm24(p) == value as int - 0x100_0000)
  {
    PowersOfBytes();
    hide Or, And, Pow2;
    var low := p[0] as nat + 0x100 * p[1] as nat;
    var value := low + 0x1_0000 * p[2] as nat;
    OrClear(p[0], p[1], 8);
    OrClear(low, p[2], 16);
    assert ShiftLeft(p[1], 8) == 0x100 * p[1] as nat && ShiftLeft(p[2], 16) == 0x1_0000 * p[2] as nat;
    AndBit(value, 23);
    OrClear(value, 0xFF, 24);
    assert ShiftLeft(0xFF, 24) == 0xFF00_0000;
  }

  /** The 24-bit decoding is two's complement. */
  lemma DecodePcm24IsSigned(p: seq<byte>)
    requires |p| == 3
    ensures DecodePcm24(p) == Signed(LeValue(p), 3)
  {
    JoinedBytes(p);
    LeExplicit(p);
    SignedOfThree(LeValue(p));
  }

  /** What the reader makes of one sample's bytes. */
  function SampleAt(p: seq<byte>): int
    requires SampleWidth(|p|)
  {
    if |p| == 3 then DecodePcm24(p) else Signed(LeValue(p), |p|)
  }

  /** The samples of a data chunk; an incomplete last one is ignored. */
  function SampleValues(data: seq<byte>, width: nat): (values: seq<int>)
    requires SampleWidth(width)
    ensures |values| == |data| / width
  {
    if |data| < width then [] else [SampleAt(data[..width])] + SampleValues(data[width..], width)
  }

  lemma SampleValuesStep(data: seq<byte>, at: nat, width: nat)
    requires SampleWidth(width) && at <= |data| && |SampleValues(data[at..], width)| > 0
    ensures at + width <= |data|
    ensures SampleValues(data[at..], width)
            == [SampleAt(data[at..at + width])] + SampleValues(data[at + width..], width)
  {
    assert data[at..][..width] == data[at..at + width];
    assert data[at..][width..] == data[at + width..];
  }

  /** The bytes of a run of samples in two's complement. */
  function EncodeSamples(values: seq<int>, width: nat): seq<byte>
    requires SampleWidth(width) && forall v | v in values :: InRange(v, width)
  {
    if values == [] then [] else LeBytes(Unsigned(values[0], width), width) + EncodeSamples(values[1..], width)
  }

  lemma {:induction false} SamplesRoundTrip(values: seq<int>, width: nat)
    requires SampleWidth(width) && forall v | v in values :: InRange(v, width)
    ensures SampleValues(EncodeSamples(values, width), width) == values
  {
    if values != [] {
      var u := Unsigned(values[0], width);
      var first, rest := LeBytes(u, width), EncodeSamples(values[1..], width);
      SignedUndone(values[0], width);
      LeRoundTrip(u, width);
      assert (first + rest)[..width] == first && (first + rest)[width..] == rest;
      if width == 3 {
        DecodePcm24IsSigned(first);
      }
      SamplesRoundTrip(values[1..], width);
    }
  }

  lemma {:induction false} SampleValuesInRange(data: seq<byte>, width: nat)
    requires SampleWidth(width)
    ensures forall v | v in SampleValues(data, width) :: InRange(v, width)
  {
    if |data| >= width {
      var p := data[..width];
      if width == 3 {
        DecodePcm24IsSigned(p);
      }
      LeBounds(p);
      SignedRange(LeValue(p), width);
      SampleValuesInRange(data[width..], width);
    }
  }

  /** A sample as a fraction of full scale. */
  function Scale(v: int, width: nat): real
    requires width > 0
  {
    v as real / Pow2(8 * width - 1) as real
  }

  /**
   * The fraction a sample stands for does not depend on its width: more bytes only make finer steps.
   * The most negative sample of every width is minus full scale.
   */
  lemma ScaleIsWidthFree(v: int)
    ensures Scale(v, 2) == v as real / 32768.0
    ensures Scale(0x100 * v, 3) == Scale(v, 2) && Scale(0x1_0000 * v, 4) == Scale(v, 2)
    ensures Scale(-0x8000, 2) == Scale(-0x80_0000, 3) == Scale(-0x8000_0000, 4) == -1.0
  {
    PowersOfBytes();
    SameFraction(v as real, 32768.0, 256.0);
    SameFraction(v as real, 32768.0, 65536.0);
    assert (0x100 * v) as real == 256.0 * v as real && (0x1_0000 * v) as real == 65536.0 * v as real;
  }

  lemma SameFraction(x: real, d: real, k: real)
    requires d > 0.0 && k > 0.0
    ensures k * d > 0.0 && (k * x) / (k * d) == x / d
  {
    var q := x / d;
    assert x == q * d;
    assert k * x == q * (k * d);
  }

  /** The same samples with more bytes. */
  function Widened(values: seq<int>, factor: int): seq<int> {
    seq(|values|, i requires 0 <= i < |values| => factor * values[i])
  }

  lemma WidenedScale(values: seq<int>)
    ensures Scaled(Widened(values, 0x100), 3) == Scaled(values, 2) == Scaled(Widened(values, 0x1_0000), 4)
  {
    forall i | 0 <= i < |values|
      ensures Scale(0x100 * values[i], 3) == Scale(values[i], 2) == Scale(0x1_0000 * values[i], 4)
    {
      ScaleIsWidthFree(values[i]);
    }
  }

  function Scaled(values: seq<int>, width: nat): seq<real>
    requires width > 0
  {
    seq(|values|, i requires 0 <= i < |values| => Scale(values[i], width))
  }

  // ---- Chunks ----

  const RIFF: seq<byte> := [0x52, 0x49, 0x46, 0x46]
  const WAVE: seq<byte> := [0x57, 0x41, 0x56, 0x45]
  const FMT: seq<byte> := [0x66, 0x6D, 0x74, 0x20]
  const DATA: seq<byte> := [0x64, 0x61, 0x74, 0x61]

  datatype Params = Params(format: nat, channels: nat, rate: nat, byteRate: nat, blockAlign: nat, bits: nat)

  datatype Fields = Fields(params: Params, data: seq<byte>)

  datatype Wav = Wav(sampleRate: nat, channels: nat, samples: seq<real>)

  const NO_PARAMS := Params(0, 0, 0, 0, 0, 0)

  function FieldAt(file: seq<byte>, pos: nat, width: nat): nat
    requires pos + width <= |file|
  {
    LeValue(file[pos..pos + width])
  }

  function ParamsAt(file: seq<byte>, pos: nat): Params
    requires pos + 16 <= |file|
  {
    Params(FieldAt(file, pos, 2), FieldAt(file, pos + 2, 2), FieldAt(file, pos + 4, 4),
           FieldAt(file, pos + 8, 4), FieldAt(file, pos + 12, 2), FieldAt(file, pos + 14, 2))
  }

  /** Where the next chunk begins, after the bytes read, those skipped, and the padding. */
  function NextChunk(pos: nat, id: seq<byte>, size: nat): (next: nat)
    ensures next >= pos + 8
  {
    pos + 8 + (if id == FMT && size < 16 then 16 else size) + size % 2
  }

  /**
   * The fields found from this position on, or nothing if a chunk that has to be read is cut short.
   * A chunk that is only skipped may reach past the end of the file, which ends the walk.
   */
  function Walk(file: seq<byte>, pos: nat, fields: Fields): Option<Fields>
    decreases |file| - pos
  {
    if pos + 8 > |file| then Some(fields)
    else
      var id, size := file[pos..pos + 4], FieldAt(file, pos + 4, 4);
      var next := NextChunk(pos, id, size);
      if id == FMT then
        if pos + 24 > |file| then None
        else Walk(file, next, fields.(params := ParamsAt(file, pos + 8)))
      else if id == DATA then
        if pos + 8 + size > |file| then None
        else Walk(file, next, fields.(data := file[pos + 8..pos + 8 + size]))
      else Walk(file, next, fields)
  }

  /** The file the fields describe, if the reader takes it. */
  function Finish(fields: Fields): Option<Wav> {
    var p := fields.params;
    if p.format != 1 || p.channels == 0 || p.rate == 0 || p.bits !in {16, 24, 32} || |fields.data| < p.bits / 8
    then None
    else Some(Wav(p.rate, p.channels, Scaled(SampleValues(fields.data, p.bits / 8), p.bits / 8)))
  }

  function ParseWav(file: seq<byte>): Option<Wav> {
    if |file| < 12 || file[..4] != RIFF || file[8..12] != WAVE then None
    else
      var fields := Walk(file, 12, Fields(NO_PARAMS, []));
      if fields.None? then None else Finish(fields.value)
  }

  /** Whatever the file holds, every sample is a fraction of full scale: at least -1 and below 1. */
  lemma SamplesAreFractions(file: seq<byte>)
    requires ParseWav(file).Some?
    ensures var wav := ParseWav(file).value;
            && wav.channels > 0 && wav.sampleRate > 0 && wav.samples != []
            && forall i | 0 <= i < |wav.samples| :: -1.0 <= wav.samples[i] < 1.0
  {
    var fields := Walk(file, 12, Fields(NO_PARAMS, [])).value;
    var width := fields.params.bits / 8;
    var values := SampleValues(fields.data, width);
    SampleValuesInRange(fields.data, width);
    assert |values| > 0;
    forall i | 0 <= i < |values|
      ensures -1.0 <= Scaled(values, width)[i] < 1.0
    {
      ScaleInRange(values[i], width);
    }
  }

  lemma ScaleInRange(v: int, width: nat)
    requires width > 0 && InRange(v, width)
    ensures -1.0 <= Scale(v, width) < 1.0
  {
    FractionInRange(v as real, Pow2(8 * width - 1) as real);
  }

  lemma FractionInRange(x: real, p: real)
    requires p > 0.0 && -p <= x < p
    ensures -1.0 <= x / p < 1.0
  {
    var q := x / p;
    assert x == q * p;
    assert q >= 1.0 ==> q * p >= p;
    assert q < -1.0 ==> q * p < -p;
  }

  // ---- Writing ----

  datatype Chunk =
    | FmtChunk(params: Params, extra: seq<byte>)
    | DataChunk(data: seq<byte>)
    | OtherChunk(id: seq<byte>, body: seq<byte>)

  function ParamsBytes(p: Params): (b: seq<byte>)
    ensures |b| == 16
  {
    LeBytes(p.format, 2) + LeBytes(p.channels, 2) + LeBytes(p.rate, 4)
    + LeBytes(p.byteRate, 4) + LeBytes(p.blockAlign, 2) + LeBytes(p.bits, 2)
  }

  function Id(c: Chunk): seq<byte> {
    match c
    case FmtChunk(_, _) => FMT
    case DataChunk(_) => DATA
    case OtherChunk(id, _) => id
  }

  function Body(c: Chunk): seq<byte> {
    match c
    case FmtChunk(params, extra) => ParamsBytes(params) + extra
    case DataChunk(data) => data
    case OtherChunk(_, body) => body
  }

  predicate ParamsFit(p: Params) {
    && Fits(p.format, 2) && Fits(p.channels, 2) && Fits(p.rate, 4)
    && Fits(p.byteRate, 4) && Fits(p.blockAlign, 2) && Fits(p.bits, 2)
  }

  /** A chunk that can be written: its size fits, and its name is its own. */
  predicate Writable(c: Chunk) {
    && Fits(|Body(c)|, 4)
    && (c.FmtChunk? ==> ParamsFit(c.params))
    && (c.OtherChunk? ==> |c.id| == 4 && c.id != FMT && c.id != DATA)
  }

  /** A chunk without its padding. */
  function Unpadded(c: Chunk): seq<byte> {
    Id(c) + LeBytes(|Body(c)|, 4) + Body(c)
  }

  function Padding(c: Chunk): seq<byte> {
    if |Body(c)| % 2 == 1 then [0] else []
  }

  function ChunkBytes(chunks: seq<Chunk>): seq<byte> {
    if chunks == [] then [] else Unpadded(chunks[0]) + Padding(chunks[0]) + ChunkBytes(chunks[1..])
  }

  /** A file of these chunks; the form size is not looked at, and fewer than 8 bytes may follow. */
  function Serialize(size: nat, chunks: seq<Chunk>, tail: seq<byte>): seq<byte> {
    RIFF + LeBytes(size, 4) + WAVE + ChunkBytes(chunks) + tail
  }

  function LastParams(chunks: seq<Chunk>, otherwise: Params): Params {
    if chunks == [] then otherwise
    else
      var before, last := chunks[..|chunks| - 1], chunks[|chunks| - 1];
      if last.FmtChunk? then last.params else LastParams(before, otherwise)
  }

  function LastData(chunks: seq<Chunk>, otherwise: seq<byte>): seq<byte> {
    if chunks == [] then otherwise
    else
      var before, last := chunks[..|chunks| - 1], chunks[|chunks| - 1];
      if last.DataChunk? then last.data else LastData(before, otherwise)
  }

  function Apply(fields: Fields, c: Chunk): Fields {
    match c
    case FmtChunk(params, _) => fields.(params := params)
    case DataChunk(data) => fields.(data := data)
    case OtherChunk(_, _) => fields
  }

  lemma {:induction false} LastAfterFirst(chunks: seq<Chunk>, fields: Fields)
    requires chunks != []
    ensures var next := Apply(fields, chunks[0]);
            && LastParams(chunks[1..], next.params) == LastParams(chunks, fields.params)
            && LastData(chunks[1..], next.data) == LastData(chunks, fields.data)
  {
    if |chunks| > 1 {
      var before := chunks[..|chunks| - 1];
      LastAfterFirst(before, fields);
      assert chunks[1..][..|chunks| - 2] == before[1..];
    }
  }

  lemma LastOfNone(fields: Fields)
    ensures Fields(LastParams([], fields.params), LastData([], fields.data)) == fields
  {
  }

  lemma Middle(file: seq<byte>, a: seq<byte>, b: seq<byte>, c: seq<byte>)
    requires file == a + b + c
    ensures |a| + |b| <= |file| && file[|a|..|a| + |b|] == b
  {
  }

  lemma Regroup(a: seq<byte>, b: seq<byte>, c: seq<byte>, d: seq<byte>, e: seq<byte>)
    ensures a + (b + c + d) + e == a + b + (c + d + e) == a + b + c + (d + e) == a + b + c + d + e
  {
  }

  lemma FieldIn(file: seq<byte>, a: seq<byte>, v: nat, width: nat, c: seq<byte>)
    requires file == a + LeBytes(v, width) + c && Fits(v, width)
    ensures |a| + width <= |file| && FieldAt(file, |a|, width) == v
  {
    Middle(file, a, LeBytes(v, width), c);
    LeRoundTrip(v, width);
  }

  lemma ParamsIn(file: seq<byte>, a: seq<byte>, p: Params, c: seq<byte>)
    requires file == a + ParamsBytes(p) + c && ParamsFit(p)
    ensures |a| + 16 <= |file| && ParamsAt(file, |a|) == p
  {
    hide LeBytes, LeValue, Fits;
    var f1, f2, f3 := LeBytes(p.format, 2), LeBytes(p.channels, 2), LeBytes(p.rate, 4);
    var f4, f5, f6 := LeBytes(p.byteRate, 4), LeBytes(p.blockAlign, 2), LeBytes(p.bits, 2);
    FieldIn(file, a, p.format, 2, f2 + f3 + f4 + f5 + f6 + c);
    FieldIn(file, a + f1, p.channels, 2, f3 + f4 + f5 + f6 + c);
    FieldIn(file, a + f1 + f2, p.rate, 4, f4 + f5 + f6 + c);
    FieldIn(file, a + f1 + f2 + f3, p.byteRate, 4, f5 + f6 + c);
    FieldIn(file, a + f1 + f2 + f3 + f4, p.blockAlign, 2, f6 + c);
    FieldIn(file, a + f1 + f2 + f3 + f4 + f5, p.bits, 2, c);
  }

  /** What the reader finds at a written chunk. */
  lemma ChunkIn(file: seq<byte>, before: seq<byte>, id: seq<byte>, body: seq<byte>, after: seq<byte>)
    requires file == before + (id + LeBytes(|body|, 4) + body) + after && |id| == 4 && Fits(|body|, 4)
    ensures var pos, size := |before|, |body|;
            && pos + 8 + size <= |file|
            && file[pos..pos + 4] == id && FieldAt(file, pos + 4, 4) == size
            && file[pos + 8..pos + 8 + size] == body
  {
    hide Fits, LeBytes, LeValue;
    var size := LeBytes(|body|, 4);
    Regroup(before, id, size, body, after);
    Middle(file, before, id, size + body + after);
    FieldIn(file, before + id, |body|, 4, body + after);
    Middle(file, before + id + size, body, after);
  }

  /** What the reader finds in a written fmt chunk. */
  lemma FmtIn(file: seq<byte>, before: seq<byte>, c: Chunk, after: seq<byte>)
    requires c.FmtChunk? && ParamsFit(c.params) && file == before + Unpadded(c) + after
    ensures |before| + 24 <= |file| && ParamsAt(file, |before| + 8) == c.params
  {
    hide LeBytes, ParamsBytes, ParamsAt, ParamsFit;
    var head := FMT + LeBytes(|Body(c)|, 4);
    assert Unpadded(c) == head + ParamsBytes(c.params) + c.extra;
    Regroup(before, head, ParamsBytes(c.params), c.extra, after);
    Regroup(before + head, ParamsBytes(c.params), c.extra, [], after);
    ParamsIn(file, before + head, c.params, c.extra + after);
  }

  /** The walk over one written chunk, whatever follows it. */
  lemma WalkChunk(file: seq<byte>, before: seq<byte>, c: Chunk, after: seq<byte>, fields: Fields)
    requires Writable(c) && file == before + Unpadded(c) + after
    ensures Walk(file, |before|, fields)
            == Walk(file, |before| + |Unpadded(c)| + |Padding(c)|, Apply(fields, c))
  {
    hide FieldAt, ParamsAt, ParamsBytes, Fits, ParamsFit, LeBytes;
    ChunkIn(file, before, Id(c), Body(c), after);
    if c.FmtChunk? {
      FmtIn(file, before, c, after);
    }
    assert |Padding(c)| == |Body(c)| % 2;
  }

  /** The walk over written chunks that other bytes follow. */
  lemma {:induction false} WalkPrefix(file: seq<byte>, before: seq<byte>, chunks: seq<Chunk>, after: seq<byte>,
                                      fields: Fields)
    requires forall c | c in chunks :: Writable(c)
    requires file == before + ChunkBytes(chunks) + after
    ensures Walk(file, |before|, fields)
            == Walk(file, |before + ChunkBytes(chunks)|,
                    Fields(LastParams(chunks, fields.params), LastData(chunks, fields.data)))
    decreases chunks
  {
    hide Walk, Unpadded, Padding, LastParams, LastData, Apply, Writable;
    LastOfNone(fields);
    if chunks != [] {
      var c, rest := chunks[0], chunks[1..];
      var next := before + Unpadded(c) + Padding(c);
      Regroup(before, Unpadded(c), Padding(c), ChunkBytes(rest), after);
      WalkChunk(file, before, c, Padding(c) + ChunkBytes(rest) + after, fields);
      WalkPrefix(file, next, rest, after, Apply(fields, c));
      LastAfterFirst(chunks, fields);
    }
  }

  /** Reading undoes writing: the last fmt chunk and the last data chunk decide. */
  lemma ReadingUndoesWriting(size: nat, chunks: seq<Chunk>, tail: seq<byte>)
    requires (forall c | c in chunks :: Writable(c)) && |tail| < 8
    ensures ParseWav(Serialize(size, chunks, tail))
            == Finish(Fields(LastParams(chunks, NO_PARAMS), LastData(chunks, [])))
  {
    var file := Serialize(size, chunks, tail);
    var head := RIFF + LeBytes(size, 4) + WAVE;
    assert file[..4] == RIFF && file[8..12] == WAVE;
    WalkPrefix(file, head, chunks, tail, Fields(NO_PARAMS, []));
  }

  /** The samples written are the samples read, at every supported width. */
  lemma SamplesSurvive(size: nat, chunks: seq<Chunk>, tail: seq<byte>, values: seq<int>)
    requires (forall c | c in chunks :: Writable(c)) && |tail| < 8
    requires var p := LastParams(chunks, NO_PARAMS);
             && p.format == 1 && p.channels != 0 && p.rate != 0 && p.bits in {16, 24, 32}
             && values != [] && (forall v | v in values :: InRange(v, p.bits / 8))
             && LastData(chunks, []) == EncodeSamples(values, p.bits / 8)
    ensures var p := LastParams(chunks, NO_PARAMS);
            ParseWav(Serialize(size, chunks, tail)) == Some(Wav(p.rate, p.channels, Scaled(values, p.bits / 8)))
  {
    var p := LastParams(chunks, NO_PARAMS);
    ReadingUndoesWriting(size, chunks, tail);
    SamplesRoundTrip(values, p.bits / 8);
    assert |SampleValues(LastData(chunks, []), p.bits / 8)| > 0;
  }

  /** The padding of the last chunk may be missing. */
  lemma LastPaddingMayBeMissing(size: nat, chunks: seq<Chunk>, last: Chunk)
    requires (forall c | c in chunks :: Writable(c)) && Writable(last)
    ensures ParseWav(Serialize(size, chunks, []) + Unpadded(last)) == ParseWav(Serialize(size, chunks + [last], []))
  {
    hide Walk, Unpadded, Padding, Finish, Writable, ChunkBytes;
    var head := RIFF + LeBytes(size, 4) + WAVE;
    var whole := head + ChunkBytes(chunks);
    assert Serialize(size, chunks, []) == whole;
    var file := whole + Unpadded(last);
    assert file[..4] == RIFF && file[8..12] == WAVE;
    var fields := Fields(LastParams(chunks, NO_PARAMS), LastData(chunks, []));
    WalkPrefix(file, head, chunks, Unpadded(last), Fields(NO_PARAMS, []));
    assert file == whole + Unpadded(last) + [];
    WalkChunk(file, whole, last, [], fields);
    WalkEnds(file, |whole| + |Unpadded(last)| + |Padding(last)|, Apply(fields, last));
    ReadingUndoesWriting(size, chunks + [last], []);
    assert (chunks + [last])[..|chunks|] == chunks;
  }

  lemma WalkEnds(file: seq<byte>, pos: nat, fields: Fields)
    requires pos + 8 > |file|
    ensures Walk(file, pos, fields) == Some(fields)
  {
  }

  /** Which written files are taken: only the last fmt and data chunks matter. */
  lemma AcceptedExactly(size: nat, chunks: seq<Chunk>, tail: seq<byte>)
    requires (forall c | c in chunks :: Writable(c)) && |tail| < 8
    ensures var p, data := LastParams(chunks, NO_PARAMS), LastData(chunks, []);
            ParseWav(Serialize(size, chunks, tail)).Some?
            <==> p.format == 1 && p.channels != 0 && p.rate != 0 && p.bits in {16, 24, 32} && |data| >= p.bits / 8
  {
    ReadingUndoesWriting(size, chunks, tail);
  }

  /** An empty data chunk at the end hides the samples before it: the file is refused. */
  lemma EmptyDataHidesEarlier(size: nat, chunks: seq<Chunk>, tail: seq<byte>)
    requires (forall c | c in chunks :: Writable(c)) && |tail| < 8
    ensures ParseWav(Serialize(size, chunks + [DataChunk([])], tail)) == None
  {
    assert Fits(0, 4);
    AcceptedExactly(size, chunks + [DataChunk([])], tail);
  }

  /** A file with these samples as its last fmt and data chunks say. */
  ghost predicate Holds(chunks: seq<Chunk>, bits: nat, values: seq<int>, rate: nat, channels: nat)
    requires bits in {16, 24, 32}
  {
    var p := LastParams(chunks, NO_PARAMS);
    && (forall c | c in chunks :: Writable(c))
    && p.format == 1 && p.channels == channels != 0 && p.rate == rate != 0 && p.bits == bits
    && (forall v | v in values :: InRange(v, bits / 8))
    && LastData(chunks, []) == EncodeSamples(values, bits / 8)
  }

  /** The same sound written with 16, 24 or 32 bits is read as the same samples. */
  lemma WidthDoesNotMatter(a: seq<Chunk>, b: seq<Chunk>, c: seq<Chunk>, values: seq<int>, rate: nat, channels: nat)
    requires values != [] && Holds(a, 16, values, rate, channels)
    requires Holds(b, 24, Widened(values, 0x100), rate, channels)
    requires Holds(c, 32, Widened(values, 0x1_0000), rate, channels)
    ensures ParseWav(Serialize(0, a, [])) == ParseWav(Serialize(0, b, [])) == ParseWav(Serialize(0, c, []))
            == Some(Wav(rate, channels, Scaled(values, 2)))
  {
    SamplesSurvive(0, a, [], values);
    SamplesSurvive(0, b, [], Widened(values, 0x100));
    SamplesSurvive(0, c, [], Widened(values, 0x1_0000));
    WidenedScale(values);
  }

  // ---- Where everything is ----

  /** The bytes spell the name. */
  predicate Spells(bytes: seq<byte>, name: string) {
    |bytes| == |name| && forall i | 0 <= i < |name| :: bytes[i] == name[i] as int
  }

  lemma Names()
    ensures Spells(RIFF, "RIFF") && Spells(WAVE, "WAVE") && Spells(FMT, "fmt ") && Spells(DATA, "data")
  {
  }

  /** The place of every field of a fmt chunk that the reader looks at. */
  lemma Layout(file: seq<byte>, pos: nat)
    requires pos + 16 <= |file|
    ensures var p := ParamsAt(file, pos);
            && p.format == file[pos] as nat + 0x100 * file[pos + 1] as nat
            && p.channels == file[pos + 2] as nat + 0x100 * file[pos + 3] as nat
            && p.rate == Word(file, pos + 4)
            && p.bits == file[pos + 14] as nat + 0x100 * file[pos + 15] as nat
  {
    HalfWord(file, pos);
    HalfWord(file, pos + 2);
    WholeWord(file, pos + 4);
    HalfWord(file, pos + 14);
  }

  /** Four bytes, lowest first. */
  function Word(file: seq<byte>, at: nat): nat
    requires at + 4 <= |file|
  {
    file[at] as nat + 0x100 * file[at + 1] as nat + 0x1_0000 * file[at + 2] as nat + 0x100_0000 * file[at + 3] as nat
  }

  lemma WholeWord(file: seq<byte>, at: nat)
    requires at + 4 <= |file|
    ensures FieldAt(file, at, 4) == Word(file, at)
  {
    LeExplicit(file[at..at + 4]);
  }

  lemma HalfWord(file: seq<byte>, at: nat)
    requires at + 2 <= |file|
    ensures FieldAt(file, at, 2) == file[at] as nat + 0x100 * file[at + 1] as nat
  {
    LeExplicit(file[at..at + 2]);
  }

  /** After its name and size a chunk takes its bytes, rounded up to an even number. */
  lemma ChunksAreEven(pos: nat, id: seq<byte>, size: nat)
    ensures id != FMT || size >= 16 ==> NextChunk(pos, id, size) == pos + 8 + 2 * ((size + 1) / 2)
    ensures id == FMT && size < 16 ==> NextChunk(pos, id, size) == pos + 24 + size % 2
  {
  }

  /** A header, a fmt chunk of 16 bytes and one 16-bit sample at 48 kHz. */
  predicate Smallest(file: seq<byte>) {
    && |file| == 46 && Spells(file[..4], "RIFF") && Spells(file[8..12], "WAVE")
    && Spells(file[12..16], "fmt ") && Word(file, 16) == 16
    && file[20] == 1 && file[21] == 0 && file[22] == 1 && file[23] == 0 && Word(file, 24) == 48000
    && file[34] == 16 && file[35] == 0
    && Spells(file[36..40], "data") && Word(file, 40) == 2
  }

  /** What is read from it: one sample, the two's complement value of the last two bytes over 32768. */
  lemma SmallestFileRead(file: seq<byte>)
    requires Smallest(file)
    ensures var u := file[44] as nat + 0x100 * file[45] as nat;
            ParseWav(file) == Some(Wav(48000, 1, [(if u < 0x8000 then u as real else u as real - 65536.0) / 32768.0]))
  {
    hide Walk, ParamsAt, Smallest, SampleValues, Scaled;
    SmallestHeader(file);
    OneSample(file[44..46]);
    var fields := Fields(ParamsAt(file, 20), file[44..46]);
    assert Finish(fields) == Some(Wav(48000, 1, Scaled(SampleValues(fields.data, 2), 2)));
  }

  lemma SmallestHeader(file: seq<byte>)
    requires Smallest(file)
    ensures |file| == 46 && file[..4] == RIFF && file[8..12] == WAVE
    ensures var p := ParamsAt(file, 20);
            && Walk(file, 12, Fields(NO_PARAMS, [])) == Some(Fields(p, file[44..46]))
            && p.format == 1 && p.channels == 1 && p.rate == 48000 && p.bits == 16
  {
    hide Walk, ParamsAt, FieldAt, Word;
    Names();
    Layout(file, 20);
    WholeWord(file, 16);
    WholeWord(file, 40);
    assert file[..4] == RIFF && file[8..12] == WAVE && file[12..16] == FMT && file[36..40] == DATA;
    WalkSmallest(file);
  }

  lemma OneSample(data: seq<byte>)
    requires |data| == 2
    ensures var u := data[0] as nat + 0x100 * data[1] as nat;
            Scaled(SampleValues(data, 2), 2) == [(if u < 0x8000 then u as real else u as real - 65536.0) / 32768.0]
  {
    assert data[..2] == data && data[2..] == [];
    assert SampleValues(data, 2) == [Signed(LeValue(data), 2)];
    hide SampleValues;
    LeExplicit(data);
    hide LeValue;
    PowersOfBytes();
  }

  lemma WalkSmallest(file: seq<byte>)
    requires |file| == 46 && file[12..16] == FMT && file[36..40] == DATA
    requires FieldAt(file, 16, 4) == 16 && FieldAt(file, 40, 4) == 2
    ensures Walk(file, 12, Fields(NO_PARAMS, [])) == Some(Fields(ParamsAt(file, 20), file[44..46]))
  {
    hide FieldAt, ParamsAt;
    var fields := Fields(ParamsAt(file, 20), []);
    assert FMT[0] == 0x66 && DATA[0] == 0x64;
    assert NextChunk(12, FMT, 16) == 36 && NextChunk(36, DATA, 2) == 46;
    assert Walk(file, 12, Fields(NO_PARAMS, [])) == Walk(file, 36, fields);
    assert Walk(file, 36, fields) == Walk(file, 46, fields.(data := file[44..46]));
  }

  // ---- The reader ----

  /** An input file stream: its position may be past the end; once a read falls short it has failed. */
  class InputFile {
    const bytes: seq<byte>
    var pos: nat
    var failed: bool

    constructor (bytes: seq<byte>)
      ensures this.bytes == bytes && pos == 0 && !failed
    {
      this.bytes, pos, failed := bytes, 0, false;
    }

    method Read(n: nat) returns (b: seq<byte>)
      modifies this
      ensures failed <==> old(failed) || old(pos) + n > |bytes|
      ensures !failed ==> pos == old(pos) + n && b == bytes[old(pos)..pos]
    {
      if failed || pos + n > |bytes| {
        b := if failed || pos > |bytes| then [] else bytes[pos..];
        pos, failed := pos + |b|, true;
      } else {
        b := bytes[pos..pos + n];
        pos := pos + n;
      }
    }

    /** Reads an unsigned integer; on failure the stream stays failed. */
    method ReadExact(width: nat) returns (ok: bool, v: nat)
      modifies this
      ensures ok == !failed && (failed <==> old(failed) || old(pos) + width > |bytes|)
      ensures ok ==> pos == old(pos) + width && v == FieldAt(bytes, old(pos), width)
    {
      var b := Read(width);
      ok, v := !failed, LeValue(b);
    }

    /** Seeking past the end succeeds. */
    method SkipBytes(count: nat) returns (ok: bool)
      modifies this
      ensures failed == old(failed) && ok == !failed
      ensures ok ==> pos == old(pos) + count
    {
      if !failed {
        pos := pos + count;
      }
      ok := !failed;
    }

    /** The fields of a fmt chunk, in file order. */
    method ReadParams() returns (ok: bool, params: Params)
      requires !failed
      modifies this
      ensures ok <==> old(pos) + 16 <= |bytes|
      ensures ok ==> !failed && pos == old(pos) + 16 && params == ParamsAt(bytes, old(pos))
    {
      params := NO_PARAMS;
      var format, channels, rate, byteRate, blockAlign, bits;
      ok, format := ReadExact(2);
      if ok {
        ok, channels := ReadExact(2);
      }
      if ok {
        ok, rate := ReadExact(4);
      }
      if ok {
        ok, byteRate := ReadExact(4);
      }
      if ok {
        ok, blockAlign := ReadExact(2);
      }
      if ok {
        ok, bits := ReadExact(2);
      }
      if ok {
        params := Params(format, channels, rate, byteRate, blockAlign, bits);
      }
    }
  }

  /** Reads one chunk; false if it is cut short. The stream fails when no chunk is left. */
  method ReadChunk(ifs: InputFile, fields: Fields) returns (ok: bool, after: Fields)
    requires !ifs.failed
    modifies ifs
    ensures !ok ==> Walk(ifs.bytes, old(ifs.pos), fields) == None
    ensures ok && ifs.failed ==> Walk(ifs.bytes, old(ifs.pos), fields) == Some(after)
    ensures ok && !ifs.failed ==>
      && ifs.pos > old(ifs.pos) && old(ifs.pos) <= |ifs.bytes|
      && Walk(ifs.bytes, old(ifs.pos), fields) == Walk(ifs.bytes, ifs.pos, after)
  {
    hide FieldAt, ParamsAt;
    after := fields;
    var id := ifs.Read(4);
    var size;
    ok, size := ifs.ReadExact(4);
    if !ok {
      return true, fields;
    }
    if id == FMT {
      var params;
      ok, params := ifs.ReadParams();
      if !ok {
        return;
      }
      after := after.(params := params);
      if size > 16 {
        ok := ifs.SkipBytes(size - 16);
      }
    } else if id == DATA {
      var data := ifs.Read(size);
      if ifs.failed {
        return false, fields;
      }
      after := after.(data := data);
    } else {
      ok := ifs.SkipBytes(size);
    }
    if ok && size % 2 != 0 {
      ok := ifs.SkipBytes(1);
    }
    assert ifs.pos == NextChunk(old(ifs.pos), id, size);
  }

  method ReadWav(bytes: seq<byte>) returns (wav: Option<Wav>)
    ensures wav == ParseWav(bytes)
  {
    hide Walk;
    var ifs := new InputFile(bytes);
    var riff := ifs.Read(4);
    var ok, riffSize := ifs.ReadExact(4);
    if !ok {
      return None;
    }
    var wave := ifs.Read(4);
    if ifs.failed || riff != RIFF || wave != WAVE {
      return None;
    }
    var fields := Fields(NO_PARAMS, []);
    while !ifs.failed
      invariant ifs.bytes == bytes
      invariant !ifs.failed ==> Walk(bytes, 12, Fields(NO_PARAMS, [])) == Walk(bytes, ifs.pos, fields)
      invariant ifs.failed ==> Walk(bytes, 12, Fields(NO_PARAMS, [])) == Some(fields)
      decreases !ifs.failed, |bytes| - ifs.pos
    {
      ok, fields := ReadChunk(ifs, fields);
      if !ok {
        return None;
      }
    }
    var p := fields.params;
    if p.format != 1 || p.channels == 0 || p.rate == 0 || fields.data == [] {
      return None;
    }
    if p.bits != 16 && p.bits != 24 && p.bits != 32 {
      return None;
    }
    var samples := DecodeSamples(fields.data, p.bits / 8);
    if samples == [] {
      return None;
    }
    return Some(Wav(p.rate, p.channels, samples));
  }

  method DecodeSamples(data: seq<byte>, width: nat) returns (samples: seq<real>)
    requires SampleWidth(width)
    ensures samples == Scaled(SampleValues(data, width), width)
  {
    hide SampleAt, Scale;
    var count := |data| / width;
    samples := [];
    var i, at := 0, 0;
    ghost var values := SampleValues(data, width);
    while i < count
      invariant 0 <= i <= count && 0 <= at <= |data|
      invariant SampleValues(data[at..], width) == values[i..]
      invariant samples == Scaled(values[..i], width)
    {
      assert |SampleValues(data[at..], width)| == |values[i..]|;
      SampleValuesStep(data, at, width);
      assert values[i..][1..] == values[i + 1..];
      assert values[i] == SampleAt(data[at..at + width]);
      samples := samples + [Scale(SampleAt(data[at..at + width]), width)];
      i, at := i + 1, at + width;
    }
    assert values[..i] == values;
  }
}
