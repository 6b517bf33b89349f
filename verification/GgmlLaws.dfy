/** Where the loader finds the tensors of a GGML file, and the round trip through a written file. */
module GgmlLaws {
  import opened Wrappers
  import opened ByteStream
  import opened GgmlSpec

  // ------------------------------------------------------------ layout of any file that loads

  function End(t: TensorInfo): nat { t.start + t.bytes }

  /** Where the header of tensor `k` is. */
  function Begin(ts: seq<TensorInfo>, o: nat, k: nat): nat
    requires k < |ts|
  {
    if k == 0 then o else End(ts[k - 1])
  }

  /** Tensor `k` begins at least twelve bytes after the tensor before it, with its fixed header inside the
      file; its data are aligned when the format pads, and follow at once otherwise. */
  ghost predicate Placed(ts: seq<TensorInfo>, o: nat, size: nat, padded: bool, k: nat)
    requires k < |ts|
  {
    && Begin(ts, o, k) + 12 <= ts[k].start && Begin(ts, o, k) + 12 <= size
    && (padded ==> ts[k].start % 32 == 0)
    && (ts[k].start <= size ==>
          ts[k].start == DataStart(Begin(ts, o, k), |ts[k].dims|, |ts[k].name|, padded))
  }

  lemma PaddingAligns(o: nat)
    ensures (o + Padding(o)) % 32 == 0 && Padding(o) < 32
  {
    var r := o % 32;
    assert o == 32 * (o / 32) + r;
    if r > 0 { assert o + Padding(o) == 32 * (o / 32 + 1); }
  }

  lemma DataStartIs(o: nat, dims: nat, nameBytes: nat, padded: bool)
    ensures DataStart(o, dims, nameBytes, padded) >= o + 12 + 4 * dims + nameBytes
    ensures padded ==> DataStart(o, dims, nameBytes, padded) % 32 == 0
    ensures !padded ==> DataStart(o, dims, nameBytes, padded) == o + 12 + 4 * dims + nameBytes
  {
    PaddingAligns(o + 12 + 4 * dims + nameBytes);
  }

  lemma TensorRead(data: seq<byte>, o: nat, padded: bool)
    requires LoadTensor(data, o, padded).Ok?
    ensures o + 12 <= |data| && U32(data, o) <= 4
    ensures var t := LoadTensor(data, o, padded).value;
            && t.item.start == DataStart(o, U32(data, o), U32(data, o + 4), padded) && t.read == End(t.item)
            && |t.item.dims| == U32(data, o)
            && t.item.name == Slice(data, o + 12 + 4 * U32(data, o), U32(data, o + 4))
  {
    hide QuantSize;
    hide DataSize;
    hide DataStart;
    hide Slice;
    hide U32;
    hide U32s;
  }

  lemma TensorPlaced(data: seq<byte>, o: nat, padded: bool)
    requires LoadTensor(data, o, padded).Ok?
    ensures var t := LoadTensor(data, o, padded).value;
            && t.read == End(t.item) && o + 12 <= t.item.start && o + 12 <= |data|
            && (padded ==> t.item.start % 32 == 0)
            && (t.item.start <= |data| ==> t.item.start == DataStart(o, |t.item.dims|, |t.item.name|, padded))
  {
    hide LoadTensor;
    hide DataStart;
    hide U32;
    TensorRead(data, o, padded);
    DataStartIs(o, U32(data, o), U32(data, o + 4), padded);
  }

  lemma PlacedAfter(t: TensorInfo, rest: seq<TensorInfo>, o: nat, size: nat, padded: bool, k: nat)
    requires k < |rest| && Placed(rest, End(t), size, padded, k)
    ensures Placed([t] + rest, o, size, padded, k + 1)
  {
    hide DataStart;
    assert Begin([t] + rest, o, k + 1) == Begin(rest, End(t), k);
  }

  /** Every tensor of a file that loads is placed after the one before, and the position returned is the end
      of the last one, at or past the end of the file. */
  lemma {:induction false} TensorsLaidOut(data: seq<byte>, o: nat, padded: bool)
    requires LoadTensors(data, o, padded).Ok?
    ensures var (ts, end) := (LoadTensors(data, o, padded).value.item, LoadTensors(data, o, padded).value.read);
            && |data| <= end && o + 12 * |ts| <= end
            && end == (if ts == [] then o else End(ts[|ts| - 1]))
            && forall k: nat | k < |ts| :: Placed(ts, o, |data|, padded, k)
    decreases |data| - o
  {
    hide LoadTensor;
    hide Placed;
    if o < |data| {
      FirstPlaced(data, o, padded);
      TensorTakesTwelve(data, o, padded);
      var t := LoadTensor(data, o, padded).value;
      TensorsLaidOut(data, t.read, padded);
      var rest, ts := LoadTensors(data, t.read, padded).value.item, LoadTensors(data, o, padded).value.item;
      assert ts == [t.item] + rest;
      forall k: nat | k < |ts| ensures Placed(ts, o, |data|, padded, k) {
        if k > 0 { PlacedAfter(t.item, rest, o, |data|, padded, k - 1); }
      }
    }
  }

  lemma FirstPlaced(data: seq<byte>, o: nat, padded: bool)
    requires LoadTensor(data, o, padded).Ok?
    ensures LoadTensor(data, o, padded).value.read == End(LoadTensor(data, o, padded).value.item)
    ensures forall rest: seq<TensorInfo> ::
              Placed([LoadTensor(data, o, padded).value.item] + rest, o, |data|, padded, 0)
  {
    hide LoadTensor;
    hide DataStart;
    TensorPlaced(data, o, padded);
  }

  lemma {:induction false} InOrder(ts: seq<TensorInfo>, o: nat, size: nat, padded: bool, j: nat, k: nat)
    requires j < k < |ts|
    requires forall i: nat | i < |ts| :: Placed(ts, o, size, padded, i)
    ensures End(ts[j]) + 12 <= ts[k].start && End(ts[j]) + 12 <= size
    decreases k
  {
    assert Placed(ts, o, size, padded, k);
    if j < k - 1 {
      InOrder(ts, o, size, padded, j, k - 1);
    }
  }

  /** No two tensors share a byte, and all but the last are followed by another header inside the file. */
  lemma TensorsDisjoint(data: seq<byte>, o: nat, padded: bool, j: nat, k: nat)
    requires LoadTensors(data, o, padded).Ok? && j < k < |LoadTensors(data, o, padded).value.item|
    ensures var ts := LoadTensors(data, o, padded).value.item;
            End(ts[j]) + 12 <= ts[k].start && End(ts[j]) + 12 <= |data|
  {
    hide *;
    TensorsLaidOut(data, o, padded);
    InOrder(LoadTensors(data, o, padded).value.item, o, |data|, padded, j, k);
  }

  lemma InsideExactly(ts: seq<TensorInfo>, o: nat, size: nat, padded: bool, end: nat)
    requires end == (if ts == [] then o else End(ts[|ts| - 1])) && o <= size <= end
    requires forall k: nat | k < |ts| :: Placed(ts, o, size, padded, k)
    ensures end == size <==> forall k | 0 <= k < |ts| :: End(ts[k]) <= size
  {
    forall k | 0 <= k < |ts| - 1 ensures End(ts[k]) <= size {
      assert Placed(ts, o, size, padded, k + 1);
    }
  }

  /** The loader does not look at the data itself: all of it is in the file exactly when the position it
      returns is the end of the file. */
  lemma DataPresentExactly(data: seq<byte>, o: nat, padded: bool)
    requires o <= |data| && LoadTensors(data, o, padded).Ok?
    ensures var (ts, end) := (LoadTensors(data, o, padded).value.item, LoadTensors(data, o, padded).value.read);
            end == |data| <==> forall k | 0 <= k < |ts| :: End(ts[k]) <= |data|
  {
    hide *;
    TensorsLaidOut(data, o, padded);
    InsideExactly(LoadTensors(data, o, padded).value.item, o, |data|, padded, LoadTensors(data, o, padded).value.read);
  }

  // ------------------------------------------------------------ block sizes

  /** The size of a block in bytes: its scales and, for each of its elements, some bits. */
  predicate Block(dtype: nat, elements: nat, scales: nat, bits: nat) {
    QuantSize(dtype) == Blocks(elements, scales + elements * bits / 8)
  }

  /** The simple types and the blocks of 32: one scale, or a scale and a minimum, of two bytes each. */
  lemma SimpleBlocks()
    ensures Block(0, 1, 0, 32) && Block(1, 1, 0, 16) && Block(30, 1, 0, 16) && Block(28, 1, 0, 64)
    ensures Block(24, 1, 0, 8) && Block(25, 1, 0, 16) && Block(26, 1, 0, 32) && Block(27, 1, 0, 64)
    ensures Block(2, 32, 2, 4) && Block(3, 32, 2 + 2, 4) && Block(6, 32, 2, 5) && Block(7, 32, 2 + 2, 5)
    ensures Block(8, 32, 2, 8) && Block(9, 32, 4 + 4, 8) && Block(20, 32, 2, 4) && Block(39, 32, 1, 4)
  {}

  /** The blocks of 256, with packed scales of their sub-blocks. */
  lemma SuperBlocks()
    ensures Block(10, 256, 2 + 2 + 256 / 16, 2) && Block(11, 256, 2 + 12, 3) && Block(12, 256, 2 + 2 + 12, 4)
    ensures Block(13, 256, 2 + 2 + 12, 5) && Block(14, 256, 2 + 256 / 16, 6) && Block(15, 256, 4 + 2 * 256 / 16, 8)
  {}

  lemma SmallSuperBlocks()
    ensures Block(16, 256, 2, 2) && Block(17, 256, 2 + 256 / 32, 2) && Block(18, 256, 2, 3)
    ensures Block(19, 256, 2 + 256 / 16, 1) && Block(21, 256, 2 + 256 / 32 + 4, 3) && Block(22, 256, 2 + 256 / 16, 2)
    ensures Block(23, 256, 2 + 2 + 256 / 64, 4) && Block(29, 256, 256 / 16 + 256 / 32, 1) && Block(35, 256, 2, 2)
    ensures QuantSize(34) == Blocks(256, 2 + 4 * 13)
  {}

  /** There is no other type. */
  lemma NoOtherBlocks(dtype: nat)
    ensures QuantSize(dtype).Blocks? <==>
            dtype <= 3 || 6 <= dtype <= 30 || dtype == 34 || dtype == 35 || dtype == 39
  {}

  // ------------------------------------------------------------ a written file

  datatype FileTensor = FileTensor(name: seq<byte>, dims: seq<nat>, dtype: nat, data: seq<byte>)

  /** The fields fit in their words, and the data have the size of a known type. */
  ghost predicate FitsTensor(t: FileTensor) {
    && |t.dims| < U32_SIZE && AllU32(t.dims) && |t.name| < U32_SIZE && t.dtype < U32_SIZE
    && (QuantSize(t.dtype).Blocks? ==> |t.data| == DataSize(t.dims, t.dtype))
  }

  ghost predicate GoodTensor(t: FileTensor) {
    FitsTensor(t) && |t.dims| <= 4 && |t.name| < 4096 && QuantSize(t.dtype).Blocks?
  }

  function Zeros(n: nat): seq<byte> { seq(n, _ => 0) }

  function PadOf(t: FileTensor, o: nat, padded: bool): nat {
    DataStart(o, |t.dims|, |t.name|, padded) - (o + 12 + 4 * |t.dims| + |t.name|)
  }

  ghost function TensorTail(t: FileTensor, o: nat, padded: bool): seq<byte>
    requires FitsTensor(t)
  {
    Le32s(t.dims) + (t.name + (Zeros(PadOf(t, o, padded)) + t.data))
  }

  ghost function TensorText(t: FileTensor, o: nat, padded: bool): (s: seq<byte>)
    requires FitsTensor(t)
    ensures o + |s| == DataStart(o, |t.dims|, |t.name|, padded) + |t.data|
  {
    Le32(|t.dims|) + (Le32(|t.name|) + (Le32(t.dtype) + TensorTail(t, o, padded)))
  }

  ghost function TensorsText(ts: seq<FileTensor>, o: nat, padded: bool): seq<byte>
    requires forall k | 0 <= k < |ts| :: FitsTensor(ts[k])
    decreases |ts|
  {
    if ts == [] then []
    else
      var first := TensorText(ts[0], o, padded);
      first + TensorsText(ts[1..], o + |first|, padded)
  }

  /** What the loader should know of a written tensor. */
  ghost predicate Describes(info: TensorInfo, t: FileTensor, data: seq<byte>) {
    && info.name == t.name && info.dims == t.dims && info.dtype == t.dtype
    && info.bytes == |t.data| && Stands(data, info.start, t.data)
  }

  lemma TensorHeadStands(data: seq<byte>, o: nat, t: FileTensor, padded: bool)
    requires FitsTensor(t) && Stands(data, o, TensorText(t, o, padded))
    ensures Stands(data, o, Le32(|t.dims|)) && Stands(data, o + 4, Le32(|t.name|)) && Stands(data, o + 8, Le32(t.dtype))
    ensures Stands(data, o + 12, TensorTail(t, o, padded))
  {
    hide TensorTail;
    hide Le32;
    StandsJoin(data, o, Le32(|t.dims|), Le32(|t.name|) + (Le32(t.dtype) + TensorTail(t, o, padded)));
    StandsJoin(data, o + 4, Le32(|t.name|), Le32(t.dtype) + TensorTail(t, o, padded));
    StandsJoin(data, o + 8, Le32(t.dtype), TensorTail(t, o, padded));
    assert |Le32(|t.dims|)| == 4 && |Le32(|t.name|)| == 4 by { Le32Size(|t.dims|); Le32Size(|t.name|); }
    Le32Size(t.dtype);
  }

  lemma Le32Size(v: nat)
    requires v < U32_SIZE
    ensures |Le32(v)| == 4
  {}

  lemma TensorTailStands(data: seq<byte>, o: nat, t: FileTensor, padded: bool)
    requires FitsTensor(t) && Stands(data, o + 12, TensorTail(t, o, padded))
    ensures Stands(data, o + 12, Le32s(t.dims)) && Stands(data, o + 12 + 4 * |t.dims|, t.name)
    ensures Stands(data, DataStart(o, |t.dims|, |t.name|, padded), t.data)
  {
    hide Le32s;
    hide Stands;
    hide DataStart;
    hide DataSize;
    hide QuantSize;
    var pad := PadOf(t, o, padded);
    StandsJoin(data, o + 12, Le32s(t.dims), t.name + (Zeros(pad) + t.data));
    StandsJoin(data, o + 12 + 4 * |t.dims|, t.name, Zeros(pad) + t.data);
    StandsJoin(data, o + 12 + 4 * |t.dims| + |t.name|, Zeros(pad), t.data);
  }

  lemma LoadTensorIs(data: seq<byte>, o: nat, t: FileTensor, name: seq<byte>, padded: bool)
    requires GoodTensor(t) && o + 12 + 4 * |t.dims| <= |data|
    requires U32(data, o) == |t.dims| && U32(data, o + 4) == |t.name| && U32(data, o + 8) == t.dtype
    requires U32s(data, o + 12, |t.dims|) == t.dims && Slice(data, o + 12 + 4 * |t.dims|, |t.name|) == name
    ensures var start := DataStart(o, |t.dims|, |t.name|, padded);
            LoadTensor(data, o, padded) ==
            Ok(Read(TensorInfo(name, t.dims, t.dtype, start, |t.data|), start + |t.data|))
  {
    hide U32;
    hide U32s;
    hide Slice;
    hide QuantSize;
    hide DataSize;
    hide DataStart;
  }

  lemma LoadsTensor(data: seq<byte>, o: nat, t: FileTensor, padded: bool)
    requires GoodTensor(t) && Stands(data, o, TensorText(t, o, padded))
    ensures LoadTensor(data, o, padded).Ok?
    ensures Describes(LoadTensor(data, o, padded).value.item, t, data)
    ensures LoadTensor(data, o, padded).value.read == o + |TensorText(t, o, padded)|
  {
    hide LoadTensor;
    hide QuantSize;
    hide DataSize;
    hide TensorTail;
    hide TensorText;
    hide DataStart;
    hide U32;
    hide U32s;
    hide Le32;
    TensorHeadStands(data, o, t, padded);
    TensorTailStands(data, o, t, padded);
    ReadsLe32(data, o, |t.dims|);
    ReadsLe32(data, o + 4, |t.name|);
    ReadsLe32(data, o + 8, t.dtype);
    ReadsLe32s(data, o + 12, t.dims);
    LoadTensorIs(data, o, t, t.name, padded);
  }

  /** A written tensor is refused exactly for its dimensions, its name or its type. */
  lemma RefusesTensor(data: seq<byte>, o: nat, t: FileTensor, padded: bool)
    requires FitsTensor(t) && Stands(data, o, TensorText(t, o, padded)) && !GoodTensor(t)
    ensures LoadTensor(data, o, padded).Err? && o < |data|
  {
    hide TensorTail;
    hide U32;
    hide Le32;
    hide DataSize;
    hide QuantSize;
    hide DataStart;
    TensorHeadStands(data, o, t, padded);
    ReadsLe32(data, o, |t.dims|);
    ReadsLe32(data, o + 4, |t.name|);
    ReadsLe32(data, o + 8, t.dtype);
  }

  lemma TensorsMayBeBad(ts: seq<FileTensor>)
    requires ts != [] && forall k | 0 <= k < |ts| :: FitsTensor(ts[k])
    ensures forall k | 0 <= k < |ts| - 1 :: FitsTensor(ts[1..][k])
    ensures (forall k | 0 <= k < |ts| :: GoodTensor(ts[k])) <==>
            GoodTensor(ts[0]) && forall k | 0 <= k < |ts| - 1 :: GoodTensor(ts[1..][k])
  {
    hide GoodTensor;
    hide FitsTensor;
    assert forall k | 0 <= k < |ts| - 1 :: ts[1..][k] == ts[k + 1];
    if GoodTensor(ts[0]) && forall k | 0 <= k < |ts| - 1 :: GoodTensor(ts[1..][k]) {
      forall k | 0 <= k < |ts| ensures GoodTensor(ts[k]) { if k > 0 { assert ts[1..][k - 1] == ts[k]; } }
    }
  }

  lemma LoadTensorsStep(data: seq<byte>, o: nat, padded: bool)
    requires o < |data|
    ensures LoadTensor(data, o, padded).Err? ==> LoadTensors(data, o, padded).Err?
    ensures var t := LoadTensor(data, o, padded);
            t.Ok? && t.value.read > o && LoadTensors(data, t.value.read, padded).Err? ==>
              LoadTensors(data, o, padded).Err?
  {
    hide LoadTensor;
  }

  /** A list of written tensors with a bad one among them is refused. */
  lemma {:induction false} RefusesTensors(data: seq<byte>, o: nat, ts: seq<FileTensor>, padded: bool)
    requires forall k | 0 <= k < |ts| :: FitsTensor(ts[k])
    requires Stands(data, o, TensorsText(ts, o, padded)) && exists k | 0 <= k < |ts| :: !GoodTensor(ts[k])
    ensures LoadTensors(data, o, padded).Err?
    decreases |ts|
  {
    hide LoadTensor;
    hide LoadTensors;
    hide TensorText;
    hide GoodTensor;
    hide FitsTensor;
    TensorsMayBeBad(ts);
    var first := TensorText(ts[0], o, padded);
    StandsJoin(data, o, first, TensorsText(ts[1..], o + |first|, padded));
    if GoodTensor(ts[0]) {
      LoadsTensor(data, o, ts[0], padded);
      TensorTakesTwelve(data, o, padded);
      StandsInside(data, o, first);
      RefusesTensors(data, o + |first|, ts[1..], padded);
    } else {
      RefusesTensor(data, o, ts[0], padded);
    }
    LoadTensorsStep(data, o, padded);
  }

  lemma StandsInside(data: seq<byte>, o: nat, s: seq<byte>)
    requires Stands(data, o, s)
    ensures o + |s| <= |data|
  {}

  lemma {:induction false} LoadsTensors(data: seq<byte>, o: nat, ts: seq<FileTensor>, padded: bool)
    requires forall k | 0 <= k < |ts| :: FitsTensor(ts[k]) && GoodTensor(ts[k])
    requires Stands(data, o, TensorsText(ts, o, padded)) && o + |TensorsText(ts, o, padded)| == |data|
    ensures LoadTensors(data, o, padded).Ok? && LoadTensors(data, o, padded).value.read == |data|
    ensures var infos := LoadTensors(data, o, padded).value.item;
            |infos| == |ts| && forall k | 0 <= k < |ts| :: Describes(infos[k], ts[k], data)
    decreases |ts|
  {
    hide LoadTensor;
    hide TensorText;
    hide Describes;
    hide GoodTensor;
    if ts != [] {
      var first := TensorText(ts[0], o, padded);
      StandsJoin(data, o, first, TensorsText(ts[1..], o + |first|, padded));
      LoadsTensor(data, o, ts[0], padded);
      TensorTakesTwelve(data, o, padded);
      LoadsTensors(data, o + |first|, ts[1..], padded);
    }
  }

  // ------------------------------------------------------------ a whole file

  /** The bytes of a text of single-byte characters. */
  function BytesOf(s: string): (b: seq<byte>)
    requires forall i | 0 <= i < |s| :: s[i] as int < 128
    ensures |b| == |s| && forall i | 0 <= i < |s| :: b[i] == s[i] as int
  {
    seq(|s|, i requires 0 <= i < |s| => s[i] as int)
  }

  function HeaderText(h: Header): seq<byte>
    requires h.version < U32_SIZE
  {
    match h.format
    case GGML => BytesOf("lmgg")
    case GGMF => BytesOf("fmgg") + Le32(h.version)
    case GGJT => BytesOf("tjgg") + Le32(h.version)
  }

  lemma NamesAre()
    ensures GGML_MAGIC == BytesOf("lmgg") && GGMF_MAGIC == BytesOf("fmgg") && GGJT_MAGIC == BytesOf("tjgg")
    ensures GGUF_MAGIC == BytesOf("GGUF")
  {}

  lemma FeedForwardNameIs()
    ensures FF_NAME == BytesOf("layers.0.feed_forward.w1.weight")
  {}

  predicate GoodHeader(h: Header) {
    match h.format
    case GGJT => 1 <= h.version <= 3
    case _ => h.version == 1
  }

  function HyperWords(hp: Hyper): seq<nat> {
    [hp.nVocab, hp.nEmbd, hp.nMult, hp.nHead, hp.nLayer, hp.nRot, hp.ftype]
  }

  predicate FitsToken(t: Token, scores: bool) {
    |t.text| < U32_SIZE && |t.score| == 4 && (!scores ==> t.score == NO_SCORE)
  }

  predicate GoodToken(t: Token, scores: bool) {
    FitsToken(t, scores) && |t.text| < 4096
  }

  function TokenText(t: Token, scores: bool): seq<byte>
    requires FitsToken(t, scores)
  {
    Le32(|t.text|) + (t.text + if scores then t.score else [])
  }

  function VocabText(ts: seq<Token>, scores: bool): seq<byte>
    requires forall k | 0 <= k < |ts| :: FitsToken(ts[k], scores)
  {
    if ts == [] then [] else TokenText(ts[0], scores) + VocabText(ts[1..], scores)
  }

  lemma LoadsToken(data: seq<byte>, o: nat, t: Token, scores: bool)
    requires GoodToken(t, scores) && Stands(data, o, TokenText(t, scores))
    ensures LoadToken(data, o, scores) == Ok(Read(t, o + |TokenText(t, scores)|))
  {
    var score := if scores then t.score else [];
    StandsJoin(data, o, Le32(|t.text|), t.text + score);
    StandsJoin(data, o + 4, t.text, score);
    ReadsLe32(data, o, |t.text|);
  }

  lemma {:induction false} LoadsVocab(data: seq<byte>, o: nat, ts: seq<Token>, scores: bool)
    requires forall k | 0 <= k < |ts| :: FitsToken(ts[k], scores) && GoodToken(ts[k], scores)
    requires Stands(data, o, VocabText(ts, scores))
    ensures LoadVocab(data, o, |ts|, scores) == Ok(Read(ts, o + |VocabText(ts, scores)|))
    decreases |ts|
  {
    hide LoadToken;
    hide TokenText;
    hide GoodToken;
    hide FitsToken;
    if ts != [] {
      TokensMayBeBad(ts, scores);
      var first := TokenText(ts[0], scores);
      StandsJoin(data, o, first, VocabText(ts[1..], scores));
      LoadsToken(data, o, ts[0], scores);
      LoadsVocab(data, o + |first|, ts[1..], scores);
      assert ts == [ts[0]] + ts[1..];
    }
  }

  lemma RefusesToken(data: seq<byte>, o: nat, t: Token, scores: bool)
    requires FitsToken(t, scores) && !GoodToken(t, scores) && Stands(data, o, TokenText(t, scores))
    ensures LoadToken(data, o, scores).Err?
  {
    var score := if scores then t.score else [];
    StandsJoin(data, o, Le32(|t.text|), t.text + score);
    ReadsLe32(data, o, |t.text|);
  }

  lemma TokensMayBeBad(ts: seq<Token>, scores: bool)
    requires ts != [] && forall k | 0 <= k < |ts| :: FitsToken(ts[k], scores)
    ensures forall k | 0 <= k < |ts| - 1 :: FitsToken(ts[1..][k], scores)
    ensures (forall k | 0 <= k < |ts| :: GoodToken(ts[k], scores)) <==>
            GoodToken(ts[0], scores) && forall k | 0 <= k < |ts| - 1 :: GoodToken(ts[1..][k], scores)
  {
    hide GoodToken;
    hide FitsToken;
    assert forall k | 0 <= k < |ts| - 1 :: ts[1..][k] == ts[k + 1];
    if GoodToken(ts[0], scores) && forall k | 0 <= k < |ts| - 1 :: GoodToken(ts[1..][k], scores) {
      forall k | 0 <= k < |ts| ensures GoodToken(ts[k], scores) { if k > 0 { assert ts[1..][k - 1] == ts[k]; } }
    }
  }

  /** A vocabulary with a token that is too long is refused. */
  lemma {:induction false} RefusesVocab(data: seq<byte>, o: nat, ts: seq<Token>, scores: bool)
    requires forall k | 0 <= k < |ts| :: FitsToken(ts[k], scores)
    requires Stands(data, o, VocabText(ts, scores)) && exists k | 0 <= k < |ts| :: !GoodToken(ts[k], scores)
    ensures LoadVocab(data, o, |ts|, scores).Err?
    decreases |ts|
  {
    hide LoadToken;
    hide TokenText;
    hide GoodToken;
    hide FitsToken;
    TokensMayBeBad(ts, scores);
    var first := TokenText(ts[0], scores);
    StandsJoin(data, o, first, VocabText(ts[1..], scores));
    if GoodToken(ts[0], scores) {
      LoadsToken(data, o, ts[0], scores);
      RefusesVocab(data, o + |first|, ts[1..], scores);
    } else {
      RefusesToken(data, o, ts[0], scores);
    }
  }

  lemma MagicsDiffer()
    ensures GGUF_MAGIC != GGML_MAGIC && GGUF_MAGIC != GGMF_MAGIC && GGUF_MAGIC != GGJT_MAGIC
    ensures GGML_MAGIC != GGMF_MAGIC && GGML_MAGIC != GGJT_MAGIC && GGMF_MAGIC != GGJT_MAGIC
  {
    assert GGUF_MAGIC[0] == 71 && GGML_MAGIC[0] == 108 && GGMF_MAGIC[0] == 102 && GGJT_MAGIC[0] == 116;
  }

  lemma HeaderExactly(data: seq<byte>, h: Header)
    requires h.version < U32_SIZE && (h.format == GGML ==> h.version == 1) && Stands(data, 0, HeaderText(h))
    ensures LoadHeader(data, 0).Ok? <==> GoodHeader(h)
    ensures GoodHeader(h) ==> LoadHeader(data, 0) == Ok(Read(h, |HeaderText(h)|))
  {
    MagicsDiffer();
    NamesAre();
    hide Le32;
    if h.format != GGML {
      Le32Size(h.version);
      StandsJoin(data, 0, HeaderText(h)[..4], Le32(h.version));
      assert HeaderText(h) == HeaderText(h)[..4] + Le32(h.version);
      ReadsLe32(data, 4, h.version);
    }
  }

  lemma HyperExactly(data: seq<byte>, o: nat, hp: Hyper)
    requires AllU32(HyperWords(hp)) && Stands(data, o, Le32s(HyperWords(hp)))
    ensures LoadHyper(data, o).Ok? <==> hp.ftype in {0, 1, 2, 3, 4, 7, 8, 9, 10, 11, 12, 13, 14, 15, 16, 17, 18}
    ensures LoadHyper(data, o).Ok? ==> LoadHyper(data, o) == Ok(Read(hp, o + 28))
  {
    hide U32s;
    hide Le32s;
    ReadsLe32s(data, o, HyperWords(hp));
  }

  datatype File = File(header: Header, hyper: Hyper, vocab: seq<Token>, tensors: seq<FileTensor>)

  /** A file as it may be written: every field fits in its word, and nothing is said of what the loader accepts. */
  ghost predicate FitsFile(f: File) {
    && f.header.version < U32_SIZE && (f.header.format == GGML ==> f.header.version == 1)
    && AllU32(HyperWords(f.hyper)) && |f.vocab| == f.hyper.nVocab
    && (forall k | 0 <= k < |f.vocab| :: FitsToken(f.vocab[k], f.header.format != GGML))
    && (forall k | 0 <= k < |f.tensors| :: FitsTensor(f.tensors[k]))
  }

  /** The version of GGJT whose layouts a file has: files of the older formats have those of the first. */
  function Generation(h: Header): nat {
    if h.format == GGJT then h.version else 1
  }

  /** The version in which the layout of this type last changed; only unquantized data never did. */
  function LastChanged(ftype: nat): nat {
    if ftype in {0, 1} then 1 else if ftype in {2, 3, 4, 7} then 3 else 2
  }

  /** What the converter accepts: a known version and type, a layout that is still in use, short names, at most four
      dimensions, and known tensor types. */
  ghost predicate Acceptable(f: File) {
    && GoodHeader(f.header)
    && f.hyper.ftype in {0, 1, 2, 3, 4, 7, 8, 9, 10, 11, 12, 13, 14, 15, 16, 17, 18}
    && LastChanged(f.hyper.ftype) <= Generation(f.header)
    && (forall k | 0 <= k < |f.vocab| :: GoodToken(f.vocab[k], f.header.format != GGML))
    && (forall k | 0 <= k < |f.tensors| :: GoodTensor(f.tensors[k]))
  }

  lemma ConvertibleExactly(h: Header, ftype: nat)
    requires GoodHeader(h)
    ensures Convertible(h, ftype) <==> LastChanged(ftype) <= Generation(h)
  {}

  ghost predicate GoodFile(f: File) {
    FitsFile(f) && Acceptable(f)
  }

  ghost function FrontText(f: File): seq<byte>
    requires FitsFile(f)
  {
    HeaderText(f.header) + (Le32s(HyperWords(f.hyper)) + VocabText(f.vocab, f.header.format != GGML))
  }

  ghost function FileText(f: File): seq<byte>
    requires FitsFile(f)
  {
    FrontText(f) + TensorsText(f.tensors, |FrontText(f)|, f.header.format == GGJT)
  }

  /** The last tensor with the feed-forward name has at least two dimensions. */
  ghost predicate HasFeedForward(ts: seq<FileTensor>, i: nat) {
    && i < |ts| && ts[i].name == BytesOf("layers.0.feed_forward.w1.weight") && |ts[i].dims| >= 2
    && forall k | i < k < |ts| :: ts[k].name != BytesOf("layers.0.feed_forward.w1.weight")
  }

  lemma FeedForwardFound(ts: seq<FileTensor>, infos: seq<TensorInfo>)
    requires |infos| == |ts|
    requires forall k | 0 <= k < |ts| :: infos[k].name == ts[k].name && infos[k].dims == ts[k].dims
    ensures FeedForward(infos).Ok? <==> exists i: nat :: HasFeedForward(ts, i)
    ensures forall i: nat | HasFeedForward(ts, i) :: FeedForward(infos) == Ok(ts[i].dims[1])
  {
    LastNamedIs(infos, FF_NAME);
    FeedForwardNameIs();
    hide LastNamed;
    if FeedForward(infos).Ok? {
      assert HasFeedForward(ts, LastNamed(infos, FF_NAME).value);
    }
    forall i: nat | HasFeedForward(ts, i) ensures FeedForward(infos) == Ok(ts[i].dims[1]) {
      assert infos[i].name == FF_NAME;
      assert LastNamed(infos, FF_NAME).value == i;
    }
  }

  lemma FrontStands(f: File)
    requires FitsFile(f)
    ensures Stands(FileText(f), 0, HeaderText(f.header))
    ensures Stands(FileText(f), |HeaderText(f.header)|, Le32s(HyperWords(f.hyper)))
    ensures Stands(FileText(f), |HeaderText(f.header)| + 28, VocabText(f.vocab, f.header.format != GGML))
    ensures |FrontText(f)| == |HeaderText(f.header)| + 28 + |VocabText(f.vocab, f.header.format != GGML)|
    ensures Stands(FileText(f), |FrontText(f)|, TensorsText(f.tensors, |FrontText(f)|, f.header.format == GGJT))
  {
    hide HeaderText;
    hide Le32s;
    hide VocabText;
    hide TensorsText;
    var data, front := FileText(f), FrontText(f);
    var (head, hyper, vocab) :=
      (HeaderText(f.header), Le32s(HyperWords(f.hyper)), VocabText(f.vocab, f.header.format != GGML));
    assert Stands(data, 0, data);
    StandsJoin(data, 0, front, TensorsText(f.tensors, |front|, f.header.format == GGJT));
    StandsJoin(data, 0, head, hyper + vocab);
    StandsJoin(data, |head|, hyper, vocab);
  }

  ghost predicate Written(f: File, i: nat, m: Read<Model>)
    requires GoodFile(f) && HasFeedForward(f.tensors, i)
  {
    && m.read == |FileText(f)|
    && m.item.header == f.header && m.item.hyper == f.hyper && m.item.vocab == f.vocab
    && m.item.nFf == f.tensors[i].dims[1]
    && |m.item.tensors| == |f.tensors|
    && forall k | 0 <= k < |f.tensors| :: Describes(m.item.tensors[k], f.tensors[k], FileText(f))
  }

  lemma FrontLoads(f: File)
    requires GoodFile(f)
    ensures LoadModel(FileText(f), 0) ==
            Complete(ReadBody(FileText(f), f.header, f.hyper, |HeaderText(f.header)| + 28))
  {
    hide LoadHeader;
    hide LoadHyper;
    hide ReadBody;
    hide Complete;
    hide HeaderText;
    hide FileText;
    hide HyperWords;
    FrontStands(f);
    HeaderExactly(FileText(f), f.header);
    HyperExactly(FileText(f), |HeaderText(f.header)|, f.hyper);
    ConvertibleExactly(f.header, f.hyper.ftype);
  }

  lemma TensorsLoad(f: File)
    requires GoodFile(f)
    ensures LoadVocab(FileText(f), |HeaderText(f.header)| + 28, f.hyper.nVocab, f.header.format != GGML) ==
            Ok(Read(f.vocab, |FrontText(f)|))
    ensures var r := LoadTensors(FileText(f), |FrontText(f)|, f.header.format == GGJT);
            r.Ok? && r.value.read == |FileText(f)| && |r.value.item| == |f.tensors| &&
            forall k | 0 <= k < |f.tensors| :: Describes(r.value.item[k], f.tensors[k], FileText(f))
  {
    hide LoadVocab;
    hide LoadTensors;
    hide VocabText;
    hide HeaderText;
    hide HyperWords;
    hide TensorsText;
    hide Describes;
    hide FrontText;
    FrontStands(f);
    var scores := f.header.format != GGML;
    LoadsVocab(FileText(f), |HeaderText(f.header)| + 28, f.vocab, scores);
    LoadsTensors(FileText(f), |FrontText(f)|, f.tensors, f.header.format == GGJT);
  }

  lemma BodyLoads(f: File)
    requires GoodFile(f)
    ensures var r := Complete(ReadBody(FileText(f), f.header, f.hyper, |HeaderText(f.header)| + 28));
            && (r.Ok? <==> exists i: nat :: HasFeedForward(f.tensors, i))
            && forall i: nat | HasFeedForward(f.tensors, i) :: r.Ok? && Written(f, i, r.value)
  {
    hide LoadVocab;
    hide LoadTensors;
    hide HeaderText;
    hide FeedForward;
    hide FileText;
    hide FrontText;
    hide GoodFile;
    hide HasFeedForward;
    hide Stands;
    GoodIs(f);
    TensorsLoad(f);
    FeedForwardFound(f.tensors, LoadTensors(FileText(f), |FrontText(f)|, f.header.format == GGJT).value.item);
  }

  // ------------------------------------------------------------ which files are refused

  lemma ReadSteps(data: seq<byte>)
    ensures var r := ReadModel(data, 0);
            match LoadHeader(data, 0)
            case Err(_) => r.Err?
            case Ok(h) =>
              match LoadHyper(data, h.read)
              case Err(_) => r.Err?
              case Ok(hp) =>
                if Convertible(h.item, hp.item.ftype) then r == ReadBody(data, h.item, hp.item, hp.read) else r.Err?
    ensures ReadModel(data, 0).Err? ==> LoadModel(data, 0).Err?
    ensures LoadModel(data, 0) == Complete(ReadModel(data, 0))
  {
    hide LoadHeader;
    hide LoadHyper;
    hide Convertible;
    hide ReadBody;
    hide FeedForward;
  }

  lemma BodyRefused(f: File)
    requires FitsFile(f)
    requires !((forall k | 0 <= k < |f.vocab| :: GoodToken(f.vocab[k], f.header.format != GGML)) &&
               (forall k | 0 <= k < |f.tensors| :: GoodTensor(f.tensors[k])))
    ensures ReadBody(FileText(f), f.header, f.hyper, |HeaderText(f.header)| + 28).Err?
  {
    hide LoadVocab;
    hide LoadTensors;
    hide VocabText;
    hide HeaderText;
    hide HyperWords;
    hide TensorsText;
    hide FrontText;
    hide FileText;
    hide GoodToken;
    hide GoodTensor;
    hide Stands;
    FrontStands(f);
    var scores := f.header.format != GGML;
    if forall k | 0 <= k < |f.vocab| :: GoodToken(f.vocab[k], scores) {
      LoadsVocab(FileText(f), |HeaderText(f.header)| + 28, f.vocab, scores);
      RefusesTensors(FileText(f), |FrontText(f)|, f.tensors, f.header.format == GGJT);
    } else {
      RefusesVocab(FileText(f), |HeaderText(f.header)| + 28, f.vocab, scores);
    }
  }

  lemma RefusesFile(f: File)
    requires FitsFile(f) && !Acceptable(f)
    ensures LoadModel(FileText(f), 0).Err?
  {
    hide *;
    var data := FileText(f);
    FitsMeans(f);
    AcceptableMeans(f);
    FrontStands(f);
    HeaderExactly(data, f.header);
    ReadSteps(data);
    if GoodHeader(f.header) {
      HyperExactly(data, |HeaderText(f.header)|, f.hyper);
      ConvertibleExactly(f.header, f.hyper.ftype);
      if LoadHyper(data, |HeaderText(f.header)|).Ok? && LastChanged(f.hyper.ftype) <= Generation(f.header) {
        BodyRefused(f);
      }
    }
  }

  lemma FitsMeans(f: File)
    requires FitsFile(f)
    ensures f.header.version < U32_SIZE && (f.header.format == GGML ==> f.header.version == 1)
    ensures AllU32(HyperWords(f.hyper)) && |f.vocab| == f.hyper.nVocab
    ensures forall k | 0 <= k < |f.vocab| :: FitsToken(f.vocab[k], f.header.format != GGML)
    ensures forall k | 0 <= k < |f.tensors| :: FitsTensor(f.tensors[k])
  {
    hide HyperWords;
    hide FitsToken;
    hide FitsTensor;
    hide AllU32;
  }

  lemma AcceptableMeans(f: File)
    ensures Acceptable(f) <==>
            && GoodHeader(f.header)
            && f.hyper.ftype in {0, 1, 2, 3, 4, 7, 8, 9, 10, 11, 12, 13, 14, 15, 16, 17, 18}
            && LastChanged(f.hyper.ftype) <= Generation(f.header)
            && (forall k | 0 <= k < |f.vocab| :: GoodToken(f.vocab[k], f.header.format != GGML))
            && (forall k | 0 <= k < |f.tensors| :: GoodTensor(f.tensors[k]))
  {
    hide GoodToken;
    hide GoodTensor;
    hide LastChanged;
    hide Generation;
    hide GoodHeader;
  }

  /** A written file loads exactly when the converter should accept it and the feed-forward tensor of the first layer
      is there; loading it then returns what was written and stops at its end. */
  lemma LoadUndoesWrite(f: File)
    requires FitsFile(f)
    ensures LoadModel(FileText(f), 0).Ok? <==> Acceptable(f) && exists i: nat :: HasFeedForward(f.tensors, i)
    ensures Acceptable(f) ==>
              forall i: nat | HasFeedForward(f.tensors, i) ::
                LoadModel(FileText(f), 0).Ok? && Written(f, i, LoadModel(FileText(f), 0).value)
  {
    hide *;
    if Acceptable(f) {
      GoodIs(f);
      BodyLoads(f);
      FrontLoads(f);
    } else {
      RefusesFile(f);
    }
  }

  lemma GoodIs(f: File)
    ensures GoodFile(f) <==> FitsFile(f) && Acceptable(f)
  {
    hide FitsFile;
    hide Acceptable;
  }
}
