/** What the loader makes of a file that has been cut short. */
module GgmlTruncation {
  import opened Wrappers
  import opened ByteStream
  import opened GgmlSpec
  import opened GgmlLaws

  lemma StandsInPrefix(data: seq<byte>, m: nat, o: nat, chunk: seq<byte>)
    requires Stands(data, o, chunk) && o + |chunk| <= m <= |data|
    ensures Stands(data[..m], o, chunk)
  {}

  lemma CutSlice(data: seq<byte>, m: nat, o: nat, name: seq<byte>)
    requires Stands(data, o, name) && o <= m <= |data|
    ensures Slice(data[..m], o, |name|) == name[..if |name| <= m - o then |name| else m - o]
  {
    assert data[o..o + |name|] == name;
    if o + |name| > m {
      assert data[..m][o..] == data[o..o + |name|][..m - o];
    }
  }

  /** A tensor cut short anywhere after its dimensions loads as if it were whole, except that what is missing of
      its name is left off; cut before, it does not load. */
  lemma CutTensor(data: seq<byte>, m: nat, o: nat, t: FileTensor, padded: bool)
    requires FitsTensor(t) && GoodTensor(t) && Stands(data, o, TensorText(t, o, padded)) && o <= m <= |data|
    ensures LoadTensor(data[..m], o, padded).Ok? <==> o + 12 + 4 * |t.dims| <= m
    ensures LoadTensor(data[..m], o, padded).Ok? ==>
              var r := LoadTensor(data[..m], o, padded).value;
              && r.read == o + |TensorText(t, o, padded)|
              && r.item.dims == t.dims && r.item.dtype == t.dtype && r.item.bytes == |t.data|
              && r.item.name <= t.name
              && (m < o + 12 + 4 * |t.dims| + |t.name| <==> r.item.name != t.name)
  {
    hide LoadTensor; hide TensorText; hide TensorTail; hide Stands; hide U32; hide U32s; hide Le32; hide Le32s;
    hide Slice; hide GoodTensor; hide DataStart;
    TensorHeadStands(data, o, t, padded);
    TensorTailStands(data, o, t, padded);
    TextSize(t, o, padded);
    if m < o + 12 {
      TooShort(data[..m], o, padded);
    } else {
      CutHeader(data, m, o, t);
      if m < o + 12 + 4 * |t.dims| {
        CutDims(data[..m], o, t, padded);
      } else {
        StandsInPrefix(data, m, o + 12, Le32s(t.dims));
        ReadsLe32s(data[..m], o + 12, t.dims);
        CutSlice(data, m, o + 12 + 4 * |t.dims|, t.name);
        LoadTensorIs(data[..m], o, t, Slice(data[..m], o + 12 + 4 * |t.dims|, |t.name|), padded);
      }
    }
  }

  lemma TextSize(t: FileTensor, o: nat, padded: bool)
    requires GoodTensor(t)
    ensures o + |TensorText(t, o, padded)| == DataStart(o, |t.dims|, |t.name|, padded) + |t.data|
    ensures AllU32(t.dims) && |t.dims| < U32_SIZE && |t.name| < U32_SIZE && t.dtype < U32_SIZE
  {}

  lemma TooShort(data: seq<byte>, o: nat, padded: bool)
    requires |data| < o + 12
    ensures LoadTensor(data, o, padded).Err?
  {}

  lemma CutHeader(data: seq<byte>, m: nat, o: nat, t: FileTensor)
    requires o + 12 <= m <= |data| && |t.dims| < U32_SIZE && |t.name| < U32_SIZE && t.dtype < U32_SIZE
    requires Stands(data, o, Le32(|t.dims|)) && Stands(data, o + 4, Le32(|t.name|))
    requires Stands(data, o + 8, Le32(t.dtype))
    ensures U32(data[..m], o) == |t.dims| && U32(data[..m], o + 4) == |t.name| && U32(data[..m], o + 8) == t.dtype
  {
    hide Stands; hide U32; hide Le32;
    Le32Size(|t.dims|);
    Le32Size(|t.name|);
    Le32Size(t.dtype);
    StandsInPrefix(data, m, o, Le32(|t.dims|));
    StandsInPrefix(data, m, o + 4, Le32(|t.name|));
    StandsInPrefix(data, m, o + 8, Le32(t.dtype));
    ReadsLe32(data[..m], o, |t.dims|);
    ReadsLe32(data[..m], o + 4, |t.name|);
    ReadsLe32(data[..m], o + 8, t.dtype);
  }

  lemma CutDims(data: seq<byte>, o: nat, t: FileTensor, padded: bool)
    requires o + 12 <= |data| < o + 12 + 4 * |t.dims| && U32(data, o) == |t.dims|
    ensures LoadTensor(data, o, padded).Err?
  {
    hide U32; hide U32s; hide QuantSize; hide DataSize; hide DataStart; hide Slice;
  }

  // ------------------------------------------------------------ a run of tensors cut short

  /** Where tensor `i` begins; for the number of tensors, where the last one ends. */
  ghost function Offset(ts: seq<FileTensor>, o: nat, padded: bool, i: nat): (r: nat)
    requires (forall k | 0 <= k < |ts| :: FitsTensor(ts[k]) && GoodTensor(ts[k])) && i <= |ts|
    decreases i
  {
    if i == 0 then o else Offset(ts[1..], o + |TensorText(ts[0], o, padded)|, padded, i - 1)
  }

  /** The cut is at the start of tensor `i` or at the end of all, or inside tensor `i`, after its dimensions. */
  ghost predicate CutsAt(ts: seq<FileTensor>, o: nat, padded: bool, m: nat, i: nat)
    requires forall k | 0 <= k < |ts| :: FitsTensor(ts[k]) && GoodTensor(ts[k])
  {
    && i <= |ts|
    && (m == Offset(ts, o, padded, i) ||
        (i < |ts| && Offset(ts, o, padded, i) + 12 + 4 * |ts[i].dims| <= m < Offset(ts, o, padded, i + 1)))
  }

  /** The position a load of the first `m` bytes should return when they are cut at `i`. */
  ghost function CutEnd(ts: seq<FileTensor>, o: nat, padded: bool, m: nat, i: nat): nat
    requires forall k | 0 <= k < |ts| :: FitsTensor(ts[k]) && GoodTensor(ts[k])
  {
    if i < |ts| && m != Offset(ts, o, padded, i) then Offset(ts, o, padded, i + 1) else m
  }

  ghost predicate GoodTensors(ts: seq<FileTensor>) {
    forall k | 0 <= k < |ts| :: FitsTensor(ts[k]) && GoodTensor(ts[k])
  }

  lemma OffsetCons(ts: seq<FileTensor>, o: nat, padded: bool, i: nat)
    requires GoodTensors(ts) && 0 < i <= |ts|
    ensures GoodTensors(ts[1..])
    ensures Offset(ts, o, padded, i) == Offset(ts[1..], o + |TensorText(ts[0], o, padded)|, padded, i - 1)
  {
    hide GoodTensor; hide TensorText;
  }

  lemma {:induction false} OffsetsGrow(ts: seq<FileTensor>, o: nat, padded: bool, i: nat)
    requires GoodTensors(ts) && i <= |ts|
    ensures Offset(ts, o, padded, i) >= o
    ensures i > 0 ==> Offset(ts, o, padded, i) >= o + |TensorText(ts[0], o, padded)|
    decreases i
  {
    hide GoodTensor; hide TensorText;
    if i > 0 {
      OffsetCons(ts, o, padded, i);
      OffsetsGrow(ts[1..], o + |TensorText(ts[0], o, padded)|, padded, i - 1);
    }
  }

  lemma TextLength(t: FileTensor, o: nat, padded: bool)
    requires GoodTensor(t)
    ensures |TensorText(t, o, padded)| >= 12 + 4 * |t.dims|
    ensures |TensorText(t, o, padded)| >= 12 + 4 * |t.dims| + |t.name| + |t.data|
  {
    hide DataStart; hide DataSize; hide QuantSize;
    DataStartIs(o, |t.dims|, |t.name|, padded);
  }

  lemma CutsAtCons(ts: seq<FileTensor>, o: nat, padded: bool, m: nat, i: nat)
    requires GoodTensors(ts) && ts != [] && m >= o + |TensorText(ts[0], o, padded)|
    ensures GoodTensors(ts[1..])
    ensures CutsAt(ts, o, padded, m, i) <==>
            i > 0 && CutsAt(ts[1..], o + |TensorText(ts[0], o, padded)|, padded, m, i - 1)
    ensures i > 0 && CutsAt(ts, o, padded, m, i) ==>
            CutEnd(ts, o, padded, m, i) == CutEnd(ts[1..], o + |TensorText(ts[0], o, padded)|, padded, m, i - 1)
  {
    hide GoodTensor; hide TensorText;
    TextLengthOf(ts, o, padded);
    if 0 < i <= |ts| {
      OffsetCons(ts, o, padded, i);
      if i < |ts| { OffsetCons(ts, o, padded, i + 1); }
    }
    OffsetCons(ts, o, padded, 1);
  }

  lemma TextLengthOf(ts: seq<FileTensor>, o: nat, padded: bool)
    requires GoodTensors(ts) && ts != []
    ensures |TensorText(ts[0], o, padded)| >= 12 + 4 * |ts[0].dims|
  {
    TextLength(ts[0], o, padded);
  }

  /** The first `m` bytes of a file of tensors load exactly when the cut is between two tensors or inside one,
      after its dimensions. In the second case the position returned is the end that this tensor should have
      had, past the end of the file, and its data are missing. */
  lemma {:induction false} CutLoadsExactly(data: seq<byte>, o: nat, ts: seq<FileTensor>, padded: bool, m: nat)
    requires GoodTensors(ts) && o <= m <= |data|
    requires Stands(data, o, TensorsText(ts, o, padded)) && o + |TensorsText(ts, o, padded)| == |data|
    ensures LoadTensors(data[..m], o, padded).Ok? <==> exists i: nat :: CutsAt(ts, o, padded, m, i)
    ensures forall i: nat | CutsAt(ts, o, padded, m, i) ::
              var r := LoadTensors(data[..m], o, padded);
              r.Ok? && r.value.read == CutEnd(ts, o, padded, m, i)
    decreases |ts|
  {
    hide LoadTensor; hide TensorText; hide GoodTensor; hide Stands;
    if m == o {
      assert CutsAt(ts, o, padded, m, 0);
      forall i: nat | CutsAt(ts, o, padded, m, i) ensures i == 0 {
        if i > 0 { OffsetsGrow(ts, o, padded, i); TextLengthOf(ts, o, padded); }
      }
    } else {
      var first := TensorText(ts[0], o, padded);
      StandsJoin(data, o, first, TensorsText(ts[1..], o + |first|, padded));
      TextLengthOf(ts, o, padded);
      if m < o + |first| {
        CutInFirst(data, o, ts, padded, m);
      } else {
        CutAfterFirst(data, o, ts, padded, m);
        CutLoadsExactly(data, o + |first|, ts[1..], padded, m);
        CutInRest(ts, o, padded, m, ts[1..], o + |first|, LoadTensors(data[..m], o + |first|, padded));
      }
    }
  }

  /** What a load `r` of the rest says of the whole. */
  lemma CutInRest(ts: seq<FileTensor>, o: nat, padded: bool, m: nat, rest: seq<FileTensor>, next: nat,
                  r: Result<Read<seq<TensorInfo>>>)
    requires GoodTensors(ts) && ts != [] && rest == ts[1..] && next == o + |TensorText(ts[0], o, padded)| <= m
    requires GoodTensors(rest)
    requires r.Ok? <==> exists i: nat :: CutsAt(rest, next, padded, m, i)
    requires forall i: nat | CutsAt(rest, next, padded, m, i) ::
               r.Ok? && r.value.read == CutEnd(rest, next, padded, m, i)
    ensures r.Ok? <==> exists i: nat :: CutsAt(ts, o, padded, m, i)
    ensures forall i: nat | CutsAt(ts, o, padded, m, i) ::
              r.Ok? && r.value.read == CutEnd(ts, o, padded, m, i)
  {
    hide TensorText; hide CutsAt; hide CutEnd;
    if i: nat :| CutsAt(rest, next, padded, m, i) {
      CutsAtCons(ts, o, padded, m, i + 1);
      assert CutsAt(ts, o, padded, m, i + 1);
    }
    forall i: nat | CutsAt(ts, o, padded, m, i)
      ensures r.Ok? && r.value.read == CutEnd(ts, o, padded, m, i)
    {
      CutsAtCons(ts, o, padded, m, i);
      assert CutsAt(rest, next, padded, m, i - 1);
    }
  }

  lemma CutAfterFirst(data: seq<byte>, o: nat, ts: seq<FileTensor>, padded: bool, m: nat)
    requires GoodTensors(ts) && ts != [] && o < m <= |data|
    requires Stands(data, o, TensorText(ts[0], o, padded)) && m >= o + |TensorText(ts[0], o, padded)|
    ensures var rest := LoadTensors(data[..m], o + |TensorText(ts[0], o, padded)|, padded);
            && (LoadTensors(data[..m], o, padded).Ok? <==> rest.Ok?)
            && (rest.Ok? ==> LoadTensors(data[..m], o, padded).value.read == rest.value.read)
  {
    hide LoadTensor; hide TensorText; hide Stands; hide GoodTensor;
    StandsInPrefix(data, m, o, TensorText(ts[0], o, padded));
    LoadsTensor(data[..m], o, ts[0], padded);
  }

  lemma CutInFirst(data: seq<byte>, o: nat, ts: seq<FileTensor>, padded: bool, m: nat)
    requires GoodTensors(ts) && ts != [] && o < m <= |data|
    requires Stands(data, o, TensorText(ts[0], o, padded)) && m < o + |TensorText(ts[0], o, padded)|
    ensures LoadTensors(data[..m], o, padded).Ok? <==> exists i: nat :: CutsAt(ts, o, padded, m, i)
    ensures forall i: nat | CutsAt(ts, o, padded, m, i) ::
              i == 0 && LoadTensors(data[..m], o, padded).Ok? &&
              LoadTensors(data[..m], o, padded).value.read == Offset(ts, o, padded, 1)
  {
    hide LoadTensor; hide TensorText; hide Stands; hide GoodTensor;
    CutTensor(data, m, o, ts[0], padded);
    OffsetCons(ts, o, padded, 1);
    forall i: nat | CutsAt(ts, o, padded, m, i) ensures i == 0 {
      if i > 0 { OffsetsGrow(ts, o, padded, i); }
    }
    assert CutsAt(ts, o, padded, m, 0) <==> o + 12 + 4 * |ts[0].dims| <= m;
  }

  lemma {:induction false} OffsetNext(ts: seq<FileTensor>, o: nat, padded: bool, i: nat)
    requires GoodTensors(ts) && i < |ts|
    ensures var here := Offset(ts, o, padded, i);
            GoodTensor(ts[i]) && Offset(ts, o, padded, i + 1) == here + |TensorText(ts[i], here, padded)|
    decreases i
  {
    hide GoodTensor; hide TensorText;
    if i > 0 {
      OffsetCons(ts, o, padded, i);
      OffsetCons(ts, o, padded, i + 1);
      OffsetNext(ts[1..], o + |TensorText(ts[0], o, padded)|, padded, i - 1);
    } else {
      OffsetCons(ts, o, padded, 1);
    }
  }

  lemma {:induction false} OffsetOfEnd(ts: seq<FileTensor>, o: nat, padded: bool)
    requires GoodTensors(ts)
    ensures Offset(ts, o, padded, |ts|) == o + |TensorsText(ts, o, padded)|
    decreases |ts|
  {
    hide GoodTensor; hide TensorText;
    if ts != [] {
      OffsetCons(ts, o, padded, |ts|);
      OffsetOfEnd(ts[1..], o + |TensorText(ts[0], o, padded)|, padded);
    }
  }

  /** Of the cut files that load, exactly those cut between two tensors have all their data. */
  lemma CutHasDataExactly(data: seq<byte>, o: nat, ts: seq<FileTensor>, padded: bool, m: nat)
    requires GoodTensors(ts) && o <= m <= |data|
    requires Stands(data, o, TensorsText(ts, o, padded)) && o + |TensorsText(ts, o, padded)| == |data|
    requires LoadTensors(data[..m], o, padded).Ok?
    ensures var infos := LoadTensors(data[..m], o, padded).value.item;
            (forall k | 0 <= k < |infos| :: End(infos[k]) <= m) <==> AtBoundary(ts, o, padded, m)
  {
    hide LoadTensors; hide Stands; hide TensorsText; hide GoodTensor; hide TensorText; hide End;
    CutLoadsExactly(data, o, ts, padded, m);
    DataPresentExactly(data[..m], o, padded);
    var r := LoadTensors(data[..m], o, padded).value;
    assert (forall k | 0 <= k < |r.item| :: End(r.item[k]) <= m) <==> r.read == m;
    var i: nat :| CutsAt(ts, o, padded, m, i);
    assert m == Offset(ts, o, padded, i) ==> AtBoundary(ts, o, padded, m);
    assert AtBoundary(ts, o, padded, m) ==> r.read == m by {
      if AtBoundary(ts, o, padded, m) {
        var j: nat :| j <= |ts| && m == Offset(ts, o, padded, j);
        assert CutsAt(ts, o, padded, m, j);
      }
    }
  }

  /** The cut is where a tensor begins or the last one ends. */
  ghost predicate AtBoundary(ts: seq<FileTensor>, o: nat, padded: bool, m: nat)
    requires forall k | 0 <= k < |ts| :: FitsTensor(ts[k]) && GoodTensor(ts[k])
  {
    exists i: nat :: i <= |ts| && m == Offset(ts, o, padded, i)
  }

  /** A file without its last byte loads, and the loader does not notice, unless the last tensor has neither a
      name nor data. */
  lemma LastByteNotMissed(data: seq<byte>, o: nat, ts: seq<FileTensor>, padded: bool)
    requires GoodTensors(ts) && ts != [] && (ts[|ts| - 1].name != [] || ts[|ts| - 1].data != [])
    requires Stands(data, o, TensorsText(ts, o, padded)) && o + |TensorsText(ts, o, padded)| == |data|
    ensures |data| > 0 && LoadTensors(data[..|data| - 1], o, padded).Ok?
    ensures LoadTensors(data[..|data| - 1], o, padded).value.read == |data|
  {
    hide LoadTensors; hide Stands; hide TensorsText; hide TensorText; hide GoodTensor; hide Offset;
    var i := |ts| - 1;
    OffsetNext(ts, o, padded, i);
    OffsetOfEnd(ts, o, padded);
    OffsetsGrow(ts, o, padded, i);
    TextLength(ts[i], Offset(ts, o, padded, i), padded);
    CutLoadsExactly(data, o, ts, padded, |data| - 1);
    assert CutsAt(ts, o, padded, |data| - 1, i);
  }
}
