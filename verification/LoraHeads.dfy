/** The reshape, swapaxes, reshape pipeline that reorders the rows of attention heads, on factored tensors. */
module LoraHeads {
  import opened Wrappers
  import opened FactoredTensor
  import opened LoraAxes
  import opened LoraPipeline
  import opened LoraRuns

  /** `weights.reshape(h, 2, k, n).swapaxes(1, 2).reshape(weights.shape)` */
  function HeadOps(h: nat, k: nat, n: nat): seq<Op> {
    [ToShape([h, 2, k, n]), Exchange(1, 2), ToShape([h * 2 * k, n])]
  }

  const MIDDLE: seq<nat> := [0, 2, 1, 3]

  lemma MiddleExchanged()
    ensures Exchanged(4, 1, 2) == MIDDLE && IsPermutation(MIDDLE)
  {
    assert MIDDLE[0] == 0 && MIDDLE[1] == 2 && MIDDLE[2] == 1 && MIDDLE[3] == 3;
  }

  lemma FlatFour(s0: nat, s1: nat, s2: nat, s3: nat, i0: nat, i1: nat, i2: nat, i3: nat)
    ensures Flat([s0, s1, s2, s3], [i0, i1, i2, i3]) == ((i0 * s1 + i1) * s2 + i2) * s3 + i3
  {
    FlatMatrix(s0, s1, i0, i1);
    assert Init([s0, s1, s2]) == [s0, s1] && Init([i0, i1, i2]) == [i0, i1];
    assert Flat([s0, s1, s2], [i0, i1, i2]) == (i0 * s1 + i1) * s2 + i2;
    assert Init([s0, s1, s2, s3]) == [s0, s1, s2] && Init([i0, i1, i2, i3]) == [i0, i1, i2];
  }

  lemma SizeThree(a: nat, b: nat, c: nat)
    ensures Size([a, b, c]) == a * b * c
  {
    MatrixSize(a, b);
    assert Init([a, b, c]) == [a, b];
  }

  lemma SizeFour(a: nat, b: nat, c: nat, d: nat)
    ensures Size([a, b, c, d]) == a * b * c * d
  {
    SizeThree(a, b, c);
    assert Init([a, b, c, d]) == [a, b, c];
  }

  lemma ExpandKnown(size: nat, shape: seq<int>, s: seq<nat>)
    requires |s| == |shape| && forall i | 0 <= i < |s| :: s[i] == shape[i]
    ensures Expand(size, shape) == Ok(s) && Unknowns(shape) == 0
  {
    hide KnownSize;
    hide Unknowns;
    UnknownsCount(shape);
    var filled := seq(|shape|, i requires 0 <= i < |shape| => shape[i]);
    assert filled == shape;
    assert -1 !in shape;
    assert Expand(size, shape).Ok?;
    assert Expand(size, shape).value == s;
  }

  lemma ReshapeFits(l: Lora, shape: seq<int>, s: seq<nat>)
    requires Usable(l) && 2 <= |s| == |shape| && (forall i | 0 <= i < |s| :: s[i] == shape[i])
    requires Last(s) == Last(l.Shape()) && Size(Init(s)) == Size(Init(l.b.shape))
    ensures Reshape(l, shape).Ok? && Reshape(l, shape).value.Valid() && Reshape(l, shape).value.Shape() == s
    ensures Unknowns(shape) == 0
  {
    hide Size; hide KnownSize; hide Expand; hide Unknowns;
    ExpandKnown(Size(l.Shape()), shape, s);
    ReshapedFactors(l, s);
    ReshapedIsValid(l, s);
    UnbatchedSize(l);
    FactorSizes(l);
    ReshapeKeepsEntries(l, shape);
  }

  lemma SplitHeads(l: Lora, h: nat, k: nat)
    requires Usable(l) && |l.Shape()| == 2 && l.Shape()[0] == h * 2 * k
    ensures var n := l.Shape()[1];
            Step(l, ToShape([h, 2, k, n])).Ok? && InfersOnce(ToShape([h, 2, k, n])) &&
            Step(l, ToShape([h, 2, k, n])).value.Valid() &&
            Step(l, ToShape([h, 2, k, n])).value.Shape() == [h, 2, k, n]
  {
    hide Reshape;
    var n := l.Shape()[1];
    assert Init([h, 2, k, n]) == [h, 2, k];
    SizeThree(h, 2, k);
    assert Init(l.b.shape) == [h * 2 * k];
    SizeSnoc([], h * 2 * k);
    assert [] + [h * 2 * k] == [h * 2 * k];
    ReshapeFits(l, [h, 2, k, n], [h, 2, k, n]);
  }

  lemma ExchangeMiddle(l: Lora, h: nat, k: nat, n: nat)
    requires Usable(l) && l.Shape() == [h, 2, k, n]
    ensures Step(l, Exchange(1, 2)).Ok? && Step(l, Exchange(1, 2)).value.Valid()
    ensures Step(l, Exchange(1, 2)).value.Shape() == [h, k, 2, n]
  {
    MiddleExchanged();
    FixedLastPermuteCommutes(l, MIDDLE);
    assert PermutedShape(l.Shape(), MIDDLE) == [h, k, 2, n];
  }

  lemma JoinHeads(l: Lora, h: nat, k: nat, n: nat)
    requires Usable(l) && l.Shape() == [h, k, 2, n]
    ensures Step(l, ToShape([h * 2 * k, n])).Ok? && InfersOnce(ToShape([h * 2 * k, n]))
    ensures Step(l, ToShape([h * 2 * k, n])).value.Valid()
  {
    hide Reshape;
    SizeThree(h, k, 2);
    assert Init(l.Shape()) == [h, k, 2] == Init(l.b.shape);
    var s: seq<nat> := [h * 2 * k, n];
    assert Init(s) == [h * 2 * k];
    SizeSnoc([], h * 2 * k);
    assert [] + [h * 2 * k] == [h * 2 * k];
    ReshapeFits(l, [h * 2 * k, n], s);
  }

  lemma HeadsAccepted(l: Lora, h: nat, k: nat)
    requires Usable(l) && |l.Shape()| == 2 && l.Shape()[0] == h * 2 * k
    ensures Run(l, HeadOps(h, k, l.Shape()[1])).Ok?
    ensures forall i | 0 <= i < 3 :: InfersOnce(HeadOps(h, k, l.Shape()[1])[i])
  {
    hide Step;
    var n := l.Shape()[1];
    var ops := HeadOps(h, k, n);
    SplitHeads(l, h, k);
    StepCommutes(l, ops[0]);
    var l1 := Step(l, ops[0]).value;
    ExchangeMiddle(l1, h, k, n);
    StepCommutes(l1, ops[1]);
    var l2 := Step(l1, ops[1]).value;
    JoinHeads(l2, h, k, n);
    RunThree(l, ops, l1, l2, Step(l2, ops[2]).value);
  }

  lemma RunThree(l: Lora, ops: seq<Op>, l1: Lora, l2: Lora, l3: Lora)
    requires |ops| == 3 && l.Valid() && l1.Valid() && l2.Valid() && l3.Valid()
    requires Step(l, ops[0]) == Ok(l1) && Step(l1, ops[1]) == Ok(l2) && Step(l2, ops[2]) == Ok(l3)
    ensures Run(l, ops) == Ok(l3)
  {
    hide Step;
    assert ops[2..][1..] == [];
    assert Run(l3, ops[2..][1..]) == Ok(l3);
    assert Run(l2, ops[2..]) == Ok(l3);
    assert ops[1..][1..] == ops[2..];
    assert Run(l1, ops[1..]) == Ok(l3);
  }

  lemma TorchRunThree(t: Tensor, ops: seq<Op>, t1: Tensor, t2: Tensor, t3: Tensor)
    requires |ops| == 3
    requires TorchStep(t, ops[0]) == Ok(t1) && TorchStep(t1, ops[1]) == Ok(t2) && TorchStep(t2, ops[2]) == Ok(t3)
    ensures TorchRun(t, ops) == Ok(t3)
  {
    hide TorchStep;
    assert ops[2..][1..] == [];
    assert TorchRun(t3, ops[2..][1..]) == Ok(t3);
    assert TorchRun(t2, ops[2..]) == Ok(t3);
    assert ops[1..][1..] == ops[2..];
    assert TorchRun(t1, ops[1..]) == Ok(t3);
  }

  lemma TorchReshapeFits(t: Tensor, shape: seq<int>, s: seq<nat>)
    requires |s| == |shape| && forall i | 0 <= i < |s| :: s[i] == shape[i]
    requires Size(s) == Size(t.shape)
    ensures TorchReshape(t, shape) == Ok(Tensor(s, t.at))
  {
    ExpandKnown(Size(t.shape), shape, s);
  }

  /** What the pipeline does to a plain matrix. */
  lemma TorchHeads(t: Tensor, h: nat, k: nat)
    requires |t.shape| == 2 && t.shape[0] == h * 2 * k
    ensures IsPermutation(MIDDLE)
    ensures var t1 := Tensor([h, 2, k, t.shape[1]], t.at);
            TorchRun(t, HeadOps(h, k, t.shape[1])) == Ok(Tensor(t.shape, PermuteTensor(t1, MIDDLE).at))
  {
    hide TorchReshape;
    hide PermuteTensor;
    MiddleExchanged();
    var n := t.shape[1];
    var ops := HeadOps(h, k, n);
    assert t.shape == [h * 2 * k, n];
    MatrixSize(h * 2 * k, n);
    SizeFour(h, 2, k, n);
    SizeFour(h, k, 2, n);
    var t1 := Tensor([h, 2, k, n], t.at);
    TorchReshapeFits(t, [h, 2, k, n], [h, 2, k, n]);
    var t2 := PermuteTensor(t1, MIDDLE);
    assert TorchStep(t1, ops[1]) == Ok(t2);
    PermutedMiddle(t1, h, k, n);
    var t3 := Tensor([h * 2 * k, n], t2.at);
    Reorder(h, k);
    TorchReshapeFits(t2, [h * 2 * k, n], [h * 2 * k, n]);
    TorchRunThree(t, ops, t1, t2, t3);
  }

  lemma PermutedMiddle(t: Tensor, h: nat, k: nat, n: nat)
    requires t.shape == [h, 2, k, n] && IsPermutation(MIDDLE)
    ensures PermuteTensor(t, MIDDLE).shape == [h, k, 2, n]
  {
    assert PermutedShape(t.shape, MIDDLE) == [h, k, 2, n];
  }

  lemma Reorder(h: nat, k: nat)
    ensures h * k * 2 == h * 2 * k
  {}

  lemma MiddleEntry(t: Tensor, h: nat, k: nat, n: nat, head: nat, half: nat, pair: nat, col: nat)
    requires t.shape == [h, 2, k, n] && IsPermutation(MIDDLE)
    requires head < h && half < 2 && pair < k && col < n
    ensures Entry(PermuteTensor(t, MIDDLE).at, n, (head * k + pair) * 2 + half, col) ==
            Entry(t.at, n, (head * 2 + half) * k + pair, col)
  {
    var u: seq<nat>, v: seq<nat> := [head, pair, half, col], [head, half, pair, col];
    assert PermutedShape(t.shape, MIDDLE) == [h, k, 2, n];
    assert MIDDLE[0] == 0 && MIDDLE[1] == 2 && MIDDLE[2] == 1 && MIDDLE[3] == 3;
    PermutedEntry(t, MIDDLE, u, v);
    FlatFour(h, k, 2, n, head, pair, half, col);
    FlatFour(h, 2, k, n, head, half, pair, col);
  }

  lemma HeadsStandFor(l: Lora, h: nat, k: nat)
    requires Usable(l) && |l.Shape()| == 2 && l.Shape()[0] == h * 2 * k
    ensures IsPermutation(MIDDLE)
    ensures Run(l, HeadOps(h, k, l.Shape()[1])).Ok? && Usable(Run(l, HeadOps(h, k, l.Shape()[1])).value)
    ensures Same(Product(Run(l, HeadOps(h, k, l.Shape()[1])).value),
                 Tensor(l.Shape(), PermuteTensor(Tensor([h, 2, k, l.Shape()[1]], Product(l).at), MIDDLE).at))
  {
    hide PermuteTensor;
    hide Run;
    hide TorchRun;
    hide IsPermutation;
    HeadsAccepted(l, h, k);
    RunCommutes(l, HeadOps(h, k, l.Shape()[1]));
    TorchHeads(Product(l), h, k);
  }

  lemma RowInside(h: nat, k: nat, head: nat, half: nat, pair: nat)
    requires head < h && half < 2 && pair < k
    ensures (head * k + pair) * 2 + half < h * 2 * k
  {
    JoinsPosition(head, h, pair, k);
    JoinsPosition(head * k + pair, h * k, half, 2);
    Reorder(h, k);
  }

  /** Row `pair` of half `half` of a head, with the halves one after the other, and with them interleaved. */
  function HalvesRow(k: nat, head: nat, half: nat, pair: nat): nat { (head * 2 + half) * k + pair }
  function PairsRow(k: nat, head: nat, half: nat, pair: nat): nat { (head * k + pair) * 2 + half }

  lemma RowsInterleaved(t: Tensor, u: Tensor, h: nat, k: nat, head: nat, half: nat, pair: nat, col: nat)
    requires |t.shape| == 2 && t.shape[0] == h * 2 * k && IsPermutation(MIDDLE)
    requires Same(u, Tensor(t.shape, PermuteTensor(Tensor([h, 2, k, t.shape[1]], t.at), MIDDLE).at))
    requires head < h && half < 2 && pair < k && col < t.shape[1]
    ensures Entry(u.at, t.shape[1], PairsRow(k, head, half, pair), col) ==
            Entry(t.at, t.shape[1], HalvesRow(k, head, half, pair), col)
  {
    hide PermuteTensor;
    hide IsPermutation;
    var n, t1 := t.shape[1], Tensor([h, 2, k, t.shape[1]], t.at);
    MiddleEntry(t1, h, k, n, head, half, pair, col);
    RowInside(h, k, head, half, pair);
    SameEntry(u, Tensor(t.shape, PermuteTensor(t1, MIDDLE).at), (head * k + pair) * 2 + half, col);
  }

  /** On a factored matrix of `h` heads with `2 * k` rows each the pipeline is accepted (see `HeadsAccepted`),
      and row `pair` of half `half` of every head becomes row `half` of pair `pair`: the two halves are
      interleaved. */
  lemma HeadsInterleaved(l: Lora, r: Lora, h: nat, k: nat, head: nat, half: nat, pair: nat, col: nat)
    requires Usable(l) && |l.Shape()| == 2 && l.Shape()[0] == h * 2 * k
    requires Run(l, HeadOps(h, k, l.Shape()[1])) == Ok(r)
    requires head < h && half < 2 && pair < k && col < l.Shape()[1]
    ensures Usable(r) && Product(r).shape == l.Shape()
    ensures Entry(Product(r).at, l.Shape()[1], PairsRow(k, head, half, pair), col) ==
            Entry(Product(l).at, l.Shape()[1], HalvesRow(k, head, half, pair), col)
  {
    hide PairsRow;
    hide HalvesRow;
    hide PermuteTensor;
    hide Run;
    hide HeadOps;
    hide IsPermutation;
    hide Entry;
    hide Size;
    hide Dot;
    HeadsStandFor(l, h, k);
    RowsInterleaved(Product(l), Product(r), h, k, head, half, pair, col);
  }
}
