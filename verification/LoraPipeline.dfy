/** Reshaping and concatenating factored tensors, and whole pipelines of operations on them. */
module LoraPipeline {
  import opened Wrappers
  import opened FactoredTensor

  // ------------------------------------------------------------ sizes

  lemma SizeSnoc(shape: seq<nat>, n: nat)
    ensures Size(shape + [n]) == Size(shape) * n
  {
    assert Init(shape + [n]) == shape && Last(shape + [n]) == n;
  }

  lemma {:induction false} SizeOnes(k: nat)
    ensures Size(Ones(k)) == 1
  {
    if k > 0 {
      SizeOnes(k - 1);
      assert Init(Ones(k)) == Ones(k - 1);
    }
  }

  lemma MatrixInOnes(k: nat, rank: nat, n: nat)
    ensures Size(Ones(k) + [rank, n]) == rank * n
  {
    SizeOnes(k);
    SizeSnoc(Ones(k), rank);
    SizeSnoc(Ones(k) + [rank], n);
    assert Ones(k) + [rank, n] == Ones(k) + [rank] + [n];
  }

  lemma UnbatchedSize(l: Lora)
    requires l.Valid() && l.Unbatched()
    ensures Size(l.a.shape) == l.Rank() * Last(l.a.shape)
  {
    var k := |l.a.shape| - 2;
    MatrixInOnes(k, l.Rank(), Last(l.a.shape));
    assert l.a.shape == Ones(k) + [l.Rank(), Last(l.a.shape)];
  }

  lemma FactorSizes(l: Lora)
    requires l.Valid()
    ensures Size(l.Shape()) == Size(Init(l.b.shape)) * Last(l.a.shape)
    ensures Size(l.b.shape) == Size(Init(l.b.shape)) * l.Rank()
  {
    SizeSnoc(Init(l.b.shape), Last(l.a.shape));
    SizeSnoc(Init(l.b.shape), l.Rank());
    assert l.b.shape == Init(l.b.shape) + [l.Rank()];
  }

  lemma Cancels(a: nat, b: nat, n: nat)
    ensures a == b ==> a * n == b * n
    ensures n > 0 && a * n == b * n ==> a == b
  {
    if n > 0 && a * n == b * n {
      MulMonotone(a + 1, b, n);
      MulMonotone(b + 1, a, n);
    }
  }

  // ------------------------------------------------------------ -1 in a requested shape

  /** How many dimensions are left to be inferred. */
  function Unknowns(shape: seq<int>): nat {
    if shape == [] then 0
    else Unknowns(shape[..|shape| - 1]) + if shape[|shape| - 1] == -1 then 1 else 0
  }

  ghost predicate Fills(shape: seq<int>, s: seq<nat>, q: nat) {
    |s| == |shape| && forall k | 0 <= k < |s| :: s[k] == if shape[k] == -1 then q else shape[k]
  }

  function Power(q: nat, n: nat): nat { if n == 0 then 1 else Power(q, n - 1) * q }

  lemma {:induction false} FilledSize(shape: seq<int>, s: seq<nat>, q: nat)
    requires Fills(shape, s, q)
    ensures Size(s) == KnownSize(shape) * Power(q, Unknowns(shape))
  {
    if s != [] {
      var front, d := shape[..|shape| - 1], shape[|shape| - 1];
      FilledSize(front, Init(s), q);
      Commutes(KnownSize(front), Power(q, Unknowns(front)), d, q);
    }
  }

  lemma Commutes(k: int, p: int, d: int, q: int)
    ensures k * p * d == k * d * p && k * p * q == k * (p * q)
  {}

  /** A power is its own base in exactly these cases. */
  lemma {:induction false} PowerIsBase(q: nat, n: nat)
    requires n >= 1
    ensures q <= 1 || n == 1 ==> Power(q, n) == q
    ensures q > 1 ==> Power(q, n) >= q && (n > 1 ==> Power(q, n) > q)
  {
    if n > 1 {
      PowerIsBase(q, n - 1);
      if q > 1 { Grows(Power(q, n - 1), q); }
    } else {
      assert Power(q, 0) == 1;
    }
  }

  lemma Grows(p: nat, q: nat)
    requires p >= q > 1
    ensures p * q > q
  {
    MulMonotone(2, p, q);
  }

  lemma {:induction false} UnknownsCount(shape: seq<int>)
    ensures Unknowns(shape) > 0 <==> -1 in shape
  {
    if shape != [] {
      UnknownsCount(shape[..|shape| - 1]);
      assert shape == shape[..|shape| - 1] + [shape[|shape| - 1]];
    }
  }

  lemma ExpandFills(size: nat, shape: seq<int>)
    requires -1 in shape && Expand(size, shape).Ok?
    ensures KnownSize(shape) != 0 && size % KnownSize(shape) == 0 && size / KnownSize(shape) >= 0
    ensures Fills(shape, Expand(size, shape).value, size / KnownSize(shape))
  {
    hide KnownSize;
    var s := Expand(size, shape).value;
    var k :| 0 <= k < |shape| && shape[k] == -1;
    assert s[k] == size / KnownSize(shape);
  }

  lemma DivisorTimesQuotient(size: nat, d: int)
    requires d != 0 && size % d == 0
    ensures d * (size / d) == size
  {}

  /** A single -1 is replaced by the one dimension that keeps the number of elements. */
  lemma ExpandKeepsSize(size: nat, shape: seq<int>)
    requires Unknowns(shape) == 1 && Expand(size, shape).Ok?
    ensures Size(Expand(size, shape).value) == size
  {
    hide Expand;
    UnknownsCount(shape);
    ExpandFills(size, shape);
    FilledSize(shape, Expand(size, shape).value, size / KnownSize(shape));
    PowerIsBase(size / KnownSize(shape), 1);
    DivisorTimesQuotient(size, KnownSize(shape));
  }

  /** Several are each replaced by the quotient, which keeps the number of elements exactly when it is at
      most one. */
  lemma ExpandSeveral(size: nat, shape: seq<int>)
    requires Unknowns(shape) >= 2 && Expand(size, shape).Ok?
    ensures KnownSize(shape) != 0
    ensures Size(Expand(size, shape).value) == size <==> size / KnownSize(shape) <= 1
  {
    hide Expand; hide Power;
    UnknownsCount(shape);
    ExpandFills(size, shape);
    var known, u := KnownSize(shape), Unknowns(shape);
    var q := size / known;
    FilledSize(shape, Expand(size, shape).value, q);
    PowerIsBase(q, u);
    DivisorTimesQuotient(size, known);
    CancelsInt(known, Power(q, u), q);
  }

  lemma CancelsInt(k: int, a: int, b: int)
    requires k != 0
    ensures k * a == k * b <==> a == b
  {
    if a != b { assert k * (a - b) != 0; }
  }

  // ------------------------------------------------------------ reshape

  /** `torch.reshape` with at most one dimension left to be inferred. */
  function TorchReshape(t: Tensor, shape: seq<int>): Result<Tensor> {
    if exists k | 0 <= k < |shape| :: shape[k] < -1 then Err("invalid shape dimension")
    else if Unknowns(shape) > 1 then Err("only one dimension can be inferred")
    else
      match Expand(Size(t.shape), shape)
      case Err(e) => Err(e)
      case Ok(s) => ReshapeTensor(t, s)
  }

  lemma ExpandedIsNatural(size: nat, shape: seq<int>)
    requires Expand(size, shape).Ok?
    ensures |Expand(size, shape).value| == |shape|
    ensures forall k | 0 <= k < |shape| :: shape[k] >= -1
  {
    var s := Expand(size, shape).value;
    forall k | 0 <= k < |shape| ensures shape[k] >= -1 {
      assert s[k] >= 0;
    }
  }

  lemma ReshapedFactors(l: Lora, s: seq<nat>)
    requires l.Valid() && |s| >= 2 && Last(s) == Last(l.a.shape)
    ensures Size(Init(s) + [l.Rank()]) == Size(Init(s)) * l.Rank()
    ensures Size(Ones(|s| - 2) + [l.Rank(), Last(s)]) == l.Rank() * Last(s)
    ensures Size(s) == Size(Init(s)) * Last(s)
  {
    hide *;
    MatrixInOnes(|s| - 2, l.Rank(), Last(s));
    SizeSnoc(Init(s), l.Rank());
    SizeSnoc(Init(s), Last(s));
    InitAndLast(s);
  }

  lemma InitAndLast(s: seq<nat>)
    requires s != []
    ensures s == Init(s) + [Last(s)]
  {}

  lemma ReshapedIsValid(l: Lora, s: seq<nat>)
    requires l.Valid() && |s| >= 2 && Last(s) == Last(l.a.shape)
    ensures Lora(Tensor(Ones(|s| - 2) + [l.Rank(), Last(s)], l.a.at), Tensor(Init(s) + [l.Rank()], l.b.at)).Valid()
  {}

  /** The factors of an accepted reshape hold the same entries and stand for the same entries. */
  lemma ReshapeKeepsEntries(l: Lora, shape: seq<int>)
    requires l.Valid() && l.Unbatched() && Reshape(l, shape).Ok?
    ensures Expand(Size(l.Shape()), shape).Ok?
    ensures var r, s := Reshape(l, shape).value, Expand(Size(l.Shape()), shape).value;
            r.Valid() && r.Unbatched() && r.Rank() == l.Rank() && r.Shape() == s && |s| >= 2 &&
            Last(s) == Last(l.Shape()) && Size(Init(s)) * l.Rank() == Size(Init(l.b.shape)) * l.Rank() &&
            forall f: nat :: Product(r).at(f) == Product(l).at(f)
  {
    var s := Expand(Size(l.Shape()), shape).value;
    ReshapedFactors(l, s);
    ReshapedIsValid(l, s);
    FactorSizes(l);
    var r := Reshape(l, shape).value;
    assert r.a.at == l.a.at && r.b.at == l.b.at;
    assert r.Rank() == l.Rank() && Last(r.a.shape) == Last(l.a.shape);
    assert r.Shape() == Init(s) + [Last(s)] == s;
  }

  /** A reshape is accepted exactly when the filled shape keeps the row size and, unless the rank is zero,
      the number of rows. */
  lemma ReshapeAccepted(l: Lora, shape: seq<int>)
    requires l.Valid() && l.Unbatched()
    ensures Reshape(l, shape).Ok? <==>
            && |shape| >= 2 && Expand(Size(l.Shape()), shape).Ok?
            && (var s := Expand(Size(l.Shape()), shape).value;
                |s| >= 2 && Last(s) == Last(l.Shape()) && (l.Rank() == 0 || Size(Init(s)) == Size(Init(l.b.shape))))
  {
    if |shape| >= 2 && Expand(Size(l.Shape()), shape).Ok? {
      ExpandedIsNatural(Size(l.Shape()), shape);
      var s := Expand(Size(l.Shape()), shape).value;
      if |s| >= 2 && Last(s) == Last(l.Shape()) {
        ReshapeFactors(l, shape, s);
      }
    }
  }

  lemma ReshapeFactors(l: Lora, shape: seq<int>, s: seq<nat>)
    requires l.Valid() && l.Unbatched() && |shape| >= 2 && |s| >= 2 && Last(s) == Last(l.Shape())
    requires Expand(Size(l.Shape()), shape) == Ok(s)
    ensures Reshape(l, shape).Ok? <==> l.Rank() == 0 || Size(Init(s)) == Size(Init(l.b.shape))
  {
    hide Expand; hide Size;
    FactorSizes(l);
    UnbatchedSize(l);
    ReshapedFactors(l, s);
    ReshapedIsValid(l, s);
    Cancels(Size(Init(s)), Size(Init(l.b.shape)), l.Rank());
  }

  /** An accepted reshape, whatever its rank and however many -1 it has, is the reshape of the product
      exactly when `torch.reshape` accepts the shape: with at most one -1, and, which can fail for rank zero
      only, the same number of elements. */
  lemma ReshapeFaithfulExactly(l: Lora, shape: seq<int>)
    requires l.Valid() && l.Unbatched() && Reshape(l, shape).Ok?
    ensures Expand(Size(l.Shape()), shape).Ok? && Reshape(l, shape).value.Valid()
    ensures var s := Expand(Size(l.Shape()), shape).value;
            && (l.Rank() > 0 ==> Size(s) == Size(l.Shape()))
            && (TorchReshape(Product(l), shape).Ok? <==> Unknowns(shape) <= 1 && Size(s) == Size(l.Shape()))
            && (TorchReshape(Product(l), shape).Ok? ==>
                  Same(Product(Reshape(l, shape).value), TorchReshape(Product(l), shape).value))
  {
    ReshapeKeepsEntries(l, shape);
    var s := Expand(Size(l.Shape()), shape).value;
    ExpandedIsNatural(Size(l.Shape()), shape);
    FactorSizes(l);
    ReshapedFactors(l, s);
    Cancels(Size(Init(s)), Size(Init(l.b.shape)), l.Rank());
  }

  /** An accepted reshape is the reshape of the product to the filled shape. */
  lemma ReshapeCommutes(l: Lora, shape: seq<int>)
    requires l.Valid() && l.Unbatched() && l.Rank() > 0 && Reshape(l, shape).Ok?
    ensures Expand(Size(l.Shape()), shape).Ok?
    ensures var r, t := Reshape(l, shape).value, ReshapeTensor(Product(l), Expand(Size(l.Shape()), shape).value);
            r.Valid() && r.Unbatched() && r.Rank() == l.Rank() && t.Ok? && Same(Product(r), t.value) &&
            if Unknowns(shape) <= 1 then TorchReshape(Product(l), shape) == t else TorchReshape(Product(l), shape).Err?
  {
    ReshapeKeepsEntries(l, shape);
    ReshapeFaithfulExactly(l, shape);
    ExpandedIsNatural(Size(l.Shape()), shape);
  }

  lemma TorchAccepted(l: Lora, shape: seq<int>, s: seq<nat>)
    requires l.Valid() && Unknowns(shape) <= 1 && |s| >= 2 && Last(s) == Last(l.Shape())
    requires Expand(Size(l.Shape()), shape) == Ok(s)
    ensures TorchReshape(Product(l), shape).Ok? <==>
            Last(l.a.shape) == 0 || Size(Init(s)) == Size(Init(l.b.shape))
    ensures TorchReshape(Product(l), shape).Ok? ==> TorchReshape(Product(l), shape).value.shape == s
  {
    hide Size; hide Unknowns;
    ExpandedIsNatural(Size(l.Shape()), shape);
    FactorSizes(l);
    ReshapedFactors(l, s);
    Cancels(Size(Init(s)), Size(Init(l.b.shape)), Last(s));
  }

  /** What both kinds of reshape ask of the filled shape before they compare sizes. */
  predicate KeepsRowSize(l: Lora, shape: seq<int>)
    requires l.Valid()
  {
    var e := Expand(Size(l.Shape()), shape);
    |shape| >= 2 && e.Ok? && |e.value| >= 2 && Last(e.value) == Last(l.Shape())
  }

  /** With at most one -1, the factors accept only shapes of at least two dimensions that keep the row size.
      Among these they accept what `torch.reshape` accepts of the product, exactly when the number of rows
      is kept or the rank and the row size are both zero or both positive. */
  lemma ReshapeExactly(l: Lora, shape: seq<int>)
    requires l.Valid() && l.Unbatched() && Unknowns(shape) <= 1
    ensures Reshape(l, shape).Ok? ==> KeepsRowSize(l, shape)
    ensures KeepsRowSize(l, shape) ==>
              var s := Expand(Size(l.Shape()), shape).value;
              (Reshape(l, shape).Ok? <==> TorchReshape(Product(l), shape).Ok?) <==>
              (Size(Init(s)) == Size(Init(l.b.shape)) || (l.Rank() == 0 <==> Last(l.a.shape) == 0))
  {
    hide Reshape; hide TorchReshape; hide Expand; hide Size; hide Unknowns;
    ReshapeAccepted(l, shape);
    if KeepsRowSize(l, shape) {
      TorchAccepted(l, shape, Expand(Size(l.Shape()), shape).value);
    }
  }

  /** With several -1, which `torch.reshape` always refuses, a reshape is accepted exactly when the quotient
      that replaces them is at most one and the row size is kept. */
  lemma InfersSeveralExactly(l: Lora, shape: seq<int>)
    requires l.Valid() && l.Unbatched() && l.Rank() > 0 && Last(l.a.shape) > 0 && Unknowns(shape) >= 2
    ensures TorchReshape(Product(l), shape).Err?
    ensures Reshape(l, shape).Ok? <==>
            && Expand(Size(l.Shape()), shape).Ok? && KnownSize(shape) != 0
            && |shape| >= 2 && Last(Expand(Size(l.Shape()), shape).value) == Last(l.Shape())
            && Size(l.Shape()) / KnownSize(shape) <= 1
  {
    UnknownsFit(shape);
    hide Reshape; hide Size; hide Unknowns; hide KnownSize;
    ReshapeAccepted(l, shape);
    if Expand(Size(l.Shape()), shape).Ok? {
      ExpandedIsNatural(Size(l.Shape()), shape);
      ExpandSeveral(Size(l.Shape()), shape);
      var s := Expand(Size(l.Shape()), shape).value;
      if Last(s) == Last(l.Shape()) {
        ReshapedFactors(l, s);
        FactorSizes(l);
        Cancels(Size(Init(s)), Size(Init(l.b.shape)), Last(s));
      }
    }
  }

  lemma {:induction false} UnknownsFit(shape: seq<int>)
    ensures Unknowns(shape) <= |shape|
  {
    if shape != [] { UnknownsFit(shape[..|shape| - 1]); }
  }

  lemma TwoUnknowns()
    ensures KnownSize([-1, -1]) == 1 && Unknowns([-1, -1]) == 2
    ensures Expand(1, [-1, -1]) == Ok([1, 1])
  {
    var shape := [-1, -1];
    assert shape[..1] == [-1] && shape[..1][..0] == [];
    assert KnownSize(shape[..1]) == 1 && KnownSize(shape) == 1;
    assert Unknowns(shape[..1]) == 1 && Unknowns(shape) == 2;
    assert shape[0] == -1;
    assert Expand(1, shape).Ok?;
    assert Expand(1, shape).value == [1, 1];
  }

  /** The simplest case: a single element. */
  lemma InfersTwice(l: Lora)
    requires l.Valid() && l.a.shape == [1, 1] && l.b.shape == [1, 1]
    ensures Reshape(l, [-1, -1]).Ok? && TorchReshape(Product(l), [-1, -1]).Err?
  {
    hide Size; hide Expand; hide KnownSize; hide Unknowns;
    TwoUnknowns();
    MatrixSize(1, 1);
    assert l.Shape() == [1, 1];
    var s: seq<nat> := [1, 1];
    ReshapedFactors(l, s);
    ReshapedIsValid(l, s);
    assert Init(s) == [1];
    SizeSnoc([], 1);
    assert [] + [1] == [1 as nat];
    SizeOfNothing();
  }

  lemma SizeOfNothing()
    ensures Size([]) == 1
  {}
}
