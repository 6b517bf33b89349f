/** Concatenating factored matrices, and whole runs of operations on a factored tensor. */
module LoraRuns {
  import opened Wrappers
  import opened FactoredTensor
  import opened LoraAxes
  import opened LoraPipeline

  // ------------------------------------------------------------ cat with equal A

  lemma CatEntry(t: Tensor, u: Tensor, row: nat, col: nat)
    requires |t.shape| == 2 && |u.shape| == 2 && t.shape[1] == u.shape[1] && col < t.shape[1]
    ensures Entry(CatRows(t, u).at, t.shape[1], row, col) ==
            if row < t.shape[0] then Entry(t.at, t.shape[1], row, col)
            else Entry(u.at, t.shape[1], row - t.shape[0], col)
  {
    var m, n := t.shape[0], t.shape[1];
    assert t.shape == [m, n];
    MatrixSize(m, n);
    if row < m {
      JoinsPosition(row, m, col, n);
    } else {
      MulMonotone(m, row, n);
      Distributes(row, m, n);
    }
  }

  lemma Distributes(a: int, b: int, n: int)
    ensures (a - b) * n == a * n - b * n
  {}

  lemma SameEntry(t: Tensor, u: Tensor, row: nat, col: nat)
    requires Same(t, u) && |t.shape| == 2 && row < t.shape[0] && col < t.shape[1]
    ensures Entry(t.at, t.shape[1], row, col) == Entry(u.at, t.shape[1], row, col)
  {
    var m, n := t.shape[0], t.shape[1];
    assert t.shape == [m, n];
    MatrixSize(m, n);
    JoinsPosition(row, m, col, n);
  }

  lemma CatDot(l: Lora, o: Lora, row: nat, col: nat)
    requires l.Valid() && o.Valid() && |l.b.shape| == 2 && Same(l.a, o.a) && col < l.Shape()[1]
    ensures |o.b.shape| == 2
    ensures Dot(CatRows(l.b, o.b).at, l.a.at, l.Rank(), l.Shape()[1], row, col, l.Rank()) ==
            if row < l.Shape()[0] then Dot(l.b.at, l.a.at, l.Rank(), l.Shape()[1], row, col, l.Rank())
            else Dot(o.b.at, o.a.at, l.Rank(), l.Shape()[1], row - l.Shape()[0], col, l.Rank())
  {
    var rank, n, b := l.Rank(), l.Shape()[1], CatRows(l.b, o.b).at;
    var first := row < l.Shape()[0];
    var part, row' := if first then l else o, if first then row else row - l.Shape()[0];
    forall k: nat | k < rank
      ensures Entry(b, rank, row, k) == Entry(part.b.at, rank, row', k)
      ensures Entry(l.a.at, n, k, col) == Entry(part.a.at, n, k, col)
    {
      CatEntry(l.b, o.b, row, k);
      SameEntry(l.a, o.a, k, col);
    }
    DotSame(b, l.a.at, part.b.at, part.a.at, rank, n, n, row, row', col, col, rank);
  }

  lemma CatEntryCommutes(l: Lora, o: Lora, f: nat)
    requires l.Valid() && o.Valid() && |l.b.shape| == 2 && Same(l.a, o.a)
    requires f < (l.Shape()[0] + o.Shape()[0]) * l.Shape()[1]
    ensures |o.b.shape| == 2
    ensures Product(Lora(l.a, CatRows(l.b, o.b))).at(f) == CatRows(Product(l), Product(o)).at(f)
  {
    var n := l.Shape()[1];
    SplitsPosition(f, l.Shape()[0] + o.Shape()[0], n);
    var (row, col) := (Div(f, n), Mod(f, n));
    CatDot(l, o, row, col);
    CatEntry(Product(l), Product(o), row, col);
    if row < l.Shape()[0] {
      ProductEntry(l, row, col);
    } else {
      ProductEntry(o, row - l.Shape()[0], col);
    }
  }

  lemma CatCommutes(l: Lora, o: Lora)
    requires l.Valid() && o.Valid() && |l.b.shape| == 2 && Same(l.a, o.a)
    ensures |o.b.shape| == 2
    ensures var r := Lora(l.a, CatRows(l.b, o.b));
            r.Valid() && Same(Product(r), CatRows(Product(l), Product(o)))
  {
    var r := Lora(l.a, CatRows(l.b, o.b));
    var rows, n := l.Shape()[0] + o.Shape()[0], l.Shape()[1];
    MatrixSize(rows, n);
    assert Product(r).shape == [rows, n];
    forall f: nat | f < rows * n ensures Product(r).at(f) == CatRows(Product(l), Product(o)).at(f) {
      CatEntryCommutes(l, o, f);
    }
  }

  lemma CatRespectsSame(t: Tensor, t': Tensor, u: Tensor)
    requires Same(t, t') && |t.shape| == 2 && |u.shape| == 2 && t.shape[1] == u.shape[1]
    ensures Same(CatRows(t, u), CatRows(t', u))
  {
    var m, n := t.shape[0], t.shape[1];
    assert t.shape == [m, n] && u.shape == [u.shape[0], n];
  }

  /** The tensors one below the other. */
  ghost function Stacked(t: Tensor, others: seq<Lora>): Tensor
    requires |t.shape| == 2
    requires forall k | 0 <= k < |others| :: others[k].Valid() && |others[k].b.shape| == 2
    decreases |others|
  {
    if others == [] then t else Stacked(CatRows(t, Product(others[0])), others[1..])
  }

  lemma {:induction false} StackedRespectsSame(t: Tensor, t': Tensor, others: seq<Lora>)
    requires Same(t, t') && |t.shape| == 2
    requires forall k | 0 <= k < |others| ::
               others[k].Valid() && |others[k].b.shape| == 2 && Last(others[k].a.shape) == t.shape[1]
    ensures Same(Stacked(t, others), Stacked(t', others))
    decreases |others|
  {
    if others != [] {
      CatRespectsSame(t, t', Product(others[0]));
      StackedRespectsSame(CatRows(t, Product(others[0])), CatRows(t', Product(others[0])), others[1..]);
    }
  }

  ghost predicate Matrices(ls: seq<Lora>) {
    forall k | 0 <= k < |ls| :: ls[k].Valid() && |ls[k].b.shape| == 2
  }

  ghost predicate AllShare(a: Tensor, ls: seq<Lora>) {
    forall k | 0 <= k < |ls| :: Same(a, ls[k].a)
  }

  lemma AllShareCons(a: Tensor, ls: seq<Lora>)
    requires ls != [] && Matrices(ls)
    ensures Matrices(ls[1..]) && (AllShare(a, ls) <==> Same(a, ls[0].a) && AllShare(a, ls[1..]))
  {
    hide Same;
    if Same(a, ls[0].a) && AllShare(a, ls[1..]) {
      forall k | 0 <= k < |ls| ensures Same(a, ls[k].a) {
        if k > 0 { assert Same(a, ls[1..][k - 1].a); }
      }
    }
  }

  lemma AllShareWidth(l: Lora, ls: seq<Lora>)
    requires l.Valid() && Matrices(ls) && AllShare(l.a, ls)
    ensures forall k | 0 <= k < |ls| :: Last(ls[k].a.shape) == Last(l.a.shape)
  {}

  lemma CatFirst(l: Lora, ls: seq<Lora>)
    requires l.Valid() && |l.b.shape| == 2 && ls != [] && Matrices(ls)
    ensures !Same(l.a, ls[0].a) ==> CatEqualA(l, ls).Err?
    ensures Same(l.a, ls[0].a) ==>
              var r := Lora(l.a, CatRows(l.b, ls[0].b));
              && r.Valid() && |r.b.shape| == 2 && Matrices(ls[1..])
              && CatEqualA(l, ls) == CatEqualA(r, ls[1..])
              && Same(Product(r), CatRows(Product(l), Product(ls[0])))
  {
    hide Same;
    if Same(l.a, ls[0].a) { CatCommutes(l, ls[0]); }
  }

  lemma SameTransitive(t: Tensor, u: Tensor, v: Tensor)
    requires Same(t, u) && Same(u, v)
    ensures Same(t, v)
  {}

  /** Matrices are concatenated exactly when their A factors are equal, and the result stands for the
      concatenated products. */
  lemma {:induction false} CatEqualACommutes(l: Lora, others: seq<Lora>)
    requires l.Valid() && |l.b.shape| == 2 && Matrices(others)
    ensures CatEqualA(l, others).Ok? <==> AllShare(l.a, others)
    ensures CatEqualA(l, others).Ok? ==>
              var r := CatEqualA(l, others).value;
              r.Valid() && r.a == l.a && Same(Product(r), Stacked(Product(l), others))
    decreases |others|
  {
    if others != [] {
      hide Same; hide CatRows; hide Matrices; hide AllShare; hide CatEqualA;
      AllShareCons(l.a, others);
      CatFirst(l, others);
      if Same(l.a, others[0].a) {
        var o, rest := others[0], others[1..];
        var r := Lora(l.a, CatRows(l.b, o.b));
        CatEqualACommutes(r, rest);
        if AllShare(l.a, rest) {
          StackedStep(l, r, others, CatEqualA(r, rest).value);
        }
      }
    }
  }

  lemma StackedStep(l: Lora, r: Lora, others: seq<Lora>, whole: Lora)
    requires l.Valid() && |l.b.shape| == 2 && Matrices(others) && AllShare(l.a, others) && others != []
    requires r.Valid() && |r.b.shape| == 2 && r.a == l.a && Same(Product(r), CatRows(Product(l), Product(others[0])))
    requires whole.Valid() && Same(Product(whole), Stacked(Product(r), others[1..]))
    ensures Same(Product(whole), Stacked(Product(l), others))
  {
    hide Same; hide CatRows;
    AllShareWidth(l, others);
    StackedRespectsSame(Product(r), CatRows(Product(l), Product(others[0])), others[1..]);
    SameTransitive(Product(whole), Stacked(Product(r), others[1..]), Stacked(Product(l), others));
  }

  // ------------------------------------------------------------ runs of operations

  datatype Op = Rows(rows: seq<nat>) | RowsAndColumns(rows: seq<nat>, cols: seq<nat>)
              | ToShape(shape: seq<int>) | Axes(p: seq<nat>) | Exchange(i: nat, j: nat)

  /** The dimensions of `transpose` and `swapaxes`. */
  function Exchanged(n: nat, i: nat, j: nat): seq<nat>
    requires i < n && j < n
  {
    var dims := seq(n, k requires 0 <= k < n => k as nat);
    dims[i := j][j := i]
  }

  function Step(l: Lora, op: Op): Result<Lora>
    requires l.Valid()
  {
    match op
    case Rows(rows) =>
      if |l.Shape()| == 2 && Within(rows, l.Shape()[0]) then GetRows(l, rows) else Err("index")
    case RowsAndColumns(rows, cols) =>
      if |l.Shape()| == 2 && Within(rows, l.Shape()[0]) && Within(cols, l.Shape()[1])
      then GetRowsAndColumns(l, rows, cols) else Err("index")
    case ToShape(shape) => Reshape(l, shape)
    case Axes(p) => Permute(l, p)
    case Exchange(i, j) =>
      if i < |l.Shape()| && j < |l.Shape()| then Permute(l, Exchanged(|l.Shape()|, i, j)) else Err("IndexError")
  }

  /** The same operation on a plain tensor. */
  function TorchStep(t: Tensor, op: Op): Result<Tensor> {
    match op
    case Rows(rows) =>
      if |t.shape| == 2 && Within(rows, t.shape[0]) then Ok(SelectRows(t, rows)) else Err("index")
    case RowsAndColumns(rows, cols) =>
      if |t.shape| == 2 && Within(rows, t.shape[0]) && Within(cols, t.shape[1])
      then Ok(SelectColumns(SelectRows(t, rows), cols)) else Err("index")
    case ToShape(shape) => TorchReshape(t, shape)
    case Axes(p) =>
      if IsPermutation(p) && |p| == |t.shape| then Ok(PermuteTensor(t, p)) else Err("permute: invalid dims")
    case Exchange(i, j) =>
      if i < |t.shape| && j < |t.shape| && IsPermutation(Exchanged(|t.shape|, i, j))
      then Ok(PermuteTensor(t, Exchanged(|t.shape|, i, j))) else Err("IndexError")
  }

  function Run(l: Lora, ops: seq<Op>): Result<Lora>
    requires l.Valid()
    decreases |ops|
  {
    if ops == [] then Ok(l)
    else
      match Step(l, ops[0])
      case Err(e) => Err(e)
      case Ok(r) => if r.Valid() then Run(r, ops[1..]) else Err("AssertionError")
  }

  function TorchRun(t: Tensor, ops: seq<Op>): Result<Tensor>
    decreases |ops|
  {
    if ops == [] then Ok(t)
    else
      match TorchStep(t, ops[0])
      case Err(e) => Err(e)
      case Ok(u) => TorchRun(u, ops[1..])
  }

  predicate InfersOnce(op: Op) { op.ToShape? ==> Unknowns(op.shape) <= 1 }

  /** What every operation keeps of a factored tensor. */
  predicate Usable(l: Lora) { l.Valid() && l.Unbatched() && l.Rank() > 0 }

  lemma SelectRowsRespectsSame(t: Tensor, u: Tensor, rows: seq<nat>)
    requires Same(t, u) && |t.shape| == 2 && Within(rows, t.shape[0])
    ensures Same(SelectRows(t, rows), SelectRows(u, rows))
  {
    var n := t.shape[1];
    MatrixSize(|rows|, n);
    forall f: nat | f < |rows| * n ensures SelectRows(t, rows).at(f) == SelectRows(u, rows).at(f) {
      SplitsPosition(f, |rows|, n);
      SameEntry(t, u, rows[Div(f, n)], Mod(f, n));
    }
  }

  lemma SelectColumnsRespectsSame(t: Tensor, u: Tensor, cols: seq<nat>)
    requires Same(t, u) && |t.shape| == 2 && Within(cols, t.shape[1])
    ensures Same(SelectColumns(t, cols), SelectColumns(u, cols))
  {
    var m, c := t.shape[0], |cols|;
    MatrixSize(m, c);
    forall f: nat | f < m * c ensures SelectColumns(t, cols).at(f) == SelectColumns(u, cols).at(f) {
      SplitsPosition(f, m, c);
      SameEntry(t, u, Div(f, c), cols[Mod(f, c)]);
    }
  }

  lemma TorchStepRespectsSame(t: Tensor, u: Tensor, op: Op)
    requires Same(t, u)
    ensures TorchStep(t, op).Ok? <==> TorchStep(u, op).Ok?
    ensures TorchStep(t, op).Ok? ==> Same(TorchStep(t, op).value, TorchStep(u, op).value)
  {
    hide Expand;
    hide IsPermutation;
    hide PermuteTensor;
    hide SelectRows;
    hide SelectColumns;
    match op
    case Rows(rows) =>
      if |t.shape| == 2 && Within(rows, t.shape[0]) { SelectRowsRespectsSame(t, u, rows); }
    case RowsAndColumns(rows, cols) =>
      if |t.shape| == 2 && Within(rows, t.shape[0]) && Within(cols, t.shape[1]) {
        BlockRespectsSame(t, u, rows, cols);
      }
    case ToShape(shape) =>
    case Axes(p) =>
      if IsPermutation(p) && |p| == |t.shape| { PermuteRespectsSame(t, u, p); }
    case Exchange(i, j) =>
      if i < |t.shape| && j < |t.shape| && IsPermutation(Exchanged(|t.shape|, i, j)) {
        PermuteRespectsSame(t, u, Exchanged(|t.shape|, i, j));
      }
  }

  lemma BlockRespectsSame(t: Tensor, u: Tensor, rows: seq<nat>, cols: seq<nat>)
    requires Same(t, u) && |t.shape| == 2 && Within(rows, t.shape[0]) && Within(cols, t.shape[1])
    ensures Same(SelectColumns(SelectRows(t, rows), cols), SelectColumns(SelectRows(u, rows), cols))
  {
    SelectRowsRespectsSame(t, u, rows);
    SelectColumnsRespectsSame(SelectRows(t, rows), SelectRows(u, rows), cols);
  }

  lemma {:induction false} TorchRunRespectsSame(t: Tensor, u: Tensor, ops: seq<Op>)
    requires Same(t, u)
    ensures TorchRun(t, ops).Ok? <==> TorchRun(u, ops).Ok?
    ensures TorchRun(t, ops).Ok? ==> Same(TorchRun(t, ops).value, TorchRun(u, ops).value)
    decreases |ops|
  {
    hide TorchStep;
    if ops != [] {
      TorchStepRespectsSame(t, u, ops[0]);
      if TorchStep(t, ops[0]).Ok? {
        TorchRunRespectsSame(TorchStep(t, ops[0]).value, TorchStep(u, ops[0]).value, ops[1..]);
      }
    }
  }

  lemma StepCommutes(l: Lora, op: Op)
    requires Usable(l) && InfersOnce(op) && Step(l, op).Ok?
    ensures Usable(Step(l, op).value)
    ensures TorchStep(Product(l), op).Ok?
    ensures Same(Product(Step(l, op).value), TorchStep(Product(l), op).value)
  {
    hide Reshape;
    hide TorchReshape;
    hide Permute;
    hide PermuteTensor;
    hide IsPermutation;
    hide GetRows;
    hide GetRowsAndColumns;
    hide SelectRows;
    hide SelectColumns;
    match op
    case Rows(rows) => RowSlicingCommutes(l, rows);
    case RowsAndColumns(rows, cols) => SlicingCommutes(l, rows, cols);
    case ToShape(shape) => ReshapeCommutes(l, shape);
    case Axes(p) => PermuteCommutes(l, p);
    case Exchange(i, j) => PermuteCommutes(l, Exchanged(|l.Shape()|, i, j));
  }

  /** Any run of operations that the factored tensor accepts, the product accepts as well, and the factors
      that come out stand for the tensor that comes out. */
  lemma {:induction false} RunCommutes(l: Lora, ops: seq<Op>)
    requires Usable(l) && (forall k | 0 <= k < |ops| :: InfersOnce(ops[k])) && Run(l, ops).Ok?
    ensures Usable(Run(l, ops).value)
    ensures TorchRun(Product(l), ops).Ok?
    ensures Same(Product(Run(l, ops).value), TorchRun(Product(l), ops).value)
    decreases |ops|
  {
    hide Step;
    hide TorchStep;
    hide Product;
    if ops != [] {
      StepCommutes(l, ops[0]);
      var r := Step(l, ops[0]).value;
      RunCommutes(r, ops[1..]);
      TorchRunRespectsSame(Product(r), TorchStep(Product(l), ops[0]).value, ops[1..]);
    }
  }
}
