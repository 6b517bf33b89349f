/** `LoraTorchTensor`: a tensor kept as two factors, on which slicing, reshaping and permuting are
    carried out without ever multiplying the factors. Elements are exact reals, in row-major order. */
module FactoredTensor {
  import opened Wrappers

  /** Only the entries below `Size(shape)` belong to the tensor. */
  datatype Tensor = Tensor(shape: seq<nat>, at: nat -> real)

  function Last(s: seq<nat>): nat
    requires s != []
  {
    s[|s| - 1]
  }

  function Init(s: seq<nat>): seq<nat>
    requires s != []
  {
    s[..|s| - 1]
  }

  function Size(shape: seq<nat>): nat {
    if shape == [] then 1 else Size(Init(shape)) * Last(shape)
  }

  /** `torch.equal` */
  ghost predicate Same(t: Tensor, u: Tensor) {
    t.shape == u.shape && forall f: nat | f < Size(t.shape) :: t.at(f) == u.at(f)
  }

  function Div(f: nat, n: nat): nat { if n == 0 then 0 else f / n }
  function Mod(f: nat, n: nat): nat { if n == 0 then 0 else f % n }

  // ------------------------------------------------------------ tensor operations

  /** The index tuple of a flat position, and back. */
  function Unflat(shape: seq<nat>, f: nat): (idx: seq<nat>)
    ensures |idx| == |shape|
  {
    if shape == [] then [] else Unflat(Init(shape), Div(f, Last(shape))) + [Mod(f, Last(shape))]
  }

  function Flat(shape: seq<nat>, idx: seq<nat>): nat
    requires |shape| == |idx|
  {
    if shape == [] then 0 else Flat(Init(shape), Init(idx)) * Last(shape) + Last(idx)
  }

  predicate IsPermutation(p: seq<nat>) {
    && (forall k | 0 <= k < |p| :: p[k] < |p|)
    && (forall j, k | 0 <= j < k < |p| :: p[j] != p[k])
    && (forall j | 0 <= j < |p| :: j in p)
  }

  function IndexOf(p: seq<nat>, j: nat): (k: nat)
    requires j in p
    ensures k < |p| && p[k] == j
  {
    if p[0] == j then 0 else 1 + IndexOf(p[1..], j)
  }

  /** The tuple whose entry at `p[k]` is `u[k]`. */
  function Scatter(p: seq<nat>, u: seq<nat>): seq<nat>
    requires IsPermutation(p) && |u| == |p|
  {
    seq(|p|, j requires 0 <= j < |p| => u[IndexOf(p, j)])
  }

  function PermutedShape(shape: seq<nat>, p: seq<nat>): seq<nat>
    requires IsPermutation(p) && |p| == |shape|
  {
    seq(|p|, k requires 0 <= k < |p| => shape[p[k]])
  }

  /** Where the entry at flat position `f` of the permuted tensor comes from. */
  function Source(shape: seq<nat>, p: seq<nat>, f: nat): nat
    requires IsPermutation(p) && |p| == |shape|
  {
    Flat(shape, Scatter(p, Unflat(PermutedShape(shape, p), f)))
  }

  /** `torch.permute`, with non-negative dimensions. */
  function PermuteTensor(t: Tensor, p: seq<nat>): Tensor
    requires IsPermutation(p) && |p| == |t.shape|
  {
    Tensor(PermutedShape(t.shape, p), (f: nat) => t.at(Source(t.shape, p, f)))
  }

  /** `torch.reshape` keeps the flat order. */
  function ReshapeTensor(t: Tensor, shape: seq<nat>): Result<Tensor> {
    if Size(shape) == Size(t.shape) then Ok(Tensor(shape, t.at)) else Err("shape is invalid for input size")
  }

  /** A slice of rows, or of columns, of a matrix; a slice is the list of positions it selects. */
  predicate Within(sel: seq<nat>, n: nat) {
    forall k | 0 <= k < |sel| :: sel[k] < n
  }

  function Pick(sel: seq<nat>, k: nat): nat { if k < |sel| then sel[k] else 0 }

  function SelectRows(t: Tensor, rows: seq<nat>): Tensor
    requires |t.shape| == 2
  {
    var n := t.shape[1];
    Tensor([|rows|, n], (f: nat) => t.at(Pick(rows, Div(f, n)) * n + Mod(f, n)))
  }

  function SelectColumns(t: Tensor, cols: seq<nat>): Tensor
    requires |t.shape| == 2
  {
    var n, c := t.shape[1], |cols|;
    Tensor([t.shape[0], c], (f: nat) => t.at(Div(f, c) * n + Pick(cols, Mod(f, c))))
  }

  /** `torch.cat` of two matrices along the rows. */
  function CatRows(t: Tensor, u: Tensor): Tensor
    requires |t.shape| == 2 && |u.shape| == 2
  {
    Tensor([t.shape[0] + u.shape[0], t.shape[1]],
           (f: nat) => if f < Size(t.shape) then t.at(f) else u.at(f - Size(t.shape)))
  }

  // ------------------------------------------------------------ the factored tensor

  datatype Lora = Lora(a: Tensor, b: Tensor) {
    /** The assertions of the constructor. */
    predicate Valid() {
      |a.shape| == |b.shape| >= 2 && a.shape[|a.shape| - 2] == Last(b.shape)
    }

    function Rank(): nat
      requires Valid()
    {
      Last(b.shape)
    }

    function Shape(): seq<nat>
      requires Valid()
    {
      Init(b.shape) + [Last(a.shape)]
    }

    /** One A for all rows: its leading dimensions are 1. */
    predicate Unbatched()
      requires Valid()
    {
      forall k | 0 <= k < |a.shape| - 2 :: a.shape[k] == 1
    }
  }

  function Make(a: Tensor, b: Tensor): Result<Lora> {
    if Lora(a, b).Valid() then Ok(Lora(a, b)) else Err("AssertionError")
  }

  /** An entry of a matrix with `width` columns. */
  function Entry(m: nat -> real, width: nat, row: nat, col: nat): real {
    m(row * width + col)
  }

  /** Row `row` of B times column `col` of A, over the first `k` terms. */
  function Dot(b: nat -> real, a: nat -> real, rank: nat, n: nat, row: nat, col: nat, k: nat): real {
    if k == 0 then 0.0
    else Dot(b, a, rank, n, row, col, k - 1) + Entry(b, rank, row, k - 1) * Entry(a, n, k - 1, col)
  }

  /** The tensor that the factors stand for: B times A. */
  function Product(l: Lora): Tensor
    requires l.Valid()
  {
    var (rank, n) := (l.Rank(), Last(l.a.shape));
    Tensor(l.Shape(), (f: nat) => Dot(l.b.at, l.a.at, rank, n, Div(f, n), Mod(f, n), rank))
  }

  /** `__getitem__` with a slice of rows, or a pair of slices, on a matrix. */
  function GetRows(l: Lora, rows: seq<nat>): Result<Lora>
    requires l.Valid() && |l.Shape()| == 2
  {
    Make(l.a, SelectRows(l.b, rows))
  }

  function GetRowsAndColumns(l: Lora, rows: seq<nat>, cols: seq<nat>): Result<Lora>
    requires l.Valid() && |l.Shape()| == 2
  {
    Make(SelectColumns(l.a, cols), SelectRows(l.b, rows))
  }

  function Ones(n: nat): seq<nat> { seq(n, _ => 1) }

  /** The product of the dimensions that are not -1. */
  function KnownSize(shape: seq<int>): int {
    if shape == [] then 1
    else
      var last := shape[|shape| - 1];
      KnownSize(shape[..|shape| - 1]) * if last == -1 then 1 else last
  }

  /** The -1 entries of a requested shape filled in from the element count. */
  function Expand(size: nat, shape: seq<int>): Result<seq<nat>> {
    var known := KnownSize(shape);
    if -1 in shape && known == 0 then Err("ZeroDivisionError")
    else if -1 in shape && size % known != 0 then Err("AssertionError")
    else
      var filled := seq(|shape|, k requires 0 <= k < |shape| => if shape[k] == -1 then size / known else shape[k]);
      if exists k | 0 <= k < |filled| :: filled[k] < 0 then Err("invalid shape dimension")
      else Ok(seq(|filled|, k requires 0 <= k < |filled| => filled[k] as nat))
  }

  /** `reshape` */
  function Reshape(l: Lora, shape: seq<int>): Result<Lora>
    requires l.Valid()
  {
    if |shape| < 2 then Err("NotImplementedError")
    else
      match Expand(Size(l.Shape()), shape)
      case Err(e) => Err(e)
      case Ok(s) =>
        if |s| < 2 || Last(s) != Last(l.Shape()) then Err("NotImplementedError")
        else
          match ReshapeTensor(l.a, Ones(|s| - 2) + [l.Rank(), Last(s)])
          case Err(e) => Err(e)
          case Ok(a) =>
            match ReshapeTensor(l.b, Init(s) + [l.Rank()])
            case Err(e) => Err(e)
            case Ok(b) => Make(a, b)
  }

  /** `permute`; `p` holds the dimensions made non-negative. */
  function Permute(l: Lora, p: seq<nat>): Result<Lora>
    requires l.Valid()
  {
    if !IsPermutation(p) || |p| != |l.Shape()| then Err("permute: invalid dims")
    else if Last(p) == |p| - 1 then
      if !l.Unbatched() then Err("AssertionError") else Make(l.a, PermuteTensor(l.b, p))
    else if |p| == 2 && p[1] == 0 && p[0] == 1 then Make(PermuteTensor(l.b, p), PermuteTensor(l.a, p))
    else Err("NotImplementedError")
  }

  /** `torch.cat` of matrices with equal A, one after the other. */
  ghost function CatEqualA(l: Lora, others: seq<Lora>): Result<Lora>
    requires l.Valid() && |l.b.shape| == 2
    requires forall k | 0 <= k < |others| :: others[k].Valid() && |others[k].b.shape| == 2
    decreases |others|
  {
    if others == [] then Ok(l)
    else if !Same(l.a, others[0].a) then Err("NotImplementedError")
    else
      match Make(l.a, CatRows(l.b, others[0].b))
      case Err(e) => Err(e)
      case Ok(r) => CatEqualA(r, others[1..])
  }

  // ------------------------------------------------------------ positions

  lemma RowAndColumn(row: nat, n: nat, col: nat)
    requires col < n
    ensures Div(row * n + col, n) == row && Mod(row * n + col, n) == col
  {
    DivModIs(row * n + col, n, row, col);
  }

  lemma DivModIs(f: nat, n: nat, q: nat, r: nat)
    requires r < n && f == q * n + r
    ensures f / n == q && f % n == r
  {
    var q' := f / n;
    assert f == q' * n + f % n;
    MulMonotone(q' + 1, q, n);
    MulMonotone(q + 1, q', n);
  }

  lemma MulMonotone(a: int, b: int, n: nat)
    ensures a <= b ==> a * n <= b * n
    ensures (a + 1) * n == a * n + n
  {}

  lemma SplitsPosition(f: nat, rows: nat, n: nat)
    requires f < rows * n
    ensures n > 0 && Div(f, n) < rows && Mod(f, n) < n && f == Div(f, n) * n + Mod(f, n)
  {
    MulMonotone(rows, f / n, n);
  }

  lemma JoinsPosition(row: nat, rows: nat, col: nat, n: nat)
    requires row < rows && col < n
    ensures row * n + col < rows * n
  {
    MulMonotone(row + 1, rows, n);
    MulMonotone(row, rows, n);
  }

  lemma {:induction false} DotSame(b: nat -> real, a: nat -> real, b': nat -> real, a': nat -> real,
                                   rank: nat, n: nat, n': nat, row: nat, row': nat, col: nat, col': nat, k: nat)
    requires forall i: nat | i < k :: Entry(b, rank, row, i) == Entry(b', rank, row', i)
    requires forall i: nat | i < k :: Entry(a, n, i, col) == Entry(a', n', i, col')
    ensures Dot(b, a, rank, n, row, col, k) == Dot(b', a', rank, n', row', col', k)
  {
    if k > 0 {
      DotSame(b, a, b', a', rank, n, n', row, row', col, col', k - 1);
      assert Entry(b, rank, row, k - 1) == Entry(b', rank, row', k - 1);
      assert Entry(a, n, k - 1, col) == Entry(a', n', k - 1, col');
    }
  }

  lemma MatrixSize(m: nat, n: nat)
    ensures Size([m, n]) == m * n
  {
    assert Init([m, n]) == [m] && Init([m]) == [];
    assert Size([m]) == Size([]) * m;
  }

  // ------------------------------------------------------------ slicing a matrix

  /** Slicing rows of B and columns of A slices the product. */
  lemma SlicingCommutes(l: Lora, rows: seq<nat>, cols: seq<nat>)
    requires l.Valid() && |l.Shape()| == 2
    requires Within(rows, l.Shape()[0]) && Within(cols, l.Shape()[1])
    ensures GetRowsAndColumns(l, rows, cols).Ok?
    ensures var r := GetRowsAndColumns(l, rows, cols).value;
            r.Valid() && r.Unbatched() && r.Rank() == l.Rank() &&
            Same(Product(r), SelectColumns(SelectRows(Product(l), rows), cols))
  {
    var r := GetRowsAndColumns(l, rows, cols).value;
    var whole := SelectColumns(SelectRows(Product(l), rows), cols);
    MatrixSize(|rows|, |cols|);
    assert Product(r).shape == [|rows|, |cols|] == whole.shape;
    forall f: nat | f < |rows| * |cols| ensures Product(r).at(f) == whole.at(f) {
      SlicedEntry(l, rows, cols, f);
    }
  }

  lemma RowEntry(t: Tensor, rows: seq<nat>, i: nat, col: nat)
    requires |t.shape| == 2 && i < |rows| && col < t.shape[1]
    ensures Entry(SelectRows(t, rows).at, t.shape[1], i, col) == Entry(t.at, t.shape[1], rows[i], col)
  {
    RowAndColumn(i, t.shape[1], col);
  }

  lemma ColumnEntry(t: Tensor, cols: seq<nat>, row: nat, j: nat)
    requires |t.shape| == 2 && j < |cols|
    ensures Entry(SelectColumns(t, cols).at, |cols|, row, j) == Entry(t.at, t.shape[1], row, cols[j])
  {
    RowAndColumn(row, |cols|, j);
  }

  lemma ProductEntry(l: Lora, row: nat, col: nat)
    requires l.Valid() && col < Last(l.a.shape)
    ensures Entry(Product(l).at, Last(l.a.shape), row, col) ==
            Dot(l.b.at, l.a.at, l.Rank(), Last(l.a.shape), row, col, l.Rank())
  {
    RowAndColumn(row, Last(l.a.shape), col);
  }

  lemma SlicedEntry(l: Lora, rows: seq<nat>, cols: seq<nat>, f: nat)
    requires l.Valid() && |l.Shape()| == 2 && f < |rows| * |cols|
    requires Within(rows, l.Shape()[0]) && Within(cols, l.Shape()[1])
    ensures GetRowsAndColumns(l, rows, cols).Ok?
    ensures Product(GetRowsAndColumns(l, rows, cols).value).at(f) ==
            SelectColumns(SelectRows(Product(l), rows), cols).at(f)
  {
    var c, n, rank := |cols|, l.Shape()[1], l.Rank();
    SplitsPosition(f, |rows|, c);
    var (i, j) := (Div(f, c), Mod(f, c));
    var r, p := GetRowsAndColumns(l, rows, cols).value, Product(l);
    SlicedDot(l, rows, cols, i, j);
    ProductEntry(r, i, j);
    ProductEntry(l, rows[i], cols[j]);
    RowEntry(p, rows, i, cols[j]);
    ColumnEntry(SelectRows(p, rows), cols, i, j);
  }

  lemma SlicedDot(l: Lora, rows: seq<nat>, cols: seq<nat>, i: nat, j: nat)
    requires l.Valid() && |l.Shape()| == 2 && i < |rows| && j < |cols|
    ensures Dot(SelectRows(l.b, rows).at, SelectColumns(l.a, cols).at, l.Rank(), |cols|, i, j, l.Rank()) ==
            Dot(l.b.at, l.a.at, l.Rank(), l.Shape()[1], rows[i], cols[j], l.Rank())
  {
    var rank := l.Rank();
    var b', a' := SelectRows(l.b, rows).at, SelectColumns(l.a, cols).at;
    forall k: nat | k < rank
      ensures Entry(b', rank, i, k) == Entry(l.b.at, rank, rows[i], k)
      ensures Entry(a', |cols|, k, j) == Entry(l.a.at, l.Shape()[1], k, cols[j])
    {
      RowEntry(l.b, rows, i, k);
      ColumnEntry(l.a, cols, k, j);
    }
    DotSame(b', a', l.b.at, l.a.at, rank, |cols|, l.Shape()[1], i, rows[i], j, cols[j], rank);
  }

  /** Slicing rows alone leaves A as it is. */
  lemma RowSlicingCommutes(l: Lora, rows: seq<nat>)
    requires l.Valid() && |l.Shape()| == 2 && Within(rows, l.Shape()[0])
    ensures GetRows(l, rows).Ok?
    ensures var r := GetRows(l, rows).value;
            r.Valid() && r.Unbatched() && r.Rank() == l.Rank() && Same(Product(r), SelectRows(Product(l), rows))
  {
    var r := GetRows(l, rows).value;
    var whole, n := SelectRows(Product(l), rows), l.Shape()[1];
    MatrixSize(|rows|, n);
    assert Product(r).shape == [|rows|, n] == whole.shape;
    forall f: nat | f < |rows| * n ensures Product(r).at(f) == whole.at(f) {
      RowSlicedEntry(l, rows, f);
    }
  }

  lemma RowSlicedEntry(l: Lora, rows: seq<nat>, f: nat)
    requires l.Valid() && |l.Shape()| == 2 && f < |rows| * l.Shape()[1]
    ensures GetRows(l, rows).Ok?
    ensures Product(GetRows(l, rows).value).at(f) == SelectRows(Product(l), rows).at(f)
  {
    var n, rank := l.Shape()[1], l.Rank();
    SplitsPosition(f, |rows|, n);
    var (i, j) := (Div(f, n), Mod(f, n));
    var r := GetRows(l, rows).value;
    forall k: nat | k < rank ensures Entry(r.b.at, rank, i, k) == Entry(l.b.at, rank, rows[i], k) {
      RowEntry(l.b, rows, i, k);
    }
    DotSame(r.b.at, l.a.at, l.b.at, l.a.at, rank, n, n, i, rows[i], j, j, rank);
    ProductEntry(r, i, j);
    ProductEntry(l, rows[i], j);
    RowEntry(Product(l), rows, i, j);
  }
}
