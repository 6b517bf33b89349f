/** Permuting the axes of a factored tensor permutes its product: with the last axis fixed only B moves,
    and a matrix is transposed by exchanging the transposed factors. */
module LoraAxes {
  import opened FactoredTensor

  predicate InBounds(idx: seq<nat>, shape: seq<nat>) {
    |idx| == |shape| && forall k | 0 <= k < |idx| :: idx[k] < shape[k]
  }

  // ------------------------------------------------------------ flat positions and index tuples

  lemma {:induction false} FlatInside(shape: seq<nat>, idx: seq<nat>)
    requires InBounds(idx, shape)
    ensures Flat(shape, idx) < Size(shape)
  {
    if shape != [] {
      FlatInside(Init(shape), Init(idx));
      JoinsPosition(Flat(Init(shape), Init(idx)), Size(Init(shape)), Last(idx), Last(shape));
    }
  }

  lemma {:induction false} UnflatInside(shape: seq<nat>, f: nat)
    requires f < Size(shape)
    ensures InBounds(Unflat(shape, f), shape)
  {
    if shape != [] {
      SplitsPosition(f, Size(Init(shape)), Last(shape));
      UnflatInside(Init(shape), Div(f, Last(shape)));
    }
  }

  lemma {:induction false} FlatOfUnflat(shape: seq<nat>, f: nat)
    requires f < Size(shape)
    ensures Flat(shape, Unflat(shape, f)) == f
  {
    if shape != [] {
      var n := Last(shape);
      SplitsPosition(f, Size(Init(shape)), n);
      FlatOfUnflat(Init(shape), Div(f, n));
      assert Init(Unflat(shape, f)) == Unflat(Init(shape), Div(f, n));
    }
  }

  lemma {:induction false} UnflatOfFlat(shape: seq<nat>, idx: seq<nat>)
    requires InBounds(idx, shape)
    ensures Unflat(shape, Flat(shape, idx)) == idx
  {
    if shape != [] {
      UnflatOfFlat(Init(shape), Init(idx));
      RowAndColumn(Flat(Init(shape), Init(idx)), Last(shape), Last(idx));
      assert idx == Init(idx) + [Last(idx)];
    }
  }

  // ------------------------------------------------------------ permuted index tuples

  lemma IndexOfIs(p: seq<nat>, k: nat)
    requires IsPermutation(p) && k < |p|
    ensures IndexOf(p, p[k]) == k
  {
    assert p[IndexOf(p, p[k])] == p[k];
  }

  lemma ScatterInside(shape: seq<nat>, p: seq<nat>, u: seq<nat>)
    requires IsPermutation(p) && |p| == |shape| && InBounds(u, PermutedShape(shape, p))
    ensures InBounds(Scatter(p, u), shape)
  {
    forall j | 0 <= j < |p| ensures Scatter(p, u)[j] < shape[j] {
      assert j in p;
      assert p[IndexOf(p, j)] == j;
    }
  }

  lemma SourceInside(shape: seq<nat>, p: seq<nat>, f: nat)
    requires IsPermutation(p) && |p| == |shape| && f < Size(PermutedShape(shape, p))
    ensures Source(shape, p, f) < Size(shape)
  {
    var u := Unflat(PermutedShape(shape, p), f);
    UnflatInside(PermutedShape(shape, p), f);
    ScatterInside(shape, p, u);
    FlatInside(shape, Scatter(p, u));
  }

  /** Axis `k` of the permuted tensor is axis `p[k]` of the original: the meaning of `torch.permute`. */
  lemma PermutedEntry(t: Tensor, p: seq<nat>, u: seq<nat>, v: seq<nat>)
    requires IsPermutation(p) && |p| == |t.shape|
    requires InBounds(u, PermutedShape(t.shape, p)) && |v| == |p|
    requires forall k | 0 <= k < |p| :: v[p[k]] == u[k]
    ensures PermuteTensor(t, p).at(Flat(PermutedShape(t.shape, p), u)) == t.at(Flat(t.shape, v))
  {
    hide Flat; hide Unflat; hide IsPermutation; hide Scatter;
    UnflatOfFlat(PermutedShape(t.shape, p), u);
    ScatterIs(p, u, v);
    assert Source(t.shape, p, Flat(PermutedShape(t.shape, p), u)) == Flat(t.shape, v);
  }

  lemma ScatterIs(p: seq<nat>, u: seq<nat>, v: seq<nat>)
    requires IsPermutation(p) && |u| == |v| == |p|
    requires forall k | 0 <= k < |p| :: v[p[k]] == u[k]
    ensures Scatter(p, u) == v
  {
    forall j | 0 <= j < |p| ensures Scatter(p, u)[j] == v[j] {
      assert j in p;
      var k := IndexOf(p, j);
      assert p[k] == j && v[p[k]] == u[k];
    }
  }

  lemma PermuteRespectsSame(t: Tensor, u: Tensor, p: seq<nat>)
    requires Same(t, u) && IsPermutation(p) && |p| == |t.shape|
    ensures Same(PermuteTensor(t, p), PermuteTensor(u, p))
  {
    forall f: nat | f < Size(PermutedShape(t.shape, p))
      ensures PermuteTensor(t, p).at(f) == PermuteTensor(u, p).at(f)
    {
      SourceInside(t.shape, p, f);
    }
  }

  // ------------------------------------------------------------ the last axis fixed

  ghost predicate FixesLast(p: seq<nat>) {
    p != [] && IsPermutation(p) && Last(p) == |p| - 1
  }

  lemma PermInit(p: seq<nat>)
    requires FixesLast(p)
    ensures IsPermutation(Init(p))
  {
    var q := Init(p);
    forall k | 0 <= k < |q| ensures q[k] < |q| {
      assert p[k] != p[|p| - 1];
    }
    forall j | 0 <= j < |q| ensures j in q {
      assert j in p;
      assert p[IndexOf(p, j)] == j;
    }
  }

  lemma ShapeInit(shape: seq<nat>, p: seq<nat>)
    requires FixesLast(p) && |shape| == |p|
    ensures IsPermutation(Init(p))
    ensures PermutedShape(shape, p) == PermutedShape(Init(shape), Init(p)) + [Last(shape)]
  {
    PermInit(p);
  }

  lemma ScatterInit(p: seq<nat>, u: seq<nat>)
    requires FixesLast(p) && |u| == |p|
    ensures IsPermutation(Init(p))
    ensures Scatter(p, u) == Scatter(Init(p), Init(u)) + [Last(u)]
  {
    PermInit(p);
    var q := Init(p);
    forall j | 0 <= j < |q| ensures IndexOf(p, j) == IndexOf(q, j) {
      assert j in q;
      IndexOfIs(p, IndexOf(q, j));
    }
    IndexOfIs(p, |p| - 1);
  }

  /** A permutation that fixes the last axis moves whole rows. */
  lemma RowsMove(shape: seq<nat>, p: seq<nat>, row: nat, col: nat)
    requires FixesLast(p) && |shape| == |p| && col < Last(shape)
    ensures IsPermutation(Init(p))
    ensures Source(shape, p, row * Last(shape) + col) ==
            Source(Init(shape), Init(p), row) * Last(shape) + col
  {
    ShapeInit(shape, p);
    var n, f := Last(shape), row * Last(shape) + col;
    var whole, part := PermutedShape(shape, p), PermutedShape(Init(shape), Init(p));
    RowAndColumn(row, n, col);
    assert Init(whole) == part && Last(whole) == n;
    var u := Unflat(whole, f);
    assert u == Unflat(part, row) + [col];
    assert Init(u) == Unflat(part, row) && Last(u) == col;
    ScatterInit(p, u);
    assert Init(Scatter(p, u)) == Scatter(Init(p), Init(u)) && Last(Scatter(p, u)) == col;
  }

  lemma FixedLastDot(l: Lora, p: seq<nat>, row: nat, col: nat)
    requires l.Valid() && FixesLast(p) && |p| == |l.b.shape| && col < Last(l.a.shape)
    ensures IsPermutation(Init(p))
    ensures Dot(PermuteTensor(l.b, p).at, l.a.at, l.Rank(), Last(l.a.shape), row, col, l.Rank()) ==
            Dot(l.b.at, l.a.at, l.Rank(), Last(l.a.shape), Source(Init(l.b.shape), Init(p), row), col, l.Rank())
  {
    PermInit(p);
    var (rank, n, row') := (l.Rank(), Last(l.a.shape), Source(Init(l.b.shape), Init(p), row));
    var b' := PermuteTensor(l.b, p).at;
    forall k: nat | k < rank ensures Entry(b', rank, row, k) == Entry(l.b.at, rank, row', k) {
      RowsMove(l.b.shape, p, row, k);
    }
    DotSame(b', l.a.at, l.b.at, l.a.at, rank, n, n, row, row', col, col, rank);
  }

  lemma FixedLastEntry(l: Lora, p: seq<nat>, f: nat)
    requires l.Valid() && FixesLast(p) && |p| == |l.b.shape|
    requires f < Size(PermutedShape(l.Shape(), p))
    ensures Dot(PermuteTensor(l.b, p).at, l.a.at, l.Rank(), Last(l.a.shape),
                Div(f, Last(l.a.shape)), Mod(f, Last(l.a.shape)), l.Rank()) ==
            PermuteTensor(Product(l), p).at(f)
  {
    hide IsPermutation; hide Source; hide Dot; hide PermutedShape; hide Div; hide Mod;
    PermInit(p);
    var n := Last(l.a.shape);
    var whole := PermutedShape(l.Shape(), p);
    ShapeInit(l.Shape(), p);
    assert Last(whole) == n && Init(l.Shape()) == Init(l.b.shape);
    SplitsPosition(f, Size(Init(whole)), n);
    var (row, col) := (Div(f, n), Mod(f, n));
    FixedLastDot(l, p, row, col);
    RowsMove(l.Shape(), p, row, col);
    ProductEntry(l, Source(Init(l.b.shape), Init(p), row), col);
  }

  /** With the last axis fixed, permuting B alone permutes the product. */
  lemma FixedLastPermuteCommutes(l: Lora, p: seq<nat>)
    requires l.Valid() && l.Unbatched() && FixesLast(p) && |p| == |l.Shape()|
    ensures Permute(l, p).Ok?
    ensures var r := Permute(l, p).value;
            r.Valid() && r.Unbatched() && r.Rank() == l.Rank() &&
            Same(Product(r), PermuteTensor(Product(l), p))
  {
    var b' := PermuteTensor(l.b, p);
    ShapeInit(l.b.shape, p);
    ShapeInit(l.Shape(), p);
    var r := Lora(l.a, b');
    assert Last(b'.shape) == Last(l.b.shape);
    assert r.Valid() && r.Rank() == l.Rank();
    assert Init(l.Shape()) == Init(l.b.shape);
    assert r.Shape() == PermutedShape(l.Shape(), p);
    forall f: nat | f < Size(r.Shape()) ensures Product(r).at(f) == PermuteTensor(Product(l), p).at(f) {
      FixedLastEntry(l, p, f);
    }
  }

  // ------------------------------------------------------------ the transpose of a matrix

  const SWAP: seq<nat> := [1, 0]

  lemma SwapIsPermutation()
    ensures IsPermutation(SWAP) && IndexOf(SWAP, 0) == 1 && IndexOf(SWAP, 1) == 0
  {
    assert SWAP[0] == 1 && SWAP[1] == 0;
    IndexOfIs(SWAP, 0);
    IndexOfIs(SWAP, 1);
  }

  lemma FlatMatrix(m: nat, n: nat, i: nat, j: nat)
    ensures Flat([m, n], [i, j]) == i * n + j
  {
    assert Init([m, n]) == [m] && Init([i, j]) == [i] && Init([m]) == [] && Init([i]) == [];
    assert Flat([m], [i]) == Flat([], []) * m + i == i;
  }

  lemma UnflatMatrix(m: nat, n: nat, i: nat, j: nat)
    requires i < m && j < n
    ensures Unflat([m, n], i * n + j) == [i, j]
  {
    FlatMatrix(m, n, i, j);
    UnflatOfFlat([m, n], [i, j]);
  }

  lemma TransposedEntry(t: Tensor, i: nat, j: nat)
    requires |t.shape| == 2 && i < t.shape[1] && j < t.shape[0]
    ensures IsPermutation(SWAP)
    ensures PermutedShape(t.shape, SWAP) == [t.shape[1], t.shape[0]]
    ensures Entry(PermuteTensor(t, SWAP).at, t.shape[0], i, j) == Entry(t.at, t.shape[1], j, i)
  {
    SwapIsPermutation();
    var m, n := t.shape[0], t.shape[1];
    assert t.shape == [m, n];
    assert PermutedShape(t.shape, SWAP) == [n, m];
    UnflatMatrix(n, m, i, j);
    var u: seq<nat> := [i, j];
    assert Scatter(SWAP, u)[0] == j && Scatter(SWAP, u)[1] == i;
    assert Scatter(SWAP, u) == [j, i];
    FlatMatrix(m, n, j, i);
    assert Source(t.shape, SWAP, i * m + j) == j * n + i;
  }

  /** Exchanging the factors and transposing both leaves the sum of products. */
  lemma {:induction false} DotSwapped(b: nat -> real, a: nat -> real, b': nat -> real, a': nat -> real,
                                      rank: nat, n: nat, m: nat, i: nat, j: nat, k: nat)
    requires forall c: nat | c < k :: Entry(b', rank, i, c) == Entry(a, n, c, i)
    requires forall c: nat | c < k :: Entry(a', m, c, j) == Entry(b, rank, j, c)
    ensures Dot(b', a', rank, m, i, j, k) == Dot(b, a, rank, n, j, i, k)
  {
    if k > 0 {
      DotSwapped(b, a, b', a', rank, n, m, i, j, k - 1);
      assert Entry(b', rank, i, k - 1) == Entry(a, n, k - 1, i);
      assert Entry(a', m, k - 1, j) == Entry(b, rank, j, k - 1);
    }
  }

  lemma TransposedDot(l: Lora, i: nat, j: nat)
    requires l.Valid() && |l.Shape()| == 2 && i < l.Shape()[1] && j < l.Shape()[0]
    ensures IsPermutation(SWAP)
    ensures Dot(PermuteTensor(l.a, SWAP).at, PermuteTensor(l.b, SWAP).at, l.Rank(), l.Shape()[0], i, j, l.Rank()) ==
            Dot(l.b.at, l.a.at, l.Rank(), l.Shape()[1], j, i, l.Rank())
  {
    SwapIsPermutation();
    var rank := l.Rank();
    var b', a' := PermuteTensor(l.a, SWAP).at, PermuteTensor(l.b, SWAP).at;
    forall c: nat | c < rank
      ensures Entry(b', rank, i, c) == Entry(l.a.at, l.Shape()[1], c, i)
      ensures Entry(a', l.Shape()[0], c, j) == Entry(l.b.at, rank, j, c)
    {
      TransposedEntry(l.a, i, c);
      TransposedEntry(l.b, c, j);
    }
    DotSwapped(l.b.at, l.a.at, b', a', rank, l.Shape()[1], l.Shape()[0], i, j, rank);
  }

  lemma TransposedProductEntry(l: Lora, r: Lora, f: nat)
    requires l.Valid() && |l.Shape()| == 2 && r.Valid()
    requires IsPermutation(SWAP) && r == Lora(PermuteTensor(l.b, SWAP), PermuteTensor(l.a, SWAP))
    requires f < l.Shape()[1] * l.Shape()[0]
    ensures Product(r).at(f) == PermuteTensor(Product(l), SWAP).at(f)
  {
    var (m, n) := (l.Shape()[0], l.Shape()[1]);
    SplitsPosition(f, n, m);
    var (i, j) := (Div(f, m), Mod(f, m));
    TransposedDot(l, i, j);
    TransposedEntry(Product(l), i, j);
    ProductEntry(l, j, i);
    SwapIsPermutation();
    assert Last(r.a.shape) == m && r.Rank() == l.Rank();
    ProductEntry(r, i, j);
  }

  /** The transpose of a matrix: B and A exchange places. */
  lemma TransposeCommutes(l: Lora)
    requires l.Valid() && |l.Shape()| == 2
    ensures Permute(l, SWAP).Ok?
    ensures IsPermutation(SWAP)
    ensures var r := Permute(l, SWAP).value;
            r.Valid() && r.Unbatched() && r.Rank() == l.Rank() &&
            Same(Product(r), PermuteTensor(Product(l), SWAP))
  {
    SwapIsPermutation();
    var (m, n) := (l.Shape()[0], l.Shape()[1]);
    var r := Lora(PermuteTensor(l.b, SWAP), PermuteTensor(l.a, SWAP));
    assert r.a.shape == [l.Rank(), m] && r.b.shape == [n, l.Rank()];
    assert r.Shape() == [n, m] == PermutedShape(l.Shape(), SWAP);
    MatrixSize(n, m);
    forall f: nat | f < n * m ensures Product(r).at(f) == PermuteTensor(Product(l), SWAP).at(f) {
      TransposedProductEntry(l, r, f);
    }
  }

  /** Whatever permutation is accepted, the result stands for the permuted product. */
  lemma PermuteCommutes(l: Lora, p: seq<nat>)
    requires l.Valid() && l.Unbatched() && Permute(l, p).Ok?
    ensures IsPermutation(p) && |p| == |l.Shape()|
    ensures var r := Permute(l, p).value;
            r.Valid() && r.Unbatched() && r.Rank() == l.Rank() &&
            Same(Product(r), PermuteTensor(Product(l), p))
  {
    if Last(p) == |p| - 1 {
      FixedLastPermuteCommutes(l, p);
    } else {
      assert p == SWAP;
      TransposeCommutes(l);
    }
  }

  /** Which permutations are accepted: those that keep the last dimension, when one A serves all rows, and the exchange
      of the two dimensions of a matrix. */
  lemma PermuteAccepted(l: Lora, p: seq<nat>)
    requires l.Valid()
    ensures Permute(l, p).Ok? <==>
            && IsPermutation(p) && |p| == |l.Shape()|
            && if p[|p| - 1] == |p| - 1 then forall k | 0 <= k < |p| - 2 :: l.a.shape[k] == 1 else p == [1, 0]
  {
    hide IndexOf; hide Product;
    if IsPermutation(p) && |p| == |l.Shape()| {
      if p[|p| - 1] == |p| - 1 {
        KeepsLast(l, p);
      } else if p == [1, 0] {
        TransposeCommutes(l);
      }
    }
  }

  lemma KeepsLast(l: Lora, p: seq<nat>)
    requires l.Valid() && IsPermutation(p) && |p| == |l.Shape()| && p[|p| - 1] == |p| - 1
    ensures Lora(l.a, PermuteTensor(l.b, p)).Valid()
  {}
}
