/** learning/gpu-programming/examples/tiled_matmul_model.py: a blocked matrix product that loads
    zero-filled square tiles, against the plain triple sum. */
module TiledMatmul {
  import opened Arithmetic

  type Matrix = seq<seq<int>>

  predicate IsMatrix(m: Matrix, rows: nat, cols: nat) {
    |m| == rows && forall row | row in m :: |row| == cols
  }

  /** A nonempty inner dimension, which `len(b[0])` needs. */
  predicate Shaped(a: Matrix, b: Matrix) {
    |b| >= 1 && IsMatrix(a, |a|, |b|) && IsMatrix(b, |b|, |b[0]|)
  }

  /** The entry, or zero outside the matrix. */
  function At(m: Matrix, row: nat, col: nat): int {
    if row < |m| && col < |m[row]| then m[row][col] else 0
  }

  /** The first n terms of the inner product of a row and a column. */
  ghost function Dot(a: Matrix, b: Matrix, row: nat, col: nat, n: nat): int {
    if n == 0 then 0 else Dot(a, b, row, col, n - 1) + At(a, row, n - 1) * At(b, n - 1, col)
  }

  /** The product every cell of the result must hold. */
  ghost predicate IsProduct(a: Matrix, b: Matrix, result: array2<int>)
    requires |b| >= 1
    reads result
  {
    && result.Length0 == |a| && result.Length1 == |b[0]|
    && forall i, j | 0 <= i < result.Length0 && 0 <= j < result.Length1 :: result[i, j] == Dot(a, b, i, j, |b|)
  }

  lemma {:induction false} DotPadded(a: Matrix, b: Matrix, row: nat, col: nat, n: nat)
    requires |b| <= n
    ensures Dot(a, b, row, col, n) == Dot(a, b, row, col, |b|)
  {
    if |b| < n {
      DotPadded(a, b, row, col, n - 1);
    }
  }

  method ReferenceMatmul(a: Matrix, b: Matrix) returns (result: array2<int>)
    requires Shaped(a, b)
    ensures fresh(result) && IsProduct(a, b, result)
  {
    var rows, inner, cols := |a|, |b|, |b[0]|;
    result := new int[rows, cols]((_, _) => 0);
    for row := 0 to rows
      invariant forall i, j | 0 <= i < row && 0 <= j < cols :: result[i, j] == Dot(a, b, i, j, inner)
    {
      for col := 0 to cols
        invariant forall i, j | 0 <= i < row && 0 <= j < cols :: result[i, j] == Dot(a, b, i, j, inner)
        invariant forall j | 0 <= j < col :: result[row, j] == Dot(a, b, row, j, inner)
      {
        var sum := 0;
        for k := 0 to inner
          invariant sum == Dot(a, b, row, col, k)
        {
          assert a[row] in a && b[k] in b;
          sum := sum + a[row][k] * b[k][col];
        }
        result[row, col] := sum;
      }
    }
  }

  // --- Phases ---

  /** The square of side t at a position, zero-filled beyond the edges. */
  function Tile(m: Matrix, row: nat, col: nat, t: nat): (r: Matrix)
    ensures IsMatrix(r, t, t)
  {
    seq(t, y requires 0 <= y => seq(t, x requires 0 <= x => At(m, row + y, col + x)))
  }

  datatype Phase = Phase(rowBase: nat, colBase: nat, kBase: nat, tileA: Matrix, tileB: Matrix)

  function Ceil(n: nat, t: nat): nat
    requires t >= 1
  {
    (n + t - 1) / t
  }

  /** Phase n of the trace: the k tiles run fastest, then the columns, then the rows. */
  ghost function PhaseAt(a: Matrix, b: Matrix, t: nat, n: nat): Phase
    requires t >= 1 && |b| >= 1 && |b[0]| >= 1
  {
    var ks, cs := Ceil(|b|, t), Ceil(|b[0]|, t);
    CeilPositive(|b|, t);
    CeilPositive(|b[0]|, t);
    PhaseOf(a, b, t, n / ks / cs, n / ks % cs, n % ks)
  }

  lemma CeilPositive(n: nat, t: nat)
    requires n >= 1 && t >= 1
    ensures Ceil(n, t) >= 1
  {
    DivideShifted(t, 1, n - 1);
    assert t * 1 + (n - 1) == n + t - 1;
  }

  ghost function Base(i: nat, t: nat): nat {
    i * t
  }

  /** The number of phases before phase k of output tile (i, j). */
  ghost function Index(i: nat, j: nat, k: nat, cs: nat, ks: nat): nat {
    (i * cs + j) * ks + k
  }

  ghost function PhaseOf(a: Matrix, b: Matrix, t: nat, i: nat, j: nat, k: nat): Phase {
    Phase(Base(i, t), Base(j, t), Base(k, t), Tile(a, Base(i, t), Base(k, t), t), Tile(b, Base(k, t), Base(j, t), t))
  }

  /** A loop over range(0, n, t) that has reached i * t is done exactly after Ceil(n, t) rounds. */
  lemma CeilRounds(n: nat, t: nat, i: nat)
    requires t >= 1 && i <= Ceil(n, t)
    ensures Base(i, t) < n <==> i < Ceil(n, t)
  {
    var c := Ceil(n, t);
    var r := (n + t - 1) % t;
    assert n + t - 1 == t * c + r;
    if i < c {
      MulMonotone(t, i, c - 1);
      assert t * (c - 1) == t * c - t;
    } else {
      assert i * t == t * c;
    }
  }

  lemma PhaseIndex(a: Matrix, b: Matrix, t: nat, i: nat, j: nat, k: nat, n: nat)
    requires t >= 1 && |b| >= 1 && |b[0]| >= 1
    requires j < Ceil(|b[0]|, t) && k < Ceil(|b|, t)
    requires n == Index(i, j, k, Ceil(|b[0]|, t), Ceil(|b|, t))
    ensures PhaseAt(a, b, t, n) == PhaseOf(a, b, t, i, j, k)
  {
    var ks, cs := Ceil(|b|, t), Ceil(|b[0]|, t);
    DivideUnique(n, ks, i * cs + j, k);
    DivideUnique(i * cs + j, cs, i, j);
  }

  // --- The tiled product ---

  ghost predicate Holds(tile: array2<int>, m: Matrix, row: nat, col: nat, t: nat)
    reads tile
  {
    && tile.Length0 == tile.Length1 == t
    && forall y, x | 0 <= y < t && 0 <= x < t :: tile[y, x] == At(m, row + y, col + x)
  }

  /** The accumulator of an output tile after n terms of each inner product. */
  ghost predicate Accumulates(accum: array2<int>, a: Matrix, b: Matrix, row: nat, col: nat, t: nat, n: nat)
    reads accum
  {
    && accum.Length0 == accum.Length1 == t
    && forall y, x | 0 <= y < t && 0 <= x < t :: accum[y, x] == Dot(a, b, row + y, col + x, n)
  }

  method LoadTiles(a: Matrix, b: Matrix, rowBase: nat, colBase: nat, kBase: nat, t: nat)
    returns (tileA: array2<int>, tileB: array2<int>)
    requires Shaped(a, b)
    ensures fresh(tileA) && Holds(tileA, a, rowBase, kBase, t)
    ensures fresh(tileB) && Holds(tileB, b, kBase, colBase, t)
  {
    hide At;
    var rows, inner, cols := |a|, |b|, |b[0]|;
    tileA, tileB := new int[t, t]((_, _) => 0), new int[t, t]((_, _) => 0);
    for ty := 0 to t
      invariant forall y, x | 0 <= y < ty && 0 <= x < t :: tileA[y, x] == At(a, rowBase + y, kBase + x)
      invariant forall y, x | 0 <= y < ty && 0 <= x < t :: tileB[y, x] == At(b, kBase + y, colBase + x)
      invariant forall y, x | ty <= y < t && 0 <= x < t :: tileA[y, x] == tileB[y, x] == 0
    {
      for tx := 0 to t
        invariant forall y, x | 0 <= y < ty && 0 <= x < t :: tileA[y, x] == At(a, rowBase + y, kBase + x)
        invariant forall y, x | 0 <= y < ty && 0 <= x < t :: tileB[y, x] == At(b, kBase + y, colBase + x)
        invariant forall x | 0 <= x < tx :: tileA[ty, x] == At(a, rowBase + ty, kBase + x)
        invariant forall x | 0 <= x < tx :: tileB[ty, x] == At(b, kBase + ty, colBase + x)
        invariant forall x | tx <= x < t :: tileA[ty, x] == tileB[ty, x] == 0
        invariant forall y, x | ty < y < t && 0 <= x < t :: tileA[y, x] == tileB[y, x] == 0
      {
        var row, col := rowBase + ty, kBase + tx;
        CellOf(a, row, col, rows, inner);
        if row < rows && col < inner {
          tileA[ty, tx] := a[row][col];
        }
        row, col := kBase + ty, colBase + tx;
        CellOf(b, row, col, inner, cols);
        if row < inner && col < cols {
          tileB[ty, tx] := b[row][col];
        }
      }
    }
  }

  lemma CellOf(m: Matrix, row: nat, col: nat, rows: nat, cols: nat)
    requires IsMatrix(m, rows, cols)
    ensures row < rows && col < cols ==> |m| == rows && |m[row]| == cols && At(m, row, col) == m[row][col]
    ensures row >= rows || col >= cols ==> At(m, row, col) == 0
  {
    assert row < rows ==> m[row] in m;
  }

  method MultiplyTiles(a: Matrix, b: Matrix, rowBase: nat, colBase: nat, kBase: nat, t: nat,
                       accum: array2<int>, tileA: array2<int>, tileB: array2<int>)
    requires accum != tileA && accum != tileB
    requires Holds(tileA, a, rowBase, kBase, t) && Holds(tileB, b, kBase, colBase, t)
    requires Accumulates(accum, a, b, rowBase, colBase, t, kBase)
    modifies accum
    ensures Accumulates(accum, a, b, rowBase, colBase, t, kBase + t)
  {
    for ty := 0 to t
      invariant forall y, x | 0 <= y < ty && 0 <= x < t ::
                  accum[y, x] == Dot(a, b, rowBase + y, colBase + x, kBase + t)
      invariant forall y, x | ty <= y < t && 0 <= x < t :: accum[y, x] == Dot(a, b, rowBase + y, colBase + x, kBase)
    {
      for tx := 0 to t
        invariant forall y, x | 0 <= y < ty && 0 <= x < t ::
                    accum[y, x] == Dot(a, b, rowBase + y, colBase + x, kBase + t)
        invariant forall x | 0 <= x < tx :: accum[ty, x] == Dot(a, b, rowBase + ty, colBase + x, kBase + t)
        invariant forall x | tx <= x < t :: accum[ty, x] == Dot(a, b, rowBase + ty, colBase + x, kBase)
        invariant forall y, x | ty < y < t && 0 <= x < t :: accum[y, x] == Dot(a, b, rowBase + y, colBase + x, kBase)
      {
        label Cell:
        for kk := 0 to t
          invariant accum[ty, tx] == Dot(a, b, rowBase + ty, colBase + tx, kBase + kk)
          invariant forall y, x | 0 <= y < t && 0 <= x < t && !(y == ty && x == tx) :: accum[y, x] == old@Cell(accum[y, x])
        {
          accum[ty, tx] := accum[ty, tx] + tileA[ty, kk] * tileB[kk, tx];
        }
      }
    }
  }

  /** The cells filled when all output tiles above, and those to the left of colBase in this band, are stored. */
  ghost predicate Filled(a: Matrix, b: Matrix, t: nat, rowBase: nat, colBase: nat, result: array2<int>)
    requires |b| >= 1
    reads result
  {
    && result.Length0 == |a| && result.Length1 == |b[0]|
    && forall i, j | 0 <= i < result.Length0 && 0 <= j < result.Length1 ::
         i < rowBase || (i < rowBase + t && j < colBase) ==> result[i, j] == Dot(a, b, i, j, |b|)
  }

  method StoreTile(a: Matrix, b: Matrix, rowBase: nat, colBase: nat, t: nat, n: nat,
                   accum: array2<int>, result: array2<int>)
    requires accum != result && |b| >= 1 && |b| <= n && Accumulates(accum, a, b, rowBase, colBase, t, n)
    requires Filled(a, b, t, rowBase, colBase, result)
    modifies result
    ensures Filled(a, b, t, rowBase, colBase + t, result)
  {
    for ty := 0 to t
      invariant Filled(a, b, t, rowBase, colBase, result)
      invariant forall i, j | 0 <= i < result.Length0 && 0 <= j < result.Length1 ::
                  rowBase <= i < rowBase + ty && j < colBase + t ==> result[i, j] == Dot(a, b, i, j, |b|)
    {
      for tx := 0 to t
        invariant Filled(a, b, t, rowBase, colBase, result)
        invariant forall i, j | 0 <= i < result.Length0 && 0 <= j < result.Length1 ::
                    (rowBase <= i < rowBase + ty && j < colBase + t) || (i == rowBase + ty && j < colBase + tx)
                    ==> result[i, j] == Dot(a, b, i, j, |b|)
      {
        var row, col := rowBase + ty, colBase + tx;
        if row < result.Length0 && col < result.Length1 {
          DotPadded(a, b, row, col, n);
          result[row, col] := accum[ty, tx];
        }
      }
    }
  }

  ghost predicate Traces(a: Matrix, b: Matrix, t: nat, trace: seq<Phase>)
    requires t >= 1 && |b| >= 1
  {
    forall n | 0 <= n < |trace| :: |b[0]| >= 1 && trace[n] == PhaseAt(a, b, t, n)
  }

  function Contents(tile: array2<int>): (r: Matrix)
    reads tile
  {
    seq(tile.Length0, y requires 0 <= y < tile.Length0 reads tile =>
      seq(tile.Length1, x requires 0 <= x < tile.Length1 reads tile => tile[y, x]))
  }

  lemma ContentsOfTile(tile: array2<int>, m: Matrix, row: nat, col: nat, t: nat)
    requires Holds(tile, m, row, col, t)
    ensures Contents(tile) == Tile(m, row, col, t)
  {
    forall y | 0 <= y < t ensures Contents(tile)[y] == Tile(m, row, col, t)[y] {
      assert |Contents(tile)[y]| == |Tile(m, row, col, t)[y]|;
    }
  }

  /** The phases of one output tile: load both tiles, multiply, and record the phase. */
  method RunPhases(a: Matrix, b: Matrix, t: nat, rowBase: nat, colBase: nat, earlier: seq<Phase>,
                   ghost i: nat, ghost j: nat)
    returns (accum: array2<int>, kBase: nat, trace: seq<Phase>)
    requires Shaped(a, b) && t >= 1 && rowBase == Base(i, t) && colBase == Base(j, t)
    requires colBase < |b[0]| && j < Ceil(|b[0]|, t)
    requires |earlier| == Index(i, j, 0, Ceil(|b[0]|, t), Ceil(|b|, t)) && Traces(a, b, t, earlier)
    ensures fresh(accum) && kBase >= |b| && Accumulates(accum, a, b, rowBase, colBase, t, kBase)
    ensures |trace| == Index(i, j, Ceil(|b|, t), Ceil(|b[0]|, t), Ceil(|b|, t)) && Traces(a, b, t, trace)
  {
    hide Traces, Ceil, Accumulates, Holds, Base, Index, Contents, Tile;
    var inner := |b|;
    ghost var cs, ks, k := Ceil(|b[0]|, t), Ceil(inner, t), 0;
    trace := earlier;
    accum := new int[t, t]((_, _) => 0);
    EmptyAccumulator(a, b, rowBase, colBase, t, accum);
    kBase := 0;
    NextRound(0, t);
    CeilRounds(inner, t, 0);
    while kBase < inner
      invariant kBase == Base(k, t) && k <= ks && (kBase < inner <==> k < ks)
      invariant Accumulates(accum, a, b, rowBase, colBase, t, kBase)
      invariant |trace| == Index(i, j, k, cs, ks) && Traces(a, b, t, trace)
      decreases ks - k
    {
      var tileA, tileB := LoadTiles(a, b, rowBase, colBase, kBase, t);
      MultiplyTiles(a, b, rowBase, colBase, kBase, t, accum, tileA, tileB);
      ContentsOfTile(tileA, a, rowBase, kBase, t);
      ContentsOfTile(tileB, b, kBase, colBase, t);
      NextPhase(a, b, t, i, j, k, trace);
      trace := trace + [Phase(rowBase, colBase, kBase, Contents(tileA), Contents(tileB))];
      NextRound(k, t);
      IndexCarries(i, j, cs, ks);
      kBase, k := kBase + t, k + 1;
      CeilRounds(inner, t, k);
    }
  }

  method Tiled(a: Matrix, b: Matrix, t: nat) returns (result: array2<int>, trace: seq<Phase>)
    requires Shaped(a, b) && t >= 1
    ensures fresh(result) && IsProduct(a, b, result)
    ensures |trace| == Ceil(|a|, t) * Ceil(|b[0]|, t) * Ceil(|b|, t)
    ensures Traces(a, b, t, trace)
  {
    hide Traces, Filled, Ceil, Accumulates, Holds, IsProduct, Base, Index, Contents, Tile;
    var rows, inner, cols := |a|, |b|, |b[0]|;
    ghost var cs, ks := Ceil(cols, t), Ceil(inner, t);
    result := new int[rows, cols]((_, _) => 0);
    trace := [];
    var rowBase, colBase, kBase := 0, 0, 0;
    ghost var i, j := 0, 0;
    NothingFilled(a, b, t, result);
    NextRound(0, t);
    IndexCarries(0, 0, cs, ks);
    CeilRounds(rows, t, 0);
    while rowBase < rows
      invariant rowBase == Base(i, t) && i <= Ceil(rows, t) && (rowBase < rows <==> i < Ceil(rows, t))
      invariant Filled(a, b, t, rowBase, 0, result)
      invariant |trace| == Index(i, 0, 0, cs, ks) && Traces(a, b, t, trace)
      decreases Ceil(rows, t) - i
    {
      colBase, j := 0, 0;
      CeilRounds(cols, t, 0);
      while colBase < cols
        invariant colBase == Base(j, t) && j <= cs && (colBase < cols <==> j < cs)
        invariant Filled(a, b, t, rowBase, colBase, result)
        invariant |trace| == Index(i, j, 0, cs, ks) && Traces(a, b, t, trace)
        decreases cs - j
      {
        var accum;
        accum, kBase, trace := RunPhases(a, b, t, rowBase, colBase, trace, i, j);
        StoreTile(a, b, rowBase, colBase, t, kBase, accum, result);
        NextRound(j, t);
        IndexCarries(i, j, cs, ks);
        colBase, j := colBase + t, j + 1;
        CeilRounds(cols, t, j);
      }
      BandFilled(a, b, t, rowBase, colBase, result);
      NextRound(i, t);
      IndexCarries(i, cs, cs, ks);
      rowBase, i := rowBase + t, i + 1;
      CeilRounds(rows, t, i);
    }
    AllFilled(a, b, t, rowBase, result);
    IndexTotal(i, cs, ks);
  }

  lemma NextRound(i: nat, t: nat)
    ensures Base(0, t) == 0 && Base(i + 1, t) == Base(i, t) + t
  {}

  lemma IndexCarries(i: nat, j: nat, cs: nat, ks: nat)
    ensures Index(0, 0, 0, cs, ks) == 0
    ensures forall k: nat :: Index(i, j, k + 1, cs, ks) == Index(i, j, k, cs, ks) + 1
    ensures Index(i, j, ks, cs, ks) == Index(i, j + 1, 0, cs, ks)
    ensures Index(i, cs, 0, cs, ks) == Index(i + 1, 0, 0, cs, ks)
  {
    assert (i * cs + j + 1) * ks == (i * cs + j) * ks + ks;
    assert (i + 1) * cs == i * cs + cs;
  }

  lemma IndexTotal(i: nat, cs: nat, ks: nat)
    ensures Index(i, 0, 0, cs, ks) == i * cs * ks
  {}

  lemma NothingFilled(a: Matrix, b: Matrix, t: nat, result: array2<int>)
    requires |b| >= 1 && result.Length0 == |a| && result.Length1 == |b[0]|
    ensures Filled(a, b, t, 0, 0, result)
    ensures t >= 1 ==> Traces(a, b, t, [])
  {}

  lemma EmptyAccumulator(a: Matrix, b: Matrix, row: nat, col: nat, t: nat, accum: array2<int>)
    requires accum.Length0 == accum.Length1 == t
    requires forall y, x | 0 <= y < t && 0 <= x < t :: accum[y, x] == 0
    ensures Accumulates(accum, a, b, row, col, t, 0)
  {}

  lemma BandFilled(a: Matrix, b: Matrix, t: nat, rowBase: nat, colBase: nat, result: array2<int>)
    requires |b| >= 1 && Filled(a, b, t, rowBase, colBase, result) && |b[0]| <= colBase
    ensures Filled(a, b, t, rowBase + t, 0, result)
  {}

  lemma AllFilled(a: Matrix, b: Matrix, t: nat, rowBase: nat, result: array2<int>)
    requires |b| >= 1 && Filled(a, b, t, rowBase, 0, result) && |a| <= rowBase
    ensures IsProduct(a, b, result)
  {}

  lemma NextPhase(a: Matrix, b: Matrix, t: nat, i: nat, j: nat, k: nat, trace: seq<Phase>)
    requires t >= 1 && |b| >= 1 && j < Ceil(|b[0]|, t) && k < Ceil(|b|, t) && Base(j, t) < |b[0]|
    requires Traces(a, b, t, trace) && |trace| == Index(i, j, k, Ceil(|b[0]|, t), Ceil(|b|, t))
    ensures Traces(a, b, t, trace + [PhaseOf(a, b, t, i, j, k)])
  {
    PhaseIndex(a, b, t, i, j, k, |trace|);
  }
}
