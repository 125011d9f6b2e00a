/** The blocked transpose of labs/cachelab/trans.c: B := A^T, tile by tile, the diagonal element of each row stored
    last. */
module Transpose {
  import opened Arithmetic

  /** How many columns of A are visited: the branches for N = 32 and N = 64 count columns up to N, the other one up
      to M. */
  function Covered(n: nat, m: nat): nat {
    if n == 32 || n == 64 then n else m
  }

  /** The start of the k-th tile. Different starts are at least an edge apart. */
  function Start(size: nat, k: nat): nat {
    size * k
  }

  lemma Starts(size: nat, p: nat, q: nat)
    ensures Start(size, 0) == 0 && Start(size, p + 1) == Start(size, p) + size
    ensures p < q ==> Start(size, p) + size <= Start(size, q)
  {
    if p < q {
      MulMonotone(size, p + 1, q);
    }
  }

  /** `temp` holds the element of the last diagonal cell met, and B already has it. */
  ghost predicate DiagonalKept(A: array2<int>, B: array2<int>, temp: int, diagonal: int)
    reads A, B
  {
    && 0 <= diagonal < A.Length0 && diagonal < A.Length1 && diagonal < B.Length0 && diagonal < B.Length1
    && temp == A[diagonal, diagonal] == B[diagonal, diagonal]
  }

  ghost predicate Shapes(A: array2<int>, B: array2<int>) {
    A != B && B.Length0 == A.Length1 && B.Length1 == A.Length0
  }

  function Min(a: nat, b: nat): nat {
    if a < b then a else b
  }

  /** Column counts are cut off at the last one. */
  function End(column: nat, size: nat, cols: nat): nat {
    Min(column + size, cols)
  }

  /** How often each cell has been stored to off the diagonal. */
  type Tally = (int, int) -> nat

  /** The part [column, end) of row i: the two innermost levels of the tiled loops. */
  method RowOfTile(A: array2<int>, B: array2<int>, i: nat, row: nat, column: nat, end: nat, temp0: int, diagonal0: int,
                   ghost stores0: Tally)
    returns (temp: int, diagonal: int, ghost stores: Tally)
    requires Shapes(A, B) && i < A.Length0 && column < end <= A.Length1
    requires row <= i && (column <= i < end ==> row == column)
    requires DiagonalKept(A, B, temp0, diagonal0) || column <= i < end
    modifies B
    ensures DiagonalKept(A, B, temp, diagonal)
    ensures forall y, x :: 0 <= y < B.Length0 && 0 <= x < B.Length1 ==>
      B[y, x] == if x == i && column <= y < end then A[i, y] else old(B[y, x])
    ensures forall y, x :: stores(y, x) == stores0(y, x) + if x == i && column <= y < end && y != i then 1 else 0
  {
    temp, diagonal, stores := temp0, diagonal0, stores0;
    var j := column;
    while j < end
      invariant column <= j <= end
      invariant forall y, x :: 0 <= y < B.Length0 && 0 <= x < B.Length1 ==>
        B[y, x] == if x == i && column <= y < j && y != i then A[i, y] else old(B[y, x])
      invariant if column <= i < j then diagonal == i && temp == A[i, i] else diagonal == diagonal0 && temp == temp0
      invariant forall y, x :: stores(y, x) == stores0(y, x) + if x == i && column <= y < j && y != i then 1 else 0
    {
      if i != j {
        B[j, i] := A[i, j];
        ghost var was := stores;
        stores := (y, x) => was(y, x) + if y == j && x == i then 1 else 0;
      } else {
        temp := A[i, j];
        diagonal := i;
      }
      j := j + 1;
    }
    if row == column {
      B[diagonal, diagonal] := temp;
    }
  }

  predicate OffDiagonal(y: int, x: int, column: nat, size: nat, cols: nat) {
    column <= y < End(column, size, cols) && y != x
  }

  /** The rows of one tile. */
  method Tile(A: array2<int>, B: array2<int>, row: nat, column: nat, size: nat, cols: nat, temp0: int, diagonal0: int,
              ghost stores0: Tally)
    returns (temp: int, diagonal: int, ghost stores: Tally)
    requires Shapes(A, B) && row < A.Length0 && column < cols <= A.Length1 && 0 < size
    requires row == column || row + size <= column || column + size <= row
    requires DiagonalKept(A, B, temp0, diagonal0) || row == column
    modifies B
    ensures DiagonalKept(A, B, temp, diagonal)
    ensures forall y, x :: 0 <= y < B.Length0 && 0 <= x < B.Length1 ==>
      B[y, x] == if row <= x < row + size && column <= y < End(column, size, cols) then A[x, y] else old(B[y, x])
    ensures forall y, x ::
      stores(y, x) == stores0(y, x) + (if row <= x < End(row, size, A.Length0)
        && OffDiagonal(y, x, column, size, cols) then 1 else 0)
  {
    temp, diagonal, stores := temp0, diagonal0, stores0;
    var i := row;
    while i < row + size && i < A.Length0
      invariant row <= i <= row + size && i <= A.Length0
      invariant row < i || DiagonalKept(A, B, temp0, diagonal0) ==> DiagonalKept(A, B, temp, diagonal)
      invariant forall y, x :: 0 <= y < B.Length0 && 0 <= x < B.Length1 ==>
        B[y, x] == if row <= x < i && column <= y < End(column, size, cols) then A[x, y] else old(B[y, x])
      invariant forall y, x ::
        stores(y, x) == stores0(y, x) + (if row <= x < i && OffDiagonal(y, x, column, size, cols) then 1 else 0)
    {
      temp, diagonal, stores := RowOfTile(A, B, i, row, column, End(column, size, cols), temp, diagonal, stores);
      i := i + 1;
    }
  }

  /** Cell (i, j) of A has been visited when the p-th band of columns is being worked on and its rows up to i0 are
      done. */
  predicate Visited(size: nat, cols: nat, column: nat, i0: nat, i: int, j: int) {
    0 <= i && 0 <= j < cols && (j < column || (j < column + size && i < i0))
  }

  /**
   The tiled loops. The bounds i < N and j < M are written only in the last branch of the source; in the other two the
   edge divides N, so they never cut a tile short.
   */
  method Tiled(A: array2<int>, B: array2<int>, size: nat, cols: nat) returns (ghost stores: Tally)
    requires Shapes(A, B) && 0 < size && cols <= A.Length1
    modifies B
    ensures forall y, x :: 0 <= y < B.Length0 && 0 <= x < B.Length1 ==>
      B[y, x] == if y < cols then A[x, y] else old(B[y, x])
    ensures forall y, x :: stores(y, x) == if 0 <= x < A.Length0 && 0 <= y < cols && y != x then 1 else 0
  {
    var N := A.Length0;
    var temp, diagonal := 0, 0;
    stores := (y, x) => 0;
    var column := 0;
    ghost var q := 0;
    while column < cols
      invariant column == Start(size, q)
      invariant 0 < column && 0 < N ==> DiagonalKept(A, B, temp, diagonal)
      invariant forall y, x :: 0 <= y < B.Length0 && 0 <= x < B.Length1 ==>
        B[y, x] == if y < cols && y < column then A[x, y] else old(B[y, x])
      invariant forall y, x :: stores(y, x) == if 0 <= x < N && 0 <= y < cols && y < column && y != x then 1 else 0
    {
      var row := 0;
      ghost var p := 0;
      while row < N
        invariant row == Start(size, p)
        invariant 0 < column + row && 0 < N ==> DiagonalKept(A, B, temp, diagonal)
        invariant forall y, x :: 0 <= y < B.Length0 && 0 <= x < B.Length1 ==>
          B[y, x] == if Visited(size, cols, column, row, x, y) then A[x, y] else old(B[y, x])
        invariant forall y, x :: stores(y, x) == if x < N && Visited(size, cols, column, row, x, y)
          && y != x then 1 else 0
      {
        Starts(size, p, q);
        Starts(size, q, p);
        temp, diagonal, stores := Tile(A, B, row, column, size, cols, temp, diagonal, stores);
        row := row + size;
        p := p + 1;
      }
      Starts(size, q, q);
      column := column + size;
      q := q + 1;
    }
  }

  /**
   What the source needs of the shapes: the branches for N = 32 and N = 64 index columns of A, and rows of B, up to N
   whatever M is.
   */
  predicate InBounds(n: nat, m: nat) {
    Covered(n, m) <= m
  }

  /** transpose_submit. Every covered cell gets its element, off the diagonal by exactly one store; the others are
      left alone. */
  method TransposeSubmit(A: array2<int>, B: array2<int>) returns (ghost stores: Tally)
    requires Shapes(A, B) && InBounds(A.Length0, A.Length1)
    modifies B
    ensures forall j, i :: 0 <= j < B.Length0 && 0 <= i < B.Length1 ==>
      B[j, i] == Submitted(A.Length0, A.Length1, Elements(A), old(Elements(B)), j, i)
    ensures forall y, x :: stores(y, x) == if 0 <= x < A.Length0 && 0 <= y < Covered(A.Length0, A.Length1)
      && y != x then 1 else 0
  {
    var N, M := A.Length0, A.Length1;
    if N == 32 {
      stores := Tiled(A, B, 8, N);
    } else if N == 64 {
      stores := Tiled(A, B, 4, N);
    } else {
      stores := Tiled(A, B, 16, M);
    }
  }

  /** trans: the plain double loop. */
  method Trans(A: array2<int>, B: array2<int>)
    requires Shapes(A, B)
    modifies B
    ensures forall j, i :: 0 <= j < B.Length0 && 0 <= i < B.Length1 ==> B[j, i] == A[i, j]
  {
    var i := 0;
    while i < A.Length0
      invariant 0 <= i <= A.Length0
      invariant forall y, x :: 0 <= y < B.Length0 && 0 <= x < i ==> B[y, x] == A[x, y]
    {
      var j := 0;
      while j < A.Length1
        invariant 0 <= j <= A.Length1
        invariant forall y, x :: 0 <= y < B.Length0 && 0 <= x < i ==> B[y, x] == A[x, y]
        invariant forall y :: 0 <= y < j ==> B[y, i] == A[i, y]
      {
        var tmp := A[i, j];
        B[j, i] := tmp;
        j := j + 1;
      }
      i := i + 1;
    }
  }

  type Matrix = (int, int) -> int

  /** The elements of a matrix; 0 outside. */
  ghost function Elements(A: array2<int>): Matrix
    reads A
  {
    var n, m := A.Length0, A.Length1;
    var e := seq(n, i requires 0 <= i < n reads A => seq(m, j requires 0 <= j < m reads A => A[i, j]));
    (i, j) => if 0 <= i < n && 0 <= j < m then e[i][j] else 0
  }

  /** What B holds afterwards when A held `a` and B held `b`. */
  ghost function Submitted(n: nat, m: nat, a: Matrix, b: Matrix, j: int, i: int): int {
    if j < Covered(n, m) then a(i, j) else b(j, i)
  }

  /** Whatever the matrices hold, B ends as the transpose of A. */
  ghost predicate AlwaysTransposes(n: nat, m: nat) {
    forall a: Matrix, b: Matrix, i, j :: 0 <= i < n && 0 <= j < m ==> Submitted(n, m, a, b, j, i) == a(i, j)
  }

  /** The submission is a transpose for every content exactly when the special branches see a square matrix. */
  lemma TransposesIff(n: nat, m: nat)
    requires InBounds(n, m)
    ensures AlwaysTransposes(n, m) <==> ((n == 32 || n == 64) ==> m == n)
  {
    if (n == 32 || n == 64) && m != n {
      var a: Matrix, b: Matrix := (i, j) => 1, (j, i) => 0;
      assert Submitted(n, m, a, b, n, 0) == 0 != a(0, n);
    }
  }
}
