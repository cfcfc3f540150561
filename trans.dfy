/** The matrix transposes of the cache lab (Labs/Lab04-cache/trans.c).
    `A` is an `N`-by-`M` matrix and `B` an `M`-by-`N` one; each function
    writes `B[j][i] = A[i][j]` in some order. */
module Transpose {

  /** `A` is `N` rows of `M` and `B` is `M` rows of `N`; the two are
      different matrices. */
  predicate Shapes(M: int, N: int, A: array2<int>, B: array2<int>) {
    A.Length0 == N && A.Length1 == M && B.Length0 == M && B.Length1 == N && A != B
  }

  /** `B` is the transpose of `A`. */
  ghost predicate IsTransposeOf(A: array2<int>, B: array2<int>)
    reads A, B
    requires B.Length0 == A.Length1 && B.Length1 == A.Length0
  {
    forall i, j :: 0 <= i < A.Length0 && 0 <= j < A.Length1 ==> B[j, i] == A[i, j]
  }

  /** `trans`: the row-wise baseline. */
  method Trans(M: int, N: int, A: array2<int>, B: array2<int>)
    requires Shapes(M, N, A, B)
    modifies B
    ensures IsTransposeOf(A, B)
  {
    var i := 0;
    while i < N
      invariant 0 <= i <= N
      invariant forall x, y :: 0 <= x < i && 0 <= y < M ==> B[y, x] == A[x, y]
    {
      var j := 0;
      while j < M
        invariant 0 <= j <= M
        invariant forall x, y :: 0 <= x < i && 0 <= y < M ==> B[y, x] == A[x, y]
        invariant forall y :: 0 <= y < j ==> B[y, i] == A[i, y]
      {
        var tmp := A[i, j];
        B[j, i] := tmp;
        j := j + 1;
      }
      i := i + 1;
    }
  }

  /** `is_transpose`: 1 when `B` is the transpose of `A`, 0 otherwise. */
  method IsTranspose(M: int, N: int, A: array2<int>, B: array2<int>) returns (r: int)
    requires A.Length0 == N && A.Length1 == M && B.Length0 == M && B.Length1 == N
    ensures r == 0 || r == 1
    ensures r == 1 <==> IsTransposeOf(A, B)
  {
    var i := 0;
    while i < N
      invariant 0 <= i <= N
      invariant forall x, y :: 0 <= x < i && 0 <= y < M ==> A[x, y] == B[y, x]
    {
      var j := 0;
      while j < M
        invariant 0 <= j <= M
        invariant forall y :: 0 <= y < j ==> A[i, y] == B[y, i]
      {
        if A[i, j] != B[j, i] {
          return 0;
        }
        j := j + 1;
      }
      i := i + 1;
    }
    return 1;
  }

  /** One pass `for (y = lo; y < hi; y++) B[y][x] = A[x][y];`. */
  method ColumnUp(A: array2<int>, B: array2<int>, x: int, lo: int, hi: int)
    requires A.Length0 == B.Length1 && A.Length1 == B.Length0 && A != B
    requires 0 <= x < A.Length0 && 0 <= lo <= hi <= A.Length1
    modifies B
    ensures forall y :: lo <= y < hi ==> B[y, x] == A[x, y]
    ensures forall y, z :: 0 <= y < B.Length0 && 0 <= z < B.Length1 && !(z == x && lo <= y < hi)
              ==> B[y, z] == old(B[y, z])
  {
    var y := lo;
    while y < hi
      invariant lo <= y <= hi
      invariant forall v :: lo <= v < y ==> B[v, x] == A[x, v]
      invariant forall v, z :: 0 <= v < B.Length0 && 0 <= z < B.Length1 && !(z == x && lo <= v < y)
                  ==> B[v, z] == old(B[v, z])
    {
      B[y, x] := A[x, y];
      y := y + 1;
    }
  }

  /** One pass `for (y = hi - 1; y >= lo; y--) B[y][x] = A[x][y];`. */
  method ColumnDown(A: array2<int>, B: array2<int>, x: int, lo: int, hi: int)
    requires A.Length0 == B.Length1 && A.Length1 == B.Length0 && A != B
    requires 0 <= x < A.Length0 && 0 <= lo <= hi <= A.Length1
    modifies B
    ensures forall y :: lo <= y < hi ==> B[y, x] == A[x, y]
    ensures forall y, z :: 0 <= y < B.Length0 && 0 <= z < B.Length1 && !(z == x && lo <= y < hi)
              ==> B[y, z] == old(B[y, z])
  {
    var y := hi - 1;
    while y >= lo
      invariant lo - 1 <= y < hi
      invariant forall v :: y < v < hi ==> B[v, x] == A[x, v]
      invariant forall v, z :: 0 <= v < B.Length0 && 0 <= z < B.Length1 && !(z == x && y < v < hi)
                  ==> B[v, z] == old(B[v, z])
    {
      B[y, x] := A[x, y];
      y := y - 1;
    }
  }

  /** One block of `transpose_submit`: rows `[i, ii)` of `A` and columns
      `[j, jj)`.  On a diagonal block (`i == j`) each row is written in two
      runs, below the diagonal upward and from the far end down to the
      diagonal, which together cover `[j, jj)`. */
  method Block(A: array2<int>, B: array2<int>, i: int, ii: int, j: int, jj: int)
    requires A.Length0 == B.Length1 && A.Length1 == B.Length0 && A != B
    requires 0 <= i <= ii <= A.Length0 && 0 <= j <= jj <= A.Length1
    requires i == j ==> ii == jj
    modifies B
    ensures forall x, y :: i <= x < ii && j <= y < jj ==> B[y, x] == A[x, y]
    ensures forall y, z :: 0 <= y < B.Length0 && 0 <= z < B.Length1 && !(i <= z < ii && j <= y < jj)
              ==> B[y, z] == old(B[y, z])
  {
    var x := i;
    while x < ii
      invariant i <= x <= ii
      invariant forall u, y :: i <= u < x && j <= y < jj ==> B[y, u] == A[u, y]
      invariant forall y, z :: 0 <= y < B.Length0 && 0 <= z < B.Length1 && !(i <= z < x && j <= y < jj)
                  ==> B[y, z] == old(B[y, z])
    {
      if i == j {
        ColumnUp(A, B, x, j, x);
        ColumnDown(A, B, x, x, jj);
      } else {
        ColumnUp(A, B, x, j, jj);
      }
      x := x + 1;
    }
  }

  /** `transpose_submit`: for a 32-by-32 matrix, the 8-by-8 blocked
      transpose; for any other size it writes nothing. */
  method TransposeSubmit(M: int, N: int, A: array2<int>, B: array2<int>)
    requires Shapes(M, N, A, B)
    modifies B
    ensures M == 32 && N == 32 ==> IsTransposeOf(A, B)
    ensures !(M == 32 && N == 32) ==>
      forall y, z :: 0 <= y < M && 0 <= z < N ==> B[y, z] == old(B[y, z])
  {
    if M == 32 && N == 32 {
      var i := 0;
      while i < M
        invariant 0 <= i <= M && i % 8 == 0
        invariant forall x, y :: 0 <= x < i && 0 <= y < N ==> B[y, x] == A[x, y]
      {
        var ii := i + 8;
        ii := if ii > M then M else ii;
        var j := 0;
        while j < N
          invariant 0 <= j <= N && j % 8 == 0
          invariant forall x, y :: 0 <= x < i && 0 <= y < N ==> B[y, x] == A[x, y]
          invariant forall x, y :: i <= x < ii && 0 <= y < j ==> B[y, x] == A[x, y]
        {
          var jj := j + 8;
          jj := if jj > N then N else jj;
          Block(A, B, i, ii, j, jj);
          j := j + 8;
        }
        i := i + 8;
      }
    }
  }
}
