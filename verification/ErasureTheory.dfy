/** Why the recovery rows recover: the linear algebra behind the decode matrix. */
module ErasureTheory {
  import opened LinearAlgebra

  /** Row `i` of a matrix stored row by row with `k` columns. */
  function Row<T>(flat: seq<T>, k: nat, i: nat): (row: seq<T>)
    requires k * i + k <= |flat|
    ensures |row| == k
  {
    flat[k * i..k * i + k]
  }

  lemma NextRow(k: nat, i: nat)
    ensures k * (i + 1) == k * i + k
  {
  }

  lemma {:induction false} RowFits(k: nat, i: nat, n: nat)
    requires i < n
    ensures 0 <= k * i && k * i + k <= k * n
    decreases n
  {
    NextRow(k, n - 1);
    if i < n - 1 {
      RowFits(k, i, n - 1);
    }
  }

  function Rows<T>(flat: seq<T>, k: nat, n: nat): (rows: seq<seq<T>>)
    requires k * n <= |flat|
    ensures |rows| == n && Matrix(rows, k)
  {
    if n == 0 then
      []
    else
      NextRow(k, n - 1);
      Rows(flat, k, n - 1) + [Row(flat, k, n - 1)]
  }

  lemma {:induction false} RowsAt<T>(flat: seq<T>, k: nat, n: nat, i: nat)
    requires k * n <= |flat| && i < n
    ensures k * i + k <= |flat| && Rows(flat, k, n)[i] == Row(flat, k, i)
    decreases n
  {
    NextRow(k, n - 1);
    if i < n - 1 {
      RowsAt(flat, k, n - 1, i);
    }
  }

  /** Fragment `i` of the data: a source byte, or a parity row of the encode matrix times the data. */
  function Fragment<T>(R: Semiring<T>, encode: seq<seq<T>>, data: seq<T>, i: nat): T
    requires i < |encode| && Matrix(encode, |data|)
  {
    if i < |data| then data[i] else Dot(R, encode[i], data)
  }

  /** The first `k` rows of the encode matrix are the identity: sources are stored as they are. */
  ghost predicate Systematic<T>(R: Semiring<T>, encode: seq<seq<T>>, k: nat) {
    k <= |encode| && forall i :: 0 <= i < k ==> encode[i] == Unit(R, k, i)
  }

  ghost predicate Indices(index: seq<nat>, n: nat) {
    forall i :: 0 <= i < |index| ==> index[i] < n
  }

  function Pick<T>(rows: seq<T>, index: seq<nat>): (picked: seq<T>)
    requires Indices(index, |rows|)
    ensures |picked| == |index|
    ensures forall i :: 0 <= i < |index| ==> picked[i] == rows[index[i]]
  {
    seq(|index|, i requires 0 <= i < |index| => rows[index[i]])
  }

  /** The fragments the decoder reads, `recover_srcs`. */
  function Sources<T>(R: Semiring<T>, encode: seq<seq<T>>, data: seq<T>, index: seq<nat>): (fragments: seq<T>)
    requires Matrix(encode, |data|) && Indices(index, |encode|)
    ensures |fragments| == |index|
  {
    seq(|index|, i requires 0 <= i < |index| => Fragment(R, encode, data, index[i]))
  }

  /** inv · b = I, the contract of a successful `gf_invert_matrix`. */
  ghost predicate LeftInverse<T>(R: Semiring<T>, inv: seq<seq<T>>, b: seq<seq<T>>, k: nat) {
    && |inv| == |b| == k && Matrix(inv, k) && Matrix(b, k)
    && forall i :: 0 <= i < k ==> VecMat(R, inv[i], b, k) == Unit(R, k, i)
  }

  /** The recovery row for an erased fragment: a row of the inverse, or a parity row times the inverse. */
  function DecodeRow<T>(R: Semiring<T>, encode: seq<seq<T>>, inv: seq<seq<T>>, k: nat, e: nat): (row: seq<T>)
    requires |inv| == k && Matrix(inv, k) && Matrix(encode, k) && e < |encode|
    ensures |row| == k
  {
    if e < k then inv[e] else VecMat(R, encode[e], inv, k)
  }

  lemma FragmentIsRowTimesData<T(!new)>(R: Semiring<T>, encode: seq<seq<T>>, data: seq<T>, i: nat)
    requires Lawful(R) && Matrix(encode, |data|) && Systematic(R, encode, |data|) && i < |encode|
    ensures Fragment(R, encode, data, i) == Dot(R, encode[i], data)
  {
    if i < |data| {
      DotUnit(R, data, i);
    }
  }

  /** The surviving fragments are `b` times the data. */
  lemma SourcesAreRowsTimesData<T(!new)>(R: Semiring<T>, encode: seq<seq<T>>, data: seq<T>, index: seq<nat>)
    requires Lawful(R) && Matrix(encode, |data|) && Systematic(R, encode, |data|) && Indices(index, |encode|)
    ensures Sources(R, encode, data, index) == MatVec(R, Pick(encode, index), data)
  {
    forall i | 0 <= i < |index|
      ensures Sources(R, encode, data, index)[i] == MatVec(R, Pick(encode, index), data)[i]
    {
      FragmentIsRowTimesData(R, encode, data, index[i]);
    }
  }

  /** A row of the inverse times the survivors is a source byte. */
  lemma InverseRecoversData<T(!new)>(R: Semiring<T>, b: seq<seq<T>>, inv: seq<seq<T>>, data: seq<T>)
    requires Lawful(R) && LeftInverse(R, inv, b, |data|)
    ensures MatVec(R, inv, MatVec(R, b, data)) == data
  {
    var read := MatVec(R, b, data);
    forall i | 0 <= i < |data|
      ensures MatVec(R, inv, read)[i] == data[i]
    {
      Associative(R, inv[i], b, data);
      DotUnit(R, data, i);
    }
  }

  /** The recovery row of any fragment, source or parity, times the survivors is that fragment. */
  lemma RowRecovers<T(!new)>(R: Semiring<T>, encode: seq<seq<T>>, inv: seq<seq<T>>, index: seq<nat>,
                             data: seq<T>, e: nat)
    requires Lawful(R) && Matrix(encode, |data|) && Systematic(R, encode, |data|)
    requires |index| == |data| && Indices(index, |encode|) && e < |encode|
    requires LeftInverse(R, inv, Pick(encode, index), |data|)
    ensures Dot(R, DecodeRow(R, encode, inv, |data|, e), Sources(R, encode, data, index)) ==
              Fragment(R, encode, data, e)
  {
    var read := Sources(R, encode, data, index);
    SourcesAreRowsTimesData(R, encode, data, index);
    InverseRecoversData(R, Pick(encode, index), inv, data);
    if e < |data| {
      assert MatVec(R, inv, read)[e] == Dot(R, inv[e], read);
    } else {
      Associative(R, encode[e], inv, read);
    }
  }
}
