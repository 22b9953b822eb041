/** `gf_gen_decode_matrix_simple`: the decode matrix built in place, and the recovery that uses it. */
module Erasure {
  import opened Types
  import opened LinearAlgebra
  import opened ErasureTheory
  import Survivors

  const MMAX := 255

  /** `gf_invert_matrix` on a k×k matrix stored row by row: no result when it reports failure. */
  type Inverter<!T> = (seq<T>, nat) -> Option<seq<T>>

  /** Success means the result is a left inverse. */
  ghost predicate Inverts<T(!new)>(R: Semiring<T>, invert: Inverter<T>) {
    forall b: seq<T>, k: nat ::
      |b| == k * k && invert(b, k).Some? ==>
        |invert(b, k).value| == k * k && LeftInverse(R, Rows(invert(b, k).value, k, k), Rows(b, k, k), k)
  }

  /** The parameter checks of `main`: the shape of the code and the erasures it can be asked to undo. */
  ghost predicate ValidParameters(errs: seq<nat>, k: nat, m: nat) {
    && 1 <= k < m <= MMAX
    && |errs| <= m - k
    && (forall i :: 0 <= i < |errs| ==> errs[i] < m)
  }

  method MarkErasures(errs: seq<nat>, ghost m: nat) returns (inErr: array<bool>)
    requires m <= MMAX && forall i :: 0 <= i < |errs| ==> errs[i] < m
    ensures fresh(inErr) && inErr.Length == MMAX
    ensures forall r: nat :: r < MMAX ==> (inErr[r] <==> r in errs)
  {
    inErr := new bool[MMAX](_ => false);
    for i := 0 to |errs|
      invariant forall r: nat :: r < MMAX ==> (inErr[r] <==> r in errs[..i])
    {
      inErr[errs[i]] := true;
      assert errs[..i + 1] == errs[..i] + [errs[i]];
    }
    assert errs[..|errs|] == errs;
  }

  /** Copies row `i` of one matrix to row `j` of another, touching nothing else. */
  method CopyRow<T>(src: seq<T>, i: nat, dst: array<T>, j: nat, k: nat)
    requires k * i + k <= |src| && k * j + k <= dst.Length
    modifies dst
    ensures Row(dst[..], k, j) == Row(src, k, i)
    ensures forall x :: 0 <= x < dst.Length && !(k * j <= x < k * j + k) ==> dst[x] == old(dst[x])
  {
    var from, to := k * i, k * j;
    for c := 0 to k
      invariant dst[to..to + c] == src[from..from + c]
      invariant forall x :: 0 <= x < dst.Length && !(to <= x < to + k) ==> dst[x] == old(dst[x])
    {
      ghost var done := dst[to..to + c];
      dst[to + c] := src[from + c];
      assert dst[to..to + c] == done;
      assert dst[to..to + c + 1] == done + [src[from + c]];
      assert src[from..from + c + 1] == src[from..from + c] + [src[from + c]];
    }
  }

  /** Writing row `j` leaves every other row alone. */
  lemma OtherRow<T>(before: seq<T>, after: seq<T>, k: nat, i: nat, j: nat)
    requires |before| == |after| && i != j && k * i + k <= |before| && k * j + k <= |before|
    requires forall x :: 0 <= x < |before| && !(k * j <= x < k * j + k) ==> after[x] == before[x]
    ensures Row(after, k, i) == Row(before, k, i)
  {
    if i < j {
      RowFits(k, i, j);
    } else {
      RowFits(k, j, i);
    }
  }

  ghost predicate RowsPicked<T>(temp: seq<T>, encode: seq<T>, index: seq<nat>, k: nat, n: nat) {
    && n <= |index|
    && forall a :: 0 <= a < n ==>
        k * a + k <= |temp| && k * index[a] + k <= |encode| && Row(temp, k, a) == Row(encode, k, index[a])
  }

  lemma PickedOneMore<T>(before: seq<T>, after: seq<T>, encode: seq<T>, picked: seq<nat>, index: seq<nat>, k: nat, n: nat)
    requires |before| == |after| && RowsPicked(before, encode, picked, k, n)
    requires n < |index| == |picked| && index == picked[n := index[n]]
    requires k * n + k <= |after| && k * index[n] + k <= |encode| && Row(after, k, n) == Row(encode, k, index[n])
    requires forall x :: 0 <= x < |before| && !(k * n <= x < k * n + k) ==> after[x] == before[x]
    ensures RowsPicked(after, encode, index, k, n + 1)
  {
    forall a | 0 <= a < n
      ensures Row(after, k, a) == Row(encode, k, index[a])
    {
      OtherRow(before, after, k, a, n);
    }
  }

  /** The selection loop skips erased fragments; counting distinct erasures keeps it inside the code. */
  method SkipErased(inErr: seq<bool>, errs: seq<nat>, k: nat, m: nat, start: nat) returns (r: nat)
    requires ValidParameters(errs, k, m) && |inErr| == MMAX
    requires forall x: nat :: x < MMAX ==> (inErr[x] <==> x in errs)
    requires start <= m && |Survivors.Surviving(errs, start)| < k
    ensures start <= r < m && r !in errs
    ensures Survivors.Surviving(errs, r) == Survivors.Surviving(errs, start)
  {
    Survivors.EnoughSurvivors(errs, k, m);
    r := start;
    while inErr[r]
      invariant start <= r < m
      invariant Survivors.Surviving(errs, r) == Survivors.Surviving(errs, start)
      decreases m - r
    {
      r := r + 1;
    }
  }

  /** Builds b from the first `k` surviving rows and records which they are. */
  method SelectSurvivors<T>(encode: seq<T>, temp: array<T>, index: array<nat>, inErr: seq<bool>, errs: seq<nat>,
                            k: nat, m: nat)
    requires ValidParameters(errs, k, m) && |inErr| == MMAX
    requires |encode| == temp.Length == k * m && index.Length == MMAX && temp as object != index as object
    requires forall x: nat :: x < MMAX ==> (inErr[x] <==> x in errs)
    modifies temp, index
    ensures k <= |Survivors.Surviving(errs, m)| && index[..k] == Survivors.Surviving(errs, m)[..k]
    ensures RowsPicked(temp[..], encode, index[..k], k, k)
  {
    var r := 0;
    for i := 0 to k
      invariant r <= m && |Survivors.Surviving(errs, r)| == i
      invariant index[..i] == Survivors.Surviving(errs, r)
      invariant RowsPicked(temp[..], encode, index[..], k, i)
    {
      r := SkipErased(inErr, errs, k, m, r);
      RowFits(k, r, m);
      RowFits(k, i, m);
      ghost var before, picked := temp[..], index[..];
      CopyRow(encode, r, temp, i, k);
      index[i] := r;
      PickedOneMore(before, temp[..], encode, picked, index[..], k, i);
      assert index[..i] == picked[..i];
      r := r + 1;
    }
    Survivors.SurvivingPrefix(errs, r, m);
    Survivors.EnoughSurvivors(errs, k, m);
    assert forall a :: 0 <= a < k ==> index[..k][a] == index[..][a];
  }

  lemma FlatIndex<T>(flat: seq<T>, k: nat, j: nat, i: nat)
    requires i < k && k * j + k <= |flat|
    ensures 0 <= j * k + i < |flat| && flat[j * k + i] == Row(flat, k, j)[i]
  {
    assert j * k == k * j;
  }

  lemma RowsEntries<T>(flat: seq<T>, k: nat, i: nat)
    requires k * k <= |flat| && i < k
    ensures forall j :: 0 <= j < k ==> j * k + i < |flat| && flat[j * k + i] == Rows(flat, k, k)[j][i]
  {
    forall j | 0 <= j < k
      ensures j * k + i < |flat| && flat[j * k + i] == Rows(flat, k, k)[j][i]
    {
      RowsAt(flat, k, k, j);
      FlatIndex(flat, k, j, i);
    }
  }

  lemma VecMatEntry<T>(R: Semiring<T>, u: seq<T>, rows: seq<seq<T>>, k: nat, j: nat, i: nat)
    requires |u| == |rows| && Matrix(rows, k) && j < |u| && i < k
    ensures VecMat(R, u[..j + 1], rows[..j + 1], k)[i] ==
              R.add(VecMat(R, u[..j], rows[..j], k)[i], R.mul(u[j], rows[j][i]))
  {
    assert u[..j + 1][..j] == u[..j] && rows[..j + 1][..j] == rows[..j];
  }

  /** One entry of a parity row times the inverse: the accumulator loop. */
  method MultiplyColumn<T(!new)>(R: Semiring<T>, encode: seq<T>, e: nat, inverse: seq<T>, i: nat, k: nat,
                                 ghost u: seq<T>, ghost rows: seq<seq<T>>)
    returns (s: T)
    requires Lawful(R) && i < k && |u| == |rows| == k && Matrix(rows, k)
    requires k * e + k <= |encode| && u == encode[k * e..k * e + k]
    requires forall j :: 0 <= j < k ==> j * k + i < |inverse| && inverse[j * k + i] == rows[j][i]
    ensures s == VecMat(R, u, rows, k)[i]
  {
    s := R.zero;
    var base := k * e;
    for j := 0 to k
      invariant s == VecMat(R, u[..j], rows[..j], k)[i]
    {
      ghost var row := rows[j];
      var x, y := inverse[j * k + i], encode[base + j];
      s := R.add(s, R.mul(x, y));
      assert MulComm(R, x, y);
      VecMatEntry(R, u, rows, k, j, i);
    }
    assert u[..k] == u && rows[..k] == rows;
  }

  /** A parity row of the encode matrix times the inverse, column by column. */
  method MultiplyRow<T(!new)>(R: Semiring<T>, encode: seq<T>, e: nat, inverse: seq<T>, decode: array<T>, p: nat, k: nat)
    requires Lawful(R)
    requires k * e + k <= |encode| && k * k <= |inverse| && k * p + k <= decode.Length
    modifies decode
    ensures Row(decode[..], k, p) == VecMat(R, Row(encode, k, e), Rows(inverse, k, k), k)
    ensures forall x :: 0 <= x < decode.Length && !(k * p <= x < k * p + k) ==> decode[x] == old(decode[x])
  {
    ghost var u, rows := Row(encode, k, e), Rows(inverse, k, k);
    ghost var product := VecMat(R, u, rows, k);
    var to := k * p;
    for i := 0 to k
      invariant decode[to..to + i] == product[..i]
      invariant forall x :: 0 <= x < decode.Length && !(to <= x < to + k) ==> decode[x] == old(decode[x])
    {
      RowsEntries(inverse, k, i);
      var s := MultiplyColumn(R, encode, e, inverse, i, k, u, rows);
      ghost var done := decode[to..to + i];
      decode[to + i] := s;
      assert decode[to..to + i] == done;
      assert decode[to..to + i + 1] == done + [s];
    }
  }

  ghost predicate SourceRows<T>(decode: seq<T>, inverse: seq<T>, errs: seq<nat>, k: nat, n: nat) {
    && n <= |errs|
    && forall i :: 0 <= i < n && errs[i] < k ==>
        k * i + k <= |decode| && k * errs[i] + k <= |inverse| && Row(decode, k, i) == Row(inverse, k, errs[i])
  }

  ghost predicate ParityRows<T>(R: Semiring<T>, decode: seq<T>, encode: seq<T>, inverse: seq<T>, errs: seq<nat>,
                                k: nat, n: nat)
    requires k * k <= |inverse|
  {
    && n <= |errs|
    && forall i :: 0 <= i < n && errs[i] >= k ==>
        && k * i + k <= |decode| && k * errs[i] + k <= |encode|
        && Row(decode, k, i) == VecMat(R, Row(encode, k, errs[i]), Rows(inverse, k, k), k)
  }

  /** Rows for erased sources are rows of the inverse. */
  method CopySourceRows<T>(inverse: seq<T>, decode: array<T>, errs: seq<nat>, k: nat, m: nat)
    requires ValidParameters(errs, k, m) && decode.Length == k * m && k * k <= |inverse|
    modifies decode
    ensures SourceRows(decode[..], inverse, errs, k, |errs|)
  {
    for i := 0 to |errs|
      invariant SourceRows(decode[..], inverse, errs, k, i)
    {
      if errs[i] < k {
        ghost var before := decode[..];
        RowFits(k, errs[i], k);
        RowFits(k, i, m);
        CopyRow(inverse, errs[i], decode, i, k);
        forall a | 0 <= a < i && errs[a] < k
          ensures k * a + k <= decode.Length && Row(decode[..], k, a) == Row(before, k, a)
        {
          OtherRow(before, decode[..], k, a, i);
        }
      }
    }
  }

  /** Rows for erased parities are parity rows times the inverse; rows for erased sources stay. */
  method MultiplyParityRows<T(!new)>(R: Semiring<T>, encode: seq<T>, inverse: seq<T>, decode: array<T>, errs: seq<nat>,
                                     k: nat, m: nat)
    requires Lawful(R) && ValidParameters(errs, k, m)
    requires decode.Length == |encode| == k * m && k * k <= |inverse|
    requires SourceRows(decode[..], inverse, errs, k, |errs|)
    modifies decode
    ensures SourceRows(decode[..], inverse, errs, k, |errs|)
    ensures ParityRows(R, decode[..], encode, inverse, errs, k, |errs|)
  {
    for p := 0 to |errs|
      invariant SourceRows(decode[..], inverse, errs, k, |errs|)
      invariant ParityRows(R, decode[..], encode, inverse, errs, k, p)
    {
      if errs[p] >= k {
        ghost var before := decode[..];
        RowFits(k, errs[p], m);
        RowFits(k, p, m);
        MultiplyRow(R, encode, errs[p], inverse, decode, p, k);
        forall a | 0 <= a < |errs| && a != p
          ensures k * a + k <= decode.Length && Row(decode[..], k, a) == Row(before, k, a)
        {
          RowFits(k, a, m);
          OtherRow(before, decode[..], k, a, p);
        }
      }
    }
  }

  /** Every row of the decode matrix times the chosen survivors is the fragment it stands for. */
  ghost predicate Recovers<T(!new)>(R: Semiring<T>, encode: seq<seq<T>>, decode: seq<seq<T>>, index: seq<nat>,
                                    errs: seq<nat>, k: nat)
    requires |decode| == |errs| && Matrix(decode, k) && Matrix(encode, k)
    requires |index| == k && Indices(index, |encode|) && Indices(errs, |encode|)
  {
    forall data: seq<T>, i :: |data| == k && 0 <= i < |errs| ==>
      Dot(R, decode[i], Sources(R, encode, data, index)) == Fragment(R, encode, data, errs[i])
  }

  lemma DecodeRowsRecover<T(!new)>(R: Semiring<T>, encode: seq<seq<T>>, decode: seq<seq<T>>, inv: seq<seq<T>>,
                                   index: seq<nat>, errs: seq<nat>, k: nat)
    requires Lawful(R) && Matrix(encode, k) && Systematic(R, encode, k)
    requires |index| == k && Indices(index, |encode|) && Indices(errs, |encode|)
    requires LeftInverse(R, inv, Pick(encode, index), k)
    requires |decode| == |errs| && Matrix(decode, k)
    requires forall i :: 0 <= i < |errs| ==> decode[i] == DecodeRow(R, encode, inv, k, errs[i])
    ensures Recovers(R, encode, decode, index, errs, k)
  {
    forall data: seq<T>, i | |data| == k && 0 <= i < |errs|
      ensures Dot(R, decode[i], Sources(R, encode, data, index)) == Fragment(R, encode, data, errs[i])
    {
      RowRecovers(R, encode, inv, index, data, errs[i]);
    }
  }

  /** The decode matrix in memory, read row by row, consists of the recovery rows. */
  lemma DecodeMatrixRows<T>(R: Semiring<T>, decode: seq<T>, encode: seq<T>, inverse: seq<T>, errs: seq<nat>,
                            k: nat, m: nat)
    requires ValidParameters(errs, k, m) && |encode| == k * m && k * |errs| <= |decode| && k * k <= |inverse|
    requires SourceRows(decode, inverse, errs, k, |errs|)
    requires ParityRows(R, decode, encode, inverse, errs, k, |errs|)
    ensures forall i :: 0 <= i < |errs| ==>
              Rows(decode, k, |errs|)[i] == DecodeRow(R, Rows(encode, k, m), Rows(inverse, k, k), k, errs[i])
  {
    forall i | 0 <= i < |errs|
      ensures Rows(decode, k, |errs|)[i] == DecodeRow(R, Rows(encode, k, m), Rows(inverse, k, k), k, errs[i])
    {
      RowsAt(decode, k, |errs|, i);
      RowsAt(encode, k, m, errs[i]);
      if errs[i] < k {
        RowsAt(inverse, k, k, errs[i]);
      }
    }
  }

  lemma RowOfPrefix<T>(flat: seq<T>, n: nat, k: nat, i: nat)
    requires k * i + k <= n <= |flat|
    ensures Row(flat[..n], k, i) == Row(flat, k, i)
  {
  }

  lemma PickedRows<T>(temp: seq<T>, encode: seq<T>, index: seq<nat>, k: nat, m: nat, n: nat)
    requires |encode| == k * m && n == k * k && n <= |temp| && |index| == k && Indices(index, m)
    requires RowsPicked(temp, encode, index, k, k)
    ensures Rows(temp[..n], k, k) == Pick(Rows(encode, k, m), index)
  {
    var b := temp[..n];
    forall i | 0 <= i < k
      ensures Rows(b, k, k)[i] == Rows(encode, k, m)[index[i]]
    {
      RowsAt(b, k, k, i);
      RowsAt(encode, k, m, index[i]);
      RowOfPrefix(temp, n, k, i);
    }
  }

  lemma FirstSurvivorsInRange(errs: seq<nat>, k: nat, m: nat)
    requires k <= |Survivors.Surviving(errs, m)|
    ensures Indices(Survivors.Surviving(errs, m)[..k], m)
  {
    Survivors.SurvivingIsExact(errs, m);
    forall i | 0 <= i < k
      ensures Survivors.Surviving(errs, m)[i] < m
    {
      assert Survivors.Surviving(errs, m)[i] in Survivors.Surviving(errs, m);
    }
  }

  /** The first half: mark, select, and hand b to the inversion. */
  method ChooseRows<T>(encode: seq<T>, temp: array<T>, index: array<nat>, errs: seq<nat>, k: nat, m: nat)
    returns (b: seq<T>)
    requires ValidParameters(errs, k, m) && |encode| == temp.Length == k * m && index.Length == MMAX
    requires temp as object != index
    modifies temp, index
    ensures k <= |Survivors.Surviving(errs, m)| && index[..k] == Survivors.Surviving(errs, m)[..k]
    ensures Indices(index[..k], m)
    ensures |b| == k * k && Rows(b, k, k) == Pick(Rows(encode, k, m), index[..k])
  {
    Fits(k, m, |errs|);
    var inErr := MarkErasures(errs, m);
    SelectSurvivors(encode, temp, index, inErr[..], errs, k, m);
    FirstSurvivorsInRange(errs, k, m);
    var n := k * k;
    PickedRows(temp[..], encode, index[..k], k, m, n);
    b := temp[..n];
  }

  /** The second half: the inverse is stored and the decode matrix filled from it. */
  method FillDecodeMatrix<T(!new)>(R: Semiring<T>, encode: seq<T>, inv: seq<T>, inverse: array<T>, decode: array<T>,
                                   errs: seq<nat>, k: nat, m: nat)
    requires Lawful(R) && ValidParameters(errs, k, m) && decode != inverse
    requires |encode| == decode.Length == inverse.Length == k * m && |inv| == k * k
    modifies inverse, decode
    ensures SourceRows(decode[..], inv, errs, k, |errs|)
    ensures ParityRows(R, decode[..], encode, inv, errs, k, |errs|)
  {
    Fits(k, m, |errs|);
    forall i | 0 <= i < |inv| {
      inverse[i] := inv[i];
    }
    CopySourceRows(inv, decode, errs, k, m);
    MultiplyParityRows(R, encode, inv, decode, errs, k, m);
  }

  /**
   `gf_gen_decode_matrix_simple`. The chosen fragments are the first `k` survivors; it fails exactly
   when `b`, the matrix of their rows, is not inverted; and otherwise each row of the decode matrix
   recovers its fragment from the chosen ones, for all data, source and parity erasures alike.
   */
  method GenDecodeMatrix<T(!new)>(R: Semiring<T>, invert: Inverter<T>, encode: seq<T>, decode: array<T>,
                                  inverse: array<T>, temp: array<T>, index: array<nat>, errs: seq<nat>, k: nat, m: nat)
    returns (ok: bool, b: seq<T>)
    requires Lawful(R) && Inverts(R, invert) && ValidParameters(errs, k, m)
    requires |encode| == decode.Length == inverse.Length == temp.Length == k * m && index.Length == MMAX
    requires Systematic(R, Rows(encode, k, m), k)
    requires decode != inverse && decode != temp && inverse != temp
    requires decode as object != index && inverse as object != index && temp as object != index
    modifies decode, inverse, temp, index
    ensures k <= |Survivors.Surviving(errs, m)| && index[..k] == Survivors.Surviving(errs, m)[..k]
    ensures Indices(index[..k], m)
    ensures |b| == k * k && Rows(b, k, k) == Pick(Rows(encode, k, m), index[..k])
    ensures ok <==> invert(b, k).Some?
    ensures k * |errs| <= k * m
    ensures ok ==> Recovers(R, Rows(encode, k, m), Rows(decode[..], k, |errs|), index[..k], errs, k)
  {
    Fits(k, m, |errs|);
    b := ChooseRows(encode, temp, index, errs, k, m);
    ghost var chosen := index[..k];
    if invert(b, k).None? {
      return false, b;
    }
    InverseOf(R, invert, b, k);
    FillDecodeMatrix(R, encode, invert(b, k).value, inverse, decode, errs, k, m);
    assert index[..k] == chosen;
    RowsInMemoryRecover(R, encode, decode[..], invert(b, k).value, chosen, errs, k, m);
    ok := true;
  }

  lemma InverseOf<T(!new)>(R: Semiring<T>, invert: Inverter<T>, b: seq<T>, k: nat)
    requires Inverts(R, invert) && |b| == k * k && invert(b, k).Some?
    ensures |invert(b, k).value| == k * k && LeftInverse(R, Rows(invert(b, k).value, k, k), Rows(b, k, k), k)
  {
  }

  lemma RowsInMemoryRecover<T(!new)>(R: Semiring<T>, encode: seq<T>, decode: seq<T>, inv: seq<T>, index: seq<nat>,
                                     errs: seq<nat>, k: nat, m: nat)
    requires Lawful(R) && ValidParameters(errs, k, m) && |encode| == k * m && Systematic(R, Rows(encode, k, m), k)
    requires k * |errs| <= |decode| && |inv| == k * k && |index| == k && Indices(index, m)
    requires LeftInverse(R, Rows(inv, k, k), Pick(Rows(encode, k, m), index), k)
    requires SourceRows(decode, inv, errs, k, |errs|)
    requires ParityRows(R, decode, encode, inv, errs, k, |errs|)
    ensures Recovers(R, Rows(encode, k, m), Rows(decode, k, |errs|), index, errs, k)
  {
    DecodeMatrixRows(R, decode, encode, inv, errs, k, m);
    DecodeRowsRecover(R, Rows(encode, k, m), Rows(decode, k, |errs|), Rows(inv, k, k), index, errs, k);
  }

  lemma Fits(k: nat, m: nat, n: nat)
    requires 1 <= k < m && n <= m - k
    ensures k * k <= k * m && k * n <= k * m
  {
    assert k * (m - k) >= 0 && k * (m - n) >= 0;
  }
}
