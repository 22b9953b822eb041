/** Whole fragments: `ec_encode_data` applied byte position by byte position, and the check that ends `main`. */
module ErasureRecovery {
  import opened LinearAlgebra
  import opened ErasureTheory
  import opened Erasure

  ghost predicate Buffers<T>(bufs: seq<seq<T>>, len: nat) {
    forall i :: 0 <= i < |bufs| ==> |bufs[i]| == len
  }

  function Column<T>(bufs: seq<seq<T>>, len: nat, x: nat): (column: seq<T>)
    requires Buffers(bufs, len) && x < len
    ensures |column| == |bufs|
  {
    seq(|bufs|, i requires 0 <= i < |bufs| => bufs[i][x])
  }

  /** One output buffer per row: each byte is the row times the bytes at that position of the inputs. */
  function EncodeData<T>(R: Semiring<T>, rows: seq<seq<T>>, bufs: seq<seq<T>>, len: nat): (out: seq<seq<T>>)
    requires Matrix(rows, |bufs|) && Buffers(bufs, len)
    ensures |out| == |rows| && Buffers(out, len)
  {
    seq(|rows|, r requires 0 <= r < |rows| =>
      seq(len, x requires 0 <= x < len => Dot(R, rows[r], Column(bufs, len, x))))
  }

  /** All fragments: the sources, then the parities the last rows of the encode matrix give. */
  function Fragments<T>(R: Semiring<T>, encode: seq<seq<T>>, bufs: seq<seq<T>>, len: nat): (frags: seq<seq<T>>)
    requires |bufs| <= |encode| && Matrix(encode, |bufs|) && Buffers(bufs, len)
    ensures |frags| == |encode| && Buffers(frags, len)
  {
    bufs + EncodeData(R, encode[|bufs|..], bufs, len)
  }

  lemma FragmentAt<T>(R: Semiring<T>, encode: seq<seq<T>>, bufs: seq<seq<T>>, len: nat, i: nat, x: nat)
    requires |bufs| <= |encode| && Matrix(encode, |bufs|) && Buffers(bufs, len) && i < |encode| && x < len
    ensures Fragments(R, encode, bufs, len)[i][x] == Fragment(R, encode, Column(bufs, len, x), i)
  {
    if i >= |bufs| {
      assert encode[|bufs|..][i - |bufs|] == encode[i];
    }
  }

  /** Packing the chosen fragments and encoding them with the decode matrix gives back every erased fragment. */
  lemma RecoveredBuffers<T(!new)>(R: Semiring<T>, encode: seq<seq<T>>, decode: seq<seq<T>>, index: seq<nat>,
                                  errs: seq<nat>, bufs: seq<seq<T>>, len: nat)
    requires |bufs| <= |encode| && Matrix(encode, |bufs|) && Buffers(bufs, len)
    requires |index| == |bufs| && Indices(index, |encode|) && Indices(errs, |encode|)
    requires |decode| == |errs| && Matrix(decode, |bufs|)
    requires Recovers(R, encode, decode, index, errs, |bufs|)
    ensures var frags := Fragments(R, encode, bufs, len);
      EncodeData(R, decode, Pick(frags, index), len) == Pick(frags, errs)
  {
    var frags := Fragments(R, encode, bufs, len);
    var out := EncodeData(R, decode, Pick(frags, index), len);
    forall i | 0 <= i < |errs|
      ensures out[i] == frags[errs[i]]
    {
      forall x | 0 <= x < len
        ensures out[i][x] == frags[errs[i]][x]
      {
        ColumnOfChosen(R, encode, index, bufs, len, x);
        FragmentAt(R, encode, bufs, len, errs[i], x);
        var data := Column(bufs, len, x);
        assert Dot(R, decode[i], Sources(R, encode, data, index)) == Fragment(R, encode, data, errs[i]);
      }
    }
  }

  lemma ColumnOfChosen<T>(R: Semiring<T>, encode: seq<seq<T>>, index: seq<nat>, bufs: seq<seq<T>>, len: nat, x: nat)
    requires |bufs| <= |encode| && Matrix(encode, |bufs|) && Buffers(bufs, len) && x < len
    requires Indices(index, |encode|)
    ensures Buffers(Pick(Fragments(R, encode, bufs, len), index), len)
    ensures Column(Pick(Fragments(R, encode, bufs, len), index), len, x) ==
              Sources(R, encode, Column(bufs, len, x), index)
  {
    var frags := Fragments(R, encode, bufs, len);
    var left, right := Column(Pick(frags, index), len, x), Sources(R, encode, Column(bufs, len, x), index);
    forall i | 0 <= i < |index|
      ensures left[i] == right[i]
    {
      FragmentAt(R, encode, bufs, len, index[i], x);
    }
  }
}
