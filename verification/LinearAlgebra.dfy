/** Vectors and matrices over a commutative semiring, as far as erasure decoding needs them. */
module LinearAlgebra {

  datatype Semiring<!T> = Semiring(zero: T, one: T, add: (T, T) -> T, mul: (T, T) -> T)

  // Each law is a predicate of its own, so that a proof uses exactly the instances it names.

  ghost predicate AddAssoc<T(!new)>(R: Semiring<T>, a: T, b: T, c: T) {
    R.add(R.add(a, b), c) == R.add(a, R.add(b, c))
  }

  ghost predicate AddComm<T(!new)>(R: Semiring<T>, a: T, b: T) {
    R.add(a, b) == R.add(b, a)
  }

  ghost predicate AddZero<T(!new)>(R: Semiring<T>, a: T) {
    R.add(R.zero, a) == a
  }

  ghost predicate MulAssoc<T(!new)>(R: Semiring<T>, a: T, b: T, c: T) {
    R.mul(R.mul(a, b), c) == R.mul(a, R.mul(b, c))
  }

  ghost predicate MulComm<T(!new)>(R: Semiring<T>, a: T, b: T) {
    R.mul(a, b) == R.mul(b, a)
  }

  ghost predicate MulOneZero<T(!new)>(R: Semiring<T>, a: T) {
    R.mul(R.one, a) == a && R.mul(R.zero, a) == R.zero
  }

  ghost predicate Distributes<T(!new)>(R: Semiring<T>, a: T, b: T, c: T) {
    R.mul(a, R.add(b, c)) == R.add(R.mul(a, b), R.mul(a, c))
  }

  /** The laws that xor and `gf_mul` obey on GF(2^8). */
  ghost predicate Lawful<T(!new)>(R: Semiring<T>) {
    && (forall a, b, c :: AddAssoc(R, a, b, c))
    && (forall a, b :: AddComm(R, a, b))
    && (forall a :: AddZero(R, a))
    && (forall a, b, c :: MulAssoc(R, a, b, c))
    && (forall a, b :: MulComm(R, a, b))
    && (forall a :: MulOneZero(R, a))
    && (forall a, b, c :: Distributes(R, a, b, c))
  }

  function Dot<T>(R: Semiring<T>, u: seq<T>, v: seq<T>): T
    requires |u| == |v|
  {
    if u == [] then R.zero
    else var n := |u| - 1; R.add(Dot(R, u[..n], v[..n]), R.mul(u[n], v[n]))
  }

  function Plus<T>(R: Semiring<T>, u: seq<T>, v: seq<T>): (w: seq<T>)
    requires |u| == |v|
    ensures |w| == |u|
  {
    seq(|u|, i requires 0 <= i < |u| => R.add(u[i], v[i]))
  }

  function Scale<T>(R: Semiring<T>, x: T, v: seq<T>): (w: seq<T>)
    ensures |w| == |v|
  {
    seq(|v|, i requires 0 <= i < |v| => R.mul(x, v[i]))
  }

  ghost predicate Matrix<T>(rows: seq<seq<T>>, k: nat) {
    forall i :: 0 <= i < |rows| ==> |rows[i]| == k
  }

  /** The row vector `u` times the matrix. */
  function VecMat<T>(R: Semiring<T>, u: seq<T>, rows: seq<seq<T>>, k: nat): (w: seq<T>)
    requires |u| == |rows| && Matrix(rows, k)
    ensures |w| == k
  {
    if u == [] then seq(k, _ => R.zero)
    else var n := |u| - 1; Plus(R, VecMat(R, u[..n], rows[..n], k), Scale(R, u[n], rows[n]))
  }

  /** The matrix times the column vector `v`. */
  function MatVec<T>(R: Semiring<T>, rows: seq<seq<T>>, v: seq<T>): (w: seq<T>)
    requires Matrix(rows, |v|)
    ensures |w| == |rows|
  {
    seq(|rows|, i requires 0 <= i < |rows| => Dot(R, rows[i], v))
  }

  function Unit<T>(R: Semiring<T>, k: nat, i: nat): (w: seq<T>)
    ensures |w| == k
  {
    seq(k, j => if j == i then R.one else R.zero)
  }

  lemma AddSwap<T(!new)>(R: Semiring<T>, a: T, b: T, c: T, d: T)
    requires Lawful(R)
    ensures R.add(R.add(a, b), R.add(c, d)) == R.add(R.add(a, c), R.add(b, d))
  {
    assert AddAssoc(R, a, b, R.add(c, d)) && AddAssoc(R, a, c, R.add(b, d));
    assert AddAssoc(R, b, c, d) && AddAssoc(R, c, b, d) && AddComm(R, b, c);
  }

  lemma {:induction false} DotZero<T(!new)>(R: Semiring<T>, v: seq<T>)
    requires Lawful(R)
    ensures Dot(R, seq(|v|, _ => R.zero), v) == R.zero
    decreases |v|
  {
    if v != [] {
      var n := |v| - 1;
      assert seq(|v|, _ => R.zero)[..n] == seq(|v[..n]|, _ => R.zero);
      DotZero(R, v[..n]);
      assert MulOneZero(R, v[n]) && AddZero(R, R.zero);
    }
  }

  lemma {:induction false} DotPlus<T(!new)>(R: Semiring<T>, a: seq<T>, b: seq<T>, v: seq<T>)
    requires Lawful(R) && |a| == |b| == |v|
    ensures Dot(R, Plus(R, a, b), v) == R.add(Dot(R, a, v), Dot(R, b, v))
    decreases |v|
  {
    if v == [] {
      assert AddZero(R, R.zero);
    } else {
      var n := |v| - 1;
      var p := Plus(R, a, b);
      assert p[..n] == Plus(R, a[..n], b[..n]);
      DotPlus(R, a[..n], b[..n], v[..n]);
      assert MulComm(R, p[n], v[n]) && MulComm(R, a[n], v[n]) && MulComm(R, b[n], v[n]);
      assert Distributes(R, v[n], a[n], b[n]);
      AddSwap(R, Dot(R, a[..n], v[..n]), Dot(R, b[..n], v[..n]), R.mul(a[n], v[n]), R.mul(b[n], v[n]));
    }
  }

  lemma {:induction false} DotScale<T(!new)>(R: Semiring<T>, x: T, a: seq<T>, v: seq<T>)
    requires Lawful(R) && |a| == |v|
    ensures Dot(R, Scale(R, x, a), v) == R.mul(x, Dot(R, a, v))
    decreases |v|
  {
    if v == [] {
      assert MulComm(R, x, R.zero) && MulOneZero(R, x);
    } else {
      var n := |v| - 1;
      assert Scale(R, x, a)[..n] == Scale(R, x, a[..n]);
      DotScale(R, x, a[..n], v[..n]);
      assert MulAssoc(R, x, a[n], v[n]) && Distributes(R, x, Dot(R, a[..n], v[..n]), R.mul(a[n], v[n]));
    }
  }

  /** (u·M)·v == u·(M·v). */
  lemma {:induction false} Associative<T(!new)>(R: Semiring<T>, u: seq<T>, rows: seq<seq<T>>, v: seq<T>)
    requires Lawful(R) && |u| == |rows| && Matrix(rows, |v|)
    ensures Dot(R, VecMat(R, u, rows, |v|), v) == Dot(R, u, MatVec(R, rows, v))
    decreases |u|
  {
    if u == [] {
      DotZero(R, v);
    } else {
      var n := |u| - 1;
      var head := VecMat(R, u[..n], rows[..n], |v|);
      DotPlus(R, head, Scale(R, u[n], rows[n]), v);
      DotScale(R, u[n], rows[n], v);
      Associative(R, u[..n], rows[..n], v);
      assert MatVec(R, rows, v)[..n] == MatVec(R, rows[..n], v);
    }
  }

  lemma {:induction false} DotUnit<T(!new)>(R: Semiring<T>, v: seq<T>, i: nat)
    requires Lawful(R)
    ensures Dot(R, Unit(R, |v|, i), v) == if i < |v| then v[i] else R.zero
    decreases |v|
  {
    if v != [] {
      var n := |v| - 1;
      assert Unit(R, |v|, i)[..n] == Unit(R, n, i);
      DotUnit(R, v[..n], i);
      assert MulOneZero(R, v[n]) && AddZero(R, v[n]) && AddZero(R, R.zero);
      if i < n {
        assert AddComm(R, v[i], R.zero) && AddZero(R, v[i]);
      }
    }
  }
}
