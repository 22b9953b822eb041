/** The bytewise order RocksDB keeps its keys in. */
module KeyOrder {

  type Key = string

  predicate Leq(a: Key, b: Key) {
    a == [] || (b != [] && (a[0] < b[0] || (a[0] == b[0] && Leq(a[1..], b[1..]))))
  }

  predicate Less(a: Key, b: Key) {
    Leq(a, b) && a != b
  }

  lemma {:induction false} Total(a: Key, b: Key)
    ensures Leq(a, b) || Leq(b, a)
    ensures Leq(a, b) && Leq(b, a) ==> a == b
    ensures Leq(a, a)
  {
    if a != [] {
      Total(a[1..], a[1..]);
      if b != [] && a[0] == b[0] {
        Total(a[1..], b[1..]);
        assert a == [a[0]] + a[1..] && b == [b[0]] + b[1..];
      }
    }
  }

  lemma {:induction false} Transitive(a: Key, b: Key, c: Key)
    requires Leq(a, b) && Leq(b, c)
    ensures Leq(a, c)
  {
    if a != [] && a[0] == b[0] && b[0] == c[0] {
      Transitive(a[1..], b[1..], c[1..]);
    }
  }

  lemma LessTransitive(a: Key, b: Key, c: Key)
    requires Leq(a, b) && Leq(b, c) && (a != b || b != c)
    ensures Less(a, c)
  {
    Transitive(a, b, c);
    Total(a, b);
  }

  lemma {:induction false} PrefixLeq(p: Key, x: Key)
    requires p <= x
    ensures Leq(p, x)
  {
    if p != [] {
      PrefixLeq(p[1..], x[1..]);
    }
  }

  /** Whatever lies between a prefix and a key that has it, has it too. */
  lemma {:induction false} Between(p: Key, y: Key, z: Key)
    requires p <= z && Leq(p, y) && Leq(y, z)
    ensures p <= y
  {
    if p != [] {
      assert p[0] == z[0];
      Between(p[1..], y[1..], z[1..]);
      assert p == [p[0]] + p[1..] && y == [y[0]] + y[1..];
    }
  }
}
