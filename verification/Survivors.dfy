/** Which fragments survive a list of erasures, and how many. */
module Survivors {

  /** The fragments below `n` that are not erased, in increasing order. */
  function Surviving(errs: seq<nat>, n: nat): seq<nat> {
    if n == 0 then []
    else Surviving(errs, n - 1) + if n - 1 in errs then [] else [n - 1]
  }

  ghost predicate Increasing(s: seq<nat>) {
    forall i, j :: 0 <= i < j < |s| ==> s[i] < s[j]
  }

  /** The survivors are listed once each, in increasing order. */
  lemma {:induction false} SurvivingIsExact(errs: seq<nat>, n: nat)
    ensures Increasing(Surviving(errs, n))
    ensures forall r: nat :: r in Surviving(errs, n) <==> r < n && r !in errs
  {
    if n != 0 {
      SurvivingIsExact(errs, n - 1);
      var before := Surviving(errs, n - 1);
      assert forall i :: 0 <= i < |before| ==> before[i] in before;
    }
  }

  /** Each earlier list of survivors is the beginning of a later one. */
  lemma {:induction false} SurvivingPrefix(errs: seq<nat>, r: nat, n: nat)
    requires r <= n
    ensures Surviving(errs, r) <= Surviving(errs, n)
    decreases n
  {
    if r < n {
      SurvivingPrefix(errs, r, n - 1);
    }
  }

  ghost function Erased(errs: seq<nat>, n: nat): set<nat> {
    set e | e in errs && e < n
  }

  lemma {:induction false} ErasedCount(errs: seq<nat>, n: nat)
    ensures |Erased(errs, n)| <= |errs|
    decreases |errs|
  {
    if errs != [] {
      var last := |errs| - 1;
      ErasedCount(errs[..last], n);
      assert errs == errs[..last] + [errs[last]];
      assert Erased(errs, n) <= Erased(errs[..last], n) + {errs[last]};
      SubsetSize(Erased(errs, n), Erased(errs[..last], n) + {errs[last]});
    }
  }

  lemma {:induction false} SubsetSize(a: set<nat>, b: set<nat>)
    requires a <= b
    ensures |a| <= |b|
    decreases a
  {
    if a != {} {
      var x :| x in a;
      SubsetSize(a - {x}, b - {x});
    }
  }

  lemma {:induction false} SurvivorsPlusErased(errs: seq<nat>, n: nat)
    ensures |Surviving(errs, n)| + |Erased(errs, n)| == n
  {
    if n == 0 {
      assert Erased(errs, 0) == {};
    } else {
      SurvivorsPlusErased(errs, n - 1);
      if n - 1 in errs {
        assert Erased(errs, n) == Erased(errs, n - 1) + {n - 1};
      } else {
        assert Erased(errs, n) == Erased(errs, n - 1);
      }
    }
  }

  /** With at most `m - k` erasures, repeated or not, at least `k` fragments survive. */
  lemma EnoughSurvivors(errs: seq<nat>, k: nat, m: nat)
    requires k + |errs| <= m
    ensures |Surviving(errs, m)| >= k
  {
    SurvivorsPlusErased(errs, m);
    ErasedCount(errs, m);
  }
}
