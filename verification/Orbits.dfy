/** Stepping from position to position until there is no next one. */
module Orbits {
  import opened Bits

  /** The next position, or None at the end. */
  type Step = nat -> Option<nat>

  /** Where n steps from x lead. */
  function After(f: Step, x: nat, n: nat): Option<nat> {
    if n == 0 then Some(x)
    else
      var y := After(f, x, n - 1);
      if y.Some? then f(y.value) else None
  }

  ghost predicate Endless(f: Step, x: nat) { forall n: nat :: After(f, x, n).Some? }

  /** Steps i and j stand at the same place. */
  ghost predicate Meets(f: Step, x: nat, i: nat, j: nat) {
    After(f, x, i).Some? && After(f, x, i) == After(f, x, j)
  }

  lemma {:induction false} AfterEarlier(f: Step, x: nat, i: nat, j: nat)
    requires i <= j && After(f, x, j).Some?
    ensures After(f, x, i).Some?
  {
    if i < j { AfterEarlier(f, x, i, j - 1); }
  }

  lemma {:induction false} MeetsLater(f: Step, x: nat, i: nat, j: nat, k: nat)
    requires Meets(f, x, i, j)
    ensures After(f, x, i + k) == After(f, x, j + k)
  {
    if k > 0 { MeetsLater(f, x, i, j, k - 1); }
  }

  /** A place met twice is met for ever. */
  lemma {:induction false} MeetsEndless(f: Step, x: nat, i: nat, j: nat, n: nat)
    requires i < j && Meets(f, x, i, j)
    ensures After(f, x, n).Some?
  {
    if n <= j {
      AfterEarlier(f, x, n, j);
    } else {
      MeetsEndless(f, x, i, j, n - (j - i));
      MeetsLater(f, x, i, j, n - j);
    }
  }

  /** m + 1 numbers below m are not all different. */
  lemma {:induction false} Pigeons(s: seq<nat>, m: nat) returns (i: nat, j: nat)
    requires |s| == m + 1 && forall k :: 0 <= k < |s| ==> s[k] < m
    ensures i < j < |s| && s[i] == s[j]
    decreases m
  {
    if k: nat :| k < m && s[k] == s[m] {
      i, j := k, m;
    } else {
      assert s[m] < m;
      var u := seq(m, k requires 0 <= k < m => Squeeze(s[k], s[m], m));
      forall k | 0 <= k < m
        ensures u[k] < m - 1
      {
        assert s[k] < m && s[k] != s[m] && s[m] < m;
      }
      i, j := Pigeons(u, m - 1);
      assert u[i] == Squeeze(s[i], s[m], m) && u[j] == Squeeze(s[j], s[m], m);
      assert s[i] != s[m] && s[j] != s[m];
    }
  }

  /** The numbers below m without last, closed up. */
  function Squeeze(v: nat, last: nat, m: nat): nat { if v == m - 1 then last else v }

  /** From x on, f leads on only from the m places 0, b, 2b and so on. */
  ghost predicate Few(f: Step, x: nat, b: nat, m: nat)
    requires b > 0
  {
    forall n: nat :: After(f, x, n).Some? && f(After(f, x, n).value).Some? ==>
      After(f, x, n).value % b == 0 && After(f, x, n).value / b < m
  }

  function Slot(f: Step, x: nat, k: nat, b: nat): nat
    requires b > 0
  {
    match After(f, x, k) case Some(y) => y / b case None => 0
  }

  lemma ComesBack(f: Step, x: nat, b: nat, m: nat) returns (i: nat, j: nat)
    requires b > 0 && Few(f, x, b, m) && After(f, x, m + 1).Some?
    ensures i < j <= m && Meets(f, x, i, j)
  {
    var s := seq(m + 1, k requires 0 <= k < m + 1 => Slot(f, x, k, b));
    forall k | 0 <= k < m + 1
      ensures s[k] < m && After(f, x, k).Some? && After(f, x, k).value == b * s[k]
    {
      AfterEarlier(f, x, k + 1, m + 1);
      AfterEarlier(f, x, k, m + 1);
      assert f(After(f, x, k).value).Some?;
    }
    i, j := Pigeons(s, m);
  }

  /**
    Stepping over m places goes on for ever exactly when it comes back to a
    place within m steps, and so exactly when it has not ended after m + 1.
   */
  lemma EndlessIff(f: Step, x: nat, b: nat, m: nat)
    requires b > 0 && Few(f, x, b, m)
    ensures Endless(f, x) <==> exists i: nat, j: nat :: i < j <= m && Meets(f, x, i, j)
    ensures Endless(f, x) <==> After(f, x, m + 1).Some?
  {
    if After(f, x, m + 1).Some? { var i, j := ComesBack(f, x, b, m); }
    if i: nat, j: nat :| i < j <= m && Meets(f, x, i, j) {
      forall n: nat
        ensures After(f, x, n).Some?
      {
        MeetsEndless(f, x, i, j, n);
      }
    }
  }
}
