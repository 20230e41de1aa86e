/**
 * `itertools.combinations` over positions: every choice of `n` distinct
 * positions from `lo` up to (not including) `hi`, each listed in increasing
 * order, the choices themselves in lexicographic order.
 */
module Combinations {

  /** The positions are strictly increasing, so none is chosen twice. */
  predicate Increasing(c: seq<nat>)
  {
    forall i, j :: 0 <= i < j < |c| ==> c[i] < c[j]
  }

  /** Every position lies in `[lo, hi)`. */
  predicate Within(c: seq<nat>, lo: nat, hi: nat)
  {
    forall i :: 0 <= i < |c| ==> lo <= c[i] < hi
  }

  /** Puts `x` in front of each choice. */
  function Prepend(x: nat, cs: seq<seq<nat>>): (r: seq<seq<nat>>)
    ensures |r| == |cs|
    ensures forall k :: 0 <= k < |r| ==> r[k] == [x] + cs[k]
  {
    seq(|cs|, k requires 0 <= k < |cs| => [x] + cs[k])
  }

  /**
   * The choices that start with `lo` come first, followed by those that do
   * not use `lo`.
   */
  function Combs(lo: nat, hi: nat, n: nat): (r: seq<seq<nat>>)
    ensures lo <= hi < lo + n ==> |r| == 0
    decreases hi - lo
  {
    if n == 0 then [[]]
    else if lo >= hi then []
    else Prepend(lo, Combs(lo + 1, hi, n - 1)) + Combs(lo + 1, hi, n)
  }

  /** Every listed choice is an increasing sequence of `n` positions in `[lo, hi)`. */
  lemma {:induction false} CombsSound(lo: nat, hi: nat, n: nat, c: seq<nat>)
    requires c in Combs(lo, hi, n)
    ensures |c| == n && Increasing(c) && Within(c, lo, hi)
    decreases hi - lo, 1
  {
    if n > 0 && lo < hi {
      var t, first := CombsCases(lo, hi, n, c);
      if first {
        HeadSound(lo, hi, n, t);
      } else {
        CombsSound(lo + 1, hi, n, c);
      }
    }
  }

  /** A listed choice that starts with `lo` is `lo` before a listed shorter choice above it. */
  lemma {:induction false} HeadSound(lo: nat, hi: nat, n: nat, t: seq<nat>)
    requires 0 < n && lo < hi && t in Combs(lo + 1, hi, n - 1)
    ensures |[lo] + t| == n && Increasing([lo] + t) && Within([lo] + t, lo, hi)
    decreases hi - lo, 0
  {
    CombsSound(lo + 1, hi, n - 1, t);
    ConsSound(lo, hi, t);
  }

  /** A listed choice either starts with `lo` followed by a shorter choice, or skips `lo`. */
  lemma CombsCases(lo: nat, hi: nat, n: nat, c: seq<nat>) returns (t: seq<nat>, first: bool)
    requires 0 < n && lo < hi && c in Combs(lo, hi, n)
    ensures first ==> t in Combs(lo + 1, hi, n - 1) && c == [lo] + t
    ensures !first ==> c in Combs(lo + 1, hi, n)
  {
    var shorter := Combs(lo + 1, hi, n - 1);
    var heads := Prepend(lo, shorter);
    var rest := Combs(lo + 1, hi, n);
    assert Combs(lo, hi, n) == heads + rest;
    if c in heads {
      var k :| 0 <= k < |heads| && heads[k] == c;
      t, first := shorter[k], true;
    } else {
      t, first := [], false;
    }
  }

  lemma ConsSound(lo: nat, hi: nat, t: seq<nat>)
    requires lo < hi && Increasing(t) && Within(t, lo + 1, hi)
    ensures Increasing([lo] + t) && Within([lo] + t, lo, hi)
  {
    var c := [lo] + t;
    forall i, j | 0 <= i < j < |c|
      ensures c[i] < c[j]
    {
      assert c[j] == t[j - 1];
      if i > 0 {
        assert c[i] == t[i - 1];
      }
    }
    forall i | 0 <= i < |c|
      ensures lo <= c[i] < hi
    {
      if i > 0 {
        assert c[i] == t[i - 1];
      }
    }
  }

  /** Every increasing choice of `n` positions in `[lo, hi)` is listed. */
  lemma {:induction false} CombsComplete(lo: nat, hi: nat, n: nat, c: seq<nat>)
    requires |c| == n && Increasing(c) && Within(c, lo, hi)
    ensures c in Combs(lo, hi, n)
    decreases hi - lo
  {
    if n == 0 {
      assert c == [];
    } else {
      assert lo <= c[0] < hi;
      if c[0] == lo {
        var t := TailSound(lo, hi, c);
        CombsComplete(lo + 1, hi, n - 1, t);
        CombsHead(lo, hi, n, t);
      } else {
        SkipSound(lo, hi, c);
        CombsComplete(lo + 1, hi, n, c);
        CombsSkip(lo, hi, n, c);
      }
    }
  }

  /** The rest of an increasing choice that starts with `lo` is a choice in `[lo + 1, hi)`. */
  lemma TailSound(lo: nat, hi: nat, c: seq<nat>) returns (t: seq<nat>)
    requires |c| > 0 && c[0] == lo && Increasing(c) && Within(c, lo, hi)
    ensures c == [lo] + t && Increasing(t) && Within(t, lo + 1, hi)
  {
    t := c[1..];
    forall i | 0 <= i < |t|
      ensures lo + 1 <= t[i] < hi
    {
      assert t[i] == c[i + 1];
    }
    forall i, j | 0 <= i < j < |t|
      ensures t[i] < t[j]
    {
      assert t[i] == c[i + 1] && t[j] == c[j + 1];
    }
  }

  /** An increasing choice that does not start with `lo` lies in `[lo + 1, hi)`. */
  lemma SkipSound(lo: nat, hi: nat, c: seq<nat>)
    requires |c| > 0 && c[0] != lo && Increasing(c) && Within(c, lo, hi)
    ensures Within(c, lo + 1, hi)
  {
    forall i | 0 <= i < |c|
      ensures lo + 1 <= c[i] < hi
    {
      if i > 0 {
        assert c[0] < c[i];
      }
    }
  }

  /** `lo` followed by a listed shorter choice is listed. */
  lemma CombsHead(lo: nat, hi: nat, n: nat, t: seq<nat>)
    requires 0 < n && lo < hi && t in Combs(lo + 1, hi, n - 1)
    ensures [lo] + t in Combs(lo, hi, n)
  {
    var shorter := Combs(lo + 1, hi, n - 1);
    var heads := Prepend(lo, shorter);
    assert Combs(lo, hi, n) == heads + Combs(lo + 1, hi, n);
    var k :| 0 <= k < |shorter| && shorter[k] == t;
    assert heads[k] == [lo] + t;
  }

  /** A choice listed without `lo` is listed with it. */
  lemma CombsSkip(lo: nat, hi: nat, n: nat, c: seq<nat>)
    requires 0 < n && lo < hi && c in Combs(lo + 1, hi, n)
    ensures c in Combs(lo, hi, n)
  {
    assert Combs(lo, hi, n) == Prepend(lo, Combs(lo + 1, hi, n - 1)) + Combs(lo + 1, hi, n);
  }

  /** Python's `<` on tuples of positions: by the first difference, a proper prefix first. */
  predicate LexLt(a: seq<nat>, b: seq<nat>)
    decreases |a|
  {
    if a == [] then b != []
    else if b == [] then false
    else a[0] < b[0] || (a[0] == b[0] && LexLt(a[1..], b[1..]))
  }

  lemma {:induction false} LexLtIrreflexive(a: seq<nat>)
    ensures !LexLt(a, a)
    decreases |a|
  {
    if a != [] {
      LexLtIrreflexive(a[1..]);
    }
  }

  /** Putting the same position in front keeps the order. */
  lemma LexLtCons(x: nat, a: seq<nat>, b: seq<nat>)
    requires LexLt(a, b)
    ensures LexLt([x] + a, [x] + b)
  {
    assert ([x] + a)[1..] == a && ([x] + b)[1..] == b;
  }

  /**
   * `itertools.combinations` order: every listed choice comes before each
   * later one lexicographically, so in particular none is listed twice.
   */
  lemma {:induction false} CombsLexOrdered(lo: nat, hi: nat, n: nat)
    ensures forall i, j :: 0 <= i < j < |Combs(lo, hi, n)| ==> LexLt(Combs(lo, hi, n)[i], Combs(lo, hi, n)[j])
    decreases hi - lo
  {
    if n > 0 && lo < hi {
      var shorter := Combs(lo + 1, hi, n - 1);
      var heads := Prepend(lo, shorter);
      var rest := Combs(lo + 1, hi, n);
      var all := Combs(lo, hi, n);
      assert all == heads + rest;
      CombsLexOrdered(lo + 1, hi, n - 1);
      CombsLexOrdered(lo + 1, hi, n);
      forall i, j | 0 <= i < j < |all|
        ensures LexLt(all[i], all[j])
      {
        if j < |heads| {
          LexLtCons(lo, shorter[i], shorter[j]);
        } else if i < |heads| {
          var c := rest[j - |heads|];
          CombsSound(lo + 1, hi, n, c);
          assert all[i] == [lo] + shorter[i];
          assert all[j] == c && lo < c[0];
        } else {
          assert all[i] == rest[i - |heads|] && all[j] == rest[j - |heads|];
        }
      }
    }
  }

  /** No choice is listed twice. */
  lemma CombsDistinct(lo: nat, hi: nat, n: nat)
    ensures forall i, j :: 0 <= i < j < |Combs(lo, hi, n)| ==> Combs(lo, hi, n)[i] != Combs(lo, hi, n)[j]
  {
    CombsLexOrdered(lo, hi, n);
    forall i, j | 0 <= i < j < |Combs(lo, hi, n)|
      ensures Combs(lo, hi, n)[i] != Combs(lo, hi, n)[j]
    {
      LexLtIrreflexive(Combs(lo, hi, n)[i]);
    }
  }
}
