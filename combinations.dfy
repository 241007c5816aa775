/**
 * `itertools.combinations` on positions: the k-element index sequences
 * lo <= c[0] < ... < c[k-1] < n, emitted in lexicographic order.
 */
module Combinations {

  /** `c` is a strictly increasing sequence of `k` positions in [lo, n). */
  predicate IsCombination(c: seq<nat>, lo: nat, n: nat, k: nat) {
    && |c| == k
    && (forall i :: 0 <= i < |c| ==> lo <= c[i] < n)
    && (forall i, j :: 0 <= i < j < |c| ==> c[i] < c[j])
  }

  function Prepend(x: nat, cs: seq<seq<nat>>): seq<seq<nat>> {
    seq(|cs|, i requires 0 <= i < |cs| => [x] + cs[i])
  }

  /**
   * All k-combinations of the positions lo..n-1: first every one that
   * starts with lo, then every one that does not.
   */
  function IndexCombinations(lo: nat, n: nat, k: nat): (r: seq<seq<nat>>)
    ensures forall i :: 0 <= i < |r| ==> IsCombination(r[i], lo, n, k)
    decreases n - lo, k
  {
    if k == 0 then [[]]
    else if lo >= n then []
    else
      var with := IndexCombinations(lo + 1, n, k - 1);
      var without := IndexCombinations(lo + 1, n, k);
      var r := Prepend(lo, with) + without;
      assert forall i :: 0 <= i < |with| ==> IsCombination(r[i], lo, n, k) by {
        forall i | 0 <= i < |with| ensures IsCombination(r[i], lo, n, k) {
          assert r[i] == [lo] + with[i];
        }
      }
      r
  }

  /** A combination that starts with `lo` continues with a combination of the rest. */
  lemma TailIsCombination(c: seq<nat>, lo: nat, n: nat, k: nat)
    requires IsCombination(c, lo, n, k) && k > 0 && c[0] == lo
    ensures IsCombination(c[1..], lo + 1, n, k - 1)
  {
    forall i | 0 <= i < k - 1 ensures lo + 1 <= c[1..][i] {
      assert c[0] < c[i + 1];
    }
  }

  /** A combination that does not start with `lo` avoids `lo` altogether. */
  lemma SkipsLow(c: seq<nat>, lo: nat, n: nat, k: nat)
    requires IsCombination(c, lo, n, k) && k > 0 && c[0] != lo
    ensures IsCombination(c, lo + 1, n, k)
  {
    forall i | 0 <= i < k ensures lo + 1 <= c[i] {
      if i > 0 { assert c[0] < c[i]; }
    }
  }

  /** `lo` in front of a combination of the positions above it is enumerated. */
  lemma WithLow(lo: nat, n: nat, k: nat, t: seq<nat>)
    requires k > 0 && lo < n && t in IndexCombinations(lo + 1, n, k - 1)
    ensures [lo] + t in IndexCombinations(lo, n, k)
  {
    var with := IndexCombinations(lo + 1, n, k - 1);
    var i :| 0 <= i < |with| && with[i] == t;
    assert Prepend(lo, with)[i] == [lo] + t;
  }

  /** A combination of the positions above `lo` is enumerated. */
  lemma WithoutLow(lo: nat, n: nat, k: nat, c: seq<nat>)
    requires k > 0 && lo < n && c in IndexCombinations(lo + 1, n, k)
    ensures c in IndexCombinations(lo, n, k)
  {
  }

  /** Every k-combination of lo..n-1 is enumerated. */
  lemma {:induction false} CombinationsComplete(lo: nat, n: nat, k: nat, c: seq<nat>)
    requires IsCombination(c, lo, n, k)
    ensures c in IndexCombinations(lo, n, k)
    decreases n - lo, k
  {
    if k == 0 {
      assert c == [];
    } else {
      assert lo <= c[0] < n;
      if c[0] == lo {
        TailIsCombination(c, lo, n, k);
        CombinationsComplete(lo + 1, n, k - 1, c[1..]);
        WithLow(lo, n, k, c[1..]);
        assert c == [lo] + c[1..];
      } else {
        SkipsLow(c, lo, n, k);
        CombinationsComplete(lo + 1, n, k, c);
        WithoutLow(lo, n, k, c);
      }
    }
  }

  /** Strict lexicographic order on position sequences. */
  predicate LexLess(a: seq<nat>, b: seq<nat>) {
    |a| > 0 && |b| > 0 && (a[0] < b[0] || (a[0] == b[0] && LexLess(a[1..], b[1..])))
  }

  lemma {:induction false} LexLessIrreflexive(a: seq<nat>)
    ensures !LexLess(a, a)
  {
    if |a| > 0 {
      LexLessIrreflexive(a[1..]);
    }
  }

  /** The enumeration order is strictly increasing in lexicographic order. */
  lemma {:induction false} CombinationsLexOrdered(lo: nat, n: nat, k: nat)
    ensures forall a, b :: 0 <= a < b < |IndexCombinations(lo, n, k)| ==>
      LexLess(IndexCombinations(lo, n, k)[a], IndexCombinations(lo, n, k)[b])
    decreases n - lo, k
  {
    if k > 0 && lo < n {
      var r := IndexCombinations(lo, n, k);
      var with := IndexCombinations(lo + 1, n, k - 1);
      var without := IndexCombinations(lo + 1, n, k);
      assert r == Prepend(lo, with) + without;
      CombinationsLexOrdered(lo + 1, n, k - 1);
      CombinationsLexOrdered(lo + 1, n, k);
      forall a, b | 0 <= a < b < |r| ensures LexLess(r[a], r[b]) {
        if b < |with| {
          assert r[a] == [lo] + with[a] && r[b] == [lo] + with[b];
          assert r[a][1..] == with[a] && r[b][1..] == with[b];
          assert LexLess(with[a], with[b]);
        } else if a < |with| {
          assert r[a] == [lo] + with[a];
          assert r[b] == without[b - |with|];
          assert IsCombination(r[b], lo + 1, n, k);
        } else {
          assert r[a] == without[a - |with|] && r[b] == without[b - |with|];
          assert LexLess(without[a - |with|], without[b - |with|]);
        }
      }
    }
  }

  /** No combination is enumerated twice. */
  lemma CombinationsDistinct(lo: nat, n: nat, k: nat)
    ensures forall a, b :: 0 <= a < b < |IndexCombinations(lo, n, k)| ==>
      IndexCombinations(lo, n, k)[a] != IndexCombinations(lo, n, k)[b]
  {
    var r := IndexCombinations(lo, n, k);
    CombinationsLexOrdered(lo, n, k);
    forall a, b | 0 <= a < b < |r| ensures r[a] != r[b] {
      LexLessIrreflexive(r[a]);
    }
  }

  /** The binomial coefficient, by Pascal's rule. */
  function Choose(m: nat, k: nat): nat {
    if k == 0 then 1 else if m == 0 then 0 else Choose(m - 1, k - 1) + Choose(m - 1, k)
  }

  lemma {:induction false} ChooseZero(m: nat, k: nat)
    requires m < k
    ensures Choose(m, k) == 0
  {
    if m > 0 {
      ChooseZero(m - 1, k - 1);
      ChooseZero(m - 1, k);
    }
  }

  /** There are C(n - lo, k) combinations. */
  lemma {:induction false} CombinationsCount(lo: nat, n: nat, k: nat)
    requires lo <= n
    ensures |IndexCombinations(lo, n, k)| == Choose(n - lo, k)
    decreases n - lo, k
  {
    if k > 0 && lo < n {
      CombinationsCount(lo + 1, n, k - 1);
      CombinationsCount(lo + 1, n, k);
    }
  }
}
