/**
 * The specification of Python's `sorted(xs, key=f)` on a sequence whose
 * keys are `keys`: a stable sort, modelled as insertion sort on positions.
 * Only its result is modelled, not the algorithm Python runs.
 */
module StableSort {

  /** Position `x` comes before position `y`: a smaller key, or an equal key and an earlier position. */
  predicate Precedes(keys: seq<nat>, x: nat, y: nat)
    requires x < |keys| && y < |keys|
  {
    keys[x] < keys[y] || (keys[x] == keys[y] && x < y)
  }

  predicate InBounds(keys: seq<nat>, s: seq<nat>) {
    forall i :: 0 <= i < |s| ==> s[i] < |keys|
  }

  /** `s` lists positions by ascending key, ties by ascending position. */
  predicate Ordered(keys: seq<nat>, s: seq<nat>) {
    && InBounds(keys, s)
    && forall a, b :: 0 <= a < b < |s| ==> Precedes(keys, s[a], s[b])
  }

  predicate Increasing(s: seq<nat>) {
    forall a, b :: 0 <= a < b < |s| ==> s[a] < s[b]
  }

  /** Putting in front a position that precedes all of an ordered sequence keeps it ordered. */
  lemma OrderedCons(keys: seq<nat>, x: nat, s: seq<nat>)
    requires x < |keys| && Ordered(keys, s)
    requires forall i :: 0 <= i < |s| ==> Precedes(keys, x, s[i])
    ensures Ordered(keys, [x] + s)
  {
    var r := [x] + s;
    forall a, b | 0 <= a < b < |r| ensures Precedes(keys, r[a], r[b]) {
      assert r[b] == s[b - 1];
      if a > 0 {
        assert r[a] == s[a - 1];
      }
    }
  }

  /** `p` goes in front when its key is not larger than that of the first position. */
  lemma InsertInFront(keys: seq<nat>, p: nat, s: seq<nat>)
    requires p < |keys| && Ordered(keys, s) && s != [] && keys[p] <= keys[s[0]]
    requires forall i :: 0 <= i < |s| ==> p < s[i]
    ensures Ordered(keys, [p] + s)
  {
    forall i | 0 <= i < |s| ensures Precedes(keys, p, s[i]) {
      if i > 0 { assert Precedes(keys, s[0], s[i]); }
    }
    OrderedCons(keys, p, s);
  }

  /** `p` goes behind the first position when its key is larger. */
  lemma InsertBehind(keys: seq<nat>, p: nat, s: seq<nat>, rest: seq<nat>)
    requires p < |keys| && Ordered(keys, s) && s != [] && keys[p] > keys[s[0]]
    requires Ordered(keys, rest)
    requires forall i :: 0 <= i < |rest| ==> rest[i] == p || rest[i] in s[1..]
    ensures Ordered(keys, [s[0]] + rest)
  {
    forall i | 0 <= i < |rest| ensures Precedes(keys, s[0], rest[i]) {
      if rest[i] != p {
        var j :| 0 <= j < |s[1..]| && s[1..][j] == rest[i];
        assert Precedes(keys, s[0], s[j + 1]);
      }
    }
    OrderedCons(keys, s[0], rest);
  }

  /**
   * Inserts position `p`, which is earlier than every position of `s`, in
   * front of the first position whose key is not smaller than its own.
   */
  function Insert(keys: seq<nat>, p: nat, s: seq<nat>): (r: seq<nat>)
    requires p < |keys| && Ordered(keys, s)
    requires forall i :: 0 <= i < |s| ==> p < s[i]
    ensures multiset(r) == multiset(s) + multiset{p}
    ensures forall x :: x in r ==> x == p || x in s
    ensures Ordered(keys, r)
  {
    if s == [] then [p]
    else if keys[p] <= keys[s[0]] then
      InsertInFront(keys, p, s);
      [p] + s
    else
      var rest := Insert(keys, p, s[1..]);
      InsertBehind(keys, p, s, rest);
      assert s == [s[0]] + s[1..];
      [s[0]] + rest
  }

  /** Every position of a permutation of the tail of increasing `ps` is later than `ps[0]`. */
  lemma TailAfterHead(ps: seq<nat>, rest: seq<nat>)
    requires Increasing(ps) && |ps| > 0 && multiset(rest) == multiset(ps[1..])
    ensures forall i :: 0 <= i < |rest| ==> ps[0] < rest[i]
  {
    forall i | 0 <= i < |rest| ensures ps[0] < rest[i] {
      assert rest[i] in multiset(ps[1..]);
      var j :| 0 <= j < |ps| - 1 && ps[1..][j] == rest[i];
      assert ps[0] < ps[j + 1];
    }
  }

  /** The positions 0, 1, ..., n - 1 in ascending order. */
  function Positions(n: nat): (r: seq<nat>)
    ensures |r| == n
    ensures forall i :: 0 <= i < n ==> r[i] == i
  {
    seq(n, i => i)
  }

  /** Sorts the increasing positions `ps` stably by key. */
  function SortPositions(keys: seq<nat>, ps: seq<nat>): (r: seq<nat>)
    requires InBounds(keys, ps) && Increasing(ps)
    ensures multiset(r) == multiset(ps)
    ensures Ordered(keys, r)
  {
    if ps == [] then []
    else
      assert InBounds(keys, ps[1..]);
      assert Increasing(ps[1..]);
      var rest := SortPositions(keys, ps[1..]);
      TailAfterHead(ps, rest);
      assert ps == [ps[0]] + ps[1..];
      Insert(keys, ps[0], rest)
  }

  /**
   * `sorted(range(len(keys)), key=keys.__getitem__)`: every position exactly
   * once, by ascending key, equal keys in their original order.
   */
  function StableOrder(keys: seq<nat>): (r: seq<nat>)
    ensures |r| == |keys|
    ensures Ordered(keys, r)
    ensures forall p :: 0 <= p < |keys| ==> p in r
    ensures multiset(r) == multiset(Positions(|keys|))
  {
    var all := Positions(|keys|);
    var r := SortPositions(keys, all);
    assert |r| == |multiset(r)| == |multiset(all)| == |all|;
    assert forall p :: 0 <= p < |keys| ==> p in r by {
      forall p | 0 <= p < |keys| ensures p in r {
        assert all[p] == p;
        assert p in multiset(all);
      }
    }
    r
  }

  /** No position occurs twice in an ordered sequence. */
  lemma OrderedDistinct(keys: seq<nat>, s: seq<nat>)
    requires Ordered(keys, s)
    ensures forall a, b :: 0 <= a < b < |s| ==> s[a] != s[b]
  {
  }

  /**
   * The first position of the stable order has the least key, and no
   * earlier position has that key.
   */
  lemma StableOrderFirst(keys: seq<nat>)
    requires |keys| > 0
    ensures forall q :: 0 <= q < |keys| ==> keys[StableOrder(keys)[0]] <= keys[q]
    ensures forall q :: 0 <= q < StableOrder(keys)[0] ==> keys[q] > keys[StableOrder(keys)[0]]
  {
    var r := StableOrder(keys);
    forall q | 0 <= q < |keys|
      ensures keys[r[0]] <= keys[q]
      ensures q < r[0] ==> keys[q] > keys[r[0]]
    {
      assert q in r;
      var b :| 0 <= b < |r| && r[b] == q;
      if b > 0 {
        assert Precedes(keys, r[0], r[b]);
      }
    }
  }

  /** The elements of `xs` at the positions `ps`, in the order of `ps`. */
  function Pick<T>(xs: seq<T>, ps: seq<nat>): (r: seq<T>)
    requires forall i :: 0 <= i < |ps| ==> ps[i] < |xs|
    ensures |r| == |ps|
    ensures forall t :: 0 <= t < |ps| ==> r[t] == xs[ps[t]]
  {
    seq(|ps|, t requires 0 <= t < |ps| => xs[ps[t]])
  }

  lemma PickCons<T>(xs: seq<T>, p: nat, ps: seq<nat>)
    requires p < |xs| && forall i :: 0 <= i < |ps| ==> ps[i] < |xs|
    ensures forall i :: 0 <= i < |[p] + ps| ==> ([p] + ps)[i] < |xs|
    ensures multiset(Pick(xs, [p] + ps)) == multiset{xs[p]} + multiset(Pick(xs, ps))
  {
    assert Pick(xs, [p] + ps) == [xs[p]] + Pick(xs, ps);
  }

  /** Putting the first position of `s` in front of `rest` keeps the multiset relation one level up. */
  lemma PickBehind<T>(xs: seq<T>, p: nat, s: seq<nat>, rest: seq<nat>)
    requires p < |xs| && s != []
    requires forall i :: 0 <= i < |s| ==> s[i] < |xs|
    requires forall i :: 0 <= i < |rest| ==> rest[i] < |xs|
    requires multiset(Pick(xs, rest)) == multiset(Pick(xs, s[1..])) + multiset{xs[p]}
    ensures forall i :: 0 <= i < |[s[0]] + rest| ==> ([s[0]] + rest)[i] < |xs|
    ensures multiset(Pick(xs, [s[0]] + rest)) == multiset(Pick(xs, s)) + multiset{xs[p]}
  {
    PickCons(xs, s[0], rest);
    assert s == [s[0]] + s[1..];
    PickCons(xs, s[0], s[1..]);
  }

  /** Inserting position `p` adds the element at `p` to the picked elements. */
  lemma {:induction false} InsertPick<T>(xs: seq<T>, keys: seq<nat>, p: nat, s: seq<nat>)
    requires |keys| == |xs| && p < |keys| && Ordered(keys, s)
    requires forall i :: 0 <= i < |s| ==> p < s[i]
    ensures multiset(Pick(xs, Insert(keys, p, s))) == multiset(Pick(xs, s)) + multiset{xs[p]}
  {
    if s == [] {
    } else if keys[p] <= keys[s[0]] {
      PickCons(xs, p, s);
    } else {
      var rest := Insert(keys, p, s[1..]);
      InsertPick(xs, keys, p, s[1..]);
      PickBehind(xs, p, s, rest);
    }
  }

  /** Sorting the positions `ps` reorders the elements picked at them. */
  lemma {:induction false} SortPick<T>(xs: seq<T>, keys: seq<nat>, ps: seq<nat>)
    requires |keys| == |xs| && InBounds(keys, ps) && Increasing(ps)
    ensures multiset(Pick(xs, SortPositions(keys, ps))) == multiset(Pick(xs, ps))
  {
    if ps != [] {
      assert InBounds(keys, ps[1..]);
      assert Increasing(ps[1..]);
      var rest := SortPositions(keys, ps[1..]);
      SortPick(xs, keys, ps[1..]);
      TailAfterHead(ps, rest);
      InsertPick(xs, keys, ps[0], rest);
      PickCons(xs, ps[0], ps[1..]);
      assert ps == [ps[0]] + ps[1..];
    }
  }

  /**
   * `sorted(xs, key=...)` with `keys[i]` the key of `xs[i]` holds every
   * element of `xs` exactly as often as `xs` does.
   */
  lemma SortedIsPermutation<T>(xs: seq<T>, keys: seq<nat>)
    requires |keys| == |xs|
    ensures multiset(Pick(xs, StableOrder(keys))) == multiset(xs)
  {
    var all := Positions(|xs|);
    SortPick(xs, keys, all);
    assert Pick(xs, all) == xs;
  }
}
