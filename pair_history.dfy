/**
 * The teammate history: how many times each unordered pair of players has
 * been on the same team. A pair that was never recorded counts 0, as the
 * `defaultdict(int)` of the session does.
 */
module PairHistory {
  import opened Teams

  type History = map<Pair, nat>

  /** The count stored for `key`, or 0 when it is absent (the `defaultdict(int)` default). */
  function Count(h: History, key: Pair): (c: nat)
    ensures key !in h ==> c == 0
    ensures key in h ==> c == h[key]
  {
    if key in h then h[key] else 0
  }

  /** `get_play_count(p1, p2)`: symmetric in its arguments, 0 for a pair never recorded. */
  function PlayCount(h: History, p1: Player, p2: Player): (c: nat)
    ensures c == Count(h, {p2, p1})
    ensures {p1, p2} !in h ==> c == 0
  {
    assert {p1, p2} == {p2, p1};
    Count(h, {p1, p2})
  }

  /** `history[key] += 1`: one more for `key`, every other count as it was. */
  function Increment(h: History, key: Pair): (r: History)
    ensures Count(r, key) == Count(h, key) + 1
    ensures forall other {:trigger Count(r, other)} :: other != key ==> Count(r, other) == Count(h, other)
  {
    h[key := Count(h, key) + 1]
  }

  /** How many of the two teams of `m` have the pair `key`. */
  function TeamHits(m: Match, key: Pair): nat {
    (if m.team1.Key() == key then 1 else 0) + (if m.team2.Key() == key then 1 else 0)
  }

  /** How many teams of the matches `ms` have the pair `key`. */
  function Occurrences(ms: seq<Match>, key: Pair): nat {
    if ms == [] then 0 else Occurrences(ms[..|ms| - 1], key) + TeamHits(ms[|ms| - 1], key)
  }

  lemma {:induction false} OccurrencesAppend(a: seq<Match>, b: seq<Match>, key: Pair)
    ensures Occurrences(a + b, key) == Occurrences(a, key) + Occurrences(b, key)
  {
    if b == [] {
      assert a + b == a;
    } else {
      assert (a + b)[..|a + b| - 1] == a + b[..|b| - 1];
      assert (a + b)[|a + b| - 1] == b[|b| - 1];
      OccurrencesAppend(a, b[..|b| - 1], key);
    }
  }

  /**
   * The history after the recording loop has run over `ms`: each match
   * adds one to the pair of its first team, then one to the pair of its
   * second team. Every pair gains exactly its number of team occurrences.
   */
  function Recorded(h: History, ms: seq<Match>): (r: History)
    ensures forall key {:trigger Count(r, key)} :: Count(r, key) == Count(h, key) + Occurrences(ms, key)
  {
    if ms == [] then h
    else
      var m := ms[|ms| - 1];
      Increment(Increment(Recorded(h, ms[..|ms| - 1]), m.team1.Key()), m.team2.Key())
  }

  /** Recording one more match applies its two increments to the history so far. */
  lemma RecordedStep(h: History, ms: seq<Match>, i: nat)
    requires i < |ms|
    ensures Recorded(h, ms[..i + 1]) ==
      Increment(Increment(Recorded(h, ms[..i]), ms[i].team1.Key()), ms[i].team2.Key())
  {
    assert ms[..i + 1][..i] == ms[..i];
  }

  /** A pair that is no team of the batch keeps its count. */
  lemma {:induction false} RecordedUntouched(h: History, ms: seq<Match>, key: Pair)
    requires forall i :: 0 <= i < |ms| ==> ms[i].team1.Key() != key && ms[i].team2.Key() != key
    ensures Occurrences(ms, key) == 0
    ensures Count(Recorded(h, ms), key) == Count(h, key)
  {
    if ms != [] {
      RecordedUntouched(h, ms[..|ms| - 1], key);
    }
  }
}
