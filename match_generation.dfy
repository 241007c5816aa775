/**
 * `generate_matches`: enumerate every 4-combination of the roster, score
 * each by the prior pairings of the two teams it would form, stable-sort
 * by score and pick greedily the candidates that share no player with a
 * match already picked, up to the number of courts.
 */
module MatchGeneration {
  import opened Teams
  import opened PairHistory
  import opened Combinations
  import opened StableSort

  // ---------------------------------------------------------------------
  // Candidates: `list(itertools.combinations(players, 4))`
  // ---------------------------------------------------------------------

  function GroupAt(players: seq<Player>, c: seq<nat>): Group
    requires IsCombination(c, 0, |players|, 4)
  {
    Group(players[c[0]], players[c[1]], players[c[2]], players[c[3]])
  }

  /** The 4-combinations of the roster in enumeration order; there are C(n, 4) of them. */
  function Candidates(players: seq<Player>): (r: seq<Group>)
    ensures |r| == Choose(|players|, 4)
  {
    var cs := IndexCombinations(0, |players|, 4);
    CombinationsCount(0, |players|, 4);
    seq(|cs|, i requires 0 <= i < |cs| => GroupAt(players, cs[i]))
  }

  /** Every candidate is four roster entries taken in roster order. */
  lemma CandidatesSound(players: seq<Player>, i: nat)
    requires i < |Candidates(players)|
    ensures exists a, b, c, d ::
      (0 <= a < b < c < d < |players| &&
       Candidates(players)[i] == Group(players[a], players[b], players[c], players[d]))
  {
    var cs := IndexCombinations(0, |players|, 4);
    var c := cs[i];
    assert IsCombination(c, 0, |players|, 4);
    assert Candidates(players)[i] == Group(players[c[0]], players[c[1]], players[c[2]], players[c[3]]);
  }

  /** Every four roster entries taken in roster order are a candidate. */
  lemma CandidatesComplete(players: seq<Player>, a: nat, b: nat, c: nat, d: nat)
    requires a < b < c < d < |players|
    ensures Group(players[a], players[b], players[c], players[d]) in Candidates(players)
  {
    var cs := IndexCombinations(0, |players|, 4);
    var combo := [a, b, c, d];
    assert IsCombination(combo, 0, |players|, 4);
    CombinationsComplete(0, |players|, 4, combo);
    var i :| 0 <= i < |cs| && cs[i] == combo;
    assert Candidates(players)[i] == Group(players[a], players[b], players[c], players[d]);
  }

  /** With distinct names, no candidate repeats and each has four different players. */
  lemma CandidatesDistinct(players: seq<Player>)
    requires Distinct(players)
    ensures forall i, j :: 0 <= i < j < |Candidates(players)| ==> Candidates(players)[i] != Candidates(players)[j]
    ensures forall i :: 0 <= i < |Candidates(players)| ==> Candidates(players)[i].AllDistinct()
  {
    var cs := IndexCombinations(0, |players|, 4);
    var r := Candidates(players);
    CombinationsDistinct(0, |players|, 4);
    forall i, j | 0 <= i < j < |r| ensures r[i] != r[j] {
      assert IsCombination(cs[i], 0, |players|, 4) && IsCombination(cs[j], 0, |players|, 4);
      assert cs[i] != cs[j];
      var t :| 0 <= t < 4 && cs[i][t] != cs[j][t];
      assert players[cs[i][t]] != players[cs[j][t]];
      assert r[i] == GroupAt(players, cs[i]) && r[j] == GroupAt(players, cs[j]);
    }
    forall i | 0 <= i < |r| ensures r[i].AllDistinct() {
      assert IsCombination(cs[i], 0, |players|, 4);
    }
  }

  /** The players of every candidate are on the roster. */
  lemma CandidatesFromRoster(players: seq<Player>)
    ensures forall i :: 0 <= i < |Candidates(players)| ==>
      Candidates(players)[i].Members() <= set p | p in players
  {
    var cs := IndexCombinations(0, |players|, 4);
    forall i | 0 <= i < |Candidates(players)|
      ensures Candidates(players)[i].Members() <= set p | p in players
    {
      assert IsCombination(cs[i], 0, |players|, 4);
    }
  }

  /** A roster of n entries names at most n players. */
  lemma {:induction false} RosterSetSize(players: seq<Player>)
    ensures |set p | p in players| <= |players|
  {
    if players != [] {
      RosterSetSize(players[1..]);
      assert (set p | p in players) == (set p | p in players[1..]) + {players[0]};
    }
  }

  // ---------------------------------------------------------------------
  // Scoring and ranking: `sorted(candidates, key=score)`
  // ---------------------------------------------------------------------

  /**
   * `score(group)`: prior pairings of the teams (p1, p2) and (p3, p4), that
   * is, the history counts of the two team keys of the match the group
   * would become, whichever way round each team is listed.
   */
  function Score(h: History, g: Group): (s: nat)
    ensures s == Count(h, g.ToMatch().team1.Key()) + Count(h, g.ToMatch().team2.Key())
    ensures s == PlayCount(h, g.p2, g.p1) + PlayCount(h, g.p4, g.p3)
  {
    PlayCount(h, g.p1, g.p2) + PlayCount(h, g.p3, g.p4)
  }

  /**
   * Recording the match a group of four different players becomes raises
   * that group's score by two, one for each of its teams, so a later batch
   * ranks the same split behind groups that did not just play.
   */
  lemma PlayedGroupScoresHigher(h: History, g: Group)
    requires g.AllDistinct()
    ensures Score(Recorded(h, [g.ToMatch()]), g) == Score(h, g) + 2
  {
  }

  function Scores(h: History, gs: seq<Group>): (r: seq<nat>)
    ensures |r| == |gs|
  {
    seq(|gs|, i requires 0 <= i < |gs| => Score(h, gs[i]))
  }

  /** The positions of the candidates in `sorted(candidates, key=score)` order. */
  function RankOrder(h: History, gs: seq<Group>): seq<nat> {
    StableOrder(Scores(h, gs))
  }

  /** `sorted(candidates, key=score)` */
  function Ranked(h: History, gs: seq<Group>): (r: seq<Group>)
    ensures |r| == |gs|
  {
    Pick(gs, RankOrder(h, gs))
  }

  /** The ranking lists the same candidates, each as often as they are enumerated. */
  lemma RankedIsPermutation(h: History, gs: seq<Group>)
    ensures forall t :: 0 <= t < |Ranked(h, gs)| ==> Ranked(h, gs)[t] in gs
    ensures forall i :: 0 <= i < |gs| ==> gs[i] in Ranked(h, gs)
    ensures (forall a, b :: 0 <= a < b < |gs| ==> gs[a] != gs[b]) ==>
      (forall a, b :: 0 <= a < b < |gs| ==> Ranked(h, gs)[a] != Ranked(h, gs)[b])
    ensures multiset(Ranked(h, gs)) == multiset(gs)
  {
    var keys := Scores(h, gs);
    SortedIsPermutation(gs, keys);
    var order := RankOrder(h, gs);
    var r := Ranked(h, gs);
    forall i | 0 <= i < |gs| ensures gs[i] in r {
      assert i in order;
      var t :| 0 <= t < |order| && order[t] == i;
      assert r[t] == gs[i];
    }
    OrderedDistinct(keys, order);
    if forall a, b :: 0 <= a < b < |gs| ==> gs[a] != gs[b] {
      forall a, b | 0 <= a < b < |gs| ensures r[a] != r[b] {
        assert r[a] == gs[order[a]] && r[b] == gs[order[b]];
        if order[a] < order[b] {
          assert gs[order[a]] != gs[order[b]];
        } else {
          assert gs[order[b]] != gs[order[a]];
        }
      }
    }
  }

  /**
   * Scores never decrease along the ranking, and candidates of equal score
   * keep their enumeration order (the sort is stable).
   */
  lemma RankedSorted(h: History, gs: seq<Group>)
    ensures |RankOrder(h, gs)| == |gs|
    ensures forall t :: 0 <= t < |gs| ==>
      RankOrder(h, gs)[t] < |gs| && Ranked(h, gs)[t] == gs[RankOrder(h, gs)[t]]
    ensures forall a, b :: 0 <= a < b < |gs| ==>
      Score(h, Ranked(h, gs)[a]) < Score(h, Ranked(h, gs)[b]) ||
      (Score(h, Ranked(h, gs)[a]) == Score(h, Ranked(h, gs)[b]) && RankOrder(h, gs)[a] < RankOrder(h, gs)[b])
  {
    var keys := Scores(h, gs);
    var order := RankOrder(h, gs);
    var r := Ranked(h, gs);
    forall a, b | 0 <= a < b < |gs|
      ensures Score(h, r[a]) < Score(h, r[b]) || (Score(h, r[a]) == Score(h, r[b]) && order[a] < order[b])
    {
      assert Precedes(keys, order[a], order[b]);
    }
  }

  /** `g` is a lowest-score candidate and every candidate before it scores more. */
  predicate IsEarliestMinimum(h: History, gs: seq<Group>, p: nat)
    requires p < |gs|
  {
    && (forall q :: 0 <= q < |gs| ==> Score(h, gs[p]) <= Score(h, gs[q]))
    && (forall q :: 0 <= q < p ==> Score(h, gs[q]) > Score(h, gs[p]))
  }

  /** Ties keep enumeration order: the first ranked candidate is the earliest of least score. */
  lemma RankedFirst(h: History, gs: seq<Group>)
    requires |gs| > 0
    ensures exists p :: 0 <= p < |gs| && Ranked(h, gs)[0] == gs[p] && IsEarliestMinimum(h, gs, p)
  {
    var keys := Scores(h, gs);
    var order := RankOrder(h, gs);
    StableOrderFirst(keys);
    var p := order[0];
    assert Ranked(h, gs)[0] == gs[p];
    assert IsEarliestMinimum(h, gs, p) by {
      forall q | 0 <= q < |gs| ensures Score(h, gs[p]) <= Score(h, gs[q]) {
        assert keys[p] <= keys[q];
      }
      forall q | 0 <= q < p ensures Score(h, gs[q]) > Score(h, gs[p]) {
        assert keys[q] > keys[p];
      }
    }
  }

  // ---------------------------------------------------------------------
  // Greedy selection: the loop of `generate_matches`
  // ---------------------------------------------------------------------

  /** The `used` set: every player of the matches `ms`. */
  function UsedBy(ms: seq<Match>): set<Player> {
    if ms == [] then {} else UsedBy(ms[..|ms| - 1]) + ms[|ms| - 1].Players()
  }

  /**
   * The matches chosen after the loop has visited the candidates `gs` in
   * order: a candidate is taken while fewer than `k` matches are chosen and
   * none of its players is used.
   */
  function Greedy(gs: seq<Group>, k: nat): (r: seq<Match>)
    ensures |r| <= |gs|
  {
    if gs == [] then []
    else
      var prev := Greedy(gs[..|gs| - 1], k);
      var g := gs[|gs| - 1];
      if |prev| < k && g.Members() !! UsedBy(prev) then prev + [g.ToMatch()] else prev
  }

  /** The loop body in one step: what a visited candidate does to the matches and to `used`. */
  lemma GreedyNext(gs: seq<Group>, k: nat, t: nat, ms: seq<Match>)
    requires t < |gs| && ms == Greedy(gs[..t], k) && |ms| < k
    ensures gs[t].Members() !! UsedBy(ms) ==>
      Greedy(gs[..t + 1], k) == ms + [gs[t].ToMatch()] &&
      UsedBy(ms + [gs[t].ToMatch()]) == UsedBy(ms) + gs[t].Members()
    ensures !(gs[t].Members() !! UsedBy(ms)) ==> Greedy(gs[..t + 1], k) == ms
  {
    GreedyStep(gs, k, t);
    UsedByAppend(ms, gs[t].ToMatch());
  }

  /** One iteration of the loop, visiting the candidate `gs[j]`. */
  lemma GreedyStep(gs: seq<Group>, k: nat, j: nat)
    requires j < |gs|
    ensures Greedy(gs[..j + 1], k) ==
      if |Greedy(gs[..j], k)| < k && gs[j].Members() !! UsedBy(Greedy(gs[..j], k))
      then Greedy(gs[..j], k) + [gs[j].ToMatch()]
      else Greedy(gs[..j], k)
  {
    assert gs[..j + 1][..j] == gs[..j];
  }

  predicate PairwiseDisjoint(ms: seq<Match>) {
    forall i, j :: 0 <= i < j < |ms| ==> ms[i].Players() !! ms[j].Players()
  }

  lemma UsedByAppend(ms: seq<Match>, m: Match)
    ensures UsedBy(ms + [m]) == UsedBy(ms) + m.Players()
  {
    assert (ms + [m])[..|ms|] == ms;
  }

  lemma {:induction false} UsedByContains(ms: seq<Match>)
    ensures forall i :: 0 <= i < |ms| ==> ms[i].Players() <= UsedBy(ms)
  {
    if ms != [] {
      var prev := ms[..|ms| - 1];
      UsedByContains(prev);
      assert forall i :: 0 <= i < |prev| ==> ms[i] == prev[i];
    }
  }

  /** At most `k` matches are chosen. */
  lemma {:induction false} GreedyAtMost(gs: seq<Group>, k: nat)
    ensures |Greedy(gs, k)| <= k
  {
    if gs != [] {
      GreedyAtMost(gs[..|gs| - 1], k);
    }
  }

  /** No player is in two chosen matches. */
  lemma {:induction false} GreedyDisjoint(gs: seq<Group>, k: nat)
    ensures PairwiseDisjoint(Greedy(gs, k))
  {
    if gs != [] {
      var prev := Greedy(gs[..|gs| - 1], k);
      GreedyDisjoint(gs[..|gs| - 1], k);
      UsedByContains(prev);
      var ms := Greedy(gs, k);
      if ms != prev {
        forall i, j | 0 <= i < j < |ms| ensures ms[i].Players() !! ms[j].Players() {
          if j < |prev| {
            assert ms[i] == prev[i] && ms[j] == prev[j];
          } else {
            assert ms[i] == prev[i];
          }
        }
      }
    }
  }

  /** Every chosen match is `((p1, p2), (p3, p4))` for a candidate `(p1, p2, p3, p4)`. */
  lemma {:induction false} GreedyFromCandidates(gs: seq<Group>, k: nat)
    ensures forall i :: 0 <= i < |Greedy(gs, k)| ==> Greedy(gs, k)[i].AsGroup() in gs
  {
    if gs != [] {
      var init := gs[..|gs| - 1];
      var prev := Greedy(init, k);
      GreedyFromCandidates(init, k);
      var ms := Greedy(gs, k);
      forall i | 0 <= i < |ms| ensures ms[i].AsGroup() in gs {
        if i < |prev| {
          assert ms[i] == prev[i];
          assert prev[i].AsGroup() in init;
        } else {
          assert ms[i] == gs[|gs| - 1].ToMatch();
        }
      }
    }
  }

  /** The matches chosen from the first `j` candidates begin the final choice. */
  lemma {:induction false} GreedyPrefix(gs: seq<Group>, k: nat, j: nat)
    requires j <= |gs|
    ensures Greedy(gs[..j], k) <= Greedy(gs, k)
    decreases |gs| - j
  {
    if j < |gs| {
      var init := gs[..|gs| - 1];
      assert init[..j] == gs[..j];
      GreedyPrefix(init, k, j);
    } else {
      assert gs[..j] == gs;
    }
  }

  /** Once `k` matches are chosen the loop stops: later candidates change nothing. */
  lemma {:induction false} GreedySaturated(gs: seq<Group>, k: nat, j: nat)
    requires j <= |gs| && |Greedy(gs[..j], k)| >= k
    ensures Greedy(gs, k) == Greedy(gs[..j], k)
    decreases |gs| - j
  {
    if j < |gs| {
      var init := gs[..|gs| - 1];
      assert init[..j] == gs[..j];
      GreedySaturated(init, k, j);
    } else {
      assert gs[..j] == gs;
    }
  }

  /** With no candidate listed twice, the last candidate's match is not among the earlier choices. */
  lemma LastNotChosenBefore(gs: seq<Group>, k: nat)
    requires |gs| > 0
    requires forall a, b :: 0 <= a < b < |gs| ==> gs[a] != gs[b]
    ensures gs[|gs| - 1].ToMatch() !in Greedy(gs[..|gs| - 1], k)
  {
    var init := gs[..|gs| - 1];
    var prev := Greedy(init, k);
    var g := gs[|gs| - 1];
    GreedyFromCandidates(init, k);
    assert g !in init by {
      forall a | 0 <= a < |init| ensures init[a] != g {
        assert init[a] == gs[a];
      }
    }
    forall i | 0 <= i < |prev| ensures prev[i] != g.ToMatch() {
      assert prev[i].AsGroup() in init;
      assert g.ToMatch().AsGroup() == g;
    }
  }

  /**
   * With no candidate listed twice, the `j`-th candidate is chosen exactly
   * when, on reaching it, fewer than `k` matches were chosen and none of
   * them uses any of its players.
   */
  lemma {:induction false} GreedyChoice(gs: seq<Group>, k: nat, j: nat)
    requires j < |gs|
    requires forall a, b :: 0 <= a < b < |gs| ==> gs[a] != gs[b]
    ensures gs[j].ToMatch() in Greedy(gs, k) <==>
      |Greedy(gs[..j], k)| < k && gs[j].Members() !! UsedBy(Greedy(gs[..j], k))
  {
    var init := gs[..|gs| - 1];
    if j == |gs| - 1 {
      assert gs[..j] == init;
      LastNotChosenBefore(gs, k);
    } else {
      assert init[..j] == gs[..j];
      assert forall a, b :: 0 <= a < b < |init| ==> init[a] != init[b];
      GreedyChoice(init, k, j);
      var last := gs[|gs| - 1];
      assert last != gs[j];
      assert last.ToMatch().AsGroup() == last && gs[j].ToMatch().AsGroup() == gs[j];
    }
  }

  /** With `k >= 1`, the first candidate is always the first match. */
  lemma GreedyFirst(gs: seq<Group>, k: nat)
    requires k >= 1 && |gs| >= 1
    ensures |Greedy(gs, k)| >= 1 && Greedy(gs, k)[0] == gs[0].ToMatch()
  {
    GreedyPrefix(gs, k, 1);
    assert gs[..1][..0] == [];
  }

  /**
   * With four different players in every candidate, the chosen matches use
   * four players each, all among the players of the candidates.
   */
  lemma {:induction false} GreedyPlayers(gs: seq<Group>, k: nat, pool: set<Player>)
    requires forall i :: 0 <= i < |gs| ==> gs[i].AllDistinct() && gs[i].Members() <= pool
    ensures UsedBy(Greedy(gs, k)) <= pool
    ensures |UsedBy(Greedy(gs, k))| == 4 * |Greedy(gs, k)|
  {
    if gs != [] {
      var init := gs[..|gs| - 1];
      var prev := Greedy(init, k);
      var g := gs[|gs| - 1];
      assert forall i :: 0 <= i < |init| ==> init[i] == gs[i];
      GreedyPlayers(init, k, pool);
      if |prev| < k && g.Members() !! UsedBy(prev) {
        var used := UsedBy(prev);
        UsedByAppend(prev, g.ToMatch());
        assert g.ToMatch().Players() == g.Members();
        MembersSize(g);
        assert |used + g.Members()| == |used| + |g.Members()|;
      }
    }
  }

  lemma MembersSize(g: Group)
    requires g.AllDistinct()
    ensures |g.Members()| == 4
  {
    assert g.Members() == {g.p1} + {g.p2} + {g.p3} + {g.p4};
  }

  lemma {:induction false} SubsetSize<T>(a: set<T>, b: set<T>)
    requires a <= b
    ensures |a| <= |b|
    decreases |b|
  {
    if a != {} {
      var x :| x in a;
      SubsetSize(a - {x}, b - {x});
    }
  }

  // ---------------------------------------------------------------------
  // generate_matches(players, court_count)
  // ---------------------------------------------------------------------

  /** The matches `generate_matches(players, court_count)` returns against history `h`. */
  function Generated(players: seq<Player>, courtCount: nat, h: History): (r: seq<Match>)
    ensures |r| <= Choose(|players|, 4)
  {
    Greedy(Ranked(h, Candidates(players)), courtCount)
  }

  /** Fewer than four players give no candidate, hence no match. */
  lemma FewerThanFourPlayers(players: seq<Player>, courtCount: nat, h: History)
    requires |players| < 4
    ensures Generated(players, courtCount, h) == []
  {
    ChooseZero(|players|, 4);
  }

  /**
   * With a court and four players, the first match is formed from the
   * earliest-enumerated candidate of least score.
   */
  lemma GeneratedFirstMatch(players: seq<Player>, courtCount: nat, h: History)
    requires courtCount >= 1 && |players| >= 4
    ensures |Generated(players, courtCount, h)| >= 1
    ensures exists p ::
      (0 <= p < |Candidates(players)| &&
       Generated(players, courtCount, h)[0] == Candidates(players)[p].ToMatch() &&
       IsEarliestMinimum(h, Candidates(players), p))
  {
    var cands := Candidates(players);
    CandidatesComplete(players, 0, 1, 2, 3);
    RankedFirst(h, cands);
    GreedyFirst(Ranked(h, cands), courtCount);
  }

  /** Each match has four different players when the roster names are distinct. */
  lemma GeneratedDistinctPlayers(players: seq<Player>, courtCount: nat, h: History)
    requires Distinct(players)
    ensures forall i :: 0 <= i < |Generated(players, courtCount, h)| ==>
      Generated(players, courtCount, h)[i].AsGroup().AllDistinct()
  {
    var ranked := Ranked(h, Candidates(players));
    CandidatesDistinct(players);
    GreedyFromCandidates(ranked, courtCount);
  }

  /** At most one match per four roster players: 4 * |matches| <= |players|. */
  lemma GeneratedAtMostQuarter(players: seq<Player>, courtCount: nat, h: History)
    requires Distinct(players)
    ensures 4 * |Generated(players, courtCount, h)| <= |players|
  {
    var cands := Candidates(players);
    var ranked := Ranked(h, cands);
    var pool := set p | p in players;
    CandidatesDistinct(players);
    CandidatesFromRoster(players);
    GreedyPlayers(ranked, courtCount, pool);
    RosterSetSize(players);
    SubsetSize(UsedBy(Greedy(ranked, courtCount)), pool);
  }

  /**
   * Greedy maximality on the ranked candidates: the `j`-th is chosen exactly
   * when fewer than `court_count` matches precede it and it shares no
   * player with them.
   */
  lemma GeneratedChoice(players: seq<Player>, courtCount: nat, h: History, j: nat)
    requires Distinct(players)
    requires j < |Ranked(h, Candidates(players))|
    ensures Ranked(h, Candidates(players))[j].ToMatch() in Generated(players, courtCount, h) <==>
      |Greedy(Ranked(h, Candidates(players))[..j], courtCount)| < courtCount &&
      Ranked(h, Candidates(players))[j].Members() !! UsedBy(Greedy(Ranked(h, Candidates(players))[..j], courtCount))
  {
    var cands := Candidates(players);
    var ranked := Ranked(h, cands);
    CandidatesDistinct(players);
    RankedIsPermutation(h, cands);
    GreedyChoice(ranked, courtCount, j);
  }

  /** At most `court_count` player-disjoint matches, each from a candidate; none without four players. */
  lemma GeneratedShape(players: seq<Player>, courtCount: nat, h: History)
    ensures |Generated(players, courtCount, h)| <= courtCount
    ensures PairwiseDisjoint(Generated(players, courtCount, h))
    ensures forall i :: 0 <= i < |Generated(players, courtCount, h)| ==>
      Generated(players, courtCount, h)[i].AsGroup() in Candidates(players)
    ensures |players| < 4 ==> Generated(players, courtCount, h) == []
  {
    var cands := Candidates(players);
    var ranked := Ranked(h, cands);
    GreedyAtMost(ranked, courtCount);
    GreedyDisjoint(ranked, courtCount);
    GreedyFromCandidates(ranked, courtCount);
    RankedIsPermutation(h, cands);
    if |players| < 4 {
      FewerThanFourPlayers(players, courtCount, h);
    }
  }

  /**
   * The loop of `generate_matches` over the ranked candidates: skips any
   * candidate that shares a player with a chosen match, and stops once
   * `court_count` matches are chosen.
   */
  method SelectDisjoint(ranked: seq<Group>, courtCount: nat) returns (matches: seq<Match>)
    ensures matches == Greedy(ranked, courtCount)
    ensures |matches| <= courtCount
    ensures PairwiseDisjoint(matches)
    ensures forall i :: 0 <= i < |matches| ==> matches[i].AsGroup() in ranked
  {
    var used: set<Player> := {};
    matches := [];
    var t := 0;
    while t < |ranked|
      invariant t <= |ranked|
      invariant matches == Greedy(ranked[..t], courtCount)
      invariant used == UsedBy(matches)
    {
      var g := ranked[t];
      if |matches| >= courtCount {
        break;
      }
      GreedyNext(ranked, courtCount, t, matches);
      if g.Members() !! used {
        matches := matches + [g.ToMatch()];
        used := used + g.Members();
      }
      t := t + 1;
    }
    if t < |ranked| {
      GreedySaturated(ranked, courtCount, t);
    } else {
      assert ranked[..t] == ranked;
    }
    GreedyAtMost(ranked, courtCount);
    GreedyDisjoint(ranked, courtCount);
    GreedyFromCandidates(ranked, courtCount);
  }

  /**
   * `generate_matches`: enumerate the candidates, rank them by score and
   * select player-disjoint matches from the ranking.
   */
  method GenerateMatches(players: seq<Player>, courtCount: nat, h: History) returns (matches: seq<Match>)
    ensures matches == Generated(players, courtCount, h)
    ensures |matches| <= courtCount
    ensures PairwiseDisjoint(matches)
    ensures forall i :: 0 <= i < |matches| ==> matches[i].AsGroup() in Candidates(players)
    ensures |players| < 4 ==> matches == []
  {
    var candidates := Candidates(players);
    var ranked := Ranked(h, candidates);
    matches := SelectDisjoint(ranked, courtCount);
    GeneratedShape(players, courtCount, h);
  }
}
