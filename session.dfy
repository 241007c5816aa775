/**
 * The per-session state of the scheduler: the teammate history and the
 * match log, with the "start" button handler that generates and records a
 * batch of matches and the "reset" button handler.
 */
module Scheduler {
  import opened Teams
  import opened PairHistory
  import opened MatchGeneration

  /** Recording a batch into a consistent history and log keeps them consistent. */
  lemma RecordPreservesValid(h: History, log: seq<Match>, ms: seq<Match>)
    requires forall key {:trigger Count(h, key)} :: Count(h, key) == Occurrences(log, key)
    ensures forall key {:trigger Count(Recorded(h, ms), key)} :: Count(Recorded(h, ms), key) == Occurrences(log + ms, key)
  {
    forall key ensures Count(Recorded(h, ms), key) == Occurrences(log + ms, key) {
      OccurrencesAppend(log, ms, key);
    }
  }

  lemma PrefixStep(ms: seq<Match>, i: nat)
    requires i < |ms|
    ensures ms[..i + 1] == ms[..i] + [ms[i]]
  {
  }

  class Session {
    var history: History
    var matchLog: seq<Match>

    /** Every pair has been teammates exactly as often as the log shows. */
    ghost predicate Valid()
      reads this
    {
      forall key {:trigger Count(history, key)} :: Count(history, key) == Occurrences(matchLog, key)
    }

    /** A new session: empty history, empty log. */
    constructor ()
      ensures Valid()
      ensures history == map[] && matchLog == []
    {
      history := map[];
      matchLog := [];
    }

    /**
     * The recording loop of the "start" handler: for each match, one more
     * for the pair of each team, then the match is appended to the log.
     */
    method Record(matches: seq<Match>)
      requires Valid()
      modifies this
      ensures Valid()
      ensures history == Recorded(old(history), matches)
      ensures matchLog == old(matchLog) + matches
    {
      var i := 0;
      while i < |matches|
        invariant i <= |matches|
        invariant history == Recorded(old(history), matches[..i])
        invariant matchLog == old(matchLog) + matches[..i]
      {
        var m := matches[i];
        RecordedStep(old(history), matches, i);
        PrefixStep(matches, i);
        history := Increment(history, m.team1.Key());
        history := Increment(history, m.team2.Key());
        matchLog := matchLog + [m];
        i := i + 1;
      }
      assert matches[..i] == matches;
      RecordPreservesValid(old(history), old(matchLog), matches);
    }

    /** The "start" button: generate a batch against the current history, then record it. */
    method StartMatches(players: seq<Player>, courtCount: nat) returns (matches: seq<Match>)
      requires Valid()
      modifies this
      ensures Valid()
      ensures matches == Generated(players, courtCount, old(history))
      ensures history == Recorded(old(history), matches)
      ensures matchLog == old(matchLog) + matches
    {
      matches := GenerateMatches(players, courtCount, history);
      Record(matches);
    }

    /** The "reset" button: every pair count back to 0, the log emptied. */
    method Reset()
      modifies this
      ensures Valid()
      ensures history == map[] && matchLog == []
      ensures forall p1, p2 :: PlayCount(history, p1, p2) == 0
    {
      history := map[];
      matchLog := [];
    }
  }
}
