# Asynchronous badminton doubles scheduler — verified model

The scheduler is a small web app. It takes a roster of player names and a number
of courts, and on each press of "start" it proposes a batch of doubles matches.
Each match is two teams of two. Players who have rarely partnered before are
preferred. The app keeps two pieces of session state:

- the history: how often each unordered pair of players has been teammates;
- the match log: the matches started so far.

The "reset" button clears both.

The model covers the scheduling core of `async_badminton_scheduler.py`:

- `Teams` (`teams.dfy`): players (names), the unordered pair used as a history
  key (`frozenset([p1, p2])`), teams, matches, and the four-player groups the
  matches are formed from.
- `PairHistory` (`pair_history.dfy`): the history as a map from pairs to counts.
  A missing pair counts 0, as with `defaultdict(int)`. It holds
  `get_play_count`, the `+= 1` update, and the history after a whole batch has
  been recorded (`Recorded`).
- `Combinations` (`combinations.dfy`): `itertools.combinations(players, 4)`,
  computed on positions. It is proved sound, complete, free of repeats and in
  lexicographic order, and its size is proved to be the binomial coefficient.
- `StableSort` (`stable_sort.dfy`): what Python's `sorted(..., key=score)`
  returns. Positions are ordered by ascending key, and equal keys keep their
  original order (stability).
- `MatchGeneration` (`match_generation.dfy`): `generate_matches`, in three steps:
  - the candidates (`Candidates`);
  - their score, the prior pairings of `(p1, p2)` plus those of `(p3, p4)`
    (`Score`);
  - the ranking (`Ranked`).

  The greedy loop is given as a specification function, `Greedy`: a candidate
  is taken when fewer than `court_count` matches are chosen so far and it shares
  no player with them. `Generated` composes the three steps. The method
  `SelectDisjoint` is the loop of the source, with its `break` and its `used`
  set, and is proved equal to `Greedy`. `GenerateMatches` builds the candidates
  and the ranking and runs that loop, and is proved equal to `Generated`.
- `Scheduler` (`session.dfy`): the session state as the class `Session`, with
  fields `history` and `matchLog`. It has:
  - the recording loop of the "start" handler (`Record`);
  - the whole handler (`StartMatches`);
  - the "reset" handler (`Reset`).

  Its invariant `Valid()` says every pair's count equals the number of teams
  in the log that consist of that pair.

The code has no court index and no busy players. Each press builds one batch
of up to `court_count` player-disjoint matches from the whole roster, and no
player is held back from one press to the next.

## Model

| member | source | states |
|---|---|---|
| PairHistory.Count | async_badminton_scheduler.py:23-29 | A pair present in the history reads its stored count. A missing pair counts 0, the `defaultdict(int)` default. |
| PairHistory.PlayCount | async_badminton_scheduler.py:28-29 | The count of a pair is symmetric in its two players, and it is 0 for a pair never recorded (the `defaultdict(int)` default). |
| PairHistory.Increment | async_badminton_scheduler.py:61-62 | `history[key] += 1` adds one to the count of `key` and leaves the count of every other pair unchanged. |
| PairHistory.Recorded | async_badminton_scheduler.py:58-63 | After a batch is recorded, every pair's count equals its old count plus the number of teams in the batch that consist of that pair. |
| PairHistory.OccurrencesAppend | async_badminton_scheduler.py:63 | A pair's team occurrences in an appended log are its occurrences in the old log plus those in the new matches. |
| PairHistory.RecordedUntouched | async_badminton_scheduler.py:58-62 | A pair that is no team of the batch keeps its count. |
| Combinations.IndexCombinations | async_badminton_scheduler.py:35 | Every enumerated item is a strictly increasing sequence of k positions in range. |
| Combinations.CombinationsComplete | async_badminton_scheduler.py:35 | Every strictly increasing k-sequence of positions in range is enumerated. |
| Combinations.CombinationsLexOrdered | async_badminton_scheduler.py:35 | The enumeration is in strictly increasing lexicographic order, as `itertools.combinations` emits it. |
| Combinations.CombinationsDistinct | async_badminton_scheduler.py:35 | No combination is enumerated twice. |
| Combinations.CombinationsCount | async_badminton_scheduler.py:35 | There are C(n, k) combinations. |
| StableSort.Insert | async_badminton_scheduler.py:44 | Inserting a position that is earlier than every listed one gives exactly the old positions plus the new one (as a multiset), still ordered by key with ties in position order. |
| StableSort.SortPositions | async_badminton_scheduler.py:44 | The result is a permutation of the input positions, ordered by ascending key with ties in ascending position. |
| StableSort.StableOrder | async_badminton_scheduler.py:44 | `sorted(range(n), key=...)` lists every position once, by ascending key, with equal keys in their original order. |
| StableSort.InsertPick | async_badminton_scheduler.py:44 | Inserting a position adds the element at that position to the multiset of elements the positions pick. |
| StableSort.SortedIsPermutation | async_badminton_scheduler.py:44 | `sorted` returns every element exactly as often as the input holds it. |
| StableSort.OrderedDistinct | async_badminton_scheduler.py:44 | An ordered sequence of positions has no repeats. |
| StableSort.StableOrderFirst | async_badminton_scheduler.py:44 | The first position of the sorted order has the least key, and every earlier position has a strictly larger key. |
| MatchGeneration.Candidates | async_badminton_scheduler.py:35 | There are C(n, 4) candidates for a roster of n entries. |
| MatchGeneration.CandidatesSound | async_badminton_scheduler.py:35 | Every candidate is `(players[a], players[b], players[c], players[d])` for some positions a < b < c < d. |
| MatchGeneration.CandidatesComplete | async_badminton_scheduler.py:35 | Every four roster entries taken in roster order form a candidate. |
| MatchGeneration.CandidatesDistinct | async_badminton_scheduler.py:35 | With distinct names, no candidate repeats and every candidate has four different players. |
| MatchGeneration.CandidatesFromRoster | async_badminton_scheduler.py:35 | Every candidate's players are on the roster. |
| MatchGeneration.Score | async_badminton_scheduler.py:38-42 | A group's score is the history count of the team key `(p1, p2)` plus that of `(p3, p4)`, the keys the recording loop later increments. The order within each team does not matter. |
| MatchGeneration.PlayedGroupScoresHigher | async_badminton_scheduler.py:38-42 | Recording the match of a group of four different players raises that group's score by exactly 2. |
| MatchGeneration.Scores | async_badminton_scheduler.py:38-42 | There is one score per candidate. |
| MatchGeneration.Ranked | async_badminton_scheduler.py:44 | The ranking has as many entries as there are candidates. |
| MatchGeneration.RankedIsPermutation | async_badminton_scheduler.py:44 | The ranking is a permutation of the candidates: the same multiset, every ranked item a candidate and every candidate ranked, and distinct candidates stay distinct. |
| MatchGeneration.RankedSorted | async_badminton_scheduler.py:38-44 | Ranked candidates have non-decreasing scores (team1 pair count plus team2 pair count), and equal scores keep enumeration order. |
| MatchGeneration.RankedFirst | async_badminton_scheduler.py:38-44 | The first ranked candidate is the earliest-enumerated candidate of least score. |
| MatchGeneration.Greedy | async_badminton_scheduler.py:44-50 | The loop over the ranked candidates yields at most one match per candidate visited. |
| MatchGeneration.UsedByContains | async_badminton_scheduler.py:50 | Every chosen match's players are in `used`. |
| MatchGeneration.GreedyAtMost | async_badminton_scheduler.py:46-47 | At most `court_count` matches are chosen. |
| MatchGeneration.GreedyDisjoint | async_badminton_scheduler.py:48-50 | No player is in two chosen matches. |
| MatchGeneration.GreedyFromCandidates | async_badminton_scheduler.py:44-49 | Every chosen match is formed from a candidate. |
| MatchGeneration.GreedyPrefix | async_badminton_scheduler.py:44-50 | The choice made after the first j candidates is a prefix of the final choice. |
| MatchGeneration.GreedySaturated | async_badminton_scheduler.py:46-47 | Once `court_count` matches are chosen, later candidates change nothing (the `break`). |
| MatchGeneration.GreedyChoice | async_badminton_scheduler.py:44-50 | The j-th candidate is chosen if and only if, on reaching it, fewer than `court_count` matches are chosen and none shares a player with it. |
| MatchGeneration.GreedyFirst | async_badminton_scheduler.py:44-50 | With at least one court, the first candidate becomes the first match. |
| MatchGeneration.GreedyPlayers | async_badminton_scheduler.py:48-50 | The used players come from the pool, and there are exactly four per chosen match. |
| MatchGeneration.Generated | async_badminton_scheduler.py:32-52 | `generate_matches` returns no more matches than there are 4-combinations of the roster, C(n, 4). |
| MatchGeneration.FewerThanFourPlayers | async_badminton_scheduler.py:35 | Fewer than four players give no match. |
| MatchGeneration.GeneratedFirstMatch | async_badminton_scheduler.py:32-52 | With a court and four players, there is a first match, and it is formed from the earliest-enumerated candidate of least score. |
| MatchGeneration.GeneratedDistinctPlayers | async_badminton_scheduler.py:32-52 | With distinct names, every match has four different players. |
| MatchGeneration.GeneratedAtMostQuarter | async_badminton_scheduler.py:32-52 | With distinct names, 4 times the number of matches is at most the roster size. |
| MatchGeneration.GeneratedChoice | async_badminton_scheduler.py:44-50 | With distinct names, a ranked candidate becomes a match if and only if a court is still free and none of its players is used. |
| MatchGeneration.GeneratedShape | async_badminton_scheduler.py:32-52 | There are at most `court_count` matches. They are player-disjoint and each is formed from a candidate. There are none when fewer than four players are listed. |
| MatchGeneration.SelectDisjoint | async_badminton_scheduler.py:44-52 | The loop with its `break` and `used` set returns exactly the greedy choice over the ranked candidates. It yields at most `court_count` player-disjoint matches, each formed from a ranked candidate. |
| MatchGeneration.GenerateMatches | async_badminton_scheduler.py:32-52 | Enumerating, ranking and selecting returns exactly `Generated`. That is at most `court_count` player-disjoint matches, each formed from a candidate, and none for fewer than four players. |
| Scheduler.RecordPreservesValid | async_badminton_scheduler.py:58-63 | If counts matched the log before a batch, they match the extended log after it. |
| Scheduler.Session.constructor | async_badminton_scheduler.py:22-25 | A new session has an empty history and an empty log, and they are consistent. |
| Scheduler.Session.Record | async_badminton_scheduler.py:58-63 | The history becomes `Recorded(old history, matches)` and the log becomes the old log followed by the matches. Counts stay equal to the team occurrences in the log. |
| Scheduler.Session.StartMatches | async_badminton_scheduler.py:55-63 | The batch generated against the current history is returned and recorded, and the state stays consistent. |
| Scheduler.Session.Reset | async_badminton_scheduler.py:71-73 | The history and the log are emptied, and every pair's count is 0. |

## Left out

- The Streamlit page, the text area, the number widget, the buttons and the match display are I/O, not modelled. The widget bound of 1..10 courts is not enforced: `courtCount` is any `nat`.
- The parsing of the roster text (line 18) is not modelled. The roster is given as a sequence of names.
- `random.shuffle(players)` (line 19) is not modelled, because the model has no randomness. Every property holds for any roster order, so it also holds for the shuffled one.
- `st.session_state` as a process-wide container is not modelled. The session is an explicit `Session` object.
- The match-history display (lines 66-68) only reads the log, so it is not modelled.
- Looking up a missing pair in a `defaultdict` inserts a key with count 0. The model's lookup does not insert the key. No count differs.
- Duplicate names are allowed everywhere. Four results require distinct names (`Distinct`):
  - `CandidatesDistinct` needs them because, with a repeated name, two candidates can be equal and one candidate can hold the same player twice.
  - `GeneratedDistinctPlayers` needs them for every match to have four different players.
  - `GeneratedChoice` needs them so that no candidate is enumerated twice.
  - `GeneratedAtMostQuarter` is proved through the four different players of each match. Its bound also holds with repeated names, but the model does not prove that case.
- The model specifies what `sorted` returns, a stable order by key, not the algorithm Python runs to compute it.
