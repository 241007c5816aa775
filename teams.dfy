/** Players, teams, matches and the 4-player groups they are formed from. */
module Teams {

  /** A player is identified by the name typed on the roster. */
  type Player = string

  /** An unordered pair of players: the history key `frozenset([p1, p2])`. */
  type Pair = set<Player>

  /** Two players on the same side of the net. */
  datatype Team = Team(first: Player, second: Player) {
    /** The history key of this team. */
    function Key(): Pair {
      {first, second}
    }
  }

  /** A doubles match `((p1, p2), (p3, p4))`: team 1 against team 2. */
  datatype Match = Match(team1: Team, team2: Team) {
    function Players(): set<Player> {
      {team1.first, team1.second, team2.first, team2.second}
    }

    /** The four players in the order they were drawn from the roster. */
    function AsGroup(): Group {
      Group(team1.first, team1.second, team2.first, team2.second)
    }
  }

  /** A 4-combination `(p1, p2, p3, p4)` of the roster. */
  datatype Group = Group(p1: Player, p2: Player, p3: Player, p4: Player) {
    function Members(): set<Player> {
      {p1, p2, p3, p4}
    }

    predicate AllDistinct() {
      p1 != p2 && p1 != p3 && p1 != p4 && p2 != p3 && p2 != p4 && p3 != p4
    }

    /** The only split the scheduler considers: first two against last two. */
    function ToMatch(): Match {
      Match(Team(p1, p2), Team(p3, p4))
    }
  }

  /** No name occurs twice on the roster. */
  predicate Distinct(players: seq<Player>) {
    forall i, j :: 0 <= i < j < |players| ==> players[i] != players[j]
  }
}
