/**
 * The four sort buttons: each copies the stored players and sorts the copy,
 * larger values first, by goals or MOTM awards (any numeric field, through
 * `sortByField`), or by the number of wins or losses in the streak.
 */
module Sorting {
  import opened Streak
  import opened Players
  import opened StableSort

  /** The numeric fields `sortByField` can be given. */
  datatype StatField = Goals | Motm | CleanSheets

  /** The four orders: a numeric field, or wins or losses counted from the streak. */
  datatype SortKey = ByField(field: StatField) | ByWins | ByLosses

  /**
   * The number the comparator compares: the chosen count field, or the
   * number of "W" or "L" tokens in the parsed streak.
   */
  function Key(k: SortKey, p: Player): (r: int)
    ensures k == ByField(Goals) ==> r == p.goals
    ensures k == ByField(Motm) ==> r == p.motm
    ensures k == ByField(CleanSheets) ==> r == p.cleanSheets
    ensures k == ByWins ==> r == multiset(ParseStreak(p.streak).streakArray)["W"]
    ensures k == ByLosses ==> r == multiset(ParseStreak(p.streak).streakArray)["L"]
    ensures k == ByWins || k == ByLosses ==> 0 <= r <= |ParseStreak(p.streak).streakArray|
  {
    match k
    case ByField(Goals) => p.goals
    case ByField(Motm) => p.motm
    case ByField(CleanSheets) => p.cleanSheets
    case ByWins => ParseStreak(p.streak).wins
    case ByLosses => ParseStreak(p.streak).losses
  }

  /** The comparator's key as a function on players. */
  function KeyOf(k: SortKey): (key: Player -> int)
    ensures forall p :: key(p) == Key(k, p)
  {
    p => Key(k, p)
  }

  /**
   * `[...playersData].sort(comparator)`: a sorted copy of the players. The
   * result holds the same players, larger keys first, equal keys in stored
   * order, and is the one list with those properties.
   */
  method SortedCopy(players: seq<Player>, k: SortKey) returns (sorted: seq<Player>)
    ensures sorted == SortDesc(players, KeyOf(k))
    ensures multiset(sorted) == multiset(players)
    ensures forall i, j :: 0 <= i < j < |sorted| ==> Key(k, sorted[i]) >= Key(k, sorted[j])
    ensures StableFor(sorted, players, KeyOf(k))
  {
    var a := new Player[|players|](i requires 0 <= i < |players| => players[i]);
    assert a[..] == players;
    SortInPlace(a, KeyOf(k));
    sorted := a[..];
    SortDescStable(players, KeyOf(k));
  }
}
