/**
 * The page's state and its event handlers. The page keeps one list,
 * `playersData`, filled once when players.json has loaded. Every handler
 * computes the list to display from `playersData` and leaves it unchanged,
 * so a sort after a search shows all players again, not just the matches.
 * Each handler returns the list it would hand to `displayPlayers`.
 */
module Page {
  import opened Streak
  import opened Players
  import opened StableSort
  import opened Sorting

  class Board {
    /** The loaded players, in the order of players.json. */
    var playersData: seq<Player>

    /** Before loading, the list is empty. */
    constructor ()
      ensures playersData == []
    {
      playersData := [];
    }

    /** Loading players.json replaces the list with the loaded players. */
    method Load(players: seq<Player>)
      modifies this
      ensures playersData == players
    {
      playersData := players;
    }

    /**
     * The search box: exactly the stored players whose name contains the
     * query, ignoring case, in stored order.
     */
    method OnSearch(query: string) returns (shown: seq<Player>)
      ensures shown == Search(playersData, query)
      ensures forall p :: p in shown <==> p in playersData && Matches(p, query)
      ensures multiset(shown) <= multiset(playersData)
    {
      shown := Search(playersData, query);
      assert forall p :: p in shown <==> multiset(shown)[p] > 0;
    }

    /**
     * `sortByField(field)`: the stored players, most of `field` first,
     * ties in stored order.
     */
    method SortByField(field: StatField) returns (shown: seq<Player>)
      ensures multiset(shown) == multiset(playersData)
      ensures forall i, j :: 0 <= i < j < |shown| ==> Key(ByField(field), shown[i]) >= Key(ByField(field), shown[j])
      ensures StableFor(shown, playersData, KeyOf(ByField(field)))
    {
      shown := SortedCopy(playersData, ByField(field));
    }

    /** The "Sort by goals" button. */
    method OnSortGoals() returns (shown: seq<Player>)
      ensures multiset(shown) == multiset(playersData)
      ensures forall i, j :: 0 <= i < j < |shown| ==> shown[i].goals >= shown[j].goals
      ensures StableFor(shown, playersData, KeyOf(ByField(Goals)))
    {
      shown := SortByField(Goals);
    }

    /** The "Sort by MOTM" button. */
    method OnSortMotm() returns (shown: seq<Player>)
      ensures multiset(shown) == multiset(playersData)
      ensures forall i, j :: 0 <= i < j < |shown| ==> shown[i].motm >= shown[j].motm
      ensures StableFor(shown, playersData, KeyOf(ByField(Motm)))
    {
      shown := SortByField(Motm);
    }

    /** The "Sort by wins" button: most wins in the streak first, ties in stored order. */
    method OnSortWins() returns (shown: seq<Player>)
      ensures multiset(shown) == multiset(playersData)
      ensures forall i, j :: 0 <= i < j < |shown| ==>
        ParseStreak(shown[i].streak).wins >= ParseStreak(shown[j].streak).wins
      ensures StableFor(shown, playersData, KeyOf(ByWins))
    {
      shown := SortedCopy(playersData, ByWins);
      forall i, j | 0 <= i < j < |shown|
        ensures ParseStreak(shown[i].streak).wins >= ParseStreak(shown[j].streak).wins
      {
        assert Key(ByWins, shown[i]) >= Key(ByWins, shown[j]);
      }
    }

    /** The "Sort by losses" button: most losses in the streak first, ties in stored order. */
    method OnSortLosses() returns (shown: seq<Player>)
      ensures multiset(shown) == multiset(playersData)
      ensures forall i, j :: 0 <= i < j < |shown| ==>
        ParseStreak(shown[i].streak).losses >= ParseStreak(shown[j].streak).losses
      ensures StableFor(shown, playersData, KeyOf(ByLosses))
    {
      shown := SortedCopy(playersData, ByLosses);
      forall i, j | 0 <= i < j < |shown|
        ensures ParseStreak(shown[i].streak).losses >= ParseStreak(shown[j].streak).losses
      {
        assert Key(ByLosses, shown[i]) >= Key(ByLosses, shown[j]);
      }
    }
  }
}
