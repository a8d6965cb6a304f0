/**
 * Player records and the search box: typing a query shows the players whose
 * name contains the query, ignoring case, in their stored order.
 */
module Players {
  import opened Seqs
  import opened Text

  /** One entry of players.json after loading; the three counts are already numbers. */
  datatype Player = Player(
    name: string,
    photo: string,
    goals: int,
    motm: int,
    cleanSheets: int,
    streak: string)

  /** `sub` can be obtained from `s` by deleting elements. */
  predicate IsSubsequence<T(==)>(sub: seq<T>, s: seq<T>)
    decreases |s|
  {
    sub == [] ||
    (s != [] && ((sub[0] == s[0] && IsSubsequence(sub[1..], s[1..])) || IsSubsequence(sub, s[1..])))
  }

  /**
   * The search predicate: the lowercased query occurs somewhere in the
   * lowercased name.
   */
  predicate Matches(p: Player, query: string): (m: bool)
    ensures m ==> exists i :: OccursAt(Lower(p.name), Lower(query), i)
    ensures (exists i :: OccursAt(Lower(p.name), Lower(query), i)) ==> m
  {
    ContainsIff(Lower(p.name), Lower(query));
    Contains(Lower(p.name), Lower(query))
  }

  /**
   * `playersData.filter(p => p.name.toLowerCase().includes(search))`: the
   * matching players, in their original order, each as often as it occurs
   * in the input, and nothing else.
   */
  function Search(players: seq<Player>, query: string): (r: seq<Player>)
    ensures forall i :: 0 <= i < |r| ==> Matches(r[i], query)
    ensures forall p :: multiset(r)[p] == if Matches(p, query) then multiset(players)[p] else 0
    ensures multiset(r) <= multiset(players)
    ensures IsSubsequence(r, players)
  {
    if players == [] then []
    else
      var rest := Search(players[1..], query);
      assert players == [players[0]] + players[1..];
      if Matches(players[0], query) then
        var r := [players[0]] + rest;
        assert r[1..] == rest;
        r
      else
        rest
  }

  /** An empty query matches every name, so the whole list is shown. */
  lemma {:induction false} SearchEmptyQuery(players: seq<Player>)
    ensures Search(players, "") == players
  {
    if players != [] {
      ContainsEmpty(Lower(players[0].name));
      SearchEmptyQuery(players[1..]);
      assert players == [players[0]] + players[1..];
    }
  }

  /** The query's case does not matter: searching with it lowercased gives the same result. */
  lemma {:induction false} SearchIgnoresQueryCase(players: seq<Player>, query: string)
    ensures Search(players, Lower(query)) == Search(players, query)
  {
    LowerIdempotent(query);
    if players != [] {
      SearchIgnoresQueryCase(players[1..], query);
    }
  }

  /** Searching the result of a search again with the same query changes nothing. */
  lemma {:induction false} SearchIdempotent(players: seq<Player>, query: string)
    ensures Search(Search(players, query), query) == Search(players, query)
  {
    if players != [] {
      SearchIdempotent(players[1..], query);
      var rest := Search(players[1..], query);
      if Matches(players[0], query) {
        assert ([players[0]] + rest)[1..] == rest;
      }
    }
  }

  /** Searching a concatenation searches each part. */
  lemma {:induction false} SearchConcat(a: seq<Player>, b: seq<Player>, query: string)
    ensures Search(a + b, query) == Search(a, query) + Search(b, query)
  {
    if a != [] {
      assert (a + b)[0] == a[0] && (a + b)[1..] == a[1..] + b;
      SearchConcat(a[1..], b, query);
      if Matches(a[0], query) {
        ConcatAssoc([a[0]], Search(a[1..], query), Search(b, query));
      }
    } else {
      assert a + b == b;
    }
  }
}
