/**
 * The streak parser: a player's results are stored as one comma-separated
 * string of "W" (win) and "L" (loss) tokens, oldest first. Parsing yields
 * the tokens, the latest one, the style tag the page gives the latest
 * result, and how many wins and losses the string records.
 */
module Streak {
  import opened Text

  const WinClass: string := "streak-win"
  const LossClass: string := "streak-loss"

  /** What `parseStreak` returns. */
  datatype StreakInfo = StreakInfo(
    streakArray: seq<string>,
    latest: string,
    latestClass: string,
    wins: nat,
    losses: nat)

  /** `tokens.filter(s => s === t).length` */
  function CountOf(tokens: seq<string>, t: string): (n: nat)
    ensures n == multiset(tokens)[t]
  {
    if tokens == [] then 0
    else
      assert tokens == [tokens[0]] + tokens[1..];
      (if tokens[0] == t then 1 else 0) + CountOf(tokens[1..], t)
  }

  /** Wins and losses never outnumber the tokens; they match exactly when every token is a W or an L. */
  lemma {:induction false} WinsLossesCover(tokens: seq<string>)
    ensures CountOf(tokens, "W") + CountOf(tokens, "L") <= |tokens|
    ensures CountOf(tokens, "W") + CountOf(tokens, "L") == |tokens| <==>
      forall i :: 0 <= i < |tokens| ==> tokens[i] == "W" || tokens[i] == "L"
  {
    if tokens != [] {
      WinsLossesCover(tokens[1..]);
      assert forall i :: 1 <= i < |tokens| ==> tokens[i] == tokens[1..][i - 1];
    }
  }

  /** `pieces.map(s => s.trim())` */
  function TrimEach(pieces: seq<string>): (r: seq<string>)
    ensures |r| == |pieces|
    ensures forall i {:trigger r[i]} :: 0 <= i < |r| ==> r[i] == Trim(pieces[i])
  {
    if pieces == [] then [] else [Trim(pieces[0])] + TrimEach(pieces[1..])
  }

  /**
   * Lines 6 to 11 of `parseStreak`: from the trimmed tokens, take the last
   * one as the latest result, count the "W" and "L" tokens, and tag the
   * latest result as a win exactly when it is "W".
   */
  function Summarise(streakArray: seq<string>): (r: StreakInfo)
    requires |streakArray| > 0
    ensures r.streakArray == streakArray
    ensures r.latest == streakArray[|streakArray| - 1]
    ensures r.wins == multiset(streakArray)["W"]
    ensures r.losses == multiset(streakArray)["L"]
    ensures r.wins + r.losses <= |streakArray|
    ensures r.wins + r.losses == |streakArray| <==>
      forall i :: 0 <= i < |streakArray| ==> streakArray[i] == "W" || streakArray[i] == "L"
    ensures r.latestClass == WinClass <==> r.latest == "W"
    ensures r.latestClass == LossClass <==> r.latest != "W"
  {
    var latest := streakArray[|streakArray| - 1];
    WinsLossesCover(streakArray);
    StreakInfo(
      streakArray,
      latest,
      if latest == "W" then WinClass else LossClass,
      CountOf(streakArray, "W"),
      CountOf(streakArray, "L"))
  }

  /**
   * `parseStreak(streakString)`: split on commas and trim each piece (line
   * 5), then summarise the tokens. There is always at least one token, so
   * the latest result is defined even for "".
   */
  function ParseStreak(streak: string): (r: StreakInfo)
    ensures |r.streakArray| == Occurrences(streak, ',') + 1
    ensures forall i {:trigger r.streakArray[i]} :: 0 <= i < |r.streakArray| ==>
      r.streakArray[i] == Trim(Split(streak, ',')[i])
    ensures r == Summarise(r.streakArray)
  {
    Summarise(TrimEach(Split(streak, ',')))
  }

  /** The badge text on a card: "Win" when the latest result is "W", otherwise "Loss". */
  function BadgeText(streak: string): (text: string)
    ensures text == "Win" || text == "Loss"
    ensures text == "Win" <==> ParseStreak(streak).latestClass == WinClass
  {
    if ParseStreak(streak).latest == "W" then "Win" else "Loss"
  }

  lemma {:induction false} TrimEachConcat(a: seq<string>, b: seq<string>)
    ensures TrimEach(a + b) == TrimEach(a) + TrimEach(b)
  {
    if a != [] {
      TrimEachConcat(a[1..], b);
      assert (a + b)[0] == a[0] && (a + b)[1..] == a[1..] + b;
      calc {
        TrimEach(a + b);
        [Trim(a[0])] + TrimEach(a[1..] + b);
        [Trim(a[0])] + (TrimEach(a[1..]) + TrimEach(b));
        ([Trim(a[0])] + TrimEach(a[1..])) + TrimEach(b);
      }
    }
  }

  /** The tokens of `older + "," + newer` are those of `older` followed by those of `newer`. */
  lemma TokensAppend(older: string, newer: string)
    ensures ParseStreak(older + [','] + newer).streakArray
      == ParseStreak(older).streakArray + ParseStreak(newer).streakArray
  {
    SplitConcat(older, ',', newer);
    TrimEachConcat(Split(older, ','), Split(newer, ','));
  }

  /** Summarising `older + newer`: the counts add up and the latest result is that of `newer`. */
  lemma SummariseAppend(older: seq<string>, newer: seq<string>)
    requires |older| > 0 && |newer| > 0
    ensures var whole := Summarise(older + newer);
      && whole.wins == Summarise(older).wins + Summarise(newer).wins
      && whole.losses == Summarise(older).losses + Summarise(newer).losses
      && whole.latest == Summarise(newer).latest
      && whole.latestClass == Summarise(newer).latestClass
  {
    assert multiset(older + newer) == multiset(older) + multiset(newer);
    assert (older + newer)[|older + newer| - 1] == newer[|newer| - 1];
  }

  /**
   * Recording further results: parsing `older + "," + newer` gives the
   * tokens of `older` followed by those of `newer`; the counts add up and the
   * latest result is the latest of `newer`.
   */
  lemma ParseStreakAppend(older: string, newer: string)
    ensures var whole := ParseStreak(older + [','] + newer);
      && whole.streakArray == ParseStreak(older).streakArray + ParseStreak(newer).streakArray
      && whole.wins == ParseStreak(older).wins + ParseStreak(newer).wins
      && whole.losses == ParseStreak(older).losses + ParseStreak(newer).losses
      && whole.latest == ParseStreak(newer).latest
      && whole.latestClass == ParseStreak(newer).latestClass
  {
    TokensAppend(older, newer);
    SummariseAppend(ParseStreak(older).streakArray, ParseStreak(newer).streakArray);
  }

  /** Without a comma the whole string, trimmed, is the one and latest token. */
  lemma SingleToken(streak: string)
    requires ',' !in streak
    ensures ParseStreak(streak).streakArray == [Trim(streak)]
    ensures ParseStreak(streak).latest == Trim(streak)
  {
    SplitNoSeparator(streak, ',');
  }

  /**
   * The latest result is the text after the last comma, trimmed; the page
   * shows a win exactly when that text is "W" once its whitespace is removed.
   */
  lemma LatestAfterLastComma(older: string, last: string)
    requires ',' !in last
    ensures ParseStreak(older + [','] + last).latest == Trim(last)
    ensures ParseStreak(older + [','] + last).latestClass == WinClass <==> Trim(last) == "W"
  {
    ParseStreakAppend(older, last);
    SingleToken(last);
  }

  /** The empty string is one empty token: no wins, no losses, styled as a loss. */
  lemma ParseEmpty()
    ensures ParseStreak("") == StreakInfo([""], "", LossClass, 0, 0)
  {
    assert Trim("") == "";
  }

  /**
   * A streak written by joining results with commas parses back to those
   * results, trimmed, whatever spaces surround them.
   */
  lemma ParseJoined(pieces: seq<string>)
    requires |pieces| > 0
    requires forall i :: 0 <= i < |pieces| ==> ',' !in pieces[i]
    ensures ParseStreak(Join(pieces, ',')).streakArray == TrimEach(pieces)
  {
    var s := Join(pieces, ',');
    SplitJoin(pieces, ',');
    assert ParseStreak(s) == Summarise(TrimEach(pieces));
  }

  /** The tokens of a streak such as "W, L, W": the three results, trimmed. */
  lemma WinLossWinTokens(first: string, second: string, third: string)
    requires ',' !in first && ',' !in second && ',' !in third
    requires Trim(first) == "W" && Trim(second) == "L" && Trim(third) == "W"
    ensures ParseStreak(Join([first, second, third], ',')).streakArray == ["W", "L", "W"]
  {
    var pieces := [first, second, third];
    ParseJoined(pieces);
    var tokens := TrimEach(pieces);
    assert tokens[0] == Trim(first) && tokens[1] == Trim(second) && tokens[2] == Trim(third);
  }

  /**
   * A streak such as "W, L, W": three results that trim to W, L and W give
   * two wins, one loss and a win as the latest result.
   */
  lemma WinLossWin(first: string, second: string, third: string)
    requires ',' !in first && ',' !in second && ',' !in third
    requires Trim(first) == "W" && Trim(second) == "L" && Trim(third) == "W"
    ensures var r := ParseStreak(Join([first, second, third], ','));
      && r.streakArray == ["W", "L", "W"]
      && r.wins == 2 && r.losses == 1
      && r.latest == "W" && r.latestClass == WinClass
  {
    WinLossWinTokens(first, second, third);
    var tokens: seq<string> := ["W", "L", "W"];
    assert multiset(tokens) == multiset{"W", "W", "L"};
  }
}
