# Mill Hill player stats — a Dafny model of the page logic

The page shows one card per football player, from a list loaded once out of
`players.json`. Each player has a name, a photo, three counts (goals, man of the
match awards, clean sheets) and a results streak. The streak is one string of
comma-separated `W` and `L` tokens, oldest first.

This project models three parts of the page:

- the streak parser `parseStreak`. It splits the streak on commas, trims each
  piece, takes the last token as the latest result, counts the `W` and `L`
  tokens, and styles the latest result as a win exactly when it is `W`.
- the search box. It shows the stored players whose lowercased name contains
  the lowercased query, in stored order.
- the sort buttons. Each sorts a copy of the stored players with a comparator
  that subtracts keys, larger key first. The key is goals or MOTM (through
  `sortByField`), or the number of wins or losses computed by `parseStreak`.
  `Array.prototype.sort` is stable, so players with equal keys keep their
  stored order.

Modules:

- `Seqs`: small lemmas that rearrange sequence concatenations and slices.
- `Text`: the string operations the page relies on:
  - `String.prototype.split` on one character, and its inverse `join`;
  - `trim`, with the ECMAScript white-space and line-terminator set;
  - `toLowerCase`;
  - `includes`.
- `Streak`: `parseStreak` and the badge text.
- `Players`: the player record and the search filter.
- `StableSort`: the sort, generic in the element type and the key.
  - `SortDesc`: the specification, a stable insertion sort on sequences.
  - `SortInPlace`: an in-place insertion sort on an array, proved to leave
    `SortDesc` of its old contents.
  - `StableSortUnique`: any stable sort with this comparator gives exactly
    `SortDesc`. So the choice of insertion sort stands in for the
    JavaScript engine's own stable sort.
- `Sorting`: the sort keys of the four buttons, and the sorted copy.
- `Page`: the class `Board`, holding the page's one piece of state,
  `playersData`, and its event handlers.
  - Each handler returns the list it passes to `displayPlayers`.
  - No handler changes `playersData`. A search filters the full stored list
    and a sort copies it, so sorting after a search shows every player again.
    The code never writes the filtered or sorted list back (script.js:73,
    79, 85, 92), and the model follows the code here.

## Model

| member | source | states |
|---|---|---|
| Text.TrimSpec | script.js:5 | `trim` removes exactly the leading and trailing white space: the result is a contiguous piece of the input with only white space around it, it neither starts nor ends with white space, and it is empty exactly when the input is all white space |
| Text.TrimSurrounded | script.js:5 | any text without surrounding white space is what `trim` returns after white space is added around it |
| Text.TrimIdempotent | script.js:5 | trimming twice is trimming once |
| Text.Trim | script.js:5 | definition: `trim` is `trimStart` followed by `trimEnd`, each dropping white-space characters from its end of the string one at a time; what it removes and keeps is stated by `Text.TrimSpec` |
| Text.Lower | script.js:72-73 | `toLowerCase` keeps the length and lowercases each ASCII letter `A`-`Z`, leaving every other character as it is |
| Text.LowerIdempotent | script.js:72-73 | lowercasing a lowercased string changes nothing |
| Text.ContainsIff | script.js:73 | `includes` holds exactly when the needle occurs at some index of the string, both directions |
| Text.Contains | script.js:73 | definition: `includes` holds when the needle is a prefix of the string or of one of its suffixes; `Text.ContainsIff` shows this is the positional substring test |
| Text.ContainsEmpty | script.js:73 | every string includes the empty string |
| Text.Split | script.js:5 | `split(",")` yields one more piece than there are commas, and no piece contains a comma |
| Text.JoinSplit | script.js:5 | joining the pieces of a split with the separator rebuilds the input |
| Text.SplitJoin | script.js:5 | splitting a join of comma-free pieces gives the pieces back |
| Text.SplitConcat | script.js:5 | splitting `a + "," + b` gives the pieces of `a` followed by those of `b` |
| Text.SplitNoSeparator | script.js:5 | text without a comma splits into itself alone |
| Streak.CountOf | script.js:7-8 | counting tokens equal to `t` gives the number of occurrences of `t` |
| Streak.WinsLossesCover | script.js:7-8 | wins plus losses never exceed the number of tokens, and equal it exactly when every token is `W` or `L` |
| Streak.TrimEach | script.js:5 | `map(s => s.trim())` keeps the length, and the piece at each index is the trimmed piece at the same index |
| Streak.Summarise | script.js:6-11 | the tokens are kept, the latest is the last token, wins and losses are the occurrences of `W` and `L`, and the class is `streak-win` exactly when the latest token is `W`, `streak-loss` otherwise |
| Streak.ParseStreak | script.js:4-12 | there is one token per comma plus one, token `i` is piece `i` of the comma split trimmed, and the rest of the result is the summary of those tokens |
| Streak.BadgeText | script.js:43-48 | the badge reads `Win` or `Loss`, and `Win` exactly when the latest result is styled as a win |
| Streak.TokensAppend | script.js:5 | the tokens of `older + "," + newer` are those of `older` followed by those of `newer` |
| Streak.SummariseAppend | script.js:6-9 | summarising two token lists one after the other adds their wins and their losses, and keeps the latest result and class of the second |
| Streak.ParseStreakAppend | script.js:4-12 | appending results after a comma appends their tokens, adds their wins and losses, and makes their latest result the latest |
| Streak.SingleToken | script.js:5-6 | a streak without a comma is one token, the trimmed string, which is also the latest result |
| Streak.LatestAfterLastComma | script.js:5-9 | the latest result is the trimmed text after the last comma, and it is styled as a win exactly when that text is `W` |
| Streak.ParseEmpty | script.js:4-12 | the empty streak is one empty token with no wins and no losses, styled as a loss |
| Streak.ParseJoined | script.js:5 | a streak written by joining comma-free results parses back to those results, trimmed |
| Streak.WinLossWinTokens | script.js:5 | three comma-separated results that trim to `W`, `L`, `W` give the tokens `W`, `L`, `W` |
| Streak.WinLossWin | script.js:4-12 | such a streak has two wins, one loss, latest result `W` and the win class |
| Players.Search | script.js:73 | the filter keeps exactly the matching players: each kept player matches, each matching player is kept as often as it is stored, nothing else is kept, and the stored order is preserved |
| Players.Matches | script.js:72-73 | a player matches exactly when the lowercased query occurs at some position of the lowercased name |
| Players.SearchEmptyQuery | script.js:72-73 | an empty query shows every player |
| Players.SearchIgnoresQueryCase | script.js:72-73 | the case of the query does not change the result |
| Players.SearchIdempotent | script.js:73 | searching the result again with the same query changes nothing |
| Players.SearchConcat | script.js:73 | searching two lists one after the other searches each list |
| StableSort.Compare | script.js:79 | the comparator `b - a` of the keys is positive exactly when `a` has the smaller key, and zero exactly when the keys are equal |
| StableSort.Insert | script.js:79 | inserting adds exactly that one element |
| StableSort.InsertSorted | script.js:79 | inserting into a list in non-increasing key order keeps that order |
| StableSort.InsertStable | script.js:79 | the inserted element goes after every element with the same key |
| StableSort.SortDesc | script.js:79 | the sorted list is a permutation of the input in non-increasing key order |
| StableSort.SortDescStable | script.js:79 | the sort is stable: for every key value, the elements with that key keep their input order |
| StableSort.StableIsPermutation | script.js:79 | a list that keeps every key's elements in the same order as another is a permutation of it |
| StableSort.SortedUnique | script.js:79 | two lists in non-increasing key order with the same elements per key in the same order are equal |
| StableSort.StableSortUnique | script.js:79 | every stable sort with this comparator gives exactly `SortDesc` |
| StableSort.SortDescSorted | script.js:79 | sorting a list already in order leaves it unchanged |
| StableSort.InsertAt | script.js:79 | `Insert` places the element just after the last element that does not rank below it |
| StableSort.SortDescStep | script.js:79 | putting the next element where `Insert` puts it, in the sorted prefix, gives the sorted longer prefix |
| StableSort.InsertLast | script.js:79 | one pass of the in-place sort moves the element left past exactly the elements ranking below it, shifting them right, and changes nothing beyond its slot |
| StableSort.SortInPlace | script.js:79 | sorting the array in place leaves `SortDesc` of its old contents |
| Sorting.Key | script.js:78-94 | the comparator's key: the goals, MOTM or clean-sheets field as given to `sortByField`, or, for the wins and losses buttons, the number of `W` or `L` tokens in the parsed streak, which lies between 0 and the number of tokens |
| Sorting.SortedCopy | script.js:79 | `[...playersData].sort(...)` returns `SortDesc` of the players: the same players, larger keys first, equal keys in stored order |
| Page.Board.constructor | script.js:1 | before loading, the stored list is empty |
| Page.Board.Load | script.js:19-24 | loading replaces the stored list with the loaded players |
| Page.Board.OnSearch | script.js:71-75 | the search shows the result of the filter over the stored list: a player is shown exactly when it is stored and matches, and never more often than stored; the stored list is unchanged |
| Page.Board.SortByField | script.js:78-81 | `sortByField` shows the stored players, most of the field first and ties in stored order; the stored list is unchanged |
| Page.Board.OnSortGoals | script.js:98 | the goals button shows the stored players by goals, most first, ties in stored order |
| Page.Board.OnSortMotm | script.js:99 | the MOTM button shows the stored players by MOTM awards, most first, ties in stored order |
| Page.Board.OnSortWins | script.js:84-89 | the wins button shows the stored players by the number of `W` tokens in their streak, most first, ties in stored order |
| Page.Board.OnSortLosses | script.js:91-96 | the losses button shows the stored players by the number of `L` tokens in their streak, most first, ties in stored order |

## Left out

- Loading (script.js:15-27): `fetch`, JSON decoding and the error log are I/O. `Page.Board.Load` takes the decoded players as a parameter.
- Players.Player: `name` and `streak` are always strings here. In the page, a record whose `streak` is missing or not a string makes `parseStreak` throw a TypeError at script.js:5. That call runs inside the `forEach` of `displayPlayers` (script.js:43), so the cards already added stay and the rest are not drawn. The same TypeError escapes the wins and losses comparators (script.js:86, 93), so those handlers stop before anything is redrawn. On load it escapes `displayPlayers(playersData)` at script.js:25 and rejects the promise chain, so the `.catch` at script.js:27 logs it as "Error loading players:" although `playersData` was already assigned at script.js:19. A missing or non-string `name` makes the search filter throw at script.js:73. None of these TypeError paths is modelled.
- Page.Board.Load: `Number(...)` on goals, MOTM and clean sheets is not modelled. The counts are integers when loaded, so numeric strings, and the NaN that `Number` returns for anything else, do not arise.
- Players.Player: the model keeps only the six fields the page uses. Any other field copied by `...p` is dropped.
- Rendering (script.js:30-68): building the cards, the empty-list placeholder and the click binding are DOM work and are not modelled. Only the badge text and class are modelled (`Streak.BadgeText`, `Streak.Summarise`).
- The detail panel (script.js:101-138): opening and closing the modal and its timer are DOM work and are not modelled.
- Text.Lower: lowercases the ASCII letters `A`-`Z` only. `toLowerCase` applies the full Unicode case mapping, which can also change other letters and the string's length.
- Text.TrimSpec: uses the white-space set of Unicode 15, which the ECMAScript `trim` follows. Strings are sequences of Unicode scalar values rather than UTF-16 code units, so lone surrogates cannot be written.
- StableSort.Compare: keys are unbounded integers, while JavaScript numbers are IEEE doubles. For finite keys this makes no difference: `b - a` is zero exactly when the keys are equal and otherwise has the sign of the exact difference (an overflow gives an infinity of that sign). Only a NaN key, or two infinite keys of the same sign, make the comparator yield NaN, and that case is not modelled.
- StableSort.SortInPlace: the engine's own sort algorithm is not modelled. An insertion sort stands in for it, and `StableSort.StableSortUnique` shows that any stable sort with the same comparator gives the same list.
- The clean-sheets field has no sort button in the page. `Sorting.StatField` includes it because `sortByField` accepts any numeric field.
