# Bridge table: deal pipeline and seat registry

This project models the core of a browser bridge-table lobby. Four seats (NORTH, SOUTH, EAST,
WEST) sit at shared tables, users join a seat or watch as spectators, and each deal splits a
shuffled 52-card deck into four 13-card hands. The model has three parts.

- **Deck and deal** (`js/cards.js`). The model covers:
  - the `Deck` with its generation order, Fisher–Yates shuffle and `deal(n)`;
  - the display ordering `sortCards`, which groups cards by suit, alternates black and red suits
    and sorts each suit by rank value;
  - `CardManager`, which flips the deck colour between deals, deals SOUTH, WEST, NORTH, EAST, and
    scores a hand with A=4, K=3, Q=2, J=1.
- **Seat registry** (`js/table.js`). `TableManager` keeps a list of tables, each holding a map of
  seat labels to usernames and a spectator list. It also keeps the local user's selection: table,
  seat and role.
- **Players** (`js/players.js`). Each `Player` holds a hand and a point count. `Players` holds the
  four seats, each hand re-sorted in the fixed ♠ ♥ ♣ ♦ order, and `PlayerManager` is the nullable
  global wrapper around it.

The Dafny modules follow the source files:

| module | models |
|---|---|
| `Wrappers` | `Option` and `Result`. A thrown error is an `Err`; JavaScript `null` is `None` or a nullable reference. |
| `Seats` | the four seat labels and the deal's draw order |
| `Cards` | `Card`, `Deck`, the generic stable sort used for `Array.prototype.sort` with a key, and the suit filter |
| `CardSort` | `Deck.sortCards` |
| `CardManagement` | `CardManager` |
| `Tables` | `TableManager` and the per-table operations it performs |
| `PlayerHands` | `Player`, `Players` and `PlayerManager` |

Randomness, storage and clocks are parameters:
- Each swap of `Deck.Shuffle` picks an arbitrary index in the range the source draws from.
- `CardManager` is given the stored last colour.
- `TableManager.CreateTable` is given the new table's id, which the source builds from `Date.now()`.

In these places the model follows the code as it stands:
- The final hands that players hold are in the fixed ♠ ♥ ♣ ♦ order (`Player.sortHand`). They are
  not in the alternating display order that `dealToPlayers` produced; `DealtHandInFixedOrder`
  proves the re-sort discards it.
- `sortCards` decides once, before interleaving, whether red leads: red leads only when it has
  strictly more present suits. It does not re-compare the remaining groups at each step. The model
  proves that the code's rule always alternates colours when both are present
  (`SuitSequenceAlternates`).
- `joinPosition` records the role its caller passes, and `leavePosition` leaves the role untouched.
- A position label outside the four seats counts as taken for `joinPosition`. For `leavePosition`
  it becomes a new free seat. `FreeSeatsOfFourSeatTable` bounds the free count only for tables
  whose keys are the four seats.
- There is no spectator check on dealing, no `leaveSpectator`, and no revision counter. The code
  has none of them.

One departure is deliberate, and it is listed under Findings. `joinPosition` does not check
the spectator list, so a spectator can also take a seat. `Tables.JoinSeat` models the code as
written. `Tables.TableManager.JoinPosition` uses the corrected `Tables.JoinSeatGuarded`, which
refuses a spectator with `AlreadySpectating` and keeps every table consistent.

## Model

| member | source | states |
|---|---|---|
| `Seats.PositionName` | js/players.js:88-91 | every seat's label is one of the four seat keys NORTH, SOUTH, EAST, WEST |
| `Seats.PositionNamesDistinct` | js/players.js:88-91 | different seats have different labels, and each of the four seat keys labels some seat |
| `Seats.DrawOrderCoversSeats` | js/cards.js:245-250 | the draw order SOUTH, WEST, NORTH, EAST names each seat exactly once |
| `Cards.RankValue` | js/cards.js:15-21 | a rank's value is in 2..14 and is its position in 2..A plus two, so distinct ranks have distinct values |
| `Cards.RankValueIncreasing` | js/cards.js:16-19 | values strictly increase along 2, 3, …, 10, J, Q, K, A |
| `Cards.SuitIndex` | js/cards.js:51 | each suit has one place in the generation order ♠ ♥ ♦ ♣ |
| `Cards.DeckIndex` | js/cards.js:55-58 | each card has a position below 52 in the generated deck |
| `Cards.FullDeck` | js/cards.js:50-60 | the fresh deck has 52 cards; the card at position k has the (k div 13)-th suit of ♠ ♥ ♦ ♣ and value k mod 13 + 2 |
| `Cards.OccursOnce` | js/cards.js:50-60 | a card found at exactly one position occurs once |
| `Cards.FullDeckIndex` | js/cards.js:50-60 | the generated deck has 52 cards, and card position and card determine each other |
| `Cards.FullDeckExactlyOnce` | js/cards.js:50-60 | every card occurs exactly once in a fresh deck |
| `Cards.CardsOfSuit` | js/cards.js:166 | the suit filter keeps only cards of that suit and is no longer than its input |
| `Cards.CardsOfSuitCount` | js/cards.js:166 | the filter keeps every copy of each card of the suit and nothing else |
| `Cards.CardsOfSuitAppend` | js/cards.js:166 | filtering a concatenation is concatenating the filtered parts |
| `Cards.CardsOfSuitAll` | js/cards.js:166 | filtering cards that all have the suit returns them unchanged |
| `Cards.CardsOfSuitNone` | js/cards.js:166 | filtering cards that have none of the suit returns nothing |
| `Cards.Insert` | js/cards.js:167 | inserting into a sorted list adds exactly that card and keeps it sorted |
| `Cards.InsertFrontSorted` | js/cards.js:167 | a card no larger than the head may be put in front of a sorted list |
| `Cards.InsertAfterSorted` | js/cards.js:167 | inserting after a smaller head keeps a sorted list sorted |
| `Cards.SortBy` | js/cards.js:166-167 | sorting by a key is a permutation of its input, of the same length, ordered by the key |
| `Cards.SortByFixpoint` | js/cards.js:166-167 | sorting an already sorted list changes nothing |
| `Cards.SortByIdempotent` | js/cards.js:166-167 | sorting twice is sorting once |
| `Cards.Deck.constructor` | js/cards.js:42-45 | a new deck holds the 52 cards in generation order |
| `Cards.Deck.InitializeDeck` | js/cards.js:50-60 | re-initialising replaces the cards with the 52-card deck, suit by suit, rank by rank |
| `Cards.Deck.Shuffle` | js/cards.js:65-71 | shuffling keeps the same cards, as a multiset, and the same count |
| `Cards.Deck.Deal` | js/cards.js:76-81 | asking for more than remain fails and leaves the deck alone; otherwise the dealt cards are the first n and the rest stay in order |
| `Cards.Deck.GetRemainingCount` | js/cards.js:86-88 | returns the number of cards left |
| `CardSort.DisplayRank` | js/cards.js:104 | each suit has one place in the precedence ♠ ♣ ♥ ♦ |
| `CardSort.OfColour` | js/cards.js:116-122 | the colour split keeps only suits of the chosen colour |
| `CardSort.OfColourMembers` | js/cards.js:116-122 | the colour split keeps only suits of its input |
| `CardSort.AlternateMembers` | js/cards.js:137-155 | the interleaving emits only suits of its two lists |
| `CardSort.SuitSequence` | js/cards.js:128-159 | every suit of the final order is a suit the hand holds |
| `CardSort.SuitBlock` | js/cards.js:166-167 | a suit's block holds only cards of that suit, ascending by value |
| `CardSort.DisplayOrder` | js/cards.js:95-186 | every output card is of a suit the input holds |
| `CardSort.PresentSuitsExact` | js/cards.js:104-107 | the present suits are exactly the suits the hand holds, in strict ♠ ♣ ♥ ♦ precedence |
| `CardSort.SuitsWhereMembers` | js/cards.js:104-107 | a suit is in the filtered precedence list iff its flag is set |
| `CardSort.SuitsWhereRanked` | js/cards.js:104-107 | the filtered precedence list is strictly ordered by precedence |
| `CardSort.RankedConcat` | js/cards.js:104-107 | appending a suit of later precedence keeps a list strictly ordered |
| `CardSort.SuitsWhereCount` | js/cards.js:104-107 | the filtered precedence list holds a suit once if its flag is set, else not at all |
| `CardSort.SuitsWhereMultiset` | js/cards.js:104-107 | the filtered precedence list holds one copy of each flagged suit |
| `CardSort.SortCards` | js/cards.js:95-186 | the sorting method computes the display order, including returning empty input unchanged |
| `CardSort.SplitByColour` | js/cards.js:112-122 | the loop splits the present suits into black and red, each in precedence order |
| `CardSort.Interleave` | js/cards.js:128-155 | the loop emits rounds of one suit from each colour, red first only when red has strictly more suits |
| `CardSort.GatherBlocks` | js/cards.js:164-170 | the output loop emits, for each suit of the final order, its cards by rank value |
| `CardSort.PresentSuitsCount` | js/cards.js:107 | the present-suit list holds each suit of the hand once and no other |
| `CardSort.OfColourSplit` | js/cards.js:116-122 | the black and red lists together hold exactly the present suits |
| `CardSort.PrefixStep` | js/cards.js:137-155 | one more round extends the consumed prefix of a colour list by at most its next suit |
| `CardSort.AlternateStepCount` | js/cards.js:137-155 | one round adds the next suit of each colour list |
| `CardSort.PrefixStepCount` | js/cards.js:137-155 | counting form of the prefix step |
| `CardSort.AlternateUpToCount` | js/cards.js:137-155 | after n rounds the output holds exactly the first n suits of each colour list |
| `CardSort.AlternateAll` | js/cards.js:131-155 | running to the longer length emits every suit of both lists |
| `CardSort.SuitSequenceCount` | js/cards.js:128-159 | the final suit order holds each present suit exactly once and no absent suit |
| `CardSort.GatherCount` | js/cards.js:164-170 | gathering over a duplicate-free order keeps every card whose suit is listed |
| `CardSort.DisplayOrderPermutes` | js/cards.js:95-186 | sortCards returns the same cards, as a multiset, and the same count |
| `CardSort.GatherBySuitSequence` | js/cards.js:164-170 | gathering the blocks over the final suit order keeps exactly the input's cards |
| `CardSort.IndexOf` | js/cards.js:165 | finds a suit's place in the final order |
| `CardSort.IndexOfAppend` | js/cards.js:165 | a suit keeps its place when more suits are appended |
| `CardSort.DistinctSplit` | js/cards.js:165 | a duplicate-free order stays duplicate-free without its last suit, which does not occur earlier |
| `CardSort.BlocksInOrderAppend` | js/cards.js:164-170 | appending one more suit's block keeps the blocks in the order of the suits |
| `CardSort.GatherInOrder` | js/cards.js:164-170 | the output holds the suits' blocks in the final order, each block sorted |
| `CardSort.DisplayOrderInBlocks` | js/cards.js:163-170 | sortCards' output consists of the suit blocks in the interleaved order |
| `CardSort.DisplayOrderContiguous` | js/cards.js:163-170 | each suit's cards are contiguous and ascend by rank value |
| `CardSort.OfColourAppend` | js/cards.js:116-122 | the colour split distributes over concatenation |
| `CardSort.OfColourFour` | js/cards.js:116-122 | the colour split of four concatenated parts is the concatenation of their splits |
| `CardSort.SingletonByColour` | js/cards.js:117 | a present suit adds one suit to its own colour's list and none to the other |
| `CardSort.SuitsWhereByColour` | js/cards.js:104-122 | the black list has as many suits as ♠ and ♣ are present, the red list as many as ♥ and ♦ are |
| `CardSort.PresentByColour` | js/cards.js:104-122 | the black and red lists of a hand have as many suits as the hand has black and red suits |
| `CardSort.OfColourAtMostOne` | js/cards.js:104-122 | a list of at most one suit goes wholly to the list of its colour |
| `CardSort.SuitSequenceInterleaves` | js/cards.js:130-155 | with both colours present, the final order interleaves red first iff red has more suits, black first otherwise |
| `CardSort.AlternateColours` | js/cards.js:137-155 | interleaving two one-colour lists of lengths n and n or n−1 gives 2n or 2n−1 suits of strictly alternating colour, led by the first list's colour |
| `CardSort.AlternatePattern` | js/cards.js:137-155 | interleaving a one-colour list with an other-colour list that is as long or one shorter alternates colour throughout |
| `CardSort.SuitSequenceAlternates` | js/cards.js:130-155 | with both colours present, black leads iff it has at least as many suits, and neighbouring suits always differ in colour |
| `CardSort.SuitSequenceOneColour` | js/cards.js:156-159 | with one colour only, the order is the present suits in fixed precedence |
| `CardSort.SameSuitsPresent` | js/cards.js:107 | permuted hands have the same present suits |
| `CardSort.CardsOfSuitBlock` | js/cards.js:166 | filtering a suit's block by a suit keeps all of it for that suit and nothing for another |
| `CardSort.GatherSuits` | js/cards.js:164-170 | every gathered card belongs to a suit of the order |
| `CardSort.CardsOfSuitGather` | js/cards.js:166 | filtering the sorted output by a suit gives back that suit's sorted block |
| `CardSort.GatherSameBlocks` | js/cards.js:164-170 | gathering the same blocks in the same order gives the same output |
| `CardSort.DisplayOrderIdempotent` | js/cards.js:95-186 | sorting an already sorted hand changes nothing |
| `CardManagement.NextDeckColour` | js/cards.js:199-210 | the next colour is blue or red; it is red exactly when the stored colour is "blue" |
| `CardManagement.DealColour` | js/main.js:58-63 | every deal's colour is blue or red |
| `CardManagement.DealColoursAlternate` | js/main.js:56-120 | with each deal storing its colour, successive deals are blue, red, blue, … |
| `CardManagement.CardPoints` | js/cards.js:272-286 | a card scores at most 4, 4 exactly for an ace, 0 exactly for 2–10 |
| `CardManagement.HandPoints` | js/cards.js:266-290 | a hand scores at most 4 per card and 0 when empty |
| `CardManagement.RankCountBySuit` | js/cards.js:273-286 | the count of a rank in a hand is the sum of its four cards' multiplicities |
| `CardManagement.HandPointsByRank` | js/cards.js:266-290 | points are 4·aces + 3·kings + 2·queens + jacks, and those counts total at most the hand size |
| `CardManagement.HandPointsPermutation` | js/cards.js:266-290 | points depend only on which cards are held, not their order |
| `CardManagement.FourAces` | js/cards.js:274-276 | the four aces score 16 |
| `CardManagement.ThirteenCardsAtMost37` | js/cards.js:266-290 | a 13-card hand without repeated cards scores at most 37 |
| `CardManagement.CalculatePoints` | js/cards.js:266-290 | the loop computes the hand's points |
| `CardManagement.DealFrom` | js/cards.js:245-250 | the distribution has exactly the four seats |
| `CardManagement.FourPackets` | js/cards.js:245-250 | the four consecutive 13-card packets make up the shuffled deck |
| `CardManagement.PermutedPackets` | js/cards.js:245-250 | rearranging each packet keeps the deck's cards overall |
| `CardManagement.DealFromHands` | js/cards.js:245-250 | SOUTH, WEST, NORTH, EAST receive the sorted 1st, 2nd, 3rd and 4th packets |
| `CardManagement.DealHandSizes` | js/cards.js:245-250 | every seat receives 13 cards |
| `CardManagement.DisplayedPacketsKeepCards` | js/cards.js:245-250 | the four sorted packets hold exactly the deck's cards |
| `CardManagement.DealKeepsCards` | js/cards.js:237-253 | the distribution's hands together hold exactly the shuffled deck |
| `CardManagement.DealPartitionsDeck` | js/cards.js:237-253 | dealing a shuffled full deck gives four 13-card hands in which every card is held exactly once |
| `CardManagement.DealDisjoint` | js/cards.js:237-253 | no card is in two hands |
| `CardManagement.CardManager.constructor` | js/cards.js:192-194 | starts with no deck and colour blue |
| `CardManagement.CardManager.Init` | js/cards.js:199-210 | sets the current colour from the stored one, nothing else |
| `CardManagement.CardManager.GetDeckColor` | js/cards.js:215-217 | returns the current colour |
| `CardManagement.CardManager.SaveDeckColor` | js/cards.js:222-224 | stores the current colour for the next deal |
| `CardManagement.CardManager.DrawPackets` | js/cards.js:237-249 | creates a deck if none, re-initialises and shuffles it, and draws four consecutive packets of 13, leaving it empty |
| `CardManagement.CardManager.DealToPlayers` | js/cards.js:237-253 | the distribution is the deal of some shuffle of the full deck, and the deck ends empty |
| `CardManagement.TwoDealsAlternate` | js/main.js:56-120 | two successive deal cycles use different colours |
| `Tables.NewTable` | js/table.js:21-32 | a new table has the given id and name, the four seats empty and no spectators |
| `Tables.JoinSeat` | js/table.js:51-80 | as written: SeatTaken iff the seat is not free, AlreadySeated iff free but the user holds a seat, otherwise only that seat changes |
| `Tables.JoinSeatGuarded` | js/table.js:51-80 | corrected: as JoinSeat, and a spectator is refused with AlreadySpectating |
| `Tables.JoinSpectator` | js/table.js:83-116 | AlreadySpectating iff listed, AlreadySeated iff seated, otherwise the user is appended and nothing else changes |
| `Tables.LeaveSeat` | js/table.js:119-136 | the seat becomes empty, possibly added as a key, and no other seat changes |
| `Tables.NewTableEmpty` | js/table.js:19-38 | a new table is consistent, has 4 free seats and is not full |
| `Tables.FreeSeats` | js/table.js:151 | a table has no more free seats than seats |
| `Tables.IsFull` | js/table.js:143 | a table is full iff its taken seats are all its seats |
| `Tables.SeatsSplit` | js/table.js:139-152 | free and taken seats together are all seats |
| `Tables.FullIffNoFreeSeat` | js/table.js:139-152 | a table is full iff it has no free seat |
| `Tables.FreeSeatsOfFourSeatTable` | js/table.js:147-152 | on a four-seat table the free count is 4 minus the taken count, so 0..4 |
| `Tables.JoinSeatGuardedConsistent` | js/table.js:51-80 | a successful corrected join keeps one seat per user and no seated spectator |
| `Tables.JoinSpectatorConsistent` | js/table.js:83-116 | joining as spectator keeps the table consistent |
| `Tables.LeaveSeatConsistent` | js/table.js:119-136 | leaving a seat keeps the table consistent |
| `Tables.JoinSeatKeepsSeatsApart` | js/table.js:57-70 | even as written, a join never seats one user twice |
| `Tables.JoinSeatAdmitsSpectator` | js/table.js:57-70 | as written, a spectator of a consistent table can take a seat and so break consistency |
| `Tables.SeatScenario` | js/table.js:51-136 | alice takes SOUTH; bob is refused SeatTaken; alice is refused as spectator; after SOUTH is left, bob takes it |
| `Tables.FindIndex` | js/table.js:46-48 | finds the first table with the id, or none when no table has it |
| `Tables.Decimal` | js/table.js:23 | renders a number as a non-empty digit string, without a leading zero, whose decimal value is the number |
| `Tables.DefaultName` | js/table.js:23 | the default table name is "Маса " followed by digits whose decimal value is the number |
| `Tables.TableManager.constructor` | js/table.js:5-16 | starts with no tables and an empty selection |
| `Tables.TableManager.CreateTable` | js/table.js:19-38 | appends a new table, named by number when the name is blank, and leaves the selection alone |
| `Tables.TableManager.GetAllTables` | js/table.js:41-43 | returns the table list |
| `Tables.TableManager.GetTable` | js/table.js:46-48 | returns the first table with the id, or none iff no table has it |
| `Tables.TableManager.JoinPosition` | js/table.js:51-80 | unknown table: TableNotFound and no change; otherwise the outcome of the corrected join on the first such table, and on success the selection is that table, seat and role |
| `Tables.TableManager.JoinAsSpectator` | js/table.js:83-116 | unknown table: TableNotFound and no change; otherwise the spectator join, and on success the selection is that table, no seat, role spectator |
| `Tables.TableManager.LeavePosition` | js/table.js:119-136 | unknown table: TableNotFound; otherwise the seat is emptied and the selection cleared iff it named that table and seat |
| `Tables.TableManager.IsTableFull` | js/table.js:139-144 | an unknown table is not full; otherwise full iff no seat is empty |
| `Tables.TableManager.GetAvailableSeats` | js/table.js:147-152 | an unknown table has 0 free seats; otherwise the number of empty seats |
| `Tables.TableManager.GetCurrentSelection` | js/table.js:155-161 | reports table and seat as stored; the role is the stored one when non-empty, and "player" when none or an empty one is stored |
| `Tables.TableManager.ClearAllTables` | js/table.js:222-229 | removes every table and clears the selection and role |
| `Tables.FullIffNoAvailableSeat` | js/table.js:139-152 | a known table is full iff it has no available seat, and a four-seat table has at most 4 |
| `Tables.HoldsSeat` | js/table.js:63-67 | the loop finds whether the user occupies any seat |
| `PlayerHands.HandSuitRank` | js/players.js:61 | the hand order ranks suits ♠ 0, ♥ 1, ♣ 2, ♦ 3, each rank naming its suit |
| `PlayerHands.HandKey` | js/players.js:61-66 | the key's quotient by 16 is the suit rank and its remainder the rank value |
| `PlayerHands.HandBefore` | js/players.js:62-66 | across suits the lower suit rank comes first; within a suit the lower or equal value |
| `PlayerHands.HandKeyOrder` | js/players.js:62-66 | the numeric key orders cards by suit rank, then rank value, and distinct cards have distinct keys |
| `PlayerHands.HandBeforeTotalOrder` | js/players.js:62-66 | the comparator is total, antisymmetric and transitive on cards |
| `PlayerHands.HandOrder` | js/players.js:60-67 | sortHand's order is a permutation of the hand, of the same length, in which each card precedes the later ones |
| `PlayerHands.SortedHeadsEqual` | js/players.js:60-67 | two sorted arrangements of the same cards start with the same card |
| `PlayerHands.PermutedTails` | js/players.js:60-67 | removing the same first card from two permuted hands leaves permuted tails |
| `PlayerHands.HandOrderUnique` | js/players.js:60-67 | two sorted arrangements of the same cards are equal |
| `PlayerHands.HandOrderIdempotent` | js/players.js:60-67 | sorting a sorted hand changes nothing |
| `PlayerHands.HandOrderOfPermutation` | js/players.js:60-67 | the sorted hand depends only on which cards are held |
| `PlayerHands.DealtHandInFixedOrder` | js/players.js:98-103 | re-sorting a dealt hand discards the display order: the result equals sorting the raw packet |
| `PlayerHands.SuitSequenceClubsHearts` | js/cards.js:128-159 | for 2♣ 2♥ the display suit order is ♣ then ♥ |
| `PlayerHands.BlocksClubsHearts` | js/cards.js:164-170 | the suit blocks of 2♣ 2♥ |
| `PlayerHands.SingleCardBlock` | js/cards.js:166-167 | a suit held by a single card has that card as its block |
| `PlayerHands.GatherTwo` | js/cards.js:164-170 | gathering over two suits is the first suit's block then the second's |
| `PlayerHands.GatherClubsHearts` | js/cards.js:164-170 | gathering 2♣ 2♥ over ♣ ♥ gives 2♣ 2♥ |
| `PlayerHands.DisplayOrderClubsHearts` | js/cards.js:95-186 | the display order of 2♣ 2♥ is 2♣ 2♥ |
| `PlayerHands.HandOrderClubsHearts` | js/players.js:60-67 | the hand order of the same cards is 2♥ 2♣, so the two orders differ |
| `PlayerHands.SortedDealPartitionsDeck` | js/players.js:98-103 | after dealing and re-sorting, the four hands still partition the deck, 13 cards each |
| `PlayerHands.BucketsCoverHand` | js/players.js:140-149 | the four suit buckets together hold exactly the hand |
| `PlayerHands.SuitDistribution` | js/players.js:142-148 | the loop puts each card, in hand order, into its suit's bucket |
| `PlayerHands.Player.constructor` | js/players.js:7-12 | a new player has the given name and seat, no cards and 0 points |
| `PlayerHands.Player.SetHand` | js/players.js:17-19 | the hand becomes the given cards, or empty when none are given |
| `PlayerHands.Player.GetCardCount` | js/players.js:31-33 | returns the number of cards held |
| `PlayerHands.Player.SetPoints` | js/players.js:38-40 | sets the points and keeps the hand |
| `PlayerHands.Player.GetPoints` | js/players.js:45-47 | returns the points |
| `PlayerHands.Player.ResetPoints` | js/players.js:52-54 | sets the points to 0 and keeps the hand |
| `PlayerHands.Player.SortHand` | js/players.js:60-67 | the hand becomes its fixed-order sort: same cards, each before the later ones |
| `PlayerHands.Player.GetInfo` | js/players.js:72-79 | reports name, seat, card count and points |
| `PlayerHands.Players.constructor` | js/players.js:86-93 | four distinct new players, one per seat, named after it, with empty hands and 0 points |
| `PlayerHands.Players.PlayerAt` | js/players.js:108-110 | the player returned for a seat sits at that seat |
| `PlayerHands.Players.DealHands` | js/players.js:98-103 | each seat in the distribution gets its cards in hand order; the other seats and all points are unchanged |
| `PlayerHands.Players.GetPlayerSuitDistribution` | js/players.js:140-149 | each bucket holds exactly the player's cards of that suit, in hand order |
| `PlayerHands.PlayerManager.constructor` | js/players.js:155-156 | starts with no players |
| `PlayerHands.PlayerManager.CreatePlayers` | js/players.js:161-164 | creates four fresh players, named after their seats, with empty hands and 0 points |
| `PlayerHands.PlayerManager.DealHands` | js/players.js:169-175 | creates players if there are none, then deals as Players.DealHands; points are kept (0 for new players) and names are the seat labels |
| `PlayerHands.PlayerManager.GetPlayerHand` | js/players.js:194-197 | the seat's hand, or empty when there are no players |
| `PlayerHands.PlayerManager.SetPlayerPoints` | js/players.js:202-207 | sets one seat's points and changes nothing else; no effect without players |
| `PlayerHands.PlayerManager.GetPlayerPoints` | js/players.js:212-215 | the seat's points, or 0 when there are no players |
| `PlayerHands.PlayerManager.GetAllPlayerPoints` | js/players.js:220-227 | a map with an entry for every seat, equal to that seat's points |
| `PlayerHands.PlayerManager.ResetAllPoints` | js/players.js:232-240 | every seat then has 0 points and the hands are unchanged |

## Left out

- Persistence through `localStorage` is not modelled. This covers `saveToStorage`,
  `loadTablesFromStorage`, `saveCurrentSelection` and `loadCurrentSelection` (js/table.js:164-205),
  and the read and write of the colour in `CardManager.init`/`saveDeckColor`.
  - The stored colour is a field of `CardManager`.
  - `TableManager` starts empty.
  - A failed parse and lost updates between sessions sharing the stored table list are not modelled.
- `createDefaultTables` (js/table.js:208-219) is not modelled. It is demonstration data that the
  constructor seeds when storage is empty.
- Table ids built from `Date.now()` are a parameter of `CreateTable`. The `createdAt` timestamp is
  not modelled.
- `Deck.Shuffle`: the swap index is any value in 0..i. That `Math.random` draws it uniformly is
  not modelled.
- Console output is not modelled, nor are the two diagnostics that `sortCards` logs after
  sorting (js/cards.js:172-183).
  - The count warning (js/cards.js:181-183) never fires: `DisplayOrderPermutes` proves the output
    is as long as the input.
  - The duplicate warning (js/cards.js:174-179) fires exactly when the input repeats a card, since
    the output is a permutation of the input. For a dealt hand it never fires: `DealPartitionsDeck`
    proves every card is held exactly once.
- `Card.getId`, `Card.getDisplayText`, `Player.getHand`, `Players.getAllPlayers`,
  `getPlayersArray`, `getPlayersInfo`, `PlayerManager.getPlayer` and `getAllPlayers` are not
  separate members. They only return a field or wrap one. `Players.PlayerAt` covers `getPlayer`.
- `CardManager.createNewDeck` and `CardManager.sortCards` (js/cards.js:229-232, 258-260) are not
  separate members. They are folded into `DrawPackets` and `SortCards`.
- The UI, login, translations, lobby screens and the deal-cycle timing in js/main.js are not
  modelled. Only the colour hand-off between deals is kept, in `TwoDealsAlternate`.
- `leaveAsSpectator` is not modelled because js/table.js does not define it.
- Array aliasing is not modelled. In the source, `setHand` keeps the caller's array and `sortHand`
  sorts it in place, so the distribution object's arrays are reordered too. The model copies hands
  as values.
- `Tables.TableManager.JoinPosition`: the `AlreadySeated` message names the seat the user already
  holds, and the model's error carries no seat.
- `CardManagement.CalculatePoints`: takes a sequence of cards. The source's branch for a `null`
  or `undefined` argument, which returns 0, is not modelled. `CardSort.SortCards` likewise takes
  a sequence and has no `null` branch.
- `PlayerHands.Player.SetPoints`: points are unbounded integers. The source stores any
  JavaScript value it is given.

## Findings

| source | as written | input that shows it | evidently intended | confidence | as-written member | corrected member |
|---|---|---|---|---|---|---|
| js/table.js:57-67 | `joinPosition` refuses a taken seat or a user who already holds a seat, but never consults `spectators` | a new table whose spectators are ["alice"]; alice joins SOUTH and succeeds, so she is both seated and a spectator | a spectator is refused (`AlreadySpectating`), as `joinAsSpectator` refuses a seated user, keeping "no seated spectator" | not executed | `Tables.JoinSeatAdmitsSpectator` | `Tables.JoinSeatGuardedConsistent` |
