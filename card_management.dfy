/** `CardManager` (js/cards.js): the deck-colour flag, the four-way deal and the 4-3-2-1
    high-card count. */
module CardManagement {
  import opened Wrappers
  import opened Seats
  import opened Cards
  import opened CardSort

  // ---------------------------------------------------------------------------
  // The deck colour.

  /** The colour of the coming deal, given the colour stored after the previous one: the
      opposite of a stored "blue" is "red"; anything else stored, and nothing stored (or the
      empty string, which is falsy), gives "blue". */
  function NextDeckColour(lastDeckColor: Option<string>): (colour: string)
    ensures colour == "blue" || colour == "red"
    ensures colour == "red" <==> lastDeckColor == Some("blue")
  {
    match lastDeckColor
    case None => "blue"
    case Some(last) => if last == "" then "blue" else if last == "blue" then "red" else "blue"
  }

  /** The colour of the n-th successful deal (counting from 0) when nothing was stored before
      the first one and every deal stores its own colour afterwards. */
  function DealColour(n: nat): (colour: string)
    ensures colour == "blue" || colour == "red"
  {
    if n == 0 then NextDeckColour(None) else NextDeckColour(Some(DealColour(n - 1)))
  }

  /** Successive deals alternate strictly: blue, red, blue, red, … */
  lemma {:induction false} DealColoursAlternate(n: nat)
    ensures DealColour(n) == if n % 2 == 0 then "blue" else "red"
  {
    if n > 0 {
      DealColoursAlternate(n - 1);
    }
  }

  // ---------------------------------------------------------------------------
  // High-card points.

  /** A=4, K=3, Q=2, J=1, every other rank 0. */
  function CardPoints(c: Card): (p: nat)
    ensures p <= 4
    ensures p == 4 <==> c.rank == Ace
    ensures p == 0 <==> RankValue(c.rank) <= 10
  {
    match c.rank
    case Ace => 4
    case King => 3
    case Queen => 2
    case Jack => 1
    case _ => 0
  }

  /** The point count of a hand, summed card by card. */
  function HandPoints(cards: seq<Card>): (p: nat)
    ensures p <= 4 * |cards|
    ensures cards == [] ==> p == 0
  {
    if cards == [] then 0 else HandPoints(cards[..|cards| - 1]) + CardPoints(cards[|cards| - 1])
  }

  /** The number of cards of rank r. */
  function RankCount(cards: seq<Card>, r: Rank): nat
  {
    if cards == [] then 0
    else RankCount(cards[..|cards| - 1], r) + (if cards[|cards| - 1].rank == r then 1 else 0)
  }

  /** A rank's count is the sum of the multiplicities of its four cards. */
  lemma {:induction false} RankCountBySuit(cards: seq<Card>, r: Rank)
    ensures RankCount(cards, r)
         == multiset(cards)[Card(r, Spades)] + multiset(cards)[Card(r, Hearts)]
          + multiset(cards)[Card(r, Diamonds)] + multiset(cards)[Card(r, Clubs)]
    decreases |cards|
  {
    if cards != [] {
      var init := cards[..|cards| - 1];
      var last := cards[|cards| - 1];
      assert cards == init + [last];
      assert multiset(cards) == multiset(init) + multiset{last};
      RankCountBySuit(init, r);
      match last.suit {
        case Spades =>
        case Hearts =>
        case Diamonds =>
        case Clubs =>
      }
    }
  }

  /** The point count is 4·aces + 3·kings + 2·queens + jacks, and those four counts together
      do not exceed the number of cards. */
  lemma {:induction false} HandPointsByRank(cards: seq<Card>)
    ensures HandPoints(cards)
         == 4 * RankCount(cards, Ace) + 3 * RankCount(cards, King) + 2 * RankCount(cards, Queen) + RankCount(cards, Jack)
    ensures RankCount(cards, Ace) + RankCount(cards, King) + RankCount(cards, Queen) + RankCount(cards, Jack) <= |cards|
    decreases |cards|
  {
    if cards != [] {
      HandPointsByRank(cards[..|cards| - 1]);
    }
  }

  /** The point count depends only on which cards the hand holds, not on their order. */
  lemma HandPointsPermutation(a: seq<Card>, b: seq<Card>)
    requires multiset(a) == multiset(b)
    ensures HandPoints(a) == HandPoints(b)
  {
    HandPointsByRank(a);
    HandPointsByRank(b);
    RankCountBySuit(a, Ace);
    RankCountBySuit(b, Ace);
    RankCountBySuit(a, King);
    RankCountBySuit(b, King);
    RankCountBySuit(a, Queen);
    RankCountBySuit(b, Queen);
    RankCountBySuit(a, Jack);
    RankCountBySuit(b, Jack);
  }

  /** Exactly the four aces, in any order, are worth 16. */
  lemma FourAces(cards: seq<Card>)
    requires multiset(cards)
          == multiset{Card(Ace, Spades), Card(Ace, Hearts), Card(Ace, Diamonds), Card(Ace, Clubs)}
    ensures HandPoints(cards) == 16
  {
    HandPointsByRank(cards);
    RankCountBySuit(cards, Ace);
    RankCountBySuit(cards, King);
    RankCountBySuit(cards, Queen);
    RankCountBySuit(cards, Jack);
  }

  /** A hand of 13 different cards holds at most 37 points (four aces, four kings, four queens
      and a jack). */
  lemma ThirteenCardsAtMost37(cards: seq<Card>)
    requires |cards| == 13
    requires NoDuplicates(cards)
    ensures HandPoints(cards) <= 37
  {
    HandPointsByRank(cards);
    RankCountBySuit(cards, Ace);
    RankCountBySuit(cards, King);
    RankCountBySuit(cards, Queen);
    RankCountBySuit(cards, Jack);
    var a, k, q, j := RankCount(cards, Ace), RankCount(cards, King), RankCount(cards, Queen), RankCount(cards, Jack);
    assert a <= 4 && k <= 4 && q <= 4;
    assert 4 * a + 3 * k + 2 * q + j == (a + k + q + j) + (a + k + q) + (a + k) + a;
  }

  /** `CardManager.calculatePoints`: the accumulator loop over the hand. */
  method CalculatePoints(cards: seq<Card>) returns (points: nat)
    ensures points == HandPoints(cards)
  {
    if |cards| == 0 {
      return 0;
    }
    points := 0;
    for k := 0 to |cards|
      invariant points == HandPoints(cards[..k])
    {
      assert cards[..k + 1][..k] == cards[..k];
      var card := cards[k];
      match card.rank {
        case Ace => points := points + 4;
        case King => points := points + 3;
        case Queen => points := points + 2;
        case Jack => points := points + 1;
        case _ =>
      }
    }
    assert cards[..|cards|] == cards;
  }

  // ---------------------------------------------------------------------------
  // The deal.

  /** The four packets of a 52-card deck in draw order, each put in display order:
      cards 0..12 to SOUTH, 13..25 to WEST, 26..38 to NORTH, 39..51 to EAST. */
  function DealFrom(shuffled: seq<Card>): (distribution: map<Position, seq<Card>>)
    requires |shuffled| == 52
    ensures distribution.Keys == {North, South, East, West}
  {
    map[South := DisplayOrder(shuffled[..13]),
        West := DisplayOrder(shuffled[13..26]),
        North := DisplayOrder(shuffled[26..39]),
        East := DisplayOrder(shuffled[39..])]
  }

  /** The four packets of a 52-card sequence, in draw order, put back together give it. */
  lemma FourPackets(shuffled: seq<Card>)
    requires |shuffled| == 52
    ensures shuffled == shuffled[..13] + shuffled[13..26] + shuffled[26..39] + shuffled[39..]
  {
  }

  /** Replacing each packet of the deck by a permutation of it keeps the cards of the deck. */
  lemma PermutedPackets(shuffled: seq<Card>, s: seq<Card>, w: seq<Card>, n: seq<Card>, e: seq<Card>)
    requires |shuffled| == 52
    requires multiset(s) == multiset(shuffled[..13]) && multiset(w) == multiset(shuffled[13..26])
    requires multiset(n) == multiset(shuffled[26..39]) && multiset(e) == multiset(shuffled[39..])
    ensures multiset(s) + multiset(w) + multiset(n) + multiset(e) == multiset(shuffled)
  {
    FourPackets(shuffled);
    assert multiset(shuffled)
        == multiset(shuffled[..13]) + multiset(shuffled[13..26]) + multiset(shuffled[26..39]) + multiset(shuffled[39..]);
  }

  /** Seat by seat, the hand is the display order of its packet. */
  lemma DealFromHands(shuffled: seq<Card>)
    requires |shuffled| == 52
    ensures DealFrom(shuffled)[South] == DisplayOrder(shuffled[..13])
    ensures DealFrom(shuffled)[West] == DisplayOrder(shuffled[13..26])
    ensures DealFrom(shuffled)[North] == DisplayOrder(shuffled[26..39])
    ensures DealFrom(shuffled)[East] == DisplayOrder(shuffled[39..])
  {
  }

  /** Every seat receives 13 cards. */
  lemma DealHandSizes(shuffled: seq<Card>)
    requires |shuffled| == 52
    ensures var d := DealFrom(shuffled); forall p :: p in d ==> |d[p]| == 13
  {
    DealFromHands(shuffled);
    DisplayOrderPermutes(shuffled[..13]);
    DisplayOrderPermutes(shuffled[13..26]);
    DisplayOrderPermutes(shuffled[26..39]);
    DisplayOrderPermutes(shuffled[39..]);
  }

  /** Putting each packet in display order keeps the cards of the deck. */
  lemma DisplayedPacketsKeepCards(shuffled: seq<Card>)
    requires |shuffled| == 52
    ensures multiset(DisplayOrder(shuffled[..13])) + multiset(DisplayOrder(shuffled[13..26]))
          + multiset(DisplayOrder(shuffled[26..39])) + multiset(DisplayOrder(shuffled[39..]))
         == multiset(shuffled)
  {
    var s, w, n, e := shuffled[..13], shuffled[13..26], shuffled[26..39], shuffled[39..];
    DisplayOrderPermutes(s);
    DisplayOrderPermutes(w);
    DisplayOrderPermutes(n);
    DisplayOrderPermutes(e);
    PermutedPackets(shuffled, DisplayOrder(s), DisplayOrder(w), DisplayOrder(n), DisplayOrder(e));
  }

  /** The four hands hold, between them, the cards of the shuffled deck. */
  lemma DealKeepsCards(shuffled: seq<Card>)
    requires |shuffled| == 52
    ensures var d := DealFrom(shuffled);
            multiset(d[South]) + multiset(d[West]) + multiset(d[North]) + multiset(d[East]) == multiset(shuffled)
  {
    DealFromHands(shuffled);
    DisplayedPacketsKeepCards(shuffled);
  }

  /** Dealing any permutation of the fresh deck gives four hands of 13 that together hold
      every card of the deck exactly once, so no card is in two hands. */
  lemma DealPartitionsDeck(shuffled: seq<Card>)
    requires multiset(shuffled) == multiset(FullDeck())
    ensures |shuffled| == 52
    ensures var d := DealFrom(shuffled);
            && (forall p :: p in d ==> |d[p]| == 13)
            && (forall c :: multiset(d[South])[c] + multiset(d[West])[c] + multiset(d[North])[c] + multiset(d[East])[c] == 1)
  {
    FullDeckIndex(Card(Two, Spades), 0);
    assert |shuffled| == |multiset(shuffled)| == |multiset(FullDeck())| == 52;
    DealHandSizes(shuffled);
    DealKeepsCards(shuffled);
    var d := DealFrom(shuffled);
    forall c ensures multiset(d[South])[c] + multiset(d[West])[c] + multiset(d[North])[c] + multiset(d[East])[c] == 1 {
      FullDeckExactlyOnce(c);
    }
  }

  /** No card is dealt to two seats. */
  lemma DealDisjoint(shuffled: seq<Card>, p: Position, q: Position, c: Card)
    requires multiset(shuffled) == multiset(FullDeck())
    requires p != q
    ensures |shuffled| == 52
    ensures c in DealFrom(shuffled)[p] ==> c !in DealFrom(shuffled)[q]
  {
    DealPartitionsDeck(shuffled);
    var d := DealFrom(shuffled);
    assert multiset(d[South])[c] + multiset(d[West])[c] + multiset(d[North])[c] + multiset(d[East])[c] == 1;
  }

  /** `CardManager`: the deck in use (none before the first deal), the colour of the current
      deal and the stored colour of the last deal (the browser's `lastDeckColor` entry). */
  class CardManager {
    var deck: Deck?
    var currentDeckColor: string
    var lastDeckColor: Option<string>

    constructor (stored: Option<string>)
      ensures deck == null && currentDeckColor == "blue" && lastDeckColor == stored
    {
      deck := null;
      currentDeckColor := "blue";
      lastDeckColor := stored;
    }

    /** `init`: the current colour becomes the opposite of the stored one, "blue" if none. */
    method Init()
      modifies this
      ensures currentDeckColor == NextDeckColour(lastDeckColor)
      ensures deck == old(deck) && lastDeckColor == old(lastDeckColor)
    {
      if lastDeckColor.Some? && lastDeckColor.value != "" {
        currentDeckColor := if lastDeckColor.value == "blue" then "red" else "blue";
      } else {
        currentDeckColor := "blue";
      }
    }

    /** `getDeckColor`. */
    function GetDeckColor(): (colour: string)
      reads this
      ensures colour == currentDeckColor
    {
      currentDeckColor
    }

    /** `saveDeckColor`: stores the current colour for the next deal. */
    method SaveDeckColor()
      modifies this
      ensures lastDeckColor == Some(currentDeckColor)
      ensures deck == old(deck) && currentDeckColor == old(currentDeckColor)
    {
      lastDeckColor := Some(currentDeckColor);
    }

    /** The deck half of `dealToPlayers`: creates the deck on first use, refills it with the
        fresh 52 cards, shuffles it and deals four packets of 13 in the order SOUTH, WEST,
        NORTH, EAST. `shuffled` is the deck as the shuffle left it. */
    method DrawPackets() returns (south: seq<Card>, west: seq<Card>, north: seq<Card>, east: seq<Card>,
                                  ghost shuffled: seq<Card>)
      modifies this, deck
      ensures deck != null && (old(deck) != null ==> deck == old(deck))
      ensures deck.cards == []
      ensures currentDeckColor == old(currentDeckColor) && lastDeckColor == old(lastDeckColor)
      ensures multiset(shuffled) == multiset(FullDeck()) && |shuffled| == 52
      ensures south == shuffled[..13] && west == shuffled[13..26]
      ensures north == shuffled[26..39] && east == shuffled[39..]
    {
      if deck == null {
        deck := new Deck();
      }
      deck.InitializeDeck();
      deck.Shuffle();
      shuffled := deck.cards;
      FullDeckIndex(Card(Two, Spades), 0);
      var r := deck.Deal(13);
      south := r.value;
      assert deck.cards == shuffled[13..];
      r := deck.Deal(13);
      west := r.value;
      assert shuffled[13..][..13] == shuffled[13..26] && shuffled[13..][13..] == shuffled[26..];
      assert deck.cards == shuffled[26..];
      r := deck.Deal(13);
      north := r.value;
      assert shuffled[26..][..13] == shuffled[26..39] && shuffled[26..][13..] == shuffled[39..];
      assert deck.cards == shuffled[39..];
      r := deck.Deal(13);
      east := r.value;
    }

    /** `dealToPlayers`: the four packets of a freshly shuffled deck, each in display order. */
    method DealToPlayers() returns (distribution: map<Position, seq<Card>>, ghost shuffled: seq<Card>)
      modifies this, deck
      ensures deck != null && (old(deck) != null ==> deck == old(deck))
      ensures deck.cards == []
      ensures currentDeckColor == old(currentDeckColor) && lastDeckColor == old(lastDeckColor)
      ensures multiset(shuffled) == multiset(FullDeck()) && |shuffled| == 52
      ensures distribution == DealFrom(shuffled)
    {
      var south, west, north, east;
      south, west, north, east, shuffled := DrawPackets();
      var sortedSouth := SortCards(south);
      var sortedWest := SortCards(west);
      var sortedNorth := SortCards(north);
      var sortedEast := SortCards(east);
      distribution := map[South := sortedSouth, West := sortedWest, North := sortedNorth, East := sortedEast];
      DealFromHands(shuffled);
    }
  }

  /** One deal cycle as the game screen runs it: pick the colour, deal, store the colour. Two
      cycles in a row use opposite colours. */
  method TwoDealsAlternate(manager: CardManager) returns (first: string, second: string)
    modifies manager, manager.deck
    ensures first == "blue" || first == "red"
    ensures second != first
  {
    manager.Init();
    first := manager.GetDeckColor();
    var d1, s1 := manager.DealToPlayers();
    manager.SaveDeckColor();
    manager.Init();
    second := manager.GetDeckColor();
  }
}
