/** Players and their hands (js/players.js): `Player`, the four-seat `Players` group and the
    `PlayerManager` façade. */
module PlayerHands {
  import opened Wrappers
  import opened Seats
  import opened Cards
  import opened CardSort
  import opened CardManagement

  // ---------------------------------------------------------------------------
  // The order `sortHand` puts a hand in: suits ♠, ♥, ♣, ♦, then ascending value.

  /** `suitOrder` of `sortHand`: ♠=0, ♥=1, ♣=2, ♦=3. */
  function HandSuitRank(s: Suit): (k: nat)
    ensures k < 4 && [Spades, Hearts, Clubs, Diamonds][k] == s
  {
    match s
    case Spades => 0
    case Hearts => 1
    case Clubs => 2
    case Diamonds => 3
  }

  /** A single number that orders cards as `sortHand`'s comparator does. */
  function HandKey(c: Card): (k: int)
    ensures k / 16 == HandSuitRank(c.suit) && k % 16 == RankValue(c.rank)
  {
    16 * HandSuitRank(c.suit) + RankValue(c.rank)
  }

  /** The comparator of `sortHand`: by suit rank, then by value. */
  predicate HandBefore(a: Card, b: Card)
    ensures a.suit != b.suit ==> (HandBefore(a, b) <==> HandSuitRank(a.suit) < HandSuitRank(b.suit))
    ensures a.suit == b.suit ==> (HandBefore(a, b) <==> RankValue(a.rank) <= RankValue(b.rank))
  {
    HandSuitRank(a.suit) < HandSuitRank(b.suit)
    || (HandSuitRank(a.suit) == HandSuitRank(b.suit) && RankValue(a.rank) <= RankValue(b.rank))
  }

  /** Comparing keys is comparing by the comparator, and different cards have different keys. */
  lemma HandKeyOrder(a: Card, b: Card)
    ensures HandKey(a) <= HandKey(b) <==> HandBefore(a, b)
    ensures HandKey(a) == HandKey(b) ==> a == b
  {
    if HandKey(a) == HandKey(b) {
      assert HandSuitRank(a.suit) == HandSuitRank(b.suit);
      assert Ranks[RankValue(a.rank) - 2] == a.rank && Ranks[RankValue(b.rank) - 2] == b.rank;
    }
  }

  /** The hand after `sortHand`. */
  function HandOrder(hand: seq<Card>): (r: seq<Card>)
    ensures multiset(r) == multiset(hand) && |r| == |hand|
    ensures forall i, j :: 0 <= i < j < |r| ==> HandBefore(r[i], r[j])
  {
    var r := SortBy(hand, HandKey);
    assert forall i, j :: 0 <= i < j < |r| ==> HandBefore(r[i], r[j]) by {
      forall i, j | 0 <= i < j < |r| ensures HandBefore(r[i], r[j]) {
        HandKeyOrder(r[i], r[j]);
      }
    }
    r
  }

  /** `sortHand` permutes the hand and leaves it ordered by suit rank, then by value. */
  /** The comparator of `sortHand` is a total order on cards: any two cards compare, only
      equal cards compare both ways, and it is transitive. */
  lemma HandBeforeTotalOrder(a: Card, b: Card, c: Card)
    ensures HandBefore(a, b) || HandBefore(b, a)
    ensures HandBefore(a, b) && HandBefore(b, a) ==> a == b
    ensures HandBefore(a, b) && HandBefore(b, c) ==> HandBefore(a, c)
  {
    HandKeyOrder(a, b);
    HandKeyOrder(b, a);
    HandKeyOrder(b, c);
    HandKeyOrder(a, c);
  }

  /** Two non-empty permutations of each other in hand order start with the same card. */
  lemma SortedHeadsEqual(a: seq<Card>, b: seq<Card>)
    requires multiset(a) == multiset(b) && a != []
    requires SortedBy(a, HandKey) && SortedBy(b, HandKey)
    ensures b != [] && a[0] == b[0]
  {
    assert a[0] in multiset(b);
    var k :| 0 <= k < |b| && b[k] == a[0];
    assert b[0] in multiset(a);
    var m :| 0 <= m < |a| && a[m] == b[0];
    assert HandKey(a[0]) <= HandKey(a[m]);
    assert HandKey(b[0]) <= HandKey(b[k]);
    HandKeyOrder(a[0], b[0]);
  }

  /** Removing the same first card from two permutations of each other leaves permutations. */
  lemma PermutedTails(a: seq<Card>, b: seq<Card>)
    requires multiset(a) == multiset(b) && a != [] && b != [] && a[0] == b[0]
    ensures multiset(a[1..]) == multiset(b[1..])
  {
    assert a == [a[0]] + a[1..] && b == [b[0]] + b[1..];
    assert multiset(a) == multiset{a[0]} + multiset(a[1..]);
    assert multiset(b) == multiset{b[0]} + multiset(b[1..]);
    forall c ensures multiset(a[1..])[c] == multiset(b[1..])[c] {
      assert multiset(a)[c] == multiset{a[0]}[c] + multiset(a[1..])[c];
      assert multiset(b)[c] == multiset{b[0]}[c] + multiset(b[1..])[c];
    }
  }

  /** Two permutations of each other that are both in hand order are equal: whichever
      algorithm `Array.prototype.sort` uses, the sorted hand is the same. */
  lemma {:induction false} HandOrderUnique(a: seq<Card>, b: seq<Card>)
    requires multiset(a) == multiset(b)
    requires SortedBy(a, HandKey) && SortedBy(b, HandKey)
    ensures a == b
    decreases |a|
  {
    if a == [] {
      assert |b| == |multiset(b)| == 0;
    } else {
      SortedHeadsEqual(a, b);
      PermutedTails(a, b);
      assert SortedBy(a[1..], HandKey) && SortedBy(b[1..], HandKey);
      HandOrderUnique(a[1..], b[1..]);
      assert a == [a[0]] + a[1..] && b == [b[0]] + b[1..];
    }
  }

  /** `sortHand` is idempotent. */
  lemma HandOrderIdempotent(hand: seq<Card>)
    ensures HandOrder(HandOrder(hand)) == HandOrder(hand)
  {
    SortByIdempotent(hand, HandKey);
  }

  /** The order the hand arrives in does not matter: re-sorting any permutation of a hand
      gives the same sorted hand. */
  lemma HandOrderOfPermutation(a: seq<Card>, b: seq<Card>)
    requires multiset(a) == multiset(b)
    ensures HandOrder(a) == HandOrder(b)
  {
    HandOrderUnique(HandOrder(a), HandOrder(b));
  }

  /** A dealt hand ends up in the fixed ♠, ♥, ♣, ♦ order: the display order that `sortCards`
      gave the packet is discarded by `sortHand`. */
  lemma DealtHandInFixedOrder(packet: seq<Card>)
    ensures HandOrder(DisplayOrder(packet)) == HandOrder(packet)
  {
    DisplayOrderPermutes(packet);
    HandOrderOfPermutation(DisplayOrder(packet), packet);
  }

  /** In 2♣ 2♥ one suit of each colour is present, so black leads: clubs, then hearts. */
  lemma SuitSequenceClubsHearts()
    ensures SuitSequence([Card(Two, Clubs), Card(Two, Hearts)]) == [Clubs, Hearts]
  {
    var hand := [Card(Two, Clubs), Card(Two, Hearts)];
    assert hand[0].suit == Clubs && hand[1].suit == Hearts;
    assert HasSuit(hand, Clubs) && HasSuit(hand, Hearts);
    assert !HasSuit(hand, Spades) && !HasSuit(hand, Diamonds);
    assert PresentSuits(hand) == [Clubs, Hearts];
    assert [Clubs, Hearts][..1] == [Clubs];
    assert OfColour([Clubs, Hearts], true) == [Clubs];
    assert OfColour([Clubs, Hearts], false) == [Hearts];
    assert AlternateUpTo([Clubs], [Hearts], 0) == [];
  }

  /** The suit blocks of 2♣ 2♥ are single cards. */
  lemma BlocksClubsHearts()
    ensures SuitBlock([Card(Two, Clubs), Card(Two, Hearts)], Clubs) == [Card(Two, Clubs)]
    ensures SuitBlock([Card(Two, Clubs), Card(Two, Hearts)], Hearts) == [Card(Two, Hearts)]
  {
    var hand := [Card(Two, Clubs), Card(Two, Hearts)];
    assert hand[..1] == [Card(Two, Clubs)];
    assert hand[..1][..0] == [];
    assert CardsOfSuit(hand, Clubs) == [Card(Two, Clubs)];
    assert CardsOfSuit(hand, Hearts) == [Card(Two, Hearts)];
    SingleCardBlock(hand, Clubs, Card(Two, Clubs));
    SingleCardBlock(hand, Hearts, Card(Two, Hearts));
  }

  /** A suit held by a single card has that card as its block. */
  lemma SingleCardBlock(cards: seq<Card>, s: Suit, c: Card)
    requires CardsOfSuit(cards, s) == [c]
    ensures SuitBlock(cards, s) == [c]
  {
    SortByFixpoint([c], ValueKey);
  }

  /** Gathering by two suits puts the first suit's block before the second's. */
  lemma GatherTwo(cards: seq<Card>, first: Suit, second: Suit)
    ensures Gather(cards, [first, second]) == SuitBlock(cards, first) + SuitBlock(cards, second)
  {
    var order := [first, second];
    assert order[..1] == [first] && order[1] == second;
    assert Gather(cards, order) == Gather(cards, [first]) + SuitBlock(cards, second);
    assert [first][..0] == [];
    assert Gather(cards, [first]) == SuitBlock(cards, first);
  }

  /** Gathering 2♣ 2♥ by the suits clubs, hearts gives it back. */
  lemma GatherClubsHearts()
    ensures Gather([Card(Two, Clubs), Card(Two, Hearts)], [Clubs, Hearts]) == [Card(Two, Clubs), Card(Two, Hearts)]
  {
    var hand := [Card(Two, Clubs), Card(Two, Hearts)];
    BlocksClubsHearts();
    GatherTwo(hand, Clubs, Hearts);
    assert [Card(Two, Clubs)] + [Card(Two, Hearts)] == hand;
  }

  /** 2♣ 2♥ is displayed clubs first. */
  lemma DisplayOrderClubsHearts()
    ensures DisplayOrder([Card(Two, Clubs), Card(Two, Hearts)]) == [Card(Two, Clubs), Card(Two, Hearts)]
  {
    SuitSequenceClubsHearts();
    GatherClubsHearts();
  }

  /** `sortHand` puts 2♣ 2♥ hearts first, so the display order and the hand order differ. */
  lemma HandOrderClubsHearts()
    ensures HandOrder([Card(Two, Clubs), Card(Two, Hearts)]) == [Card(Two, Hearts), Card(Two, Clubs)]
  {
    var hand := [Card(Two, Clubs), Card(Two, Hearts)];
    var sorted := [Card(Two, Hearts), Card(Two, Clubs)];
    assert SortedBy(sorted, HandKey);
    assert multiset(sorted) == multiset(hand);
    HandOrderOfPermutation(sorted, hand);
    SortByFixpoint(sorted, HandKey);
  }

  /** The four hands of a deal, once sorted by `sortHand`, still hold every card of the deck
      exactly once, 13 to a seat. */
  lemma SortedDealPartitionsDeck(shuffled: seq<Card>)
    requires multiset(shuffled) == multiset(FullDeck())
    ensures |shuffled| == 52
    ensures var d := DealFrom(shuffled);
            && (forall p :: p in d ==> |HandOrder(d[p])| == 13)
            && (forall c :: multiset(HandOrder(d[South]))[c] + multiset(HandOrder(d[West]))[c]
                          + multiset(HandOrder(d[North]))[c] + multiset(HandOrder(d[East]))[c] == 1)
  {
    DealPartitionsDeck(shuffled);
    var d := DealFrom(shuffled);
  }

  // ---------------------------------------------------------------------------
  // Suit buckets.

  /** `getPlayerSuitDistribution`'s object: one list per suit. */
  datatype SuitBuckets = SuitBuckets(spades: seq<Card>, hearts: seq<Card>, diamonds: seq<Card>, clubs: seq<Card>)
  {
    function Bucket(s: Suit): seq<Card>
    {
      match s
      case Spades => spades
      case Hearts => hearts
      case Diamonds => diamonds
      case Clubs => clubs
    }

    function Push(c: Card): SuitBuckets
    {
      match c.suit
      case Spades => this.(spades := spades + [c])
      case Hearts => this.(hearts := hearts + [c])
      case Diamonds => this.(diamonds := diamonds + [c])
      case Clubs => this.(clubs := clubs + [c])
    }
  }

  /** The buckets hold, between them, exactly the cards of the hand. */
  lemma BucketsCoverHand(hand: seq<Card>)
    ensures multiset(CardsOfSuit(hand, Spades)) + multiset(CardsOfSuit(hand, Hearts))
          + multiset(CardsOfSuit(hand, Diamonds)) + multiset(CardsOfSuit(hand, Clubs)) == multiset(hand)
    ensures |CardsOfSuit(hand, Spades)| + |CardsOfSuit(hand, Hearts)|
          + |CardsOfSuit(hand, Diamonds)| + |CardsOfSuit(hand, Clubs)| == |hand|
  {
    var sp, he, di, cl := CardsOfSuit(hand, Spades), CardsOfSuit(hand, Hearts), CardsOfSuit(hand, Diamonds), CardsOfSuit(hand, Clubs);
    forall c ensures (multiset(sp) + multiset(he) + multiset(di) + multiset(cl))[c] == multiset(hand)[c] {
      CardsOfSuitCount(hand, Spades, c);
      CardsOfSuitCount(hand, Hearts, c);
      CardsOfSuitCount(hand, Diamonds, c);
      CardsOfSuitCount(hand, Clubs, c);
    }
    assert multiset(sp) + multiset(he) + multiset(di) + multiset(cl) == multiset(hand);
    assert |multiset(sp) + multiset(he) + multiset(di) + multiset(cl)| == |multiset(hand)|;
  }

  /** The bucketing loop of `getPlayerSuitDistribution`: each card is pushed onto the list of
      its suit, so each bucket is the hand's cards of that suit, in hand order. */
  method SuitDistribution(hand: seq<Card>) returns (d: SuitBuckets)
    ensures forall s :: d.Bucket(s) == CardsOfSuit(hand, s)
  {
    d := SuitBuckets([], [], [], []);
    for k := 0 to |hand|
      invariant forall s :: d.Bucket(s) == CardsOfSuit(hand[..k], s)
    {
      assert hand[..k + 1][..k] == hand[..k];
      d := d.Push(hand[k]);
    }
    assert hand[..|hand|] == hand;
  }

  // ---------------------------------------------------------------------------
  // The objects.

  /** `getInfo`'s record. */
  datatype PlayerInfo = PlayerInfo(name: string, position: Position, cardCount: nat, points: int)

  /** `Player`: a seat's hand and point count. */
  class Player {
    const name: string
    const position: Position
    var hand: seq<Card>
    var points: int

    constructor (name: string, position: Position)
      ensures this.name == name && this.position == position
      ensures hand == [] && points == 0
    {
      this.name := name;
      this.position := position;
      hand := [];
      points := 0;
    }

    /** `setHand`: the given cards, or an empty hand for a missing argument. */
    method SetHand(cards: Option<seq<Card>>)
      modifies this
      ensures hand == (if cards.Some? then cards.value else [])
      ensures points == old(points)
    {
      hand := if cards.Some? then cards.value else [];
    }

    /** `getCardCount`. */
    function GetCardCount(): (n: nat)
      reads this
      ensures n == |hand|
    {
      |hand|
    }

    /** `setPoints`. */
    method SetPoints(points: int)
      modifies this
      ensures this.points == points && hand == old(hand)
    {
      this.points := points;
    }

    /** `getPoints`. */
    function GetPoints(): (p: int)
      reads this
      ensures p == points
    {
      points
    }

    /** `resetPoints`. */
    method ResetPoints()
      modifies this
      ensures points == 0 && hand == old(hand)
    {
      points := 0;
    }

    /** `sortHand`: the hand, permuted into the order ♠, ♥, ♣, ♦ and ascending value. */
    method SortHand()
      modifies this
      ensures hand == HandOrder(old(hand))
      ensures multiset(hand) == multiset(old(hand))
      ensures forall i, j :: 0 <= i < j < |hand| ==> HandBefore(hand[i], hand[j])
      ensures points == old(points)
    {
      hand := HandOrder(hand);
    }

    /** `getInfo`. */
    function GetInfo(): (info: PlayerInfo)
      reads this
      ensures info.name == name && info.position == position
      ensures info.cardCount == |hand| && info.points == points
    {
      PlayerInfo(name, position, |hand|, points)
    }
  }

  /** `Players`: one player per seat, named after the seat. */
  class Players {
    const south: Player
    const west: Player
    const north: Player
    const east: Player

    /** The four players are four different objects, each at its own seat and named after it. */
    ghost predicate Valid()
    {
      && south != west && south != north && south != east
      && west != north && west != east && north != east
      && south.position == South && west.position == West
      && north.position == North && east.position == East
      && south.name == "SOUTH" && west.name == "WEST" && north.name == "NORTH" && east.name == "EAST"
    }

    constructor ()
      ensures Valid() && fresh(Seats())
      ensures forall p :: PlayerAt(p).hand == [] && PlayerAt(p).points == 0
      ensures forall p :: PlayerAt(p).name == PositionName(p)
    {
      south := new Player("SOUTH", South);
      west := new Player("WEST", West);
      north := new Player("NORTH", North);
      east := new Player("EAST", East);
    }

    /** `getPlayer`. */
    function PlayerAt(p: Position): (player: Player)
      ensures Valid() ==> player.position == p
    {
      match p
      case South => south
      case West => west
      case North => north
      case East => east
    }

    function Seats(): set<Player>
    {
      {south, west, north, east}
    }

    /** `dealHands`: every seat named in the distribution gets exactly its cards, sorted by
        `sortHand`; the other seats keep their hands, and nobody's points change. */
    method DealHands(distribution: map<Position, seq<Card>>)
      requires Valid()
      modifies Seats()
      ensures forall p :: PlayerAt(p).hand == if p in distribution then HandOrder(distribution[p]) else old(PlayerAt(p).hand)
      ensures forall p :: PlayerAt(p).points == old(PlayerAt(p).points)
    {
      for k := 0 to 4
        invariant forall p :: p in DrawOrder[..k] ==>
                    PlayerAt(p).hand == if p in distribution then HandOrder(distribution[p]) else old(PlayerAt(p).hand)
        invariant forall p :: p !in DrawOrder[..k] ==> PlayerAt(p).hand == old(PlayerAt(p).hand)
        invariant forall p :: PlayerAt(p).points == old(PlayerAt(p).points)
      {
        assert DrawOrder[..k + 1] == DrawOrder[..k] + [DrawOrder[k]];
        var position := DrawOrder[k];
        if position in distribution {
          var player := PlayerAt(position);
          player.SetHand(Some(distribution[position]));
          player.SortHand();
        }
      }
      assert forall p :: p in DrawOrder[..4] by {
        assert DrawOrder[..4] == DrawOrder;
      }
    }

    /** `getPlayerSuitDistribution`. */
    method GetPlayerSuitDistribution(position: Position) returns (d: SuitBuckets)
      ensures forall s :: d.Bucket(s) == CardsOfSuit(PlayerAt(position).hand, s)
    {
      d := SuitDistribution(PlayerAt(position).hand);
    }
  }

  /** `PlayerManager`: holds the players once the first deal has created them. */
  class PlayerManager {
    var players: Players?

    ghost predicate Valid()
      reads this
    {
      players != null ==> players.Valid()
    }

    constructor ()
      ensures players == null && Valid()
    {
      players := null;
    }

    /** The player objects currently held. */
    function Objects(): set<object>
      reads this
    {
      if players == null then {} else players.Seats()
    }

    /** `createPlayers`: four fresh players with empty hands and no points. */
    method CreatePlayers()
      modifies this
      ensures players != null && fresh(players) && fresh(Objects()) && Valid()
      ensures forall p :: players.PlayerAt(p).name == PositionName(p)
      ensures forall p :: players.PlayerAt(p).hand == [] && players.PlayerAt(p).points == 0
    {
      players := new Players();
    }

    /** `dealHands`: creates the players on first use, then hands out the distribution. */
    method DealHands(distribution: map<Position, seq<Card>>)
      requires Valid()
      modifies this, Objects()
      ensures players != null && Valid()
      ensures old(players) != null ==> players == old(players)
      ensures old(players) == null ==> fresh(players) && fresh(Objects())
      ensures forall p :: players.PlayerAt(p).hand
                == if p in distribution then HandOrder(distribution[p])
                   else if old(players) == null then [] else old(players.PlayerAt(p).hand)
      ensures forall p :: players.PlayerAt(p).points
                == if old(players) == null then 0 else old(players.PlayerAt(p).points)
      ensures forall p :: players.PlayerAt(p).name == PositionName(p)
    {
      if players == null {
        CreatePlayers();
      }
      players.DealHands(distribution);
    }

    /** `getPlayerHand`: the seat's hand, or no cards before the players exist. */
    function GetPlayerHand(position: Position): (hand: seq<Card>)
      reads this, Objects()
      ensures players == null ==> hand == []
      ensures players != null ==> hand == players.PlayerAt(position).hand
    {
      if players == null then [] else players.PlayerAt(position).hand
    }

    /** `setPlayerPoints`: does nothing before the players exist. */
    method SetPlayerPoints(position: Position, points: int)
      requires Valid()
      modifies Objects()
      ensures players != null ==> players.PlayerAt(position).points == points
      ensures forall p :: p != position && players != null ==> players.PlayerAt(p).points == old(players.PlayerAt(p).points)
      ensures forall p :: players != null ==> players.PlayerAt(p).hand == old(players.PlayerAt(p).hand)
    {
      if players != null {
        players.PlayerAt(position).SetPoints(points);
      }
    }

    /** `getPlayerPoints`: the seat's points, or 0 before the players exist. */
    function GetPlayerPoints(position: Position): (points: int)
      reads this, Objects()
      ensures players == null ==> points == 0
      ensures players != null ==> points == players.PlayerAt(position).points
    {
      if players == null then 0 else players.PlayerAt(position).points
    }

    /** `getAllPlayerPoints`: one entry for each of SOUTH, WEST, NORTH, EAST. */
    method GetAllPlayerPoints() returns (points: map<Position, int>)
      ensures forall p :: p in points && points[p] == GetPlayerPoints(p)
    {
      points := map[];
      for k := 0 to 4
        invariant points.Keys == set j | 0 <= j < k :: DrawOrder[j]
        invariant forall p :: p in points ==> points[p] == GetPlayerPoints(p)
      {
        points := points[DrawOrder[k] := GetPlayerPoints(DrawOrder[k])];
      }
      forall p ensures p in points {
        match p
        case South => assert DrawOrder[0] == South;
        case West => assert DrawOrder[1] == West;
        case North => assert DrawOrder[2] == North;
        case East => assert DrawOrder[3] == East;
      }
    }

    /** `resetAllPoints`: every existing player's points become 0; hands are kept. */
    method ResetAllPoints()
      requires Valid()
      modifies Objects()
      ensures forall p :: GetPlayerPoints(p) == 0
      ensures forall p :: players != null ==> players.PlayerAt(p).hand == old(players.PlayerAt(p).hand)
    {
      if players == null {
        return;
      }
      for k := 0 to 4
        invariant forall p :: p in DrawOrder[..k] ==> players.PlayerAt(p).points == 0
        invariant forall p :: players.PlayerAt(p).hand == old(players.PlayerAt(p).hand)
      {
        assert DrawOrder[..k + 1] == DrawOrder[..k] + [DrawOrder[k]];
        players.PlayerAt(DrawOrder[k]).ResetPoints();
      }
      assert DrawOrder[..4] == DrawOrder;
    }
  }
}
