/** Cards, the 52-card deck and the deck's mutating operations (js/cards.js). */
module Cards {
  import opened Wrappers

  datatype Suit = Spades | Hearts | Diamonds | Clubs

  datatype Rank = Two | Three | Four | Five | Six | Seven | Eight | Nine | Ten | Jack | Queen | King | Ace

  /** A card is identified by its rank and suit. */
  datatype Card = Card(rank: Rank, suit: Suit)

  /** The ranks in the order the deck generator lists them: 2 up to A. */
  const Ranks: seq<Rank> := [Two, Three, Four, Five, Six, Seven, Eight, Nine, Ten, Jack, Queen, King, Ace]

  /** The suits in the order the deck generator lists them: ♠, ♥, ♦, ♣. */
  const GenerationSuits: seq<Suit> := [Spades, Hearts, Diamonds, Clubs]

  /** `Card.getValue`: the sorting value of a rank, 2..14, with J=11, Q=12, K=13, A=14.
      The value is the rank's position in `Ranks` plus two, so it is injective. */
  function RankValue(r: Rank): (v: int)
    ensures 2 <= v <= 14
    ensures Ranks[v - 2] == r
  {
    match r
    case Two => 2
    case Three => 3
    case Four => 4
    case Five => 5
    case Six => 6
    case Seven => 7
    case Eight => 8
    case Nine => 9
    case Ten => 10
    case Jack => 11
    case Queen => 12
    case King => 13
    case Ace => 14
  }

  /** Along the rank list 2..A the values strictly increase. */
  lemma RankValueIncreasing(i: int, j: int)
    requires 0 <= i < j < |Ranks|
    ensures RankValue(Ranks[i]) < RankValue(Ranks[j])
    ensures RankValue(Ranks[i]) == i + 2
  {
  }

  /** Position of a suit in generation order. */
  function SuitIndex(s: Suit): (k: nat)
    ensures k < 4 && GenerationSuits[k] == s
  {
    match s
    case Spades => 0
    case Hearts => 1
    case Diamonds => 2
    case Clubs => 3
  }

  /** The fresh deck: suit-major in the order ♠, ♥, ♦, ♣, each suit running 2 up to A. */
  function FullDeck(): (deck: seq<Card>)
    ensures |deck| == 52
    ensures forall k :: 0 <= k < |deck| ==> SuitIndex(deck[k].suit) == k / 13 && RankValue(deck[k].rank) == k % 13 + 2
  {
    var deck := seq(52, k requires 0 <= k < 52 => Card(Ranks[k % 13], GenerationSuits[k / 13]));
    assert forall k :: 0 <= k < |deck| ==> SuitIndex(deck[k].suit) == k / 13 && RankValue(deck[k].rank) == k % 13 + 2 by {
      forall k | 0 <= k < |deck|
        ensures SuitIndex(deck[k].suit) == k / 13 && RankValue(deck[k].rank) == k % 13 + 2
      {
        var q := k / 13;
        assert GenerationSuits[q] == deck[k].suit;
        assert SuitIndex(GenerationSuits[q]) == q;
      }
    }
    deck
  }

  /** Where a card sits in the fresh deck. */
  function DeckIndex(c: Card): (k: nat)
    ensures k < 52
  {
    13 * SuitIndex(c.suit) + RankValue(c.rank) - 2
  }

  lemma DivMod13(q: nat, r: nat)
    requires r < 13
    ensures (13 * q + r) / 13 == q && (13 * q + r) % 13 == r
  {
  }

  /** Every card occurs in the fresh deck, at `DeckIndex`, and each index holds the card it names. */
  lemma FullDeckIndex(c: Card, k: int)
    requires 0 <= k < 52
    ensures |FullDeck()| == 52
    ensures FullDeck()[DeckIndex(c)] == c
    ensures DeckIndex(FullDeck()[k]) == k
  {
    DivMod13(SuitIndex(c.suit), RankValue(c.rank) - 2);
    var s := GenerationSuits[k / 13];
    var r := Ranks[k % 13];
    assert SuitIndex(s) == k / 13;
    assert RankValue(r) - 2 == k % 13;
  }

  /** The fresh deck holds exactly one copy of every card: 52 pairwise-distinct cards. */
  lemma FullDeckExactlyOnce(c: Card)
    ensures multiset(FullDeck())[c] == 1
  {
    var d := FullDeck();
    var k := DeckIndex(c);
    FullDeckIndex(c, k);
    forall i | 0 <= i < |d| && i != k
      ensures d[i] != c
    {
      FullDeckIndex(c, i);
    }
    OccursOnce(d, k, c);
  }

  /** A card found at exactly one index occurs once. */
  lemma OccursOnce(d: seq<Card>, k: nat, c: Card)
    requires k < |d| && d[k] == c
    requires forall i :: 0 <= i < |d| && i != k ==> d[i] != c
    ensures multiset(d)[c] == 1
  {
    assert d == d[..k] + [c] + d[k + 1..];
    assert c !in d[..k];
    assert c !in d[k + 1..];
  }

  /** No card occurs twice. */
  ghost predicate NoDuplicates(cards: seq<Card>)
  {
    forall c :: multiset(cards)[c] <= 1
  }

  /** The cards of suit `s`, in their original order (`cards.filter(c => c.suit === s)`). */
  function CardsOfSuit(cards: seq<Card>, s: Suit): (r: seq<Card>)
    ensures forall i :: 0 <= i < |r| ==> r[i].suit == s
    ensures |r| <= |cards|
  {
    if cards == [] then []
    else
      var init := cards[..|cards| - 1];
      var last := cards[|cards| - 1];
      assert cards == init + [last];
      CardsOfSuit(init, s) + (if last.suit == s then [last] else [])
  }

  /** The filter keeps every copy of every card of suit `s` and nothing else. */
  lemma {:induction false} CardsOfSuitCount(cards: seq<Card>, s: Suit, c: Card)
    ensures multiset(CardsOfSuit(cards, s))[c] == if c.suit == s then multiset(cards)[c] else 0
    decreases |cards|
  {
    if cards != [] {
      var init := cards[..|cards| - 1];
      assert cards == init + [cards[|cards| - 1]];
      CardsOfSuitCount(init, s, c);
    }
  }

  /** Filtering by suit distributes over concatenation: the filter keeps the relative order. */
  lemma {:induction false} CardsOfSuitAppend(a: seq<Card>, b: seq<Card>, s: Suit)
    ensures CardsOfSuit(a + b, s) == CardsOfSuit(a, s) + CardsOfSuit(b, s)
    decreases |b|
  {
    if b == [] {
      assert a + b == a;
    } else {
      var init := b[..|b| - 1];
      var last := b[|b| - 1];
      var tail := if last.suit == s then [last] else [];
      assert b == init + [last];
      assert (a + b)[..|a + b| - 1] == a + init;
      assert (a + b)[|a + b| - 1] == last;
      assert CardsOfSuit(a + b, s) == CardsOfSuit(a + init, s) + tail;
      assert CardsOfSuit(b, s) == CardsOfSuit(init, s) + tail;
      CardsOfSuitAppend(a, init, s);
    }
  }

  /** Filtering a sequence whose cards all have suit `s` keeps all of it. */
  lemma {:induction false} CardsOfSuitAll(cards: seq<Card>, s: Suit)
    requires forall i :: 0 <= i < |cards| ==> cards[i].suit == s
    ensures CardsOfSuit(cards, s) == cards
    decreases |cards|
  {
    if cards != [] {
      var init := cards[..|cards| - 1];
      assert cards == init + [cards[|cards| - 1]];
      CardsOfSuitAll(init, s);
    }
  }

  /** Filtering a sequence with no card of suit `s` gives nothing. */
  lemma {:induction false} CardsOfSuitNone(cards: seq<Card>, s: Suit)
    requires forall i :: 0 <= i < |cards| ==> cards[i].suit != s
    ensures CardsOfSuit(cards, s) == []
    decreases |cards|
  {
    if cards != [] {
      var init := cards[..|cards| - 1];
      assert cards == init + [cards[|cards| - 1]];
      CardsOfSuitNone(init, s);
    }
  }

  // ---------------------------------------------------------------------------
  // Sorting by an integer key: the meaning of `Array.prototype.sort` with a
  // comparator of the form `(a, b) => key(a) - key(b)` (a stable sort).

  ghost predicate SortedBy(s: seq<Card>, key: Card -> int)
  {
    forall i, j :: 0 <= i < j < |s| ==> key(s[i]) <= key(s[j])
  }

  /** Inserts `x` in front of the first element whose key is not smaller. */
  function Insert(x: Card, s: seq<Card>, key: Card -> int): (r: seq<Card>)
    ensures multiset(r) == multiset{x} + multiset(s)
    ensures |r| == |s| + 1
    ensures SortedBy(s, key) ==> SortedBy(r, key)
  {
    if s == [] || key(x) <= key(s[0]) then
      InsertFrontSorted(x, s, key);
      [x] + s
    else
      var rest := Insert(x, s[1..], key);
      assert s == [s[0]] + s[1..];
      InsertAfterSorted(x, s, rest, key);
      [s[0]] + rest
  }

  lemma InsertFrontSorted(x: Card, s: seq<Card>, key: Card -> int)
    requires s == [] || key(x) <= key(s[0])
    ensures SortedBy(s, key) ==> SortedBy([x] + s, key)
  {
    if SortedBy(s, key) {
      var r := [x] + s;
      forall i, j | 0 <= i < j < |r| ensures key(r[i]) <= key(r[j]) {
        if i > 0 {
          assert r[i] == s[i - 1] && r[j] == s[j - 1];
        } else if j > 1 {
          assert key(s[0]) <= key(s[j - 1]);
        }
      }
    }
  }

  lemma InsertAfterSorted(x: Card, s: seq<Card>, rest: seq<Card>, key: Card -> int)
    requires s != [] && key(s[0]) < key(x)
    requires multiset(rest) == multiset{x} + multiset(s[1..])
    requires SortedBy(s[1..], key) ==> SortedBy(rest, key)
    ensures SortedBy(s, key) ==> SortedBy([s[0]] + rest, key)
  {
    if SortedBy(s, key) {
      assert SortedBy(s[1..], key);
      var r := [s[0]] + rest;
      forall i, j | 0 <= i < j < |r| ensures key(r[i]) <= key(r[j]) {
        if i > 0 {
          assert r[i] == rest[i - 1] && r[j] == rest[j - 1];
        } else {
          var y := rest[j - 1];
          assert y in multiset(rest);
          assert y == x || y in s[1..];
          if y != x {
            var k :| 0 <= k < |s[1..]| && s[1..][k] == y;
            assert s[k + 1] == y;
          }
        }
      }
    }
  }

  /** A stable insertion sort by `key`. */
  function SortBy(s: seq<Card>, key: Card -> int): (r: seq<Card>)
    ensures multiset(r) == multiset(s)
    ensures |r| == |s|
    ensures SortedBy(r, key)
  {
    if s == [] then []
    else
      assert s == [s[0]] + s[1..];
      Insert(s[0], SortBy(s[1..], key), key)
  }

  /** Sorting an already sorted sequence leaves it unchanged. */
  lemma {:induction false} SortByFixpoint(s: seq<Card>, key: Card -> int)
    requires SortedBy(s, key)
    ensures SortBy(s, key) == s
    decreases |s|
  {
    if s != [] {
      assert SortedBy(s[1..], key);
      SortByFixpoint(s[1..], key);
    }
  }

  /** Sorting twice is sorting once. */
  lemma SortByIdempotent(s: seq<Card>, key: Card -> int)
    ensures SortBy(SortBy(s, key), key) == SortBy(s, key)
  {
    SortByFixpoint(SortBy(s, key), key);
  }

  // ---------------------------------------------------------------------------
  // The deck object.

  datatype DealError = InsufficientCards

  /** `Deck`: the cards still in the deck, top first. */
  class Deck {
    var cards: seq<Card>

    /** `new Deck()`: a fresh, unshuffled 52-card deck. */
    constructor ()
      ensures cards == FullDeck()
    {
      cards := [];
      new;
      InitializeDeck();
    }

    /** `initializeDeck`: replaces the cards by the fresh deck, built suit by suit. */
    method InitializeDeck()
      modifies this
      ensures cards == FullDeck()
    {
      cards := [];
      for si := 0 to 4
        invariant cards == FullDeck()[..13 * si]
      {
        for ri := 0 to 13
          invariant cards == FullDeck()[..13 * si + ri]
        {
          DivMod13(si, ri);
          assert FullDeck()[..13 * si + ri + 1] == FullDeck()[..13 * si + ri] + [FullDeck()[13 * si + ri]];
          cards := cards + [Card(Ranks[ri], GenerationSuits[si])];
        }
      }
    }

    /** `shuffle`: Fisher–Yates. For i from the last index down to 1, swap position i with some
        j in [0, i]; the random choice of j is left arbitrary. The result is a permutation. */
    method Shuffle()
      modifies this
      ensures |cards| == |old(cards)|
      ensures multiset(cards) == multiset(old(cards))
    {
      var i := |cards| - 1;
      while i > 0
        invariant |cards| == |old(cards)|
        invariant i < |cards|
        invariant multiset(cards) == multiset(old(cards))
      {
        var j :| 0 <= j <= i;
        cards := cards[i := cards[j]][j := cards[i]];
        i := i - 1;
      }
    }

    /** `deal(n)`: fails, leaving the deck as it is, when n exceeds the remaining cards; otherwise
        removes and returns the first n cards (`splice(0, n)`; a negative n removes nothing). */
    method Deal(n: int) returns (r: Result<seq<Card>, DealError>)
      modifies this
      ensures n > |old(cards)| <==> r.Err?
      ensures r.Err? ==> cards == old(cards)
      ensures r.Ok? ==> r.value + cards == old(cards)
      ensures r.Ok? ==> |r.value| == (if n < 0 then 0 else n)
      ensures r.Ok? ==> |cards| == |old(cards)| - |r.value|
    {
      if n > |cards| {
        return Err(InsufficientCards);
      }
      var k := if n < 0 then 0 else n;
      r := Ok(cards[..k]);
      assert cards[..k] + cards[k..] == cards;
      cards := cards[k..];
    }

    /** `getRemainingCount`. */
    method GetRemainingCount() returns (n: nat)
      ensures n == |cards|
    {
      n := |cards|;
    }
  }
}
