/** The display ordering of a hand, `Deck.sortCards` (js/cards.js): suits grouped in blocks,
    the blocks of the two colours interleaved, each block ascending by card value. */
module CardSort {
  import opened Cards

  /** The suit precedence before interleaving: ♠, ♣, ♥, ♦. */
  const DisplaySuits: seq<Suit> := [Spades, Clubs, Hearts, Diamonds]

  /** ♠ and ♣ are black; ♥ and ♦ are red. */
  predicate IsBlack(s: Suit)
  {
    s == Spades || s == Clubs
  }

  /** Position of a suit in `DisplaySuits`. */
  function DisplayRank(s: Suit): (k: nat)
    ensures k < 4 && DisplaySuits[k] == s
  {
    match s
    case Spades => 0
    case Clubs => 1
    case Hearts => 2
    case Diamonds => 3
  }

  /** Some card of the hand has suit `s` (`cards.some(c => c.suit === s)`). */
  predicate HasSuit(cards: seq<Card>, s: Suit)
  {
    exists i :: 0 <= i < |cards| && cards[i].suit == s
  }

  /** The suits flagged present, in display precedence. */
  function SuitsWhere(spades: bool, clubs: bool, hearts: bool, diamonds: bool): seq<Suit>
  {
    (if spades then [Spades] else [])
    + (if clubs then [Clubs] else [])
    + (if hearts then [Hearts] else [])
    + (if diamonds then [Diamonds] else [])
  }

  /** The suits present in the hand, in display precedence
      (`suitOrder.filter(suit => cards.some(c => c.suit === suit))`). */
  function PresentSuits(cards: seq<Card>): seq<Suit>
  {
    SuitsWhere(HasSuit(cards, Spades), HasSuit(cards, Clubs), HasSuit(cards, Hearts), HasSuit(cards, Diamonds))
  }

  /** Number of present suits of one colour. */
  function ColourCount(cards: seq<Card>, black: bool): nat
  {
    if black then
      (if HasSuit(cards, Spades) then 1 else 0) + (if HasSuit(cards, Clubs) then 1 else 0)
    else
      (if HasSuit(cards, Hearts) then 1 else 0) + (if HasSuit(cards, Diamonds) then 1 else 0)
  }

  /** The suits of `suits` whose colour is black (`black`) or red (`!black`), order kept. */
  function OfColour(suits: seq<Suit>, black: bool): (r: seq<Suit>)
    ensures forall i :: 0 <= i < |r| ==> IsBlack(r[i]) == black
  {
    if suits == [] then []
    else
      OfColour(suits[..|suits| - 1], black)
      + (if IsBlack(suits[|suits| - 1]) == black then [suits[|suits| - 1]] else [])
  }

  /** `[x[i]]` when x has an i-th element, nothing otherwise. */
  function Pick(x: seq<Suit>, i: nat): seq<Suit>
  {
    if i < |x| then [x[i]] else []
  }

  /** The first n rounds of the interleaving loop: round i emits first[i], then second[i]. */
  function AlternateUpTo(first: seq<Suit>, second: seq<Suit>, n: nat): seq<Suit>
  {
    if n == 0 then []
    else AlternateUpTo(first, second, n - 1) + Pick(first, n - 1) + Pick(second, n - 1)
  }

  /** The final suit order: interleave the colours, starting with red only when red has
      strictly more present suits; with one colour only, the present suits in precedence. */
  function SuitSequence(cards: seq<Card>): (r: seq<Suit>)
    ensures forall i :: 0 <= i < |r| ==> HasSuit(cards, r[i])
  {
    var present := PresentSuits(cards);
    var black := OfColour(present, true);
    var red := OfColour(present, false);
    PresentSuitsExact(cards);
    OfColourMembers(present, true);
    OfColourMembers(present, false);
    if |black| > 0 && |red| > 0 then
      var maxLength := if |black| >= |red| then |black| else |red|;
      if |red| > |black| then
        AlternateMembers(red, black, maxLength);
        AlternateUpTo(red, black, maxLength)
      else
        AlternateMembers(black, red, maxLength);
        AlternateUpTo(black, red, maxLength)
    else present
  }

  /** Sorting value of a card. */
  function ValueKey(c: Card): int
  {
    RankValue(c.rank)
  }

  /** The cards of suit `s`, ascending by value. */
  function SuitBlock(cards: seq<Card>, s: Suit): (r: seq<Card>)
    ensures forall i :: 0 <= i < |r| ==> r[i].suit == s
    ensures SortedBy(r, ValueKey)
  {
    var filtered := CardsOfSuit(cards, s);
    var r := SortBy(filtered, ValueKey);
    assert forall i :: 0 <= i < |r| ==> r[i].suit == s by {
      forall i | 0 <= i < |r| ensures r[i].suit == s {
        assert r[i] in multiset(filtered);
      }
    }
    r
  }

  /** The blocks of the suits of `order`, one after the other. */
  function Gather(cards: seq<Card>, order: seq<Suit>): seq<Card>
  {
    if order == [] then []
    else Gather(cards, order[..|order| - 1]) + SuitBlock(cards, order[|order| - 1])
  }

  /** What `Deck.sortCards` returns; an empty hand is returned as it is. */
  function DisplayOrder(cards: seq<Card>): (r: seq<Card>)
    ensures forall i :: 0 <= i < |r| ==> HasSuit(cards, r[i].suit)
  {
    if |cards| == 0 then cards
    else
      GatherSuits(cards, SuitSequence(cards));
      Gather(cards, SuitSequence(cards))
  }

  /** `Deck.sortCards`: find the present suits, split them by colour, interleave the colours,
      then emit each suit's cards ascending by value. */
  method SortCards(cards: seq<Card>) returns (result: seq<Card>)
    ensures result == DisplayOrder(cards)
  {
    if |cards| == 0 {
      return cards;
    }
    var presentSuits := PresentSuits(cards);
    var blackSuits, redSuits := SplitByColour(presentSuits);
    var finalOrder: seq<Suit>;
    if |blackSuits| > 0 && |redSuits| > 0 {
      finalOrder := Interleave(blackSuits, redSuits);
    } else {
      finalOrder := presentSuits;
    }
    result := GatherBlocks(cards, finalOrder);
  }

  /** The colour-split loop of `sortCards`. */
  method SplitByColour(presentSuits: seq<Suit>) returns (blackSuits: seq<Suit>, redSuits: seq<Suit>)
    ensures blackSuits == OfColour(presentSuits, true)
    ensures redSuits == OfColour(presentSuits, false)
  {
    blackSuits, redSuits := [], [];
    for k := 0 to |presentSuits|
      invariant blackSuits == OfColour(presentSuits[..k], true)
      invariant redSuits == OfColour(presentSuits[..k], false)
    {
      assert presentSuits[..k + 1][..k] == presentSuits[..k];
      var suit := presentSuits[k];
      if suit == Spades || suit == Clubs {
        blackSuits := blackSuits + [suit];
      } else {
        redSuits := redSuits + [suit];
      }
    }
    assert presentSuits[..|presentSuits|] == presentSuits;
  }

  /** The interleaving loop of `sortCards`, entered when both colours are present. */
  method Interleave(blackSuits: seq<Suit>, redSuits: seq<Suit>) returns (finalOrder: seq<Suit>)
    ensures var maxLength := if |blackSuits| >= |redSuits| then |blackSuits| else |redSuits|;
            finalOrder == if |redSuits| > |blackSuits| then AlternateUpTo(redSuits, blackSuits, maxLength)
                          else AlternateUpTo(blackSuits, redSuits, maxLength)
  {
    finalOrder := [];
    var maxLength := if |blackSuits| >= |redSuits| then |blackSuits| else |redSuits|;
    var startWithRed := |redSuits| > |blackSuits|;
    for i := 0 to maxLength
      invariant finalOrder == if startWithRed then AlternateUpTo(redSuits, blackSuits, i)
                              else AlternateUpTo(blackSuits, redSuits, i)
    {
      if startWithRed {
        if i < |redSuits| {
          finalOrder := finalOrder + [redSuits[i]];
        }
        if i < |blackSuits| {
          finalOrder := finalOrder + [blackSuits[i]];
        }
      } else {
        if i < |blackSuits| {
          finalOrder := finalOrder + [blackSuits[i]];
        }
        if i < |redSuits| {
          finalOrder := finalOrder + [redSuits[i]];
        }
      }
    }
  }

  /** The output loop of `sortCards`: for each suit of the final order, its cards by value. */
  method GatherBlocks(cards: seq<Card>, finalOrder: seq<Suit>) returns (result: seq<Card>)
    ensures result == Gather(cards, finalOrder)
  {
    result := [];
    for k := 0 to |finalOrder|
      invariant result == Gather(cards, finalOrder[..k])
    {
      assert finalOrder[..k + 1][..k] == finalOrder[..k];
      var cardsOfSuit := SortBy(CardsOfSuit(cards, finalOrder[k]), ValueKey);
      result := result + cardsOfSuit;
    }
    assert finalOrder[..|finalOrder|] == finalOrder;
  }

  // ---------------------------------------------------------------------------
  // The suit order holds each present suit exactly once.

  lemma PresentSuitsCount(cards: seq<Card>, t: Suit)
    ensures multiset(PresentSuits(cards))[t] == if HasSuit(cards, t) then 1 else 0
  {
    SuitsWhereCount(HasSuit(cards, Spades), HasSuit(cards, Clubs), HasSuit(cards, Hearts), HasSuit(cards, Diamonds), t);
  }

  lemma SuitsWhereCount(spades: bool, clubs: bool, hearts: bool, diamonds: bool, t: Suit)
    ensures multiset(SuitsWhere(spades, clubs, hearts, diamonds))[t]
         == if (t == Spades && spades) || (t == Clubs && clubs) || (t == Hearts && hearts) || (t == Diamonds && diamonds)
            then 1 else 0
  {
    SuitsWhereMultiset(spades, clubs, hearts, diamonds);
  }

  lemma SuitsWhereMultiset(spades: bool, clubs: bool, hearts: bool, diamonds: bool)
    ensures multiset(SuitsWhere(spades, clubs, hearts, diamonds))
         == (if spades then multiset{Spades} else multiset{}) + (if clubs then multiset{Clubs} else multiset{})
          + (if hearts then multiset{Hearts} else multiset{}) + (if diamonds then multiset{Diamonds} else multiset{})
  {
    var s, c := if spades then [Spades] else [], if clubs then [Clubs] else [];
    var h, d := if hearts then [Hearts] else [], if diamonds then [Diamonds] else [];
    assert SuitsWhere(spades, clubs, hearts, diamonds) == s + c + h + d;
    assert multiset(s + c + h + d) == multiset(s) + multiset(c) + multiset(h) + multiset(d);
  }

  lemma {:induction false} OfColourSplit(suits: seq<Suit>, t: Suit)
    ensures multiset(OfColour(suits, true))[t] + multiset(OfColour(suits, false))[t] == multiset(suits)[t]
    decreases |suits|
  {
    if suits != [] {
      var init := suits[..|suits| - 1];
      assert suits == init + [suits[|suits| - 1]];
      OfColourSplit(init, t);
    }
  }

  /** The first n elements of x, or all of x when it is shorter. */
  function Prefix(x: seq<Suit>, n: nat): seq<Suit>
  {
    if n <= |x| then x[..n] else x
  }

  lemma PrefixStep(x: seq<Suit>, n: nat)
    requires n > 0
    ensures Prefix(x, n) == Prefix(x, n - 1) + Pick(x, n - 1)
  {
    if n <= |x| {
      assert x[..n] == x[..n - 1] + [x[n - 1]];
    }
  }

  lemma AlternateStepCount(first: seq<Suit>, second: seq<Suit>, n: nat, t: Suit)
    requires n > 0
    ensures multiset(AlternateUpTo(first, second, n))[t]
         == multiset(AlternateUpTo(first, second, n - 1))[t]
          + multiset(Pick(first, n - 1))[t] + multiset(Pick(second, n - 1))[t]
  {
  }

  lemma PrefixStepCount(x: seq<Suit>, n: nat, t: Suit)
    requires n > 0
    ensures multiset(Prefix(x, n))[t] == multiset(Prefix(x, n - 1))[t] + multiset(Pick(x, n - 1))[t]
  {
    PrefixStep(x, n);
  }

  /** After n rounds the interleaving holds exactly the first n suits of each list. */
  lemma AlternateUpToCount(first: seq<Suit>, second: seq<Suit>, n: nat, t: Suit)
    ensures multiset(AlternateUpTo(first, second, n))[t]
         == multiset(Prefix(first, n))[t] + multiset(Prefix(second, n))[t]
  {
    assert Prefix(first, 0) == [] && Prefix(second, 0) == [];
    for i := 0 to n
      invariant multiset(AlternateUpTo(first, second, i))[t]
             == multiset(Prefix(first, i))[t] + multiset(Prefix(second, i))[t]
    {
      AlternateStepCount(first, second, i + 1, t);
      PrefixStepCount(first, i + 1, t);
      PrefixStepCount(second, i + 1, t);
    }
  }

  /** Running the interleaving to the longer length emits every suit of both lists. */
  lemma AlternateAll(first: seq<Suit>, second: seq<Suit>, n: nat, t: Suit)
    requires |first| <= n && |second| <= n
    ensures multiset(AlternateUpTo(first, second, n))[t] == multiset(first)[t] + multiset(second)[t]
  {
    AlternateUpToCount(first, second, n, t);
    assert Prefix(first, n) == first;
    assert Prefix(second, n) == second;
  }

  /** The interleaved order holds exactly the present suits, each once. */
  lemma SuitSequenceCount(cards: seq<Card>, t: Suit)
    ensures multiset(SuitSequence(cards))[t] == if HasSuit(cards, t) then 1 else 0
  {
    var present := PresentSuits(cards);
    var black := OfColour(present, true);
    var red := OfColour(present, false);
    PresentSuitsCount(cards, t);
    OfColourSplit(present, t);
    if |black| > 0 && |red| > 0 {
      var maxLength := if |black| >= |red| then |black| else |red|;
      if |red| > |black| {
        AlternateAll(red, black, maxLength, t);
      } else {
        AlternateAll(black, red, maxLength, t);
      }
    }
  }

  // ---------------------------------------------------------------------------
  // Permutation.

  /** Each suit of a repetition-free order contributes its block once. */
  lemma {:induction false} GatherCount(cards: seq<Card>, order: seq<Suit>, x: Card)
    requires forall t :: multiset(order)[t] <= 1
    ensures multiset(Gather(cards, order))[x] == if x.suit in order then multiset(cards)[x] else 0
    decreases |order|
  {
    if order != [] {
      var init := order[..|order| - 1];
      var last := order[|order| - 1];
      assert order == init + [last];
      assert forall t :: multiset(init)[t] <= multiset(order)[t];
      GatherCount(cards, init, x);
      CardsOfSuitCount(cards, last, x);
      assert last !in init by {
        assert multiset(order)[last] == multiset(init)[last] + 1;
      }
    }
  }

  /** `sortCards` returns a permutation of its input: same length, same cards, same multiplicities. */
  lemma DisplayOrderPermutes(cards: seq<Card>)
    ensures multiset(DisplayOrder(cards)) == multiset(cards)
    ensures |DisplayOrder(cards)| == |cards|
  {
    if |cards| > 0 {
      GatherBySuitSequence(cards);
      assert DisplayOrder(cards) == Gather(cards, SuitSequence(cards));
      assert |DisplayOrder(cards)| == |multiset(DisplayOrder(cards))|;
    }
  }

  /** Gathering the blocks of the interleaved suit order keeps every card, once per copy. */
  lemma GatherBySuitSequence(cards: seq<Card>)
    ensures multiset(Gather(cards, SuitSequence(cards))) == multiset(cards)
  {
    var order := SuitSequence(cards);
    forall t ensures multiset(order)[t] <= 1 {
      SuitSequenceCount(cards, t);
    }
    forall x ensures multiset(Gather(cards, order))[x] == multiset(cards)[x] {
      GatherCount(cards, order, x);
      SuitSequenceCount(cards, x.suit);
      if x in cards {
        var i :| 0 <= i < |cards| && cards[i] == x;
        assert HasSuit(cards, x.suit);
      }
    }
    assert multiset(Gather(cards, order)) == multiset(cards);
  }

  // ---------------------------------------------------------------------------
  // Suit blocks: contiguous, in the order of the suit sequence, ascending inside.

  /** Position of a suit in an order that contains it. */
  function IndexOf(order: seq<Suit>, x: Suit): (k: nat)
    requires x in order
    ensures k < |order| && order[k] == x
  {
    if order[0] == x then 0 else 1 + IndexOf(order[1..], x)
  }

  /** No suit repeats. */
  ghost predicate Distinct(order: seq<Suit>)
  {
    forall t :: multiset(order)[t] <= 1
  }

  /** Every card's suit is in `order`; a card precedes another only if its suit comes earlier
      in `order`, or both have the same suit and its value is not larger. */
  ghost predicate BlocksInOrder(r: seq<Card>, order: seq<Suit>)
  {
    && (forall i :: 0 <= i < |r| ==> r[i].suit in order)
    && (forall i, j :: 0 <= i < j < |r| ==>
          IndexOf(order, r[i].suit) < IndexOf(order, r[j].suit)
          || (r[i].suit == r[j].suit && RankValue(r[i].rank) <= RankValue(r[j].rank)))
  }

  lemma {:induction false} IndexOfAppend(init: seq<Suit>, last: Suit, x: Suit)
    requires x in init + [last]
    ensures x in init ==> IndexOf(init + [last], x) == IndexOf(init, x)
    ensures x !in init ==> x == last && IndexOf(init + [last], x) == |init|
    decreases |init|
  {
    if init != [] {
      assert (init + [last])[1..] == init[1..] + [last];
      if init[0] != x {
        IndexOfAppend(init[1..], last, x);
      }
    }
  }

  /** Dropping the last suit of a repetition-free order. */
  lemma DistinctSplit(order: seq<Suit>)
    requires Distinct(order) && order != []
    ensures Distinct(order[..|order| - 1])
    ensures order[|order| - 1] !in order[..|order| - 1]
  {
    var init := order[..|order| - 1];
    var last := order[|order| - 1];
    assert order == init + [last];
    forall t ensures multiset(init)[t] <= 1 {
      assert multiset(order)[t] == multiset(init)[t] + multiset([last])[t];
    }
    assert multiset(order)[last] == multiset(init)[last] + 1;
  }

  /** Appending the block of a new suit keeps the layout in order. */
  lemma BlocksInOrderAppend(g: seq<Card>, b: seq<Card>, init: seq<Suit>, last: Suit)
    requires BlocksInOrder(g, init)
    requires last !in init
    requires forall i :: 0 <= i < |b| ==> b[i].suit == last
    requires SortedBy(b, ValueKey)
    ensures BlocksInOrder(g + b, init + [last])
  {
    var order := init + [last];
    var r := g + b;
    forall i | 0 <= i < |g| ensures IndexOf(order, g[i].suit) == IndexOf(init, g[i].suit) < |init| {
      IndexOfAppend(init, last, g[i].suit);
    }
    IndexOfAppend(init, last, last);
    forall i | 0 <= i < |r| ensures r[i].suit in order {
      if i >= |g| {
        assert r[i] == b[i - |g|];
      }
    }
    forall i, j | 0 <= i < j < |r|
      ensures IndexOf(order, r[i].suit) < IndexOf(order, r[j].suit)
           || (r[i].suit == r[j].suit && RankValue(r[i].rank) <= RankValue(r[j].rank))
    {
      if j < |g| {
        assert r[i] == g[i] && r[j] == g[j];
      } else if i < |g| {
        assert r[i] == g[i] && r[j] == b[j - |g|];
      } else {
        assert r[i] == b[i - |g|] && r[j] == b[j - |g|];
        assert ValueKey(b[i - |g|]) <= ValueKey(b[j - |g|]);
      }
    }
  }

  lemma {:induction false} GatherInOrder(cards: seq<Card>, order: seq<Suit>)
    requires Distinct(order)
    ensures BlocksInOrder(Gather(cards, order), order)
    decreases |order|
  {
    if order == [] {
      assert Gather(cards, order) == [];
    } else {
      var init := order[..|order| - 1];
      var last := order[|order| - 1];
      assert order == init + [last];
      DistinctSplit(order);
      GatherInOrder(cards, init);
      BlocksInOrderAppend(Gather(cards, init), SuitBlock(cards, last), init, last);
    }
  }

  /** The output of `sortCards` is made of suit blocks laid out in the order of
      `SuitSequence`, each block ascending by value. */
  lemma DisplayOrderInBlocks(cards: seq<Card>)
    ensures BlocksInOrder(DisplayOrder(cards), SuitSequence(cards))
  {
    if |cards| > 0 {
      forall t ensures multiset(SuitSequence(cards))[t] <= 1 {
        SuitSequenceCount(cards, t);
      }
      GatherInOrder(cards, SuitSequence(cards));
    }
  }

  /** Consequences of the block layout: a suit's cards are contiguous and ascend by value. */
  lemma DisplayOrderContiguous(cards: seq<Card>)
    ensures var r := DisplayOrder(cards);
            forall i, j, k :: 0 <= i < j < k < |r| && r[i].suit == r[k].suit ==> r[j].suit == r[i].suit
    ensures var r := DisplayOrder(cards);
            forall i, j :: 0 <= i < j < |r| && r[i].suit == r[j].suit ==> RankValue(r[i].rank) <= RankValue(r[j].rank)
  {
    var r := DisplayOrder(cards);
    var o := SuitSequence(cards);
    DisplayOrderInBlocks(cards);
    forall i, j, k | 0 <= i < j < k < |r| && r[i].suit == r[k].suit
      ensures r[j].suit == r[i].suit
    {
      assert IndexOf(o, r[i].suit) <= IndexOf(o, r[j].suit) <= IndexOf(o, r[k].suit);
    }
  }

  // ---------------------------------------------------------------------------
  // The colour pattern of the suit sequence.

  lemma {:induction false} OfColourAppend(a: seq<Suit>, b: seq<Suit>, black: bool)
    ensures OfColour(a + b, black) == OfColour(a, black) + OfColour(b, black)
    decreases |b|
  {
    if b == [] {
      assert a + b == a;
    } else {
      var init := b[..|b| - 1];
      assert b == init + [b[|b| - 1]];
      assert (a + b)[..|a + b| - 1] == a + init;
      OfColourAppend(a, init, black);
    }
  }

  lemma {:induction false} OfColourFour(s: seq<Suit>, c: seq<Suit>, h: seq<Suit>, d: seq<Suit>, black: bool)
    ensures OfColour(s + c + h + d, black)
         == OfColour(s, black) + OfColour(c, black) + OfColour(h, black) + OfColour(d, black)
  {
    OfColourAppend(s + c + h, d, black);
    OfColourAppend(s + c, h, black);
    OfColourAppend(s, c, black);
  }

  /** One conditional singleton contributes one suit of its colour when its flag is set. */
  lemma SingletonByColour(flag: bool, x: Suit, black: bool)
    ensures |OfColour(if flag then [x] else [], black)| == if flag && IsBlack(x) == black then 1 else 0
  {
    var s: seq<Suit> := if flag then [x] else [];
    OfColourAtMostOne(s, black);
  }

  lemma SuitsWhereByColour(spades: bool, clubs: bool, hearts: bool, diamonds: bool, black: bool)
    ensures |OfColour(SuitsWhere(spades, clubs, hearts, diamonds), black)|
         == if black then (if spades then 1 else 0) + (if clubs then 1 else 0)
            else (if hearts then 1 else 0) + (if diamonds then 1 else 0)
  {
    var s: seq<Suit> := if spades then [Spades] else [];
    var c: seq<Suit> := if clubs then [Clubs] else [];
    var h: seq<Suit> := if hearts then [Hearts] else [];
    var d: seq<Suit> := if diamonds then [Diamonds] else [];
    assert SuitsWhere(spades, clubs, hearts, diamonds) == s + c + h + d;
    OfColourFour(s, c, h, d, black);
    SingletonByColour(spades, Spades, black);
    SingletonByColour(clubs, Clubs, black);
    SingletonByColour(hearts, Hearts, black);
    SingletonByColour(diamonds, Diamonds, black);
  }

  /** The suits `sortCards` finds are exactly the suits held, each once, in the precedence
      ♠, ♣, ♥, ♦. */
  lemma PresentSuitsExact(cards: seq<Card>)
    ensures var r := PresentSuits(cards);
            && (forall s :: s in r <==> HasSuit(cards, s))
            && forall i, j :: 0 <= i < j < |r| ==> DisplayRank(r[i]) < DisplayRank(r[j])
  {
    var sp, cl, he, di := HasSuit(cards, Spades), HasSuit(cards, Clubs), HasSuit(cards, Hearts), HasSuit(cards, Diamonds);
    forall s ensures s in PresentSuits(cards) <==> HasSuit(cards, s) {
      SuitsWhereMembers(sp, cl, he, di, s);
    }
    SuitsWhereRanked(sp, cl, he, di);
  }

  lemma SuitsWhereMembers(spades: bool, clubs: bool, hearts: bool, diamonds: bool, t: Suit)
    ensures t in SuitsWhere(spades, clubs, hearts, diamonds)
        <==> match t case Spades => spades case Clubs => clubs case Hearts => hearts case Diamonds => diamonds
  {
    var s, c := if spades then [Spades] else [], if clubs then [Clubs] else [];
    var h, d := if hearts then [Hearts] else [], if diamonds then [Diamonds] else [];
    assert SuitsWhere(spades, clubs, hearts, diamonds) == s + c + h + d;
    assert t in s + c + h + d <==> t in s || t in c || t in h || t in d;
  }

  ghost predicate Ranked(x: seq<Suit>)
  {
    forall i, j :: 0 <= i < j < |x| ==> DisplayRank(x[i]) < DisplayRank(x[j])
  }

  lemma SuitsWhereRanked(spades: bool, clubs: bool, hearts: bool, diamonds: bool)
    ensures Ranked(SuitsWhere(spades, clubs, hearts, diamonds))
  {
    var s, c := if spades then [Spades] else [], if clubs then [Clubs] else [];
    var h, d := if hearts then [Hearts] else [], if diamonds then [Diamonds] else [];
    RankedConcat(s, c);
    RankedConcat(s + c, h);
    RankedConcat(s + c + h, d);
  }

  lemma RankedConcat(x: seq<Suit>, y: seq<Suit>)
    requires Ranked(x) && |y| <= 1
    requires forall a, b :: a in x && b in y ==> DisplayRank(a) < DisplayRank(b)
    ensures Ranked(x + y)
  {
    var z := x + y;
    forall i, j | 0 <= i < j < |z| ensures DisplayRank(z[i]) < DisplayRank(z[j]) {
      if j >= |x| {
        assert z[j] in y && z[i] in x;
      }
    }
  }

  lemma {:induction false} OfColourMembers(suits: seq<Suit>, black: bool)
    ensures forall s :: s in OfColour(suits, black) ==> s in suits
    decreases |suits|
  {
    if suits != [] {
      OfColourMembers(suits[..|suits| - 1], black);
    }
  }

  lemma {:induction false} AlternateMembers(first: seq<Suit>, second: seq<Suit>, n: nat)
    ensures forall s :: s in AlternateUpTo(first, second, n) ==> s in first || s in second
  {
    if n > 0 {
      AlternateMembers(first, second, n - 1);
    }
  }

  /** The numbers of black and red suits the split loop finds. */
  lemma PresentByColour(cards: seq<Card>)
    ensures |OfColour(PresentSuits(cards), true)| == ColourCount(cards, true)
    ensures |OfColour(PresentSuits(cards), false)| == ColourCount(cards, false)
  {
    var sp, cl, he, di := HasSuit(cards, Spades), HasSuit(cards, Clubs), HasSuit(cards, Hearts), HasSuit(cards, Diamonds);
    SuitsWhereByColour(sp, cl, he, di, true);
    SuitsWhereByColour(sp, cl, he, di, false);
  }

  lemma OfColourAtMostOne(x: seq<Suit>, black: bool)
    requires |x| <= 1
    ensures OfColour(x, black) == if x != [] && IsBlack(x[0]) == black then x else []
  {
    if x == [] {
      assert OfColour(x, black) == [];
    } else {
      assert x[..|x| - 1] == [];
      assert OfColour(x[..|x| - 1], black) == [];
    }
  }

  /** Rounds 1..n of the interleaving, when `first` has the same length as `second` or one
      more: colours alternate, starting with the colour of `first`. */
  lemma {:induction false} AlternatePattern(first: seq<Suit>, second: seq<Suit>, n: nat, firstBlack: bool)
    requires forall i :: 0 <= i < |first| ==> IsBlack(first[i]) == firstBlack
    requires forall i :: 0 <= i < |second| ==> IsBlack(second[i]) != firstBlack
    requires |second| <= |first| <= |second| + 1
    requires n <= |first|
    ensures var a := AlternateUpTo(first, second, n);
            && |a| == n + (if n <= |second| then n else |second|)
            && forall k :: 0 <= k < |a| ==> (IsBlack(a[k]) <==> ((k % 2 == 0) == firstBlack))
  {
    if n > 0 {
      AlternatePattern(first, second, n - 1, firstBlack);
      var prev := AlternateUpTo(first, second, n - 1);
      var a := AlternateUpTo(first, second, n);
      assert |prev| == 2 * (n - 1);
      assert a == prev + [first[n - 1]] + Pick(second, n - 1);
      forall k | 0 <= k < |a| ensures IsBlack(a[k]) <==> ((k % 2 == 0) == firstBlack) {
        if k < |prev| {
          assert a[k] == prev[k];
        } else if k == |prev| {
          assert a[k] == first[n - 1];
        } else {
          assert a[k] == second[n - 1];
        }
      }
    } else {
      assert AlternateUpTo(first, second, 0) == [];
    }
  }

  lemma SuitSequenceInterleaves(cards: seq<Card>)
    requires |OfColour(PresentSuits(cards), true)| > 0 && |OfColour(PresentSuits(cards), false)| > 0
    ensures var black, red := OfColour(PresentSuits(cards), true), OfColour(PresentSuits(cards), false);
            SuitSequence(cards) == if |red| > |black| then AlternateUpTo(red, black, |red|)
                                   else AlternateUpTo(black, red, |black|)
  {
  }

  /** Interleaving a run of one colour with a run of the other, no longer than it and at most
      one shorter, gives alternating colours starting with the first run's colour. */
  lemma AlternateColours(first: seq<Suit>, second: seq<Suit>, firstBlack: bool)
    requires forall i :: 0 <= i < |first| ==> IsBlack(first[i]) == firstBlack
    requires forall i :: 0 <= i < |second| ==> IsBlack(second[i]) != firstBlack
    requires 0 < |second| <= |first| <= |second| + 1
    ensures var a := AlternateUpTo(first, second, |first|);
            && |a| == |first| + |second|
            && IsBlack(a[0]) == firstBlack
            && forall k :: 0 <= k < |a| - 1 ==> IsBlack(a[k]) != IsBlack(a[k + 1])
  {
    AlternatePattern(first, second, |first|, firstBlack);
    var a := AlternateUpTo(first, second, |first|);
    forall k | 0 <= k < |a| - 1 ensures IsBlack(a[k]) != IsBlack(a[k + 1]) {
      assert (k % 2 == 0) != ((k + 1) % 2 == 0);
    }
  }

  /** With both colours present: black leads unless red has strictly more suits, and no two
      adjacent suit blocks share a colour. */
  lemma SuitSequenceAlternates(cards: seq<Card>)
    requires ColourCount(cards, true) > 0 && ColourCount(cards, false) > 0
    ensures var o := SuitSequence(cards);
            && |o| == ColourCount(cards, true) + ColourCount(cards, false)
            && (IsBlack(o[0]) <==> ColourCount(cards, true) >= ColourCount(cards, false))
            && forall k :: 0 <= k < |o| - 1 ==> IsBlack(o[k]) != IsBlack(o[k + 1])
  {
    PresentByColour(cards);
    var black := OfColour(PresentSuits(cards), true);
    var red := OfColour(PresentSuits(cards), false);
    SuitSequenceInterleaves(cards);
    if |red| > |black| {
      AlternateColours(red, black, false);
    } else {
      AlternateColours(black, red, true);
    }
  }

  /** With one colour only, the suits come in the fixed precedence ♠, ♣, ♥, ♦. */
  lemma SuitSequenceOneColour(cards: seq<Card>)
    requires ColourCount(cards, true) == 0 || ColourCount(cards, false) == 0
    ensures var o := SuitSequence(cards);
            && o == PresentSuits(cards)
            && forall i, j :: 0 <= i < j < |o| ==> DisplayRank(o[i]) < DisplayRank(o[j])
  {
    PresentByColour(cards);
    var s := if HasSuit(cards, Spades) then [Spades] else [];
    var c := if HasSuit(cards, Clubs) then [Clubs] else [];
    var h := if HasSuit(cards, Hearts) then [Hearts] else [];
    var d := if HasSuit(cards, Diamonds) then [Diamonds] else [];
    assert PresentSuits(cards) == s + c + h + d;
    if ColourCount(cards, true) == 0 {
      assert PresentSuits(cards) == h + d;
    } else {
      assert PresentSuits(cards) == s + c;
    }
  }

  // ---------------------------------------------------------------------------
  // Idempotence.

  lemma SameSuitsPresent(a: seq<Card>, b: seq<Card>, t: Suit)
    requires multiset(a) == multiset(b)
    ensures HasSuit(a, t) == HasSuit(b, t)
  {
    if HasSuit(a, t) {
      var i :| 0 <= i < |a| && a[i].suit == t;
      assert a[i] in multiset(b);
    }
    if HasSuit(b, t) {
      var i :| 0 <= i < |b| && b[i].suit == t;
      assert b[i] in multiset(a);
    }
  }

  /** Filtering one suit's block by a suit keeps all of it or nothing. */
  lemma CardsOfSuitBlock(cards: seq<Card>, s: Suit, t: Suit)
    ensures CardsOfSuit(SuitBlock(cards, s), t) == if t == s then SuitBlock(cards, s) else []
  {
    if t == s {
      CardsOfSuitAll(SuitBlock(cards, s), t);
    } else {
      CardsOfSuitNone(SuitBlock(cards, s), t);
    }
  }

  /** Filtering the gathered blocks by one suit gives back that suit's block. */
  lemma {:induction false} CardsOfSuitGather(cards: seq<Card>, order: seq<Suit>, t: Suit)
    requires Distinct(order)
    ensures CardsOfSuit(Gather(cards, order), t) == if t in order then SuitBlock(cards, t) else []
    decreases |order|
  {
    if order != [] {
      var init := order[..|order| - 1];
      var last := order[|order| - 1];
      var g, b := Gather(cards, init), SuitBlock(cards, last);
      assert Gather(cards, order) == g + b;
      assert t in order <==> t in init || t == last by {
        assert order == init + [last];
      }
      DistinctSplit(order);
      CardsOfSuitGather(cards, init, t);
      CardsOfSuitAppend(g, b, t);
      CardsOfSuitBlock(cards, last, t);
      if t == last {
        assert t !in init;
        assert CardsOfSuit(Gather(cards, order), t) == [] + b;
      } else {
        assert CardsOfSuit(Gather(cards, order), t) == CardsOfSuit(g, t) + [];
      }
    } else {
      assert CardsOfSuit([], t) == [];
    }
  }

  /** Every gathered card belongs to a suit of the order. */
  lemma {:induction false} GatherSuits(cards: seq<Card>, order: seq<Suit>)
    ensures forall c :: c in Gather(cards, order) ==> c.suit in order
    decreases |order|
  {
    if order != [] {
      var init := order[..|order| - 1];
      GatherSuits(cards, init);
      assert forall t :: t in init ==> t in order;
    }
  }

  lemma {:induction false} GatherSameBlocks(a: seq<Card>, b: seq<Card>, order: seq<Suit>)
    requires forall t :: t in order ==> SuitBlock(a, t) == SuitBlock(b, t)
    ensures Gather(a, order) == Gather(b, order)
    decreases |order|
  {
    if order != [] {
      var init := order[..|order| - 1];
      assert forall t :: t in init ==> t in order;
      GatherSameBlocks(a, b, init);
    }
  }

  /** Sorting a hand that `sortCards` already sorted changes nothing. */
  lemma DisplayOrderIdempotent(cards: seq<Card>)
    ensures DisplayOrder(DisplayOrder(cards)) == DisplayOrder(cards)
  {
    if |cards| > 0 {
      var r := DisplayOrder(cards);
      var o := SuitSequence(cards);
      DisplayOrderPermutes(cards);
      forall t ensures HasSuit(r, t) == HasSuit(cards, t) {
        SameSuitsPresent(r, cards, t);
      }
      assert PresentSuits(r) == PresentSuits(cards);
      assert SuitSequence(r) == o;
      assert Distinct(o) by {
        forall t ensures multiset(o)[t] <= 1 {
          SuitSequenceCount(cards, t);
        }
      }
      forall t | t in o ensures SuitBlock(r, t) == SuitBlock(cards, t) {
        CardsOfSuitGather(cards, o, t);
        SortByFixpoint(SuitBlock(cards, t), ValueKey);
      }
      GatherSameBlocks(r, cards, o);
    }
  }
}
