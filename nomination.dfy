/**
  The nomination state machine of the cam client as functions on values.

  A hand is a sequence of cards in hand order.  Each operation that the client
  runs on the hand is given here as a function from the hand before it to an
  `Effect`: the hand after it and the outbound intents it sends, in order.
  The classes in module Client are proved against these functions.
 */
module Nomination {

  type CardId(==, !new)

  /** Selection state of a hand card; `Normal` is the default of a new card. */
  datatype CardState = Normal | Selecting | Selected

  /**
    A hand card.  `index` is the card's place in a multi-card nomination;
    0 stands both for an explicit 0 and for a card that never had an index
    (the client only ever tests the index for truthiness or compares it).
   */
  datatype Card = Card(id: CardId, index: nat, state: CardState)

  datatype Option<T> = None | Some(value: T)

  /**
    An outbound `submit` intent.  `Submit([])` is the intent sent without a
    card list, which tells the server that nothing is pending.
   */
  datatype Intent = Submit(cards: seq<CardId>)

  /** The game's `action` field; `NoAction` is an absent action. */
  datatype Action = NoAction | Join | Leave | GameFull | Nominate | Elect

  /** What an operation leaves behind: the new hand and the intents it sent. */
  datatype Effect = Effect(cards: seq<Card>, sent: seq<Intent>)

  /** The ids of a hand, in hand order (`_.pluck(cards, 'id')`). */
  function Ids(cards: seq<Card>): (ids: seq<CardId>)
    ensures |ids| == |cards|
    ensures forall j :: 0 <= j < |cards| ==> ids[j] == cards[j].id
  {
    if |cards| == 0 then [] else [cards[0].id] + Ids(cards[1..])
  }

  /** A collection keyed by id holds each id at most once. */
  ghost predicate UniqueIds(cards: seq<Card>)
  {
    forall a, b :: 0 <= a < b < |cards| ==> cards[a].id != cards[b].id
  }

  /** A card after `card.set({index: 0, state: 'normal'})`. */
  function Cleared(c: Card): Card
  {
    Card(c.id, 0, Normal)
  }

  /** The hand after `resetSelections`, sparing the card at position `except`. */
  function ResetAll(cards: seq<Card>, except: Option<nat>): (r: seq<Card>)
    ensures |r| == |cards|
    ensures forall j :: 0 <= j < |cards| ==> r[j] == if except == Some(j) then cards[j] else Cleared(cards[j])
  {
    if |cards| == 0 then []
    else
      var last := |cards| - 1;
      ResetAll(cards[..last], except) + [if except == Some(last) then cards[last] else Cleared(cards[last])]
  }

  /** `Cards.resetSelections`: clear the hand and send an empty submit. */
  function ResetEffect(cards: seq<Card>, except: Option<nat>): (e: Effect)
    ensures |e.cards| == |cards|
    ensures e.sent == [Submit([])]
  {
    Effect(ResetAll(cards, except), [Submit([])])
  }

  /**
    The largest index in the hand, 0 when no card has a positive index: the
    truthy indices with a sentinel 0 appended, then `_.max`.
   */
  function MaxIndex(cards: seq<Card>): nat
  {
    if |cards| == 0 then 0
    else
      var rest := MaxIndex(cards[1..]);
      if cards[0].index > rest then cards[0].index else rest
  }

  /** No card's index is above the largest index. */
  lemma {:induction false} MaxIndexBounds(cards: seq<Card>)
    ensures forall j :: 0 <= j < |cards| ==> cards[j].index <= MaxIndex(cards)
  {
    if |cards| > 0 {
      MaxIndexBounds(cards[1..]);
      assert forall j :: 1 <= j < |cards| ==> cards[j] == cards[1..][j - 1];
    }
  }

  /** The largest index is 0 or is held by some card of the hand. */
  lemma {:induction false} MaxIndexAttained(cards: seq<Card>)
    ensures MaxIndex(cards) == 0 || exists j :: 0 <= j < |cards| && cards[j].index == MaxIndex(cards)
  {
    if |cards| > 0 && cards[0].index <= MaxIndex(cards[1..]) {
      MaxIndexAttained(cards[1..]);
      if MaxIndex(cards[1..]) > 0 {
        var j :| 0 <= j < |cards[1..]| && cards[1..][j].index == MaxIndex(cards[1..]);
        assert cards[j + 1].index == MaxIndex(cards);
      }
    }
  }

  /** `hand.where({state: 'selecting'})`, in hand order. */
  function SelectingCards(cards: seq<Card>): (r: seq<Card>)
    ensures |r| <= |cards|
  {
    if |cards| == 0 then []
    else (if cards[0].state == Selecting then [cards[0]] else []) + SelectingCards(cards[1..])
  }

  /**
    The selection of two runs put together is the selection of the first
    followed by that of the second: the filter keeps hand order.
   */
  lemma {:induction false} SelectingCardsAppend(a: seq<Card>, b: seq<Card>)
    ensures SelectingCards(a + b) == SelectingCards(a) + SelectingCards(b)
  {
    if |a| > 0 {
      assert (a + b)[1..] == a[1..] + b;
      SelectingCardsAppend(a[1..], b);
    } else {
      assert a + b == b;
    }
  }

  /** A one-card run is kept exactly when its card is selecting. */
  lemma SelectingCardsSingle(c: Card)
    ensures SelectingCards([c]) == if c.state == Selecting then [c] else []
  {
    assert [c][1..] == [];
  }

  /** Each selecting card of the hand occurs in the selection as often as in the hand, every other card not at all. */
  lemma {:induction false} SelectingCardsCount(cards: seq<Card>)
    ensures forall c :: multiset(SelectingCards(cards))[c] == if c.state == Selecting then multiset(cards)[c] else 0
  {
    if |cards| > 0 {
      SelectingCardsCount(cards[1..]);
      assert cards == [cards[0]] + cards[1..];
    }
  }

  /** The selection holds exactly the hand's selecting cards. */
  lemma {:induction false} SelectingCardsMembers(cards: seq<Card>)
    ensures forall c :: c in SelectingCards(cards) <==> c in cards && c.state == Selecting
  {
    if |cards| > 0 {
      SelectingCardsMembers(cards[1..]);
      assert cards == [cards[0]] + cards[1..];
    }
  }

  ghost predicate SortedByIndex(s: seq<Card>)
  {
    forall a, b :: 0 <= a < b < |s| ==> s[a].index <= s[b].index
  }

  /** A card no larger than every card of a sorted run may go in front of it. */
  lemma SortedCons(c: Card, s: seq<Card>)
    requires SortedByIndex(s)
    requires forall k :: 0 <= k < |s| ==> c.index <= s[k].index
    ensures SortedByIndex([c] + s)
  {
    var r := [c] + s;
    forall a, b | 0 <= a < b < |r| ensures r[a].index <= r[b].index {
      assert r[b] == s[b - 1];
      if a > 0 { assert r[a] == s[a - 1]; }
    }
  }

  /** A lower bound of a sorted run's tail and of `c` bounds the run with `c` added. */
  lemma LowerBoundKept(b: Card, c: Card, s: seq<Card>, r: seq<Card>)
    requires SortedByIndex([b] + s) && b.index <= c.index
    requires multiset(r) == multiset(s) + multiset{c}
    ensures forall k :: 0 <= k < |r| ==> b.index <= r[k].index
  {
    forall k | 0 <= k < |r| ensures b.index <= r[k].index {
      assert r[k] in multiset(s) + multiset{c};
      if r[k] != c {
        assert r[k] in s;
        var p :| 0 <= p < |s| && s[p] == r[k];
        assert ([b] + s)[0] == b && ([b] + s)[p + 1] == r[k];
      }
    }
  }

  /** Insert `c` into a run, before the first card whose index is not smaller. */
  function InsertByIndex(c: Card, s: seq<Card>): (r: seq<Card>)
    ensures |r| == |s| + 1
  {
    if |s| == 0 || c.index <= s[0].index then [c] + s
    else [s[0]] + InsertByIndex(c, s[1..])
  }

  /**
    The sort with comparator `a.index - b.index`, as a stable insertion sort:
    earlier cards stay first among equal indices.  JavaScript engines before
    ES2019 did not have to sort stably, so the order among equal indices is
    this model's choice; the laws about complete nominations only sort
    distinct indices, where every correct sort agrees.
   */
  function SortByIndex(s: seq<Card>): (r: seq<Card>)
    ensures |r| == |s|
  {
    if |s| == 0 then [] else InsertByIndex(s[0], SortByIndex(s[1..]))
  }

  /** Inserting into a sorted run gives a sorted run holding one card more. */
  lemma {:induction false} InsertSorts(c: Card, s: seq<Card>)
    requires SortedByIndex(s)
    ensures SortedByIndex(InsertByIndex(c, s))
    ensures multiset(InsertByIndex(c, s)) == multiset(s) + multiset{c}
  {
    if |s| == 0 || c.index <= s[0].index {
      SortedCons(c, s);
    } else {
      var tail := InsertByIndex(c, s[1..]);
      assert SortedByIndex(s[1..]);
      InsertSorts(c, s[1..]);
      LowerBoundKept(s[0], c, s[1..], tail);
      SortedCons(s[0], tail);
      assert s == [s[0]] + s[1..];
    }
  }

  /** The sort yields a run sorted by index that is a permutation of its input. */
  lemma {:induction false} SortSorts(s: seq<Card>)
    ensures SortedByIndex(SortByIndex(s))
    ensures multiset(SortByIndex(s)) == multiset(s)
  {
    if |s| > 0 {
      SortSorts(s[1..]);
      InsertSorts(s[0], SortByIndex(s[1..]));
      assert s == [s[0]] + s[1..];
    }
  }

  /** Whether the next index, one past the largest, would pass the blank count `n`. */
  function Wraps(cards: seq<Card>, n: nat): bool
  {
    MaxIndex(cards) + 1 > n
  }

  /** The index `selectionChanged` gives a card when the prompt has `n` >= 2 blanks: always in 1..n. */
  function NextIndex(cards: seq<Card>, n: nat): (k: nat)
    ensures 1 <= k
    ensures 1 <= n ==> k <= n
  {
    if Wraps(cards, n) then 1 else MaxIndex(cards) + 1
  }

  /**
    The hand after the card at position `i` got its index: when the index
    wraps, the other cards are reset first.
   */
  function Indexed(cards: seq<Card>, i: nat, n: nat): (r: seq<Card>)
    requires i < |cards|
    ensures |r| == |cards|
    ensures r[i] == cards[i].(index := NextIndex(cards, n))
  {
    var base := if Wraps(cards, n) then ResetAll(cards, Some(i)) else cards;
    base[i := base[i].(index := NextIndex(cards, n))]
  }

  /** The submit of a complete nomination: the selecting cards by ascending index. */
  function Submission(cards: seq<Card>): (m: Intent)
    ensures |m.cards| == |SelectingCards(cards)|
  {
    Submit(Ids(SortByIndex(SelectingCards(cards))))
  }

  /**
    `Game.selectionChanged(card, newState)` for the card at position `i`, with
    `n` the blank count of the current prompt.
   */
  function SelectionChangedEffect(cards: seq<Card>, i: nat, n: nat): (e: Effect)
    requires i < |cards|
    ensures |e.cards| == |cards|
    ensures |e.sent| <= 1
  {
    if cards[i].state != Selecting then Effect(cards, [])
    else if n < 2 then Effect(cards, [Submit([cards[i].id])])
    else
      var after := Indexed(cards, i, n);
      var reset := if Wraps(cards, n) then [Submit([])] else [];
      Effect(after, if NextIndex(cards, n) == n then reset + [Submission(after)] else reset)
  }

  /** `CardView.select` on the card at position `i`, on its own. */
  function CardSelectEffect(action: Action, cards: seq<Card>, i: nat): (e: Effect)
    requires i < |cards|
    ensures |e.cards| == |cards|
    ensures |e.sent| <= 1
  {
    if action != Nominate then Effect(cards, [])
    else if cards[i].state != Normal then ResetEffect(cards, None)
    else Effect(cards[i := cards[i].(state := Selecting)], [])
  }

  /**
    A click on the card at position `i`: `CardView.select` followed by the
    hand's `change:state` notification.  Only a card that has just become
    `selecting` gets past the first test of `selectionChanged`, so the reset
    path notifies nothing that acts.
   */
  function ClickEffect(action: Action, cards: seq<Card>, i: nat, n: nat): (e: Effect)
    requires i < |cards|
    ensures |e.cards| == |cards|
    ensures |e.sent| <= 1
  {
    var e := CardSelectEffect(action, cards, i);
    if action == Nominate && cards[i].state == Normal then
      var s := SelectionChangedEffect(e.cards, i, n);
      Effect(s.cards, e.sent + s.sent)
    else e
  }
}
