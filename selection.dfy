/**
  The server's `select` message as functions on values: the hand after the
  client reconciles its selection with the card list `ids` the server sends,
  and the `selectionConfirmed` flag it recomputes.

  A hand holds one card per id, so "the card is one of the targets the
  message names" is "the card's id is in `ids`"; ids that name no card of the
  hand match nothing.
 */
module Selection {
  import opened Nomination

  /** What `dispatch.select` makes of one card before any removal. */
  function Reconciled(c: Card, ids: seq<CardId>, final: bool): (r: Card)
    ensures r.id == c.id && r.index == c.index
    ensures r.state == c.state || r.state == Normal || r.state == Selected
  {
    if c.id in ids then (if final then c else c.(state := Selected))
    else if !final && c.state == Selecting then c
    else c.(state := Normal)
  }

  /** Every card of the hand reconciled, in hand order. */
  function Reconcile(cards: seq<Card>, ids: seq<CardId>, final: bool): (r: seq<Card>)
    ensures |r| == |cards|
    ensures forall j :: 0 <= j < |cards| ==> r[j] == Reconciled(cards[j], ids, final)
  {
    if |cards| == 0 then [] else [Reconciled(cards[0], ids, final)] + Reconcile(cards[1..], ids, final)
  }

  /** `hand.remove(targets)`: the hand without the cards whose ids are listed, order kept. */
  function WithoutIds(cards: seq<Card>, ids: seq<CardId>): (r: seq<Card>)
    ensures |r| <= |cards|
    ensures forall c :: c in r <==> c in cards && c.id !in ids
  {
    if |cards| == 0 then []
    else
      var init := WithoutIds(cards[..|cards| - 1], ids);
      var last := cards[|cards| - 1];
      assert cards == cards[..|cards| - 1] + [last];
      if last.id in ids then init else init + [last]
  }

  /** Removal from two runs put together removes from each run in turn: the kept cards stay in order. */
  lemma {:induction false} WithoutIdsAppend(a: seq<Card>, b: seq<Card>, ids: seq<CardId>)
    ensures WithoutIds(a + b, ids) == WithoutIds(a, ids) + WithoutIds(b, ids)
  {
    if |b| == 0 {
      assert a + b == a;
    } else {
      var init := b[..|b| - 1];
      var last := b[|b| - 1];
      var tail := if last.id in ids then [] else [last];
      WithoutIdsAppend(a, init, ids);
      assert (a + b)[..|a + b| - 1] == a + init && (a + b)[|a + b| - 1] == last;
      assert WithoutIds(a + b, ids) == WithoutIds(a + init, ids) + tail;
      assert WithoutIds(b, ids) == WithoutIds(init, ids) + tail;
    }
  }

  /** A one-card run is kept exactly when its card's id is not listed. */
  lemma WithoutIdsSingle(c: Card, ids: seq<CardId>)
    ensures WithoutIds([c], ids) == if c.id in ids then [] else [c]
  {
    assert [c][..0] == [];
  }

  /** Each unlisted card occurs in the result as often as in the run, every listed card not at all. */
  lemma {:induction false} WithoutIdsCount(cards: seq<Card>, ids: seq<CardId>)
    ensures forall c :: multiset(WithoutIds(cards, ids))[c] == if c.id !in ids then multiset(cards)[c] else 0
  {
    if |cards| > 0 {
      var init := cards[..|cards| - 1];
      WithoutIdsCount(init, ids);
      assert cards == init + [cards[|cards| - 1]];
    }
  }

  /** Reconciling two runs put together reconciles each in turn. */
  lemma ReconcileAppend(a: seq<Card>, b: seq<Card>, ids: seq<CardId>, final: bool)
    ensures Reconcile(a + b, ids, final) == Reconcile(a, ids, final) + Reconcile(b, ids, final)
  {
    var r := Reconcile(a + b, ids, final);
    var q := Reconcile(a, ids, final) + Reconcile(b, ids, final);
    forall j | 0 <= j < |r| ensures r[j] == q[j] {
      if j < |a| {
        assert (a + b)[j] == a[j];
      } else {
        assert (a + b)[j] == b[j - |a|];
      }
    }
  }

  /** The hand after a `select` message. */
  function SelectCards(cards: seq<Card>, ids: seq<CardId>, final: bool): (r: seq<Card>)
    ensures |r| <= |cards|
    ensures !final ==> |r| == |cards|
  {
    var r := Reconcile(cards, ids, final);
    if final then WithoutIds(r, ids) else r
  }

  /** `selectionConfirmed` after a `select` message: some card was named and the message is not final. */
  function Confirmed(ids: seq<CardId>, final: bool): bool
  {
    |ids| > 0 && !final
  }

  /**
    A non-final `select` keeps every card in place with its id and index: a
    card becomes `selected` exactly when it is listed, an unlisted
    `selecting` card keeps its state, and every other card becomes `normal`.
   */
  lemma SelectNonFinal(cards: seq<Card>, ids: seq<CardId>)
    ensures |SelectCards(cards, ids, false)| == |cards|
    ensures forall j :: 0 <= j < |cards| ==>
              SelectCards(cards, ids, false)[j].id == cards[j].id
              && SelectCards(cards, ids, false)[j].index == cards[j].index
    ensures forall j :: 0 <= j < |cards| ==>
              (SelectCards(cards, ids, false)[j].state == Selected <==> cards[j].id in ids)
    ensures forall j :: 0 <= j < |cards| && cards[j].id !in ids && cards[j].state == Selecting ==>
              SelectCards(cards, ids, false)[j] == cards[j]
    ensures forall j :: 0 <= j < |cards| && cards[j].id !in ids && cards[j].state != Selecting ==>
              SelectCards(cards, ids, false)[j].state == Normal
  {
  }

  /**
    A final `select` removes the listed cards and makes every other card
    `normal`, keeping its id and index: a card is in the new hand exactly
    when it is an unlisted card of the old hand, made `normal`.
   */
  lemma SelectFinal(cards: seq<Card>, ids: seq<CardId>)
    ensures forall c :: c in SelectCards(cards, ids, true) ==> c.id !in ids && c.state == Normal
    ensures forall j :: 0 <= j < |cards| && cards[j].id !in ids ==>
              cards[j].(state := Normal) in SelectCards(cards, ids, true)
    ensures forall c :: c in SelectCards(cards, ids, true) ==>
              exists j :: 0 <= j < |cards| && cards[j].id !in ids && c == cards[j].(state := Normal)
  {
    var r := Reconcile(cards, ids, true);
    forall j | 0 <= j < |cards| && cards[j].id !in ids
      ensures cards[j].(state := Normal) in SelectCards(cards, ids, true)
    {
      assert r[j] == cards[j].(state := Normal);
    }
    forall c | c in SelectCards(cards, ids, true)
      ensures exists j :: 0 <= j < |cards| && cards[j].id !in ids && c == cards[j].(state := Normal)
    {
      var j :| 0 <= j < |r| && r[j] == c;
      assert cards[j].id == c.id;
    }
  }

  /**
    The order law of a final `select`: the new hand of two runs put together
    is that of the first followed by that of the second.  With
    `SelectFinalSingle` this makes the new hand the unlisted old cards, made
    `normal`, in their old order.
   */
  lemma SelectFinalAppend(a: seq<Card>, b: seq<Card>, ids: seq<CardId>)
    ensures SelectCards(a + b, ids, true) == SelectCards(a, ids, true) + SelectCards(b, ids, true)
  {
    ReconcileAppend(a, b, ids, true);
    WithoutIdsAppend(Reconcile(a, ids, true), Reconcile(b, ids, true), ids);
  }

  /** A final `select` drops a single listed card and keeps an unlisted one, made `normal`. */
  lemma SelectFinalSingle(c: Card, ids: seq<CardId>)
    ensures SelectCards([c], ids, true) == if c.id in ids then [] else [c.(state := Normal)]
  {
    var r := Reconcile([c], ids, true);
    assert r == [Reconciled(c, ids, true)];
    WithoutIdsSingle(Reconciled(c, ids, true), ids);
  }

  /**
    A `select` message acts on the hand only through the ids the hand holds:
    two card lists that agree on every id of the hand give the same new hand.
   */
  lemma SelectSeesHeldIdsOnly(cards: seq<Card>, ids: seq<CardId>, ids': seq<CardId>, final: bool)
    requires forall j :: 0 <= j < |cards| ==> (cards[j].id in ids <==> cards[j].id in ids')
    ensures SelectCards(cards, ids, final) == SelectCards(cards, ids', final)
  {
    var r := Reconcile(cards, ids, final);
    var r' := Reconcile(cards, ids', final);
    forall j | 0 <= j < |cards| ensures r'[j] == r[j] {
    }
    assert r' == r;
    if final {
      WithoutHeldIdsOnly(r, ids, ids');
    }
  }

  /** Removal acts only through the ids the run holds. */
  lemma {:induction false} WithoutHeldIdsOnly(cards: seq<Card>, ids: seq<CardId>, ids': seq<CardId>)
    requires forall j :: 0 <= j < |cards| ==> (cards[j].id in ids <==> cards[j].id in ids')
    ensures WithoutIds(cards, ids) == WithoutIds(cards, ids')
  {
    if |cards| > 0 {
      WithoutHeldIdsOnly(cards[..|cards| - 1], ids, ids');
    }
  }

  /** An id that names no card of the hand changes nothing in the new hand. */
  lemma UnknownIdIgnored(cards: seq<Card>, ids: seq<CardId>, x: CardId, final: bool)
    requires forall j :: 0 <= j < |cards| ==> cards[j].id != x
    ensures SelectCards(cards, ids + [x], final) == SelectCards(cards, ids, final)
  {
    var r := Reconcile(cards, ids, final);
    var r' := Reconcile(cards, ids + [x], final);
    forall j | 0 <= j < |cards| ensures r'[j] == r[j] {
      assert cards[j].id in ids + [x] <==> cards[j].id in ids;
    }
    assert r' == r;
    if final {
      WithoutUnknown(r, ids, x);
    }
  }

  /** Removing by a list that also names an id the run does not hold removes the same cards. */
  lemma {:induction false} WithoutUnknown(cards: seq<Card>, ids: seq<CardId>, x: CardId)
    requires forall j :: 0 <= j < |cards| ==> cards[j].id != x
    ensures WithoutIds(cards, ids + [x]) == WithoutIds(cards, ids)
  {
    if |cards| > 0 {
      var init := cards[..|cards| - 1];
      WithoutUnknown(init, ids, x);
      assert cards[|cards| - 1].id in ids + [x] <==> cards[|cards| - 1].id in ids;
    }
  }

  /** Applying the same `select` message twice leaves the hand as applying it once. */
  lemma SelectIdempotent(cards: seq<Card>, ids: seq<CardId>, final: bool)
    ensures SelectCards(SelectCards(cards, ids, final), ids, final) == SelectCards(cards, ids, final)
  {
    var once := SelectCards(cards, ids, final);
    var r := Reconcile(once, ids, final);
    forall j | 0 <= j < |once| ensures r[j] == once[j] {
      if final {
        assert once[j] in once;
      }
    }
    assert r == once;
    if final {
      WithoutNothing(once, ids);
    }
  }

  /** Removing by ids a run does not hold keeps the run. */
  lemma {:induction false} WithoutNothing(cards: seq<Card>, ids: seq<CardId>)
    requires forall c :: c in cards ==> c.id !in ids
    ensures WithoutIds(cards, ids) == cards
  {
    if |cards| > 0 {
      var init := cards[..|cards| - 1];
      assert forall c :: c in init ==> c in cards;
      WithoutNothing(init, ids);
      assert cards[|cards| - 1] in cards;
      assert cards == init + [cards[|cards| - 1]];
    }
  }

  /** Removing cards keeps the ids of what is left distinct. */
  lemma {:induction false} WithoutKeepsUniqueIds(cards: seq<Card>, ids: seq<CardId>)
    requires UniqueIds(cards)
    ensures UniqueIds(WithoutIds(cards, ids))
  {
    if |cards| > 0 {
      var init := cards[..|cards| - 1];
      var last := cards[|cards| - 1];
      assert UniqueIds(init);
      WithoutKeepsUniqueIds(init, ids);
      var w := WithoutIds(init, ids);
      if last.id !in ids {
        forall a | 0 <= a < |w| ensures w[a].id != last.id {
          assert w[a] in init;
          var p :| 0 <= p < |init| && init[p] == w[a];
          assert cards[p] == w[a];
        }
        var r := w + [last];
        forall a, b | 0 <= a < b < |r| ensures r[a].id != r[b].id {
          if b < |w| {
            assert r[a] == w[a] && r[b] == w[b];
          } else {
            assert r[a] == w[a];
          }
        }
      }
    }
  }

  /** A hand with distinct ids still has distinct ids after any `select` message. */
  lemma SelectKeepsUniqueIds(cards: seq<Card>, ids: seq<CardId>, final: bool)
    requires UniqueIds(cards)
    ensures UniqueIds(SelectCards(cards, ids, final))
  {
    var r := Reconcile(cards, ids, final);
    assert forall j :: 0 <= j < |cards| ==> r[j].id == cards[j].id;
    if final {
      WithoutKeepsUniqueIds(r, ids);
    }
  }
}
