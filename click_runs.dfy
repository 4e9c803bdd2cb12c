/**
  Runs of clicks.  Starting from a freshly dealt hand under `nominate`, a
  player clicks the cards at positions `ps`, one after the other; each click
  is `CardView.select` followed by `selectionChanged`.  The laws here are
  about the whole run: n clicks on distinct cards submit their ids in click
  order, and one click more starts a new nomination.
 */
module ClickRuns {
  import opened Nomination
  import opened NominationLaws

  /** Every position of the run is a position of the hand. */
  ghost predicate InHand(cards: seq<Card>, ps: seq<nat>)
  {
    forall j :: 0 <= j < |ps| ==> ps[j] < |cards|
  }

  /** The run clicks no card twice. */
  ghost predicate NoRepeats(ps: seq<nat>)
  {
    forall a, b :: 0 <= a < b < |ps| ==> ps[a] != ps[b]
  }

  /** A freshly dealt hand: distinct ids, every card `normal` with no index. */
  ghost predicate Dealt(cards: seq<Card>)
  {
    && UniqueIds(cards)
    && forall j :: 0 <= j < |cards| ==> cards[j].index == 0 && cards[j].state == Normal
  }

  /** The clicks at positions `ps`, in order, under `nominate`: the final hand and every intent sent. */
  function ClickRun(cards: seq<Card>, ps: seq<nat>, n: nat): (e: Effect)
    requires forall j :: 0 <= j < |ps| ==> ps[j] < |cards|
    ensures |e.cards| == |cards|
    decreases |ps|
  {
    if |ps| == 0 then Effect(cards, [])
    else
      var before := ClickRun(cards, ps[..|ps| - 1], n);
      var last := ClickEffect(Nominate, before.cards, ps[|ps| - 1], n);
      Effect(last.cards, before.sent + last.sent)
  }

  /** The ids of the cards at positions `ps`, in the order of `ps`. */
  function IdsAt(cards: seq<Card>, ps: seq<nat>): (ids: seq<CardId>)
    requires forall j :: 0 <= j < |ps| ==> ps[j] < |cards|
    ensures |ids| == |ps|
    ensures forall j :: 0 <= j < |ps| ==> ids[j] == cards[ps[j]].id
  {
    if |ps| == 0 then [] else IdsAt(cards, ps[..|ps| - 1]) + [cards[ps[|ps| - 1]].id]
  }

  /**
    The hand `h` after clicking the positions `ps` of the dealt hand `cards`:
    the card clicked j-th (from 0) is `selecting` with index j + 1, and every
    card not clicked is as dealt.
   */
  ghost predicate Built(cards: seq<Card>, ps: seq<nat>, h: seq<Card>)
  {
    && |h| == |cards|
    && (forall j :: 0 <= j < |ps| ==> ps[j] < |cards| && h[ps[j]] == Card(cards[ps[j]].id, j + 1, Selecting))
    && (forall p :: 0 <= p < |cards| && p !in ps ==> h[p] == cards[p])
  }

  /** Dropping the last click of a run: the rest clicks no card twice and never the last one. */
  lemma FreshLast(cards: seq<Card>, ps: seq<nat>)
    requires InHand(cards, ps) && NoRepeats(ps) && |ps| > 0
    ensures ps == ps[..|ps| - 1] + [ps[|ps| - 1]]
    ensures InHand(cards, ps[..|ps| - 1]) && NoRepeats(ps[..|ps| - 1])
    ensures ps[|ps| - 1] !in ps[..|ps| - 1]
  {
    var k := |ps| - 1;
    forall a | 0 <= a < k ensures ps[..k][a] != ps[k] {
      assert ps[..k][a] == ps[a];
    }
  }

  /** The last click of a run acts on the hand the earlier clicks left. */
  lemma ClickRunLast(cards: seq<Card>, ps: seq<nat>, n: nat)
    requires InHand(cards, ps) && |ps| > 0
    ensures InHand(cards, ps[..|ps| - 1])
    ensures ClickRun(cards, ps, n)
            == Effect(ClickEffect(Nominate, ClickRun(cards, ps[..|ps| - 1], n).cards, ps[|ps| - 1], n).cards,
                      ClickRun(cards, ps[..|ps| - 1], n).sent
                      + ClickEffect(Nominate, ClickRun(cards, ps[..|ps| - 1], n).cards, ps[|ps| - 1], n).sent)
  {
  }

  /**
    Up to n clicks on distinct cards of a dealt hand: the card clicked j-th
    (from 0) holds index j + 1 and is `selecting`, every card not clicked is
    as dealt, the hand stays tidy, and nothing is sent before the n-th click.
   */
  lemma {:induction false} ClickRunBuilds(cards: seq<Card>, ps: seq<nat>, n: nat)
    requires 2 <= n && Dealt(cards) && InHand(cards, ps) && NoRepeats(ps) && |ps| <= n
    ensures Tidy(ClickRun(cards, ps, n).cards, n)
    ensures MaxIndex(ClickRun(cards, ps, n).cards) == |ps|
    ensures Built(cards, ps, ClickRun(cards, ps, n).cards)
    ensures |ps| < n ==> ClickRun(cards, ps, n).sent == []
    decreases |ps|
  {
    if |ps| == 0 {
      DealtHandIsTidy(cards, n);
      MaxIndexIs(cards, 0);
    } else {
      var init := ps[..|ps| - 1];
      var i := ps[|ps| - 1];
      FreshLast(cards, ps);
      ClickRunLast(cards, ps, n);
      ClickRunBuilds(cards, init, n);
      ExtendStep(cards, init, i, n, ClickRun(cards, init, n).cards);
    }
  }

  /**
    One more click, on a card not clicked yet, while fewer than n cards are
    clicked: that card gets the next index, the hand stays tidy, and nothing
    is sent unless the index is n.
   */
  lemma ExtendStep(cards: seq<Card>, init: seq<nat>, i: nat, n: nat, h: seq<Card>)
    requires 2 <= n && Dealt(cards) && i < |cards| && i !in init
    requires Built(cards, init, h) && Tidy(h, n) && MaxIndex(h) == |init| < n
    ensures ClickEffect(Nominate, h, i, n).cards == h[i := Card(cards[i].id, |init| + 1, Selecting)]
    ensures |init| + 1 < n ==> ClickEffect(Nominate, h, i, n).sent == []
    ensures Tidy(ClickEffect(Nominate, h, i, n).cards, n)
    ensures MaxIndex(ClickEffect(Nominate, h, i, n).cards) == |init| + 1
    ensures Built(cards, init + [i], ClickEffect(Nominate, h, i, n).cards)
  {
    var h' := h[i := Card(cards[i].id, |init| + 1, Selecting)];
    assert h[i] == cards[i];
    ClickExtends(h, i, n);
    ExtendedIsTidy(h, i, n, h');
    BuiltExtends(cards, init, h, i, h');
  }

  /** The characterization of the hand carries over to one more click on a fresh card, with index k + 1. */
  lemma BuiltExtends(cards: seq<Card>, init: seq<nat>, h: seq<Card>, i: nat, h': seq<Card>)
    requires Dealt(cards) && Built(cards, init, h) && i < |cards| && i !in init
    requires h' == h[i := Card(cards[i].id, |init| + 1, Selecting)]
    ensures Built(cards, init + [i], h')
    ensures MaxIndex(h') == |init| + 1
  {
    var ps := init + [i];
    forall j | 0 <= j < |ps| ensures ps[j] < |cards| && h'[ps[j]] == Card(cards[ps[j]].id, j + 1, Selecting) {
      if j < |init| {
        assert ps[j] == init[j] && init[j] != i;
      }
    }
    forall p | 0 <= p < |h'| ensures h'[p].index <= |init| + 1 {
      if p != i && p in init {
        var j :| 0 <= j < |init| && init[j] == p;
      }
    }
    assert h'[i].index == |init| + 1;
    MaxIndexIs(h', |init| + 1);
  }

  /**
    The ordering law over a run: n clicks on distinct cards of a dealt hand,
    n >= 2 being the blank count, send exactly one intent, the submit of the
    clicked cards' ids in click order.
   */
  lemma ClickRunSubmits(cards: seq<Card>, ps: seq<nat>, n: nat)
    requires 2 <= n && Dealt(cards) && InHand(cards, ps) && NoRepeats(ps) && |ps| == n
    ensures ClickRun(cards, ps, n).sent == [Submit(IdsAt(cards, ps))]
  {
    var init := ps[..n - 1];
    var i := ps[n - 1];
    FreshLast(cards, ps);
    ClickRunLast(cards, ps, n);
    ClickRunBuilds(cards, init, n);
    ClickRunBuilds(cards, ps, n);
    var h := ClickRun(cards, init, n).cards;
    assert h[i] == cards[i];
    CompletingClick(cards, ps, n, h);
  }

  /** The click that gives index n submits the ids of the clicked cards, in click order. */
  lemma CompletingClick(cards: seq<Card>, ps: seq<nat>, n: nat, h: seq<Card>)
    requires 2 <= n && Dealt(cards) && |ps| == n && |h| == |cards| && ps[n - 1] < |cards|
    requires Tidy(h, n) && MaxIndex(h) + 1 == n && h[ps[n - 1]].state == Normal
    requires Built(cards, ps, ClickEffect(Nominate, h, ps[n - 1], n).cards)
    ensures InHand(cards, ps)
    ensures ClickEffect(Nominate, h, ps[n - 1], n).sent == [Submit(IdsAt(cards, ps))]
  {
    var f := ClickEffect(Nominate, h, ps[n - 1], n);
    NominationOrder(h, ps[n - 1], n);
    forall j | 0 <= j < n ensures f.sent[0].cards[j] == cards[ps[j]].id {
      ClickedAt(cards, ps, f.cards, f.sent[0].cards[j], j);
    }
    assert f.sent[0].cards == IdsAt(cards, ps);
  }

  /** In the hand after the run, the card holding index j + 1 is the card clicked j-th. */
  lemma ClickedAt(cards: seq<Card>, ps: seq<nat>, after: seq<Card>, id: CardId, j: nat)
    requires Dealt(cards) && Built(cards, ps, after) && j < |ps|
    requires HoldsAt(after, id, j + 1)
    ensures id == cards[ps[j]].id
  {
    var p :| 0 <= p < |after| && after[p].id == id && after[p].index == j + 1;
    assert p in ps;
    var a :| 0 <= a < |ps| && ps[a] == p;
    assert after[ps[a]].index == a + 1;
  }

  /**
    The wrap over a run: after n clicks completed a nomination, a click on a
    card not yet clicked starts a new one.  It sends one empty submit, after
    the submission of the first n; the new hand is the dealt hand with only
    that card `selecting`, at index 1.
   */
  lemma ClickRunWraps(cards: seq<Card>, ps: seq<nat>, q: nat, n: nat)
    requires 2 <= n && Dealt(cards) && InHand(cards, ps) && NoRepeats(ps) && |ps| == n
    requires q < |cards| && q !in ps
    ensures ClickRun(cards, ps + [q], n).sent == [Submit(IdsAt(cards, ps)), Submit([])]
    ensures ClickRun(cards, ps + [q], n).cards == cards[q := Card(cards[q].id, 1, Selecting)]
  {
    WrapStep(cards, ps, q, n);
    ClickRunSubmits(cards, ps, n);
  }

  /** The click after a complete run: it restarts from the dealt hand and adds one empty submit. */
  lemma WrapStep(cards: seq<Card>, ps: seq<nat>, q: nat, n: nat)
    requires 2 <= n && Dealt(cards) && InHand(cards, ps) && NoRepeats(ps) && |ps| == n
    requires q < |cards| && q !in ps
    ensures InHand(cards, ps + [q])
    ensures ClickRun(cards, ps + [q], n).sent == ClickRun(cards, ps, n).sent + [Submit([])]
    ensures ClickRun(cards, ps + [q], n).cards == cards[q := Card(cards[q].id, 1, Selecting)]
  {
    ClickRunBuilds(cards, ps, n);
    RestartStep(cards, ps, q, n, ClickRun(cards, ps, n).cards);
    OneMoreClick(cards, ps, q, n);
  }

  /** A run with one click more: that click acts on the hand the run left. */
  lemma OneMoreClick(cards: seq<Card>, ps: seq<nat>, q: nat, n: nat)
    requires InHand(cards, ps) && q < |cards|
    ensures InHand(cards, ps + [q])
    ensures ClickRun(cards, ps + [q], n)
            == Effect(ClickEffect(Nominate, ClickRun(cards, ps, n).cards, q, n).cards,
                      ClickRun(cards, ps, n).sent + ClickEffect(Nominate, ClickRun(cards, ps, n).cards, q, n).sent)
  {
    assert (ps + [q])[..|ps|] == ps;
  }

  /** A click on a card not clicked yet, once n cards are clicked, leaves the dealt hand with only that card at index 1. */
  lemma RestartStep(cards: seq<Card>, ps: seq<nat>, q: nat, n: nat, h: seq<Card>)
    requires 2 <= n && Dealt(cards) && Built(cards, ps, h) && MaxIndex(h) == n
    requires q < |cards| && q !in ps
    ensures ClickEffect(Nominate, h, q, n).cards == cards[q := Card(cards[q].id, 1, Selecting)]
    ensures ClickEffect(Nominate, h, q, n).sent == [Submit([])]
  {
    assert h[q] == cards[q];
    ClickRestarts(h, q, n);
    var f := ClickEffect(Nominate, h, q, n);
    forall p | 0 <= p < |cards| && p != q ensures f.cards[p] == cards[p] {
      if p in ps {
        var a :| 0 <= a < |ps| && ps[a] == p;
        assert h[ps[a]].id == cards[p].id;
      }
    }
    assert f.cards == cards[q := Card(cards[q].id, 1, Selecting)];
  }
}
