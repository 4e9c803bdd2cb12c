/**
  What the nomination state machine promises: the click gate, the reset,
  the index a newly selecting card receives, when a submission goes out and
  what it carries.  The last part proves the ordering law of a multi-card
  nomination: as long as the hand is driven by clicks alone, the card
  clicked j-th gets index j and the submission lists the cards in click order.
 */
module NominationLaws {
  import opened Nomination

  // ---------------------------------------------------------------- reset

  /** `resetSelections` clears every card but the excepted one, keeps the ids and sends one empty submit. */
  lemma ResetSelectionsClears(cards: seq<Card>, except: Option<nat>)
    ensures Ids(ResetEffect(cards, except).cards) == Ids(cards)
    ensures forall j :: 0 <= j < |cards| && except != Some(j) ==>
              ResetEffect(cards, except).cards[j].index == 0 && ResetEffect(cards, except).cards[j].state == Normal
    ensures forall j :: 0 <= j < |cards| && except == Some(j) ==> ResetEffect(cards, except).cards[j] == cards[j]
    ensures ResetEffect(cards, except).sent == [Submit([])]
  {
    SameIds(ResetAll(cards, except), cards);
  }

  /** Two hands with the same id at every position have the same ids. */
  lemma SameIds(a: seq<Card>, b: seq<Card>)
    requires |a| == |b| && forall j :: 0 <= j < |a| ==> a[j].id == b[j].id
    ensures Ids(a) == Ids(b)
  {
    assert forall j :: 0 <= j < |a| ==> Ids(a)[j] == Ids(b)[j];
  }

  /** Resetting an already reset hand again yields the same hand. */
  lemma ResetIdempotent(cards: seq<Card>, except: Option<nat>)
    ensures ResetAll(ResetAll(cards, except), except) == ResetAll(cards, except)
  {
  }

  // ---------------------------------------------------------------- click

  /** `CardView.select`: nothing outside `nominate`; a non-normal card cancels; a normal card becomes selecting. */
  lemma CardSelectRules(action: Action, cards: seq<Card>, i: nat)
    requires i < |cards|
    ensures action != Nominate ==> CardSelectEffect(action, cards, i) == Effect(cards, [])
    ensures action == Nominate && cards[i].state != Normal ==>
              |CardSelectEffect(action, cards, i).cards| == |cards|
              && (forall j :: 0 <= j < |cards| ==> CardSelectEffect(action, cards, i).cards[j] == Card(cards[j].id, 0, Normal))
              && CardSelectEffect(action, cards, i).sent == [Submit([])]
    ensures action == Nominate && cards[i].state == Normal ==>
              |CardSelectEffect(action, cards, i).cards| == |cards|
              && CardSelectEffect(action, cards, i).cards[i] == Card(cards[i].id, cards[i].index, Selecting)
              && (forall j :: 0 <= j < |cards| && j != i ==> CardSelectEffect(action, cards, i).cards[j] == cards[j])
              && CardSelectEffect(action, cards, i).sent == []
  {
  }

  // ---------------------------------------------------------------- selectionChanged

  /** With fewer than two blanks the selecting card is submitted on its own and the hand is left alone. */
  lemma SingleBlankSubmit(cards: seq<Card>, i: nat, n: nat)
    requires i < |cards| && cards[i].state == Selecting && n < 2
    ensures SelectionChangedEffect(cards, i, n) == Effect(cards, [Submit([cards[i].id])])
  {
  }

  /**
    With n >= 2 blanks, when every index in the hand is below n, the selecting
    card gets one more than the largest index in the hand (1 when there is
    none), so an index in 1..n; no other card changes, and the only intent
    that can go out is a single submit.
   */
  lemma IndexFollowsLargest(cards: seq<Card>, i: nat, n: nat)
    requires i < |cards| && cards[i].state == Selecting && 2 <= n
    requires forall j :: 0 <= j < |cards| ==> cards[j].index < n
    ensures |SelectionChangedEffect(cards, i, n).cards| == |cards|
    ensures SelectionChangedEffect(cards, i, n).cards[i] == cards[i].(index := SelectionChangedEffect(cards, i, n).cards[i].index)
    ensures 1 <= SelectionChangedEffect(cards, i, n).cards[i].index <= n
    ensures forall j :: 0 <= j < |cards| ==> cards[j].index < SelectionChangedEffect(cards, i, n).cards[i].index
    ensures SelectionChangedEffect(cards, i, n).cards[i].index == 1
            || HasIndex(cards, SelectionChangedEffect(cards, i, n).cards[i].index - 1)
    ensures forall j :: 0 <= j < |cards| && j != i ==> SelectionChangedEffect(cards, i, n).cards[j] == cards[j]
    ensures |SelectionChangedEffect(cards, i, n).sent| <= 1
  {
    var m := MaxIndex(cards);
    MaxIndexAttained(cards);
    MaxIndexBounds(cards);
    if m > 0 {
      var w :| 0 <= w < |cards| && cards[w].index == m;
      assert HasIndex(cards, m);
    }
  }

  /**
    With n >= 2 blanks, once some card of the hand already holds an index of
    n or more, the next index would pass n: every other card is reset to
    index 0 and `normal`, an empty submit goes out, and the selecting card
    restarts at index 1.
   */
  lemma IndexWraps(cards: seq<Card>, i: nat, n: nat)
    requires i < |cards| && cards[i].state == Selecting && 2 <= n
    requires exists j :: 0 <= j < |cards| && cards[j].index >= n
    ensures |SelectionChangedEffect(cards, i, n).cards| == |cards|
    ensures SelectionChangedEffect(cards, i, n).cards[i] == cards[i].(index := 1)
    ensures forall j :: 0 <= j < |cards| && j != i ==> SelectionChangedEffect(cards, i, n).cards[j] == Cleared(cards[j])
    ensures SelectionChangedEffect(cards, i, n).sent == [Submit([])]
  {
    MaxIndexBounds(cards);
  }

  /**
    A non-empty submit goes out exactly when the assigned index equals n, and
    it lists the ids of the selecting cards of the new hand, sorted ascending
    by index; when the index is not n, the only intent that can go out is the
    empty submit of a reset.
   */
  lemma SubmissionRule(cards: seq<Card>, i: nat, n: nat)
    requires i < |cards| && cards[i].state == Selecting && 2 <= n
    ensures SelectionChangedEffect(cards, i, n).cards[i].index != n ==>
              forall k :: 0 <= k < |SelectionChangedEffect(cards, i, n).sent| ==>
                SelectionChangedEffect(cards, i, n).sent[k] == Submit([])
    ensures SelectionChangedEffect(cards, i, n).cards[i].index == n <==>
              SubmitsCards(SelectionChangedEffect(cards, i, n).sent)
    ensures SelectionChangedEffect(cards, i, n).cards[i].index == n ==>
              exists r :: SortedByIndex(r)
                && multiset(r) == multiset(SelectingCards(SelectionChangedEffect(cards, i, n).cards))
                && Last(SelectionChangedEffect(cards, i, n).sent).cards == Ids(r)
  {
    var e := SelectionChangedEffect(cards, i, n);
    if e.cards[i].index == n {
      var sel := SelectingCards(e.cards);
      var r := SortByIndex(sel);
      SelectingCardsMembers(e.cards);
      SortSorts(sel);
      assert e.cards[i] in sel;
      assert e.cards[i] in multiset(r);
      assert |r| > 0;
      assert Last(e.sent).cards == Ids(r);
    }
  }

  /** The last intent of a non-empty run. */
  function Last(sent: seq<Intent>): Intent
    requires sent != []
  {
    sent[|sent| - 1]
  }

  /** The run ends with a submit that names cards. */
  ghost predicate SubmitsCards(sent: seq<Intent>)
  {
    sent != [] && Last(sent).cards != []
  }

  // ---------------------------------------------------------------- the click-driven invariant

  /** Some card of the hand holds index `v`. */
  ghost predicate HasIndex(cards: seq<Card>, v: nat)
  {
    exists j :: 0 <= j < |cards| && cards[j].index == v
  }

  /** Some card of the hand has id `id` and index `v`. */
  ghost predicate HoldsAt(cards: seq<Card>, id: CardId, v: nat)
  {
    exists p :: 0 <= p < |cards| && cards[p].id == id && cards[p].index == v
  }

  /**
    The shape of a hand that only clicks have touched since it was dealt, for
    blank count n: no card is `selected`, a card is `selecting` exactly when
    it has a positive index, positive indices are distinct and are exactly
    1..k for some k <= n.
   */
  ghost predicate Tidy(cards: seq<Card>, n: nat)
  {
    && UniqueIds(cards)
    && (forall j :: 0 <= j < |cards| ==> cards[j].state != Selected)
    && (forall j :: 0 <= j < |cards| ==> (cards[j].state == Selecting <==> cards[j].index > 0))
    && (forall a, b :: 0 <= a < b < |cards| && cards[a].index > 0 ==> cards[a].index != cards[b].index)
    && MaxIndex(cards) <= n
    && (forall v :: 1 <= v <= MaxIndex(cards) ==> HasIndex(cards, v))
  }

  /** The maximum is determined by being an upper bound that is attained (or 0). */
  lemma MaxIndexIs(cards: seq<Card>, m: nat)
    requires forall j :: 0 <= j < |cards| ==> cards[j].index <= m
    requires m == 0 || HasIndex(cards, m)
    ensures MaxIndex(cards) == m
  {
    MaxIndexAttained(cards);
  }

  /** A freshly dealt hand (every card normal with no index) is tidy. */
  lemma DealtHandIsTidy(cards: seq<Card>, n: nat)
    requires UniqueIds(cards)
    requires forall j :: 0 <= j < |cards| ==> cards[j].index == 0 && cards[j].state == Normal
    ensures Tidy(cards, n)
  {
    MaxIndexIs(cards, 0);
  }

  /** A click on a normal card under `nominate` is `selectionChanged` on the hand where it is selecting. */
  lemma ClickIsSelectionChanged(cards: seq<Card>, i: nat, n: nat)
    requires i < |cards| && cards[i].state == Normal
    ensures ClickEffect(Nominate, cards, i, n)
            == SelectionChangedEffect(cards[i := cards[i].(state := Selecting)], i, n)
  {
    var c1 := cards[i := cards[i].(state := Selecting)];
    assert CardSelectEffect(Nominate, cards, i) == Effect(c1, []);
    assert [] + SelectionChangedEffect(c1, i, n).sent == SelectionChangedEffect(c1, i, n).sent;
  }

  /** `selectionChanged` never changes which card sits where: every position keeps its id. */
  lemma SelectionChangedKeepsIds(cards: seq<Card>, i: nat, n: nat)
    requires i < |cards|
    ensures forall j :: 0 <= j < |cards| ==> SelectionChangedEffect(cards, i, n).cards[j].id == cards[j].id
  {
  }

  /** A click never changes which card sits where, so a hand with distinct ids keeps them. */
  lemma ClickKeepsIds(action: Action, cards: seq<Card>, i: nat, n: nat)
    requires i < |cards|
    ensures forall j :: 0 <= j < |cards| ==> ClickEffect(action, cards, i, n).cards[j].id == cards[j].id
    ensures UniqueIds(cards) ==> UniqueIds(ClickEffect(action, cards, i, n).cards)
  {
    if action == Nominate && cards[i].state == Normal {
      SelectionChangedKeepsIds(cards[i := cards[i].(state := Selecting)], i, n);
    }
  }

  /**
    `selectionChanged` on a selecting card while every index is below n (n >= 2):
    the card gets the next index, nothing else changes, and the submission of
    the new hand goes out exactly when that index is n, nothing otherwise.
   */
  lemma ExtendShape(c1: seq<Card>, i: nat, n: nat)
    requires 2 <= n && i < |c1| && c1[i].state == Selecting && MaxIndex(c1) < n
    ensures Indexed(c1, i, n) == c1[i := c1[i].(index := MaxIndex(c1) + 1)]
    ensures SelectionChangedEffect(c1, i, n)
            == Effect(Indexed(c1, i, n), if MaxIndex(c1) + 1 == n then [Submission(Indexed(c1, i, n))] else [])
  {
    assert !Wraps(c1, n);
    IndexedInPlace(c1, i, n);
  }

  /** Without a wrap, `Indexed` only writes the card's new index. */
  lemma IndexedInPlace(c1: seq<Card>, i: nat, n: nat)
    requires i < |c1| && !Wraps(c1, n)
    ensures Indexed(c1, i, n) == c1[i := c1[i].(index := MaxIndex(c1) + 1)]
  {
  }

  /** Making a normal card selecting does not change the largest index. */
  lemma SelectingKeepsMax(cards: seq<Card>, i: nat)
    requires i < |cards|
    ensures MaxIndex(cards[i := cards[i].(state := Selecting)]) == MaxIndex(cards)
  {
    var c1 := cards[i := cards[i].(state := Selecting)];
    var k := MaxIndex(cards);
    MaxIndexAttained(cards);
    MaxIndexBounds(cards);
    if k > 0 {
      var w :| 0 <= w < |cards| && cards[w].index == k;
      assert c1[w].index == k;
    }
    MaxIndexIs(c1, k);
  }

  /**
    A click on a normal card while every index in the hand is below n gives
    it one more than the largest index, leaves every other card alone, and
    sends nothing unless that index is n.
   */
  lemma ClickExtends(cards: seq<Card>, i: nat, n: nat)
    requires 2 <= n && i < |cards| && cards[i].state == Normal
    requires MaxIndex(cards) < n
    ensures ClickEffect(Nominate, cards, i, n).cards == cards[i := Card(cards[i].id, MaxIndex(cards) + 1, Selecting)]
    ensures MaxIndex(cards) + 1 < n ==> ClickEffect(Nominate, cards, i, n).sent == []
  {
    ExtendedCards(cards, i, n);
    if MaxIndex(cards) + 1 < n {
      ExtendedQuiet(cards, i, n);
    }
  }

  /** The cards half of `ClickExtends`. */
  lemma ExtendedCards(cards: seq<Card>, i: nat, n: nat)
    requires 2 <= n && i < |cards| && cards[i].state == Normal
    requires MaxIndex(cards) < n
    ensures ClickEffect(Nominate, cards, i, n).cards == cards[i := Card(cards[i].id, MaxIndex(cards) + 1, Selecting)]
  {
    ClickIsSelectionChanged(cards, i, n);
    SelectedExtends(cards, i, n);
  }

  /** `selectionChanged` after the click has marked the card selecting gives it the next index. */
  lemma SelectedExtends(cards: seq<Card>, i: nat, n: nat)
    requires 2 <= n && i < |cards| && cards[i].state == Normal
    requires MaxIndex(cards) < n
    ensures SelectionChangedEffect(cards[i := cards[i].(state := Selecting)], i, n).cards
            == cards[i := Card(cards[i].id, MaxIndex(cards) + 1, Selecting)]
  {
    var c1 := cards[i := cards[i].(state := Selecting)];
    SelectingKeepsMax(cards, i);
    ExtendShape(c1, i, n);
    SelectThenIndex(cards, i, MaxIndex(cards) + 1);
  }

  /** The sent half of `ClickExtends`. */
  lemma ExtendedQuiet(cards: seq<Card>, i: nat, n: nat)
    requires 2 <= n && i < |cards| && cards[i].state == Normal
    requires MaxIndex(cards) + 1 < n
    ensures ClickEffect(Nominate, cards, i, n).sent == []
  {
    var c1 := cards[i := cards[i].(state := Selecting)];
    var e := SelectionChangedEffect(c1, i, n);
    assert ClickEffect(Nominate, cards, i, n) == e by {
      ClickIsSelectionChanged(cards, i, n);
    }
    assert e.sent == [] by {
      SelectingKeepsMax(cards, i);
      ExtendShape(c1, i, n);
    }
  }

  /** Marking a card selecting and then giving it an index writes one new card. */
  lemma SelectThenIndex(cards: seq<Card>, i: nat, k: nat)
    requires i < |cards|
    ensures var c1 := cards[i := cards[i].(state := Selecting)];
            c1[i := c1[i].(index := k)] == cards[i := Card(cards[i].id, k, Selecting)]
  {
  }

  /**
    A click on a normal card that gives it index n sends exactly one intent:
    the submission of the new hand.
   */
  lemma ClickCompletes(cards: seq<Card>, i: nat, n: nat)
    requires 2 <= n && i < |cards| && cards[i].state == Normal
    requires MaxIndex(cards) + 1 == n
    ensures ClickEffect(Nominate, cards, i, n).sent == [Submission(cards[i := Card(cards[i].id, n, Selecting)])]
  {
    var c1 := cards[i := cards[i].(state := Selecting)];
    SelectingKeepsMax(cards, i);
    ClickIsSelectionChanged(cards, i, n);
    ExtendShape(c1, i, n);
    assert c1[i := c1[i].(index := n)] == cards[i := Card(cards[i].id, n, Selecting)];
  }

  /**
    A click on a normal card once some card holds an index of n or more (a
    complete nomination) discards the old nomination: every other card goes
    back to index 0 and `normal`, one empty submit goes out, and the clicked
    card restarts at index 1.
   */
  lemma ClickRestarts(cards: seq<Card>, i: nat, n: nat)
    requires 2 <= n && i < |cards| && cards[i].state == Normal
    requires MaxIndex(cards) >= n
    ensures |ClickEffect(Nominate, cards, i, n).cards| == |cards|
    ensures ClickEffect(Nominate, cards, i, n).cards[i] == Card(cards[i].id, 1, Selecting)
    ensures forall j :: 0 <= j < |cards| && j != i ==> ClickEffect(Nominate, cards, i, n).cards[j] == Cleared(cards[j])
    ensures ClickEffect(Nominate, cards, i, n).sent == [Submit([])]
  {
    var c1 := cards[i := cards[i].(state := Selecting)];
    SelectingKeepsMax(cards, i);
    ClickIsSelectionChanged(cards, i, n);
    assert Wraps(c1, n) && NextIndex(c1, n) == 1;
    assert SelectionChangedEffect(c1, i, n) == Effect(Indexed(c1, i, n), [Submit([])]);
  }

  /** A hand whose cards are all back to index 0 and `normal` is tidy. */
  lemma ClearedIsTidy(cards: seq<Card>, after: seq<Card>, n: nat)
    requires UniqueIds(cards) && |after| == |cards|
    requires forall j :: 0 <= j < |cards| ==> after[j] == Cleared(cards[j])
    ensures Tidy(after, n)
  {
    MaxIndexIs(after, 0);
  }

  /** Giving a normal card of a tidy hand index k + 1 <= n keeps the hand tidy. */
  lemma ExtendedIsTidy(cards: seq<Card>, i: nat, n: nat, after: seq<Card>)
    requires i < |cards| && Tidy(cards, n) && cards[i].state == Normal && MaxIndex(cards) < n
    requires after == cards[i := Card(cards[i].id, MaxIndex(cards) + 1, Selecting)]
    ensures Tidy(after, n)
  {
    var k := MaxIndex(cards);
    MaxIndexBounds(cards);
    MaxIndexIs(after, k + 1);
    forall v | 1 <= v <= k + 1 ensures HasIndex(after, v) {
      if v <= k {
        assert HasIndex(cards, v);
        var j :| 0 <= j < |cards| && cards[j].index == v;
        assert after[j].index == v;
      } else {
        assert after[i].index == v;
      }
    }
  }

  /** A hand where one card is selecting with index 1 and every other is cleared is tidy. */
  lemma RestartedIsTidy(cards: seq<Card>, i: nat, n: nat, after: seq<Card>)
    requires 1 <= n && i < |cards| && UniqueIds(cards) && |after| == |cards|
    requires after[i] == Card(cards[i].id, 1, Selecting)
    requires forall j :: 0 <= j < |cards| && j != i ==> after[j] == Cleared(cards[j])
    ensures Tidy(after, n)
  {
    assert after[i].index == 1;
    MaxIndexIs(after, 1);
  }

  /** Every click keeps a tidy hand tidy, whatever the action and whichever card. */
  lemma ClickKeepsTidy(action: Action, cards: seq<Card>, i: nat, n: nat)
    requires 2 <= n && i < |cards| && Tidy(cards, n)
    ensures Tidy(ClickEffect(action, cards, i, n).cards, n)
  {
    var e := ClickEffect(action, cards, i, n);
    if action != Nominate {
    } else if cards[i].state != Normal {
      ClearedIsTidy(cards, e.cards, n);
    } else {
      if MaxIndex(cards) < n {
        ClickExtends(cards, i, n);
        ExtendedIsTidy(cards, i, n, e.cards);
      } else {
        ClickRestarts(cards, i, n);
        RestartedIsTidy(cards, i, n, e.cards);
      }
    }
  }

  ghost predicate StrictlySorted(s: seq<Card>)
  {
    forall a, b :: 0 <= a < b < |s| ==> s[a].index < s[b].index
  }

  ghost predicate DistinctIndices(s: seq<Card>)
  {
    forall a, b :: 0 <= a < b < |s| ==> s[a].index != s[b].index
  }

  lemma StrictCons(c: Card, s: seq<Card>)
    requires StrictlySorted(s)
    requires forall k :: 0 <= k < |s| ==> c.index < s[k].index
    ensures StrictlySorted([c] + s)
  {
    var r := [c] + s;
    forall a, b | 0 <= a < b < |r| ensures r[a].index < r[b].index {
      assert r[b] == s[b - 1];
      if a > 0 { assert r[a] == s[a - 1]; }
    }
  }

  /** Inserting a card whose index is new into a strictly sorted run keeps it strictly sorted. */
  lemma {:induction false} InsertStrict(c: Card, t: seq<Card>)
    requires StrictlySorted(t)
    requires forall k :: 0 <= k < |t| ==> t[k].index != c.index
    ensures StrictlySorted(InsertByIndex(c, t))
  {
    if |t| == 0 || c.index <= t[0].index {
      if |t| > 0 {
        assert forall k :: 0 <= k < |t| ==> t[0].index <= t[k].index;
      }
      StrictCons(c, t);
    } else {
      InsertStrict(c, t[1..]);
      var tail := InsertByIndex(c, t[1..]);
      assert SortedByIndex(t[1..]);
      InsertSorts(c, t[1..]);
      assert t == [t[0]] + t[1..];
      forall k | 0 <= k < |tail| ensures t[0].index < tail[k].index {
        assert tail[k] in multiset(t[1..]) + multiset{c};
        if tail[k] != c {
          assert tail[k] in t[1..];
        }
      }
      StrictCons(t[0], tail);
    }
  }

  /** Cards with pairwise distinct indices come out of the sort strictly ascending. */
  lemma {:induction false} SortStrict(s: seq<Card>)
    requires DistinctIndices(s)
    ensures StrictlySorted(SortByIndex(s))
  {
    if |s| > 0 {
      var rest := s[1..];
      assert DistinctIndices(rest) by {
        forall a, b | 0 <= a < b < |rest| ensures rest[a].index != rest[b].index {
          assert rest[a] == s[a + 1] && rest[b] == s[b + 1];
        }
      }
      SortStrict(rest);
      var t := SortByIndex(rest);
      SortSorts(rest);
      forall k | 0 <= k < |t| ensures t[k].index != s[0].index {
        assert t[k] in multiset(rest);
        var p :| 0 <= p < |rest| && rest[p] == t[k];
        assert s[p + 1] == t[k];
      }
      InsertStrict(s[0], t);
    }
  }

  /** The selecting cards of a hand whose selecting cards have distinct indices have distinct indices. */
  lemma {:induction false} SelectingDistinct(cards: seq<Card>)
    requires forall a, b :: 0 <= a < b < |cards| && cards[a].state == Selecting && cards[b].state == Selecting
               ==> cards[a].index != cards[b].index
    ensures DistinctIndices(SelectingCards(cards))
  {
    if |cards| > 0 {
      var rest := cards[1..];
      assert forall a :: 0 <= a < |rest| ==> rest[a] == cards[a + 1];
      SelectingDistinct(rest);
      var t := SelectingCards(rest);
      SelectingCardsMembers(rest);
      if cards[0].state == Selecting {
        forall k | 0 <= k < |t| ensures t[k].index != cards[0].index {
          assert t[k] in t;
          assert t[k] in rest;
          var p :| 0 <= p < |rest| && rest[p] == t[k];
          assert cards[p + 1] == t[k];
        }
        var r := [cards[0]] + t;
        assert SelectingCards(cards) == r;
        forall a, b | 0 <= a < b < |r| ensures r[a].index != r[b].index {
          assert r[b] == t[b - 1];
          if a > 0 { assert r[a] == t[a - 1]; }
        }
      } else {
        assert SelectingCards(cards) == t;
      }
    }
  }

  /** In a strictly ascending run drawn from 1..n that covers 1..n, position j holds index j + 1. */
  lemma {:induction false} StrictCoverAt(r: seq<Card>, n: nat, j: nat)
    requires StrictlySorted(r)
    requires forall k :: 0 <= k < |r| ==> 1 <= r[k].index <= n
    requires forall v :: 1 <= v <= n ==> HasIndex(r, v)
    requires j < |r|
    ensures r[j].index == j + 1
    decreases j
  {
    forall p | 0 <= p < j ensures r[p].index == p + 1 {
      StrictCoverAt(r, n, p);
    }
    if j > 0 {
      assert r[j - 1].index < r[j].index;
    }
    assert HasIndex(r, j + 1);
    var p :| 0 <= p < |r| && r[p].index == j + 1;
    if p > j {
      assert r[j].index < r[p].index;
    }
  }

  /** A strictly ascending run drawn from 1..n that covers 1..n is exactly 1, 2, ..., n. */
  lemma StrictCoverIsIdentity(r: seq<Card>, n: nat)
    requires 1 <= n
    requires StrictlySorted(r)
    requires forall k :: 0 <= k < |r| ==> 1 <= r[k].index <= n
    requires forall v :: 1 <= v <= n ==> HasIndex(r, v)
    ensures |r| == n
    ensures forall j :: 0 <= j < |r| ==> r[j].index == j + 1
  {
    forall j | 0 <= j < |r| ensures r[j].index == j + 1 {
      StrictCoverAt(r, n, j);
    }
    assert HasIndex(r, n);
    if |r| > 0 {
      assert r[|r| - 1].index == |r|;
    }
  }

  /** The selecting cards of a tidy hand whose largest index is n are cards of the hand with indices in 1..n. */
  lemma SelectionWithin(after: seq<Card>, n: nat)
    requires Tidy(after, n)
    ensures forall q :: 0 <= q < |SortByIndex(SelectingCards(after))| ==>
              SortByIndex(SelectingCards(after))[q] in after
              && 1 <= SortByIndex(SelectingCards(after))[q].index <= n
  {
    var sel := SelectingCards(after);
    var r := SortByIndex(sel);
    SelectingCardsMembers(after);
    SortSorts(sel);
    MaxIndexBounds(after);
    forall q | 0 <= q < |r| ensures r[q] in after && 1 <= r[q].index <= n {
      assert r[q] in multiset(sel);
    }
  }

  /** Every index 1..n of a tidy hand whose largest index is n is held by one of its selecting cards. */
  lemma SelectionCovers(after: seq<Card>, n: nat)
    requires Tidy(after, n) && MaxIndex(after) == n
    ensures forall v :: 1 <= v <= n ==> HasIndex(SortByIndex(SelectingCards(after)), v)
  {
    var sel := SelectingCards(after);
    var r := SortByIndex(sel);
    SelectingCardsMembers(after);
    SortSorts(sel);
    forall v | 1 <= v <= n ensures HasIndex(r, v) {
      assert HasIndex(after, v);
      var p :| 0 <= p < |after| && after[p].index == v;
      assert after[p] in sel;
      assert after[p] in multiset(r);
      var q :| 0 <= q < |r| && r[q] == after[p];
    }
  }

  /**
    In a tidy hand whose largest index is n, sorting the selecting cards by
    index gives exactly n cards of the hand, the j-th (from 0) holding index
    j + 1.
   */
  lemma TidySelectionInOrder(after: seq<Card>, n: nat)
    requires 1 <= n && Tidy(after, n) && MaxIndex(after) == n
    ensures |SortByIndex(SelectingCards(after))| == n
    ensures forall j :: 0 <= j < n ==>
              SortByIndex(SelectingCards(after))[j] in after && SortByIndex(SelectingCards(after))[j].index == j + 1
  {
    SelectingDistinct(after);
    SortStrict(SelectingCards(after));
    SelectionWithin(after, n);
    SelectionCovers(after, n);
    StrictCoverIsIdentity(SortByIndex(SelectingCards(after)), n);
  }

  /**
    The submission of a tidy hand whose largest index is n lists n ids, the
    j-th id (from 0) being that of the card holding index j + 1.
   */
  lemma TidySubmission(after: seq<Card>, n: nat)
    requires 1 <= n && Tidy(after, n) && MaxIndex(after) == n
    ensures |Submission(after).cards| == n
    ensures forall j :: 0 <= j < n ==> HoldsAt(after, Submission(after).cards[j], j + 1)
  {
    var r := SortByIndex(SelectingCards(after));
    TidySelectionInOrder(after, n);
    forall j | 0 <= j < n ensures HoldsAt(after, Ids(r)[j], j + 1) {
      var p :| 0 <= p < |after| && after[p] == r[j];
    }
  }

  /**
    The ordering law.  In a tidy hand holding indices 1..n-1, a click on a
    normal card completes the nomination: exactly one submit goes out, it
    lists n ids, the j-th id (from 0) is that of the card holding index
    j + 1, and the card just clicked comes last.
   */
  lemma NominationOrder(cards: seq<Card>, i: nat, n: nat)
    requires 2 <= n && i < |cards| && Tidy(cards, n) && cards[i].state == Normal
    requires MaxIndex(cards) + 1 == n
    ensures |ClickEffect(Nominate, cards, i, n).sent| == 1
    ensures |ClickEffect(Nominate, cards, i, n).sent[0].cards| == n
    ensures ClickEffect(Nominate, cards, i, n).sent[0].cards[n - 1] == cards[i].id
    ensures forall j :: 0 <= j < n ==>
              HoldsAt(ClickEffect(Nominate, cards, i, n).cards, ClickEffect(Nominate, cards, i, n).sent[0].cards[j], j + 1)
  {
    var after := cards[i := Card(cards[i].id, n, Selecting)];
    ClickExtends(cards, i, n);
    ClickCompletes(cards, i, n);
    ExtendedIsTidy(cards, i, n, after);
    MaxIndexBounds(cards);
    assert after[i].index == n;
    MaxIndexIs(after, n);
    TidySubmission(after, n);
    var last := Submission(after).cards[n - 1];
    assert HoldsAt(after, last, n);
    var p :| 0 <= p < |after| && after[p].id == last && after[p].index == n;
    assert forall q :: 0 <= q < |after| && q != i ==> after[q].index < n;
    assert p == i;
  }
}
