/**
  The client's mutable objects: the socket it sends intents on, the hand, the
  game model with the countdown interval, and the chat log.  Each method
  changes its object in place the way the client does and is proved to leave
  exactly the state the matching function of modules Nomination, Selection,
  Countdown and Chat describes.
 */
module Client {
  import opened Nomination
  import opened Selection
  import opened Countdown
  import opened Chat
  import opened Attention
  import NominationLaws

  /** The outbound side of the connection: every intent sent, oldest first. */
  class Socket {
    var sent: seq<Intent>

    constructor ()
      ensures sent == []
    {
      sent := [];
    }

    /** `send(type, msg)`. */
    method Send(m: Intent)
      modifies this
      ensures sent == old(sent) + [m]
    {
      sent := sent + [m];
    }
  }

  /** The hand collection (`Cards`), in hand order; a collection keyed by id holds each id once. */
  class Hand {
    var cards: seq<Card>
    const sock: Socket

    constructor (sock: Socket, dealt: seq<Card>)
      ensures this.sock == sock && cards == dealt
    {
      this.sock := sock;
      cards := dealt;
    }

    /**
      `resetSelections`: every card but the one at `except` gets index 0 and
      state `normal`, then an empty submit goes out.
     */
    method ResetSelections(except: Option<nat>)
      requires UniqueIds(cards)
      modifies this, sock
      ensures cards == ResetAll(old(cards), except)
      ensures UniqueIds(cards)
      ensures sock.sent == old(sock.sent) + [Submit([])]
    {
      var j := 0;
      while j < |cards|
        invariant j <= |cards| == |old(cards)|
        invariant forall k :: 0 <= k < j ==> cards[k] == ResetAll(old(cards), except)[k]
        invariant forall k :: j <= k < |cards| ==> cards[k] == old(cards)[k]
        invariant sock.sent == old(sock.sent)
      {
        if except != Some(j) {
          cards := cards[j := Cleared(cards[j])];
        }
        j := j + 1;
      }
      assert forall k :: 0 <= k < |cards| ==> cards[k].id == old(cards)[k].id;
      sock.Send(Submit([]));
    }

    /** `hand.remove(targets)`: drop the cards whose ids are listed. */
    method RemoveIds(ids: seq<CardId>)
      requires UniqueIds(cards)
      modifies this
      ensures cards == WithoutIds(old(cards), ids)
      ensures UniqueIds(cards)
    {
      var kept: seq<Card> := [];
      var j := 0;
      while j < |cards|
        invariant j <= |cards|
        invariant kept == WithoutIds(cards[..j], ids)
      {
        assert cards[..j + 1][..j] == cards[..j];
        if cards[j].id !in ids {
          kept := kept + [cards[j]];
        }
        j := j + 1;
      }
      assert cards[..j] == cards;
      WithoutKeepsUniqueIds(cards, ids);
      cards := kept;
    }
  }

  /**
    The game model: the current action, whether the server confirmed the
    selection, the countdown value, and whether the countdown interval is
    registered (a module-level handle in the client).
   */
  class Game {
    var action: Action
    var selectionConfirmed: bool
    var countdown: int
    var ticking: bool
    const hand: Hand

    constructor (hand: Hand)
      ensures this.hand == hand
      ensures action == NoAction && !selectionConfirmed && countdown == 0 && !ticking
    {
      this.hand := hand;
      action := NoAction;
      selectionConfirmed := false;
      countdown := 0;
      ticking := false;
    }

    /** `selectionChanged` for the card at position `i`, the prompt having `n` blanks. */
    method SelectionChanged(i: nat, n: nat)
      requires i < |hand.cards| && UniqueIds(hand.cards)
      modifies hand, hand.sock
      ensures hand.cards == SelectionChangedEffect(old(hand.cards), i, n).cards
      ensures hand.sock.sent == old(hand.sock.sent) + SelectionChangedEffect(old(hand.cards), i, n).sent
      ensures UniqueIds(hand.cards)
    {
      NominationLaws.SelectionChangedKeepsIds(hand.cards, i, n);
      if hand.cards[i].state != Selecting {
        return;
      }
      if n < 2 {
        hand.sock.Send(Submit([hand.cards[i].id]));
        return;
      }
      var index := MaxIndex(hand.cards) + 1;
      if index > n {
        index := 1;
        hand.ResetSelections(Some(i));
      }
      hand.cards := hand.cards[i := hand.cards[i].(index := index)];
      if index == n {
        hand.sock.Send(Submission(hand.cards));
      }
    }

    /**
      A click on the card at position `i`: `CardView.select`, then the
      hand's `change:state` notification when the card became `selecting`.
     */
    method CardClicked(i: nat, n: nat)
      requires i < |hand.cards| && UniqueIds(hand.cards)
      modifies hand, hand.sock
      ensures hand.cards == ClickEffect(action, old(hand.cards), i, n).cards
      ensures hand.sock.sent == old(hand.sock.sent) + ClickEffect(action, old(hand.cards), i, n).sent
      ensures UniqueIds(hand.cards)
    {
      if action != Nominate {
        return;
      }
      if hand.cards[i].state != Normal {
        hand.ResetSelections(None);
      } else {
        ghost var before := hand.cards;
        hand.cards := hand.cards[i := hand.cards[i].(state := Selecting)];
        assert forall k :: 0 <= k < |hand.cards| ==> hand.cards[k].id == before[k].id;
        SelectionChanged(i, n);
        NominationLaws.ClickIsSelectionChanged(before, i, n);
      }
    }

    /** `dispatch.select`: reconcile the hand with the server's card list. */
    method ApplySelect(ids: seq<CardId>, final: bool)
      requires UniqueIds(hand.cards)
      modifies this, hand
      ensures hand.cards == SelectCards(old(hand.cards), ids, final)
      ensures UniqueIds(hand.cards)
      ensures selectionConfirmed == Confirmed(ids, final)
      ensures action == old(action) && countdown == old(countdown) && ticking == old(ticking)
    {
      var j := 0;
      while j < |hand.cards|
        invariant j <= |hand.cards| == |old(hand.cards)|
        invariant forall k :: 0 <= k < j ==> hand.cards[k] == Reconciled(old(hand.cards)[k], ids, final)
        invariant forall k :: j <= k < |hand.cards| ==> hand.cards[k] == old(hand.cards)[k]
        invariant action == old(action) && countdown == old(countdown) && ticking == old(ticking)
      {
        var card := hand.cards[j];
        if card.id in ids {
          if !final {
            hand.cards := hand.cards[j := card.(state := Selected)];
          }
        } else if final || card.state != Selecting {
          hand.cards := hand.cards[j := card.(state := Normal)];
        }
        j := j + 1;
      }
      assert hand.cards == Reconcile(old(hand.cards), ids, final);
      assert UniqueIds(hand.cards) by {
        assert forall k :: 0 <= k < |hand.cards| ==> hand.cards[k].id == old(hand.cards)[k].id;
      }
      if final {
        hand.RemoveIds(ids);
      }
      selectionConfirmed := |ids| > 0 && !final;
    }

    /** `dispatch.countdown`: clear any interval, take the new value, start an interval for a non-zero one. */
    method ArmCountdown(remaining: int)
      modifies this
      ensures Timer(countdown, ticking) == Arm(remaining)
      ensures action == old(action) && selectionConfirmed == old(selectionConfirmed)
    {
      if ticking {
        ticking := false;
      }
      if remaining != 0 {
        ticking := true;
      }
      countdown := remaining;
    }

    /** One firing of the countdown interval; nothing fires when none is registered. */
    method TickCountdown()
      modifies this
      ensures Timer(countdown, ticking) == Tick(old(Timer(countdown, ticking)))
      ensures action == old(action) && selectionConfirmed == old(selectionConfirmed)
    {
      if !ticking {
        return;
      }
      var n := countdown;
      if n >= 1 {
        countdown := n - 1;
      } else if ticking {
        ticking := false;
      }
    }

    /**
      Whether the title should blink while the window is not focused: during
      `nominate` exactly while the selection is unconfirmed, otherwise
      exactly while some action is set.
     */
    function AttentionNeeded(): (needed: bool)
      reads this
      ensures action == Nominate ==> (needed <==> !selectionConfirmed)
      ensures action != Nominate ==> (needed <==> action != NoAction)
    {
      Needed(action, selectionConfirmed)
    }
  }

  /** The chat collection, oldest message first. */
  class ChatLog<M> {
    var messages: seq<M>

    constructor ()
      ensures messages == []
    {
      messages := [];
    }

    /** `trim`: drop the oldest messages beyond `history`. */
    method Trim(history: nat)
      modifies this
      ensures messages == Trimmed(old(messages), history)
    {
      var over := |messages| - history;
      if over > 0 {
        messages := messages[over..];
      }
    }

    /** A message arrives and is shown, after which the log is trimmed. */
    method Receive(m: M, history: nat)
      modifies this
      ensures messages == Trimmed(old(messages) + [m], history)
      ensures |messages| <= history
    {
      messages := messages + [m];
      Trim(history);
    }
  }
}
