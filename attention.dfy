/**
  Whether the player is being asked for something, the test the client uses
  to blink the window title while the window is not focused.
 */
module Attention {
  import opened Nomination
  import opened Selection

  /**
    The action itself stands for "needed" when present; during `nominate` it
    is replaced by "the selection is not yet confirmed".
   */
  function Needed(action: Action, confirmed: bool): bool
  {
    if action == Nominate then !confirmed else action != NoAction
  }

  /**
    No action asks for nothing; any action other than `nominate` asks for
    attention whatever the confirmation; `nominate` asks exactly until the
    selection is confirmed.
   */
  lemma NeededRule(action: Action, confirmed: bool)
    ensures action == NoAction ==> !Needed(action, confirmed)
    ensures action != NoAction && action != Nominate ==> Needed(action, confirmed)
    ensures action == Nominate ==> (Needed(action, confirmed) <==> !confirmed)
  {
  }

  /**
    During `nominate`, after a `select` message the player is asked for
    attention exactly when the message named no card or was final.
   */
  lemma NeededAfterSelect(ids: seq<CardId>, final: bool)
    ensures Needed(Nominate, Confirmed(ids, final)) <==> ids == [] || final
  {
  }
}
