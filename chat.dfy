/** The chat log the client keeps, bounded by the history length. */
module Chat {

  /** The log after `trim`: only the newest `history` messages, oldest dropped first. */
  function Trimmed<M>(msgs: seq<M>, history: nat): (r: seq<M>)
    ensures |r| == if |msgs| > history then history else |msgs|
    ensures r == msgs[|msgs| - |r|..]
  {
    var over := |msgs| - history;
    if over > 0 then msgs[over..] else msgs
  }

  /** Trimming a trimmed log changes nothing, and a log within the bound is not touched. */
  lemma TrimStable<M>(msgs: seq<M>, history: nat)
    ensures Trimmed(Trimmed(msgs, history), history) == Trimmed(msgs, history)
    ensures |msgs| <= history ==> Trimmed(msgs, history) == msgs
  {
  }
}
