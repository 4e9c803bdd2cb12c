# cam client: the nomination state machine

This project models the card-selection ("nomination") logic of the cam web
client (`client.js`), a browser client for a multiplayer fill-in-the-blanks
card game, and proves what that logic promises.

The player's hand is a collection of cards. Each card has an id, an `index`
(its place in a multi-card answer, 0 when it has none) and a state (`normal`,
`selecting` or `selected`). While the game's action is `nominate`:

- a click on a `normal` card makes it `selecting`;
- a click on any other card cancels the nomination (`resetSelections`);
- a card that becomes `selecting` gets the next free index;
- when the index reaches the prompt's blank count `n`, the client sends a
  `submit` with the selecting cards' ids ordered by index.

The server answers with `select` messages. These mark cards `selected`, remove
played cards, and decide whether the game flags the selection as confirmed.
The client also runs a one-second countdown towards the end of a round, and
blinks the window title while the player is asked for something.

The model has two layers.

- **Pure layer.** Modules `Nomination`, `Selection`, `Countdown`, `Attention`
  and `Chat` state each operation as a function on values. `Nomination`
  describes an operation by an `Effect`: the new hand plus the `submit`
  intents sent, in order.
- **Imperative layer.** Module `Client` has the objects the client changes in
  place:
  - a `Socket` whose `sent` log records every outbound intent;
  - the `Hand`;
  - the `Game` fields `action`, `selectionConfirmed` and `countdown`, plus
    whether the countdown interval is registered;
  - a `ChatLog`.

  Each method updates its object step by step, with loops where the client
  iterates over the hand. Each method is proved to leave exactly the state
  the pure function gives.

Module `NominationLaws` proves the laws of the state machine. The main one is
the ordering law (`NominationLaws.NominationOrder`). Suppose only clicks have
touched the hand since it was dealt, and the click that completes the
nomination gives index `n`. Then exactly one submit goes out, with `n` ids in
index order, and the id of the card clicked last comes last. This rests on
`NominationLaws.Tidy`, an invariant that every click preserves for `n >= 2`
(`NominationLaws.ClickKeepsTidy`).

Module `ClickRuns` turns index order into click order. Take a dealt hand and
`n >= 2` clicks on `n` distinct cards. The whole run sends exactly one
intent: a submit of the clicked cards' ids, in the order they were clicked
(`ClickRuns.ClickRunSubmits`). One more click on another card discards that
nomination. It adds one empty submit, and the hand is the dealt hand with only
that card `selecting` at index 1 (`ClickRuns.ClickRunWraps`).

Conventions:

- A card's absent `index` is 0, and so is an absent `countdown`. For the
  countdown and for the largest-index computation (client.js:97-99) this is
  exact: the code only tests these values for truthiness or compares them. The
  sort comparator (client.js:108-110) subtracts indices, where an absent index
  gives `NaN`; see "Left out".
- `Array.prototype.sort` need not be stable in engines before ES2019. The model
  sorts by a stable insertion sort, so the order among equal indices is this
  model's choice. The ordering laws only sort distinct indices, where every
  correct sort agrees.
- A Backbone collection holds at most one model per id. The `Client` methods
  therefore require and keep `UniqueIds` of the hand.
- The excepted card of `resetSelections` is given by its position in the
  hand.
- Card ids form an abstract type with equality.
- The blank count `n` and the chat history length are parameters.

Three points about what the code does, and does not, do:

- **Several `selecting` cards at once.** During a multi-card nomination the
  code keeps every card clicked so far `selecting`. The `Tidy` invariant states
  what holds: a card is `selecting` exactly when it has a positive index, and
  those indices are distinct.
- **Countdown stop.** After an arm at 5, the fifth tick reaches 0. The interval
  is only cleared by the sixth tick, the first one that finds 0
  (`Countdown.TicksFromArm`).
- **No inconsistency check.** The code never checks that at most one card is
  `selecting` or that an index lies in `1..n`, so neither does the model.

## Model

| member | source | states |
|---|---|---|
| Nomination.Ids | client.js:111 | the id list has one entry per card, the id of the card at the same position (`_.pluck(cards, 'id')`) |
| Nomination.ResetAll | client.js:14-17 | the reset hand has the old length; the card at `except` is unchanged, and every other card keeps its id with index 0 and state `normal` |
| Nomination.ResetEffect | client.js:12-19 | `resetSelections` keeps the hand's length and sends exactly one intent, the empty submit |
| Nomination.MaxIndex | client.js:97-99 | no contract of its own; `Nomination.MaxIndexBounds`, `Nomination.MaxIndexAttained` and `NominationLaws.MaxIndexIs` state what it computes |
| Nomination.MaxIndexBounds | client.js:97-99 | no card's index exceeds the computed maximum of the truthy indices and the sentinel 0 |
| Nomination.MaxIndexAttained | client.js:97-99 | that maximum is 0 or is the index of some card of the hand |
| Nomination.SelectingCards | client.js:107 | `hand.where({state: 'selecting'})` is no longer than the hand; `SelectingCardsCount` and `SelectingCardsAppend` give its counts and its order |
| Nomination.SelectingCardsMembers | client.js:107 | a card is in the selection exactly when it is a card of the hand in state `selecting` |
| Nomination.SelectingCardsCount | client.js:107 | each `selecting` card occurs in the selection as often as in the hand, and no other card occurs in it |
| Nomination.SelectingCardsAppend | client.js:107 | the filter distributes over concatenation, so the selection keeps the hand's order |
| Nomination.SelectingCardsSingle | client.js:107 | a one-card hand keeps its card exactly when that card is `selecting` |
| Nomination.InsertByIndex | client.js:108-110 | one insertion step adds exactly one card |
| Nomination.SortByIndex | client.js:108-110 | the sort keeps the length; the order among equal indices is this model's choice (a stable sort) |
| Nomination.InsertSorts | client.js:108-110 | one insertion step of the sort keeps a run sorted by index and adds exactly the inserted card |
| Nomination.SortSorts | client.js:108-110 | the sort with comparator `a.index - b.index` yields a run sorted ascending by index that is a permutation of its input |
| Nomination.Wraps | client.js:101 | no contract of its own; `NominationLaws.IndexWraps` and `NominationLaws.IndexFollowsLargest` state both of its cases |
| Nomination.NextIndex | client.js:97-104 | the index given is at least 1, and at most n when n >= 1 |
| Nomination.Indexed | client.js:97-105 | the hand keeps its length, and the clicked card gets `NextIndex` |
| Nomination.Submission | client.js:106-111 | the submit names one id per `selecting` card of the hand |
| Nomination.SelectionChangedEffect | client.js:89-113 | the hand keeps its length and at most one intent goes out; `NominationLaws.SingleBlankSubmit`, `IndexFollowsLargest`, `IndexWraps` and `SubmissionRule` state its cases |
| Nomination.CardSelectEffect | client.js:29-36 | the hand keeps its length and at most one intent goes out; `NominationLaws.CardSelectRules` states its three cases |
| Nomination.ClickEffect | client.js:29-113 | a click together with the `selectionChanged` it triggers keeps the hand's length and sends at most one intent; `NominationLaws.ClickIsSelectionChanged` and `ClickKeepsTidy` state the rest |
| NominationLaws.ResetSelectionsClears | client.js:12-19 | `resetSelections` keeps the hand's ids in order, gives every card but the excepted one index 0 and state `normal`, leaves the excepted card unchanged, and sends exactly one empty submit |
| NominationLaws.ResetIdempotent | client.js:12-19 | resetting a reset hand again changes nothing |
| NominationLaws.CardSelectRules | client.js:29-36 | outside `nominate` a click changes nothing and sends nothing; on a non-`normal` card it clears every card and sends one empty submit; on a `normal` card only that card changes, to `selecting`, and nothing is sent |
| NominationLaws.ClickIsSelectionChanged | client.js:29-113 | a click on a `normal` card under `nominate` has exactly the effect of `selectionChanged` on the hand where that card is `selecting` |
| NominationLaws.SelectionChangedKeepsIds | client.js:89-113 | `selectionChanged` keeps the id at every position of the hand |
| NominationLaws.ClickKeepsIds | client.js:29-113 | a click keeps the id at every position, so a hand with distinct ids keeps them distinct |
| NominationLaws.SingleBlankSubmit | client.js:92-95 | with fewer than two blanks, the hand is untouched (no index is assigned) and the only intent is a submit of exactly the selecting card's id |
| NominationLaws.IndexFollowsLargest | client.js:97-105 | with n >= 2 and every index below n, the card gets an index in 1..n above every index in the hand, either 1 or one more than an index some card holds; only that card's index changes, and at most one intent goes out |
| NominationLaws.IndexWraps | client.js:101-105 | with n >= 2 and some index already at n or above, every other card is reset to index 0 and `normal`, the card gets index 1, and exactly one empty submit goes out |
| NominationLaws.SubmissionRule | client.js:101-111 | when the assigned index is not n, every intent sent is the empty submit; a submit naming cards goes out exactly when the assigned index equals n, and it lists the ids of the new hand's selecting cards in an order sorted by index that is a permutation of them |
| NominationLaws.MaxIndexIs | client.js:97-99 | an upper bound of the indices that is 0 or held by a card is the computed maximum |
| NominationLaws.DealtHandIsTidy | client.js:5 | a dealt hand (every card `normal`, no index, distinct ids) satisfies the click-driven invariant `Tidy` |
| NominationLaws.ExtendShape | client.js:97-111 | without a wrap, `selectionChanged` writes only the card's new index, max + 1, and sends the submission of the new hand exactly when that index is n |
| NominationLaws.SelectingKeepsMax | client.js:97-99 | making a card `selecting` does not change the largest index |
| NominationLaws.ClickExtends | client.js:29-112 | a click on a `normal` card while every index is below n turns the hand into the old hand with that one card `selecting` at max + 1, and sends nothing unless max + 1 is n |
| NominationLaws.ClickCompletes | client.js:29-111 | a click that assigns index n sends exactly one intent, the submission of the new hand |
| NominationLaws.ClickRestarts | client.js:29-105 | a click on a `normal` card after a complete nomination discards it: every other card is cleared, one empty submit goes out, and the clicked card restarts at index 1 |
| NominationLaws.ClearedIsTidy | client.js:32-33 | the hand after a cancelling click satisfies `Tidy` |
| NominationLaws.ExtendedIsTidy | client.js:97-105 | giving a normal card of a tidy hand the next index keeps the hand tidy |
| NominationLaws.RestartedIsTidy | client.js:101-105 | the hand after a wrap satisfies `Tidy` |
| NominationLaws.ClickKeepsTidy | client.js:29-113 | for n >= 2, every click, under any action and on any card, keeps a tidy hand tidy |
| NominationLaws.InsertStrict | client.js:108-110 | inserting a card with a new index into a strictly ascending run keeps it strictly ascending |
| NominationLaws.SortStrict | client.js:108-110 | cards with distinct indices come out of the sort strictly ascending |
| NominationLaws.SelectingDistinct | client.js:107 | if the selecting cards of the hand have distinct indices, so does the selection |
| NominationLaws.StrictCoverIsIdentity | client.js:106-111 | a strictly ascending run of indices within 1..n that covers 1..n is exactly 1, 2, ..., n |
| NominationLaws.SelectionWithin | client.js:107-110 | every card of the sorted selection of a tidy hand is a card of the hand with an index in 1..n |
| NominationLaws.SelectionCovers | client.js:107-110 | in a tidy hand whose largest index is n, every index 1..n is held by a card of the sorted selection |
| NominationLaws.TidySelectionInOrder | client.js:107-110 | in a tidy hand whose largest index is n, the sorted selection has n cards of the hand, the j-th holding index j + 1 |
| NominationLaws.TidySubmission | client.js:106-111 | the submission of such a hand lists n ids, the j-th being that of the card holding index j + 1 |
| NominationLaws.NominationOrder | client.js:29-113 | the ordering law: in a tidy hand holding 1..n-1, the completing click sends exactly one submit of n ids in index order, ending with the clicked card's id |
| ClickRuns.ClickRun | client.js:29-113 | clicks at a list of positions, applied one after another, keep the hand's length |
| ClickRuns.ClickRunBuilds | client.js:29-113 | after clicks on k distinct cards of a dealt hand, with k <= n and n >= 2, the hand is tidy with largest index k; the card clicked j-th is `selecting` with index j + 1, every other card is as dealt, and nothing is sent while k < n |
| ClickRuns.ClickRunSubmits | client.js:29-113 | n clicks on distinct cards of a dealt hand (n >= 2) send exactly one intent, a submit of the clicked cards' ids in click order |
| ClickRuns.ClickRunWraps | client.js:29-105 | one more click, on a card not yet clicked, adds exactly one empty submit and leaves the dealt hand with only that card `selecting` at index 1 |
| Selection.Reconciled | client.js:447-457 | one card's step keeps its id and index, and either keeps its state or sets it to `normal` or `selected` |
| Selection.Reconcile | client.js:447-457 | each card of the hand is handled in place as the `hand.each` loop handles it: listed cards become `selected` (kept as they are when final), unlisted `selecting` cards are kept when not final, every other card becomes `normal` |
| Selection.WithoutIds | client.js:458-459 | `hand.remove(targets)` is no longer than the hand and keeps exactly the cards whose ids are not listed; `WithoutIdsCount` and `WithoutIdsAppend` give its counts and its order |
| Selection.WithoutIdsCount | client.js:458-459 | each card with an unlisted id occurs as often as in the hand, and a card with a listed id not at all |
| Selection.WithoutIdsAppend | client.js:458-459 | removal distributes over concatenation, so the kept cards keep their order |
| Selection.WithoutIdsSingle | client.js:458-459 | a one-card hand keeps its card exactly when its id is not listed |
| Selection.ReconcileAppend | client.js:447-457 | the per-card loop distributes over concatenation |
| Selection.SelectCards | client.js:442-459 | a `select` never adds cards, and a non-final one keeps the hand's length |
| Selection.Confirmed | client.js:460 | no contract of its own; `Client.Game.ApplySelect` and `Attention.NeededAfterSelect` state its use |
| Selection.SelectNonFinal | client.js:442-457 | a non-final `select` keeps every card's position, id and index; a card becomes `selected` exactly when listed; an unlisted `selecting` card is untouched; every other card becomes `normal` |
| Selection.SelectFinal | client.js:442-459 | after a final `select` a card is in the hand exactly when it is an unlisted card of the old hand, made `normal` with id and index kept |
| Selection.SelectFinalAppend | client.js:442-459 | a final `select` distributes over concatenation |
| Selection.SelectFinalSingle | client.js:442-459 | on one card, a final `select` drops it when listed and otherwise makes it `normal`; with `SelectFinalAppend`, the result is the unlisted old cards, made `normal`, in their old order |
| Selection.UnknownIdIgnored | client.js:443-449 | an id naming no card of the hand changes nothing |
| Selection.SelectSeesHeldIdsOnly | client.js:442-459 | two id lists that name the same cards of the hand give the same result |
| Selection.WithoutHeldIdsOnly | client.js:458-459 | two id lists that name the same cards of the hand remove the same cards |
| Selection.WithoutUnknown | client.js:459 | removal by a list that also names an absent id removes the same cards |
| Selection.SelectIdempotent | client.js:442-459 | applying the same `select` message twice leaves the hand as applying it once |
| Selection.WithoutNothing | client.js:459 | removal by ids the hand does not hold keeps the hand |
| Selection.WithoutKeepsUniqueIds | client.js:459 | removal keeps the remaining ids distinct |
| Selection.SelectKeepsUniqueIds | client.js:442-459 | a hand with distinct ids keeps distinct ids after any `select` message |
| Countdown.Arm | client.js:475-483 | arming sets the value to `remaining`, and the interval runs exactly when `remaining` is non-zero |
| Countdown.Tick | client.js:488-496 | a tick lowers the value by at most one and never starts the interval |
| Countdown.Ticks | client.js:488-496 | any number of ticks never raises the value and never starts the interval |
| Countdown.TickRule | client.js:488-496 | a tick lowers a value of at least 1 by exactly one and keeps ticking; otherwise it stops the interval and keeps the value; a non-negative value stays non-negative |
| Countdown.Quiescent | client.js:488-496 | once no interval is registered, any number of ticks changes nothing |
| Countdown.NeverNegative | client.js:488-496 | from a non-negative value, any number of ticks stays within 0 and the starting value |
| Countdown.TicksFromArm | client.js:475-496 | armed with r >= 0, k ticks leave r - k while k <= r, with the interval still running exactly when r is non-zero; the first tick after that stops it, and the value stays at 0 |
| Countdown.NegativeStops | client.js:480-495 | armed with a negative value, the first tick stops the interval and the value never changes |
| Attention.Needed | client.js:514-517 | no contract of its own; `Attention.NeededRule` states its cases |
| Attention.NeededRule | client.js:515-517 | no action asks for nothing; any action other than `nominate` asks for attention; `nominate` asks exactly while the selection is not confirmed |
| Attention.NeededAfterSelect | client.js:515-517 | under `nominate`, after a `select` message attention is needed exactly when the message named no card or was final |
| Chat.Trimmed | client.js:359-363 | the trimmed log is the newest min(length, history) messages, in order |
| Chat.TrimStable | client.js:359-363 | trimming is idempotent and leaves a log within the bound untouched |
| Client.Socket.Send | client.js:395-399 | sending appends exactly the intent to the outbound log |
| Client.Hand.ResetSelections | client.js:12-19 | the loop over the hand leaves `ResetAll` of the old hand and keeps its ids distinct, and the socket log gains exactly one empty submit |
| Client.Hand.RemoveIds | client.js:459 | the hand becomes `WithoutIds` of the old hand and keeps its ids distinct |
| Client.Game.SelectionChanged | client.js:89-113 | the hand and socket log end as `SelectionChangedEffect` of the old hand prescribes, and the hand keeps its ids distinct |
| Client.Game.CardClicked | client.js:29-36 | the hand and socket log end as `ClickEffect` of the old hand prescribes, and the hand keeps its ids distinct |
| Client.Game.ApplySelect | client.js:442-461 | the reconciling loop and removal leave `SelectCards` of the old hand with its ids distinct, `selectionConfirmed` becomes `Confirmed(ids, final)`, and the other game fields keep their values |
| Client.Game.ArmCountdown | client.js:475-483 | the countdown and interval flag become `Arm(remaining)` |
| Client.Game.TickCountdown | client.js:488-496 | the countdown and interval flag become `Tick` of their old values |
| Client.Game.AttentionNeeded | client.js:514-517 | under `nominate`, attention is needed exactly while the selection is not confirmed; under any other action, exactly when there is an action |
| Client.ChatLog.Trim | client.js:359-363 | the log becomes `Trimmed` of the old log |
| Client.ChatLog.Receive | client.js:346-352 | after a message arrives and the log is trimmed, the log is the newest messages of old log + message, at most `history` of them |

## Left out

- View code is not modelled: card, hand, game, account and chat rendering, animations, the "Ending in" banner and title blinking. It has no effect on the modelled state. `Client.Game.AttentionNeeded` gives the boolean the blinking keys off.
- Transport and persistence are not modelled: SockJS callbacks, JSON encoding, `localStorage`, login and `randomId`. `send` is modelled as appending an `Intent` to `Socket.sent`, and only `submit` intents are modelled.
- Timers: `setInterval` and `clearInterval` become the boolean `Game.ticking`. Each firing of the interval is an explicit `TickCountdown` call.
- `dispatch.set`, `dispatch.add`, `dispatch.reset` and `dispatch.elect` are not modelled. They are generic store writes reached through a dynamic `window[target]` lookup, or DOM effects only.
- The prompt parser that yields `blackInfo.blankCount` is not part of this model. The blank count `n` is a parameter.
- `CHAT_HISTORY` is defined outside `client.js`, so it is a parameter. Chat messages are an opaque type.
- The Backbone `change:state` event bus is modelled by calling `SelectionChanged` after a click makes a card `selecting`. The notifications from resets and from `dispatch.select` are left out: they carry `normal` or `selected`, and `selectionChanged` returns at once on those.
- Client.Game.CardClicked: the clicked card is given by its position in the hand, so a click on a card that is not in the hand is not modelled.
- Card ids are an abstract type with equality, not strings. Nothing in the core looks inside an id.
- The laws about multi-card nominations (`NominationLaws.Tidy` and the ordering law) are proved for hands driven by clicks alone. A `select` message resets states but keeps indices, so it can leave a hand that is not tidy.
- A `selecting` card with no index. A card selected while the prompt has fewer than two blanks keeps `selecting` with no index (client.js:94-95). If such a card is still `selecting` in a later multi-card round, the sort comparator at client.js:108-110 computes `NaN` for it, and the engine's order is then unspecified. The model reads the absent index as 0 and sorts that card first. The ordering laws assume a hand driven by clicks since it was dealt, where this cannot happen.
- A `null` `blackInfo`: `selectionChanged` throws at client.js:92-93 when no prompt is set. The model always has a blank count `n`.
