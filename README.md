# Fated Rolls: forced-roll queue and roll override

Fated Rolls is a module for a virtual tabletop. It lets the game master queue
die values for each player. Each queued value is then forced onto that
player's next roll. This project models the module's host-independent core,
all of it in `scripts/fated-rolls.js`:

- **The forced-roll queue store** (`wrappers.dfy`, `forced_queue.dfy`). This is
  a table from user id to an ordered list of integers, kept in world settings.
  It is modelled as the class `ForcedRollStore` with a field
  `data: map<string, seq<int>>`:
  - `Peek` reads the head of a user's list (`getForcedRollForUser`).
  - `Consume` shifts the head off the list and writes the table back
    (`consumeForcedRoll`).
  - `SetAll` replaces the whole table, as the configuration form does when it
    is submitted.
- **The die-result override** (`roll_terms.dfy`). A roll is a sequence of
  terms. A `Die` term carries its individual results; each result has a value
  and an `active` flag. `OverrideTerms` is the hook's nested loop: it
  overwrites the value of every result of every `Die` term. Its reference
  definition is `ForceTerms`. The lemmas state the override's shape exactly,
  in both directions, and that dice-free rolls are untouched. Two further
  lemmas (`ForceResultsLastWins`, `ForceTermsLastWins`) are facts about the
  override function alone. The hook never forces one roll twice.
- **The pre-create-chat-message hook** (`interceptor.dfy`).
  `OnPreCreateChatMessage` works on an abstract message (the owner's id and
  its rolls), the current client's GM flag and the store. It has three
  early returns: not the GM, no first roll, and nothing queued. Otherwise it
  forces the first roll and then consumes exactly one value. `Intercept` is
  its specification as a function. `FifoOrder` proves first-in-first-out
  consumption over any run of one user's roll messages. `MixedFifoQueue` and
  `MixedFifoForced` prove the same order for runs in which other players'
  messages, and messages without a roll, come in between.

Some of the code's behaviour is easy to misread. The model follows the code:

- Line 60 only overwrites the `result` field of the results already present.
  It does not replace them with `term.number` fresh active results. The model
  keeps their number and their `active` flags.
- The queue used is always the message owner's (`message.user.id`, lines 54
  and 69). The hook's `userId` argument is never read. The model keys by
  `Message.ownerId` and takes `userId` without using it.
- Consuming for a user whose entry is an existing empty list still writes
  the table back (an empty array is truthy in JavaScript, line 42). The list
  stays empty. Consuming for a user with no entry returns without writing.
- A queued `0` counts as a forced value. Peek returns it, and the hook only
  compares against `undefined` (line 55).

## Model

| member | source | states |
|---|---|---|
| `ForcedQueue.ForcedRollStore.constructor` | scripts/fated-rolls.js:21-26 | the stored table starts as the registered default, the empty mapping |
| `ForcedQueue.ForcedRollStore.Peek` | scripts/fated-rolls.js:33-37 | a value is returned exactly when the user has an entry whose list is non-empty, and it is that list's first element; reading changes nothing |
| `ForcedQueue.Consumed` | scripts/fated-rolls.js:40-45 | consuming keeps the set of users, leaves every other user's list unchanged, leaves the table unchanged for an absent user, removes exactly the head of a non-empty list, with the rest in order, and leaves an empty list empty (the key stays) |
| `ForcedQueue.ForcedRollStore.Consume` | scripts/fated-rolls.js:40-45 | the stored table after the call is the old table with one value consumed for that user |
| `ForcedQueue.ForcedRollStore.SetAll` | scripts/fated-rolls.js:96-98 | after a bulk replace the table is the submitted mapping, and peeking any user gives the first element of that user's submitted list |
| `ForcedQueue.PeekAfterConsume` | scripts/fated-rolls.js:33-45 | after one consume, peeking the same user gives the second queued value, or none when fewer than two were queued |
| `ForcedQueue.ConsumeKeepsOtherPeeks` | scripts/fated-rolls.js:40-45 | consuming for one user never changes what another user peeks |
| `RollTerms.OverrideTerms` | scripts/fated-rolls.js:58-62 | the nested loops give the same number and order of terms; every die term keeps its faces, number, result count and active flags, with every result value equal to the forced value; every other term is unchanged; the result equals the reference `ForceTerms` |
| `RollTerms.ForceResultsCharacterised` | scripts/fated-rolls.js:60 | a list of die results is the forced form of another exactly when it has the same length and each entry has the forced value with the original active flag |
| `RollTerms.ForceTermCharacterised` | scripts/fated-rolls.js:59-61 | a term is the forced form of another exactly when a die term keeps faces, number and flags with all values forced, and any other term is identical |
| `RollTerms.ForceTermsCharacterised` | scripts/fated-rolls.js:58-62 | a term sequence is the forced form of another exactly when it has the same length and each term is that term's forced form |
| `RollTerms.ForcedTermsShowValue` | scripts/fated-rolls.js:58-62 | in any forced form of a roll, every result of every die term shows the forced value |
| `RollTerms.ForceTermsShape` | scripts/fated-rolls.js:58-62 | the reference override keeps term count, order, die shape and non-die terms, and makes every die result show the forced value |
| `RollTerms.ForceResultsLastWins` | scripts/fated-rolls.js:60 | a property of the override function, not behaviour the hook shows: forcing a die's results with one value and then another equals forcing once with the later value |
| `RollTerms.ForceTermsLastWins` | scripts/fated-rolls.js:58-62 | a property of the override function, not behaviour the hook shows (each call forces a new copy once): forcing a roll twice equals forcing it once with the later value, so the override is idempotent |
| `RollTerms.ForceTermsWithoutDice` | scripts/fated-rolls.js:58-62 | a roll with no die terms comes out of the override identical |
| `Interceptor.Intercept` | scripts/fated-rolls.js:48-70 | when the client is not the GM's, the message has no roll, or its owner has nothing queued, message and table are unchanged; otherwise the owner's queue loses exactly one value and the first roll becomes that roll forced to the owner's first queued value; the owner is kept, and, in the model's reading of the update at line 66, so are the number of rolls and every later roll |
| `Interceptor.InterceptForcesFirstRoll` | scripts/fated-rolls.js:54-62 | when the hook acts, every die result of the updated first roll shows the owner's first queued value, and terms, their order, die shapes and non-die terms are kept |
| `Interceptor.OnPreCreateChatMessage` | scripts/fated-rolls.js:48-70 | the hook's guards, peek, override and single consume, keyed by the message owner and not by the `userId` argument, produce exactly the updated message and table that `Intercept` describes |
| `Interceptor.InterceptAll` | scripts/fated-rolls.js:48-70 | a run of successive hook calls yields one updated message per input message |
| `Interceptor.FifoQueues` | scripts/fated-rolls.js:54-69 | after n successive rolls by one user, that user's list has lost its first n values (or all of them) and every other entry is unchanged |
| `Interceptor.FifoForced` | scripts/fated-rolls.js:54-69 | in successive rolls by one user with list `q`, roll i is forced to `q[i]` for every i below the length of `q` |
| `Interceptor.FifoUntouched` | scripts/fated-rolls.js:49-55 | in successive rolls by one user with list `q`, every roll from position length of `q` on is left exactly as it was |
| `Interceptor.FifoOrder` | scripts/fated-rolls.js:54-69 | for successive rolls by one user with list `q`, roll i is forced to `q[i]` while values remain and untouched after that; the user's list ends with the used values removed from its front, and every other entry is unchanged |
| `Interceptor.ThreeQueuedValues` | scripts/fated-rolls.js:54-69 | with `[a, b, c]` queued, four successive rolls are forced to a, b and c, the fourth is untouched, and the entry is left present and empty |
| `Interceptor.OtherOwnersLeaveQueue` | scripts/fated-rolls.js:49-54 | one hook call on a message that is not a roll message of a user (owned by someone else, or with no roll) never changes that user's list |
| `Interceptor.MixedFifoQueue` | scripts/fated-rolls.js:49-69 | in any run, whatever else is interleaved, a user's list ends with one value removed from its front per roll message of that user, or all of them |
| `Interceptor.MixedFifoForced` | scripts/fated-rolls.js:49-69 | in any run, whatever else is interleaved, a user's roll message at position i is forced to list position k, where k counts that user's earlier roll messages, and is left as it was once the list is used up |

## Left out

- Settings and hook registration (`init`, `Hooks.on`, `Hooks.once`, lines 11-30 and 74-76) only register things with the host. The model starts from a store holding the registered default, the empty mapping.
- The configuration form `ForcedRollsConfigApp` (lines 79-101) is host UI. Only the effect of its submit on the store is modelled, as `SetAll`. The host helpers `expandObject`/`mergeObject` and the form's data loading are not modelled.
- The host's roll internals are not visible: `Roll.fromData`, `toJSON`, `evaluate` and `render` (lines 57, 64, 66). The model does not recompute totals or formulas and does not produce rendered HTML. The model assumes `evaluate` (line 64) succeeds and keeps the results the override wrote at line 60. The messages that `Intercept`, `FifoForced` and `MixedFifoForced` describe rest on that assumption. The message update is modelled as replacing the message's first roll with the forced roll.
- `Interceptor.Intercept`: line 51 reads the roll from `message.rolls[0]`. Line 66 writes it back under a different key, `roll` (singular). What the host does with that key is not visible. "The first roll is replaced, the number of rolls and every later roll are kept" is the model's reading of the update. The code does not show that behaviour.
- `message.update` and `ui.notifications.info` (lines 66, 68) are I/O and have no counterpart.
- `RollTerms.OverrideTerms` builds a new term sequence instead of assigning `r.result` in place. The model assumes that `Roll.fromData(roll.toJSON())` (line 57) gives a copy that shares no result objects with the original roll. The host's code is not visible, so this is not shown. If the two did share result objects, the original roll's results would also be overwritten, and the model does not capture that aliasing.
- Only top-level `Die` terms are recognised, as with `instanceof Die`. Other dice-like terms, and dice nested inside pool or parenthetical terms, are `Other` terms and are left alone. Die result fields other than the value and the `active` flag are not modelled.
- The hook is modelled as a straight-line method with consumption after the override, in the code's order. What happens when an awaited host call throws is not modelled (the value is then not consumed).
- Asynchrony is not modelled. In the source, the peek (line 54) and the consume (line 69) are separated by the awaits at lines 64 and 66. The write-back at line 44 is not awaited either. Two hook calls that overlap could therefore both read the same head and force it twice. `FifoQueues`, `FifoForced`, `FifoUntouched`, `FifoOrder`, `MixedFifoQueue` and `MixedFifoForced` hold because the model finishes each call before the next one starts. They say nothing about overlapping calls.
- Malformed stored data, such as a non-array entry or a missing settings object (`|| {}`), is not modelled. Entries are always `seq<int>`.
- The unused static field `FatedRolls.forcedRolls` (line 8) is not modelled.
