# Predator scene state machines in Dafny

This project models two screens of the Predator Flipper Zero application and
proves properties of them.

**Dictionary attack screen.** The screen's status moves between Idle,
Attacking, Success and Complete. An OK press starts a run or stops it. A
100 ms timer then moves a counter through the Keeloq key indices and after
them the Hitag2 indices, one per tick. The run is Complete when the counter
reaches the combined table size. A tick selects the Keeloq entry `keys_tried`
(reading `KEELOQ_KEYS`) or the Hitag2 index `keys_tried - K` (no table is
read), and logs it: no key is sent to a device. So the model is a model of progress and
status. The table sizes `K` and `H` are parameters, and the clock is an input
to each tick.

**Calypso contracts screen.** A cursor `selected_index` moves over at most
four contract records. Left and Right move it, guarded by bounds checks. The
screen's state is zero-filled on entry, because the call that would read
contracts from a card is commented out in the source.

The file's header comment (predator_scene_dictionary_attack_ui.c:7-8) calls
this an attack over 980+ keys. The timer callback never tests a key and never
sets Success. The status becomes Complete both when the tables run out (:155)
and when the user stops the run (:112, :217).

Layout:

- `word32.dfy` (`Word32`): C's `uint8_t`/`uint32_t` arithmetic. Results are
  reduced modulo 2^8 or 2^32.
- `input.dfy` (`Input`): input and scene-manager events, and the `Option`
  type both screens use.
- `dict_attack.dfy` (`DictAttack`): the pure transition functions over a
  `DictState` value, and the lemmas about them. It also holds the class
  `DictAttackScene`, whose fields the callbacks update in place. Each method
  of the class ensures that its new state is the transition function applied
  to the old state.
- `calypso_contracts.dfy` (`CalypsoContracts`): the contract and card records,
  the cursor moves as functions over `Cursor`, and their lemmas. It also holds
  the class `ContractsScene`, with the contract buffer as an `array`.

With no contracts, `contract_count - 1` wraps to 0xFFFFFFFF, so each Right
press moves the cursor one slot further past the end (`EmptyRightDrifts`).
The draw callback checks for zero contracts before it indexes, and the
weaker invariant "no contracts, or the cursor is on one" holds for every
count (`DrawGuardKept`). So the drift cannot be observed in this file.

## Model

| member | source | states |
|---|---|---|
| `Word32.Sub` | predator_app/scenes/predator_scene_dictionary_attack_ui.c:127 | Elapsed time is `now - start` on 32 bits: the exact difference when `now >= start`, otherwise the difference plus 2^32 |
| `Word32.Truncate8` | predator_app/scenes/predator_scene_dictionary_attack_ui.c:62 | Storing a 32-bit value into `uint8_t progress` keeps it when it is below 256 |
| `DictAttack.Route` | predator_app/scenes/predator_scene_dictionary_attack_ui.c:130-140 | A counter below K selects Keeloq entry `keys_tried`; a counter in [K, K+H) selects Hitag2 index `keys_tried - K`, which lies in [0, H); any other counter selects nothing |
| `DictAttack.ProgressWidth` | predator_app/scenes/predator_scene_dictionary_attack_ui.c:61-64 | The bar width is never more than 122 pixels, whatever the counters |
| `DictAttack.Draw` | predator_app/scenes/predator_scene_dictionary_attack_ui.c:31-87 | The bar is drawn iff `total_keys > 0`, with the width `ProgressWidth` computes, at most 122; a key is shown only if `success` is set; the seconds shown are the elapsed milliseconds divided by 1000, rounded down |
| `DictAttack.OkTransitions` | predator_app/scenes/predator_scene_dictionary_attack_ui.c:97-115 | OK in Idle gives Attacking with `keys_tried = 0`, `total_keys = K+H`, `attack_time_ms = 0` and `success = false`; OK in Attacking gives Complete with every counter unchanged; OK in Success or Complete changes nothing |
| `DictAttack.TickCounts` | predator_app/scenes/predator_scene_dictionary_attack_ui.c:126-157 | A tick outside Attacking changes nothing, whatever the counter; a tick in Attacking (counter below 2^32-1, which the invariant gives) adds exactly 1 to `keys_tried`, and leaves the state Complete iff `keys_tried >= total_keys`, Attacking otherwise |
| `DictAttack.InvStep` | predator_app/scenes/predator_scene_dictionary_attack_ui.c:89-239 | With K+H >= 1, every callback (input, tick, Back, entry, exit) keeps the invariant: `keys_tried <= total_keys`, strictly below while Attacking, `total_keys` is 0 or K+H, and there is no Success and no `success` |
| `DictAttack.InvRun` | predator_app/scenes/predator_scene_dictionary_attack_ui.c:89-239 | The invariant holds after any sequence of callbacks |
| `DictAttack.TriedNeverExceedsTotal` | predator_app/scenes/predator_scene_dictionary_attack_ui.c:142-157 | From the zeroed static storage, `keys_tried <= total_keys` after any sequence of callbacks when K+H >= 1 |
| `DictAttack.EmptyCatalogOverruns` | predator_app/scenes/predator_scene_dictionary_attack_ui.c:99-155 | With K+H = 0, the first tick of a run leaves `keys_tried = 1 > total_keys = 0`, so the invariant needs a non-empty catalogue |
| `DictAttack.NeverSucceeds` | predator_app/scenes/predator_scene_dictionary_attack_ui.c:97-239 | No sequence of callbacks sets status Success or `success`, whatever K and H are |
| `DictAttack.FoundKeyNeverShown` | predator_app/scenes/predator_scene_dictionary_attack_ui.c:73-77 | From the zeroed static storage, the draw callback never shows a found key or "SUCCESS!" |
| `DictAttack.FinishedRunStays` | predator_app/scenes/predator_scene_dictionary_attack_ui.c:97-119 | Once Complete, no input, tick or Back changes the state at all; only leaving and re-entering the screen allows a new run |
| `DictAttack.TickProgress` | predator_app/scenes/predator_scene_dictionary_attack_ui.c:126-157 | m ticks of an unfinished run with counter t (t+m <= total) leave the counter at t+m, Complete exactly when t+m reaches the total, and select the Keeloq entries or Hitag2 indices routed from t, t+1, ..., t+m-1 in that order |
| `DictAttack.FullRun` | predator_app/scenes/predator_scene_dictionary_attack_ui.c:97-157 | An uninterrupted run routes to every Keeloq entry and then every Hitag2 index, each exactly once and in order; it is still Attacking after each of the first K+H-1 ticks and is Complete with `keys_tried == total_keys == K+H` after exactly K+H ticks |
| `DictAttack.PercentBounds` | predator_app/scenes/predator_scene_dictionary_attack_ui.c:61-64 | With `keys_tried <= total_keys` and no 32-bit overflow, the percent is `keys_tried*100/total_keys`, at most 100, and is 100 iff the run is through; the bar width is `keys_tried*122/total_keys` and is full iff the run is through |
| `DictAttack.PercentAtMost100` | predator_app/scenes/predator_scene_dictionary_attack_ui.c:146 | Whenever `keys_tried <= total_keys`, the 32-bit percent is at most 100, even when `keys_tried * 100` wraps |
| `DictAttack.LoggedPercentBound` | predator_app/scenes/predator_scene_dictionary_attack_ui.c:144-151 | Under the invariant, for every catalogue size below 2^32, a logged percent is at most 100 and is logged only when the new counter is a multiple of 50 |
| `DictAttack.DictAttackScene.constructor` | predator_app/scenes/predator_scene_dictionary_attack_ui.c:27-29 | The static storage starts all zero (status Idle) |
| `DictAttack.DictAttackScene.Enter` | predator_app/scenes/predator_scene_dictionary_attack_ui.c:177-179 | Entry zeroes every field of the record, then sets Idle and `frequency = 433920000`; the start tick, a separate static, is kept |
| `DictAttack.DictAttackScene.PressOk` | predator_app/scenes/predator_scene_dictionary_attack_ui.c:97-115 | The new state is the OK transition of the old one, and the invariant is kept |
| `DictAttack.DictAttackScene.HandleInput` | predator_app/scenes/predator_scene_dictionary_attack_ui.c:89-120 | Only a short OK changes the state; the callback returns false only for a short Back, which goes to the scene manager |
| `DictAttack.DictAttackScene.Tick` | predator_app/scenes/predator_scene_dictionary_attack_ui.c:122-163 | The new state is the tick transition; it returns the Keeloq entry or Hitag2 index selected (the routing of the old counter) and the percent logged, if any |
| `DictAttack.DictAttackScene.HandleSceneEvent` | predator_app/scenes/predator_scene_dictionary_attack_ui.c:212-227 | Back while Attacking gives Complete and is not claimed; custom events are claimed; nothing else changes |
| `DictAttack.DictAttackScene.Exit` | predator_app/scenes/predator_scene_dictionary_attack_ui.c:239 | Exit sets Idle and changes nothing else |
| `CalypsoContracts.StatusLine` | predator_app/scenes/predator_scene_calypso_contracts_ui.c:128-134 | The status text is the switch hint iff `contract_count > 1`, and "Back to exit" otherwise |
| `CalypsoContracts.MoveLeft` | predator_app/scenes/predator_scene_calypso_contracts_ui.c:99-103 | Left lowers `selected_index` by exactly 1 when it is above 0, and is a no-op at 0 |
| `CalypsoContracts.MoveRight` | predator_app/scenes/predator_scene_calypso_contracts_ui.c:105-110 | With at least one contract, Right raises the index by exactly 1 iff that stays below the count; with none, the wrapped guard lets it rise up to 0xFFFFFFFF |
| `CalypsoContracts.CursorStaysOnContracts` | predator_app/scenes/predator_scene_calypso_contracts_ui.c:98-110 | With `selected_index < contract_count`, any sequence of inputs keeps the count and keeps the index below it (a corollary of `DrawGuardKept`) |
| `CalypsoContracts.EmptyRightDrifts` | predator_app/scenes/predator_scene_calypso_contracts_ui.c:105-107 | With `contract_count == 0`, n short Right presses from index 0 leave the index at n, past every contract |
| `CalypsoContracts.DrawGuardKept` | predator_app/scenes/predator_scene_calypso_contracts_ui.c:26-35 | For every count, "no contracts, or the index is below the count" is kept by any sequence of inputs, so the draw callback's indexing stays in bounds |
| `CalypsoContracts.ShownDate` | predator_app/scenes/predator_scene_calypso_contracts_ui.c:51-63 | A validity date is shown as byte 2, byte 1, byte 0 |
| `CalypsoContracts.ContractsScene.Enter` | predator_app/scenes/predator_scene_calypso_contracts_ui.c:116-134 | Entry gives a zero-filled state (zero card, four zero contracts, count 0, index 0) and the status text "Back to exit" |
| `CalypsoContracts.ContractsScene.HandleInput` | predator_app/scenes/predator_scene_calypso_contracts_ui.c:89-114 | Only the cursor changes, by the Left/Right moves above; a short Back asks for the previous scene; the return value is true exactly for short Back and for a move that took place |
| `CalypsoContracts.ContractsScene.Draw` | predator_app/scenes/predator_scene_calypso_contracts_ui.c:18-87 | It shows "no contracts" iff the count is 0. Otherwise it shows the selected record's number, "Active" or "Inactive" by its flag, and its reversed dates. The selector appears iff the count is above 1, and shows `selected_index+1`, which lies in [1, count], of `contract_count` |

## Left out

- The Calypso helper header (`predator_app/helpers/predator_crypto_calypso.h`): every operation in it is a prototype without a body. Only the `CalypsoCard` and `CalypsoContract` record shapes are used.
- Drawing, fonts, string formatting beyond which fixed text is chosen, logging text, the view dispatcher, view ports, the scene-manager calls and memory allocation are left out. They are UI and OS glue. A scene-manager "previous scene" request appears only as a returned flag.
- The `app == NULL` and `view_dispatcher == NULL` early returns, and the failed-allocation paths, are left out: the model assumes the application context exists.
- The timer: its allocation, its 100 ms period and its asynchrony. A tick is a method call, and the clock value is passed in as `now`.
- The contents of the Keeloq and Hitag2 key tables. Those tables are not part of this model, so only their sizes K and H appear.
- The tariff line of the contracts screen reads `tariff[0]` and `tariff[1]`, but the contract record has only a one-byte `tariff_code`. That line is not modelled.
- The contracts screen's scene-event handler (always returns false) and its exit (frees the state) have no state to model.
- DictAttack.DictAttackScene.constructor: requires 1 <= K+H < 2^32. The tables are in-memory arrays and hold some 980 keys, so their combined size fits in 32 bits. The empty case is covered by `EmptyCatalogOverruns` on the transition functions.
- DictAttack.PercentBounds: requires `total_keys * 122 < 2^32` for its exact-value and iff clauses. For larger catalogues the 32-bit products wrap, and only the bounds hold: the percent stays at most 100 (`PercentAtMost100`) and the bar width at most 122 (`ProgressWidth`).
