# Action group keyboard navigation, in Dafny

This project models `ActionGroupKeyboardDelegate` from React Aria's action group
package and proves its behaviour. The delegate tells a host UI which key focus
moves to when the user presses an arrow key, Home or End in a group of buttons.
It is built from four things:

- an ordered collection of keys;
- a reading direction (`ltr` / `rtl`);
- an orientation (`horizontal` / `vertical`);
- a set of disabled keys.

Every answer skips disabled keys and wraps around at the ends of the collection.

Files:

- `wrappers.dfy`: `Option`, the "no key" result (`undefined` in the source).
- `collection.dfy`: the collection. It is a sequence of distinct keys with
  `FirstKey`, `LastKey`, `KeyAfter` and `KeyBefore`.
- `navigation.dfy`: reference definitions of the answers, and the lemmas about them.
  - `ScanForward` / `ScanBackward` give the first enabled key of a sequence, from
    the front or from the back.
  - `CyclicAfter` / `CyclicBefore` give the collection in cyclic order, starting
    after the query key or read back from it.
  - `NextEnabled` / `PreviousEnabled` combine the two.
- `action_group_keyboard_delegate.dfy`: the class `ActionGroupKeyboardDelegate`.
  Its fields are fixed at construction (`const`). The source keeps only
  `flipDirection`; the class also keeps the direction and orientation as ghost
  fields, so that the contracts can speak of them. Its `do … while` loops are
  `while` loops proved against `NextEnabled` / `PreviousEnabled`. Each loop's
  termination rests on the constructor's "every key disabled" flag.
- `examples_of_use.dfy`: client methods on small groups, and one concrete counterexample lemma. They show the
  left-to-right, right-to-left, vertical, all-disabled and empty cases.

The source's `do { … } while (disabled)` runs its body once before the test. In
the model the body runs once before a `while` loop on the same test. The body is
`StepForward` / `StepBackward`: `getKeyAfter`, or `getFirstKey` past the end
(mirrored for the backward step).

When every key is disabled, `getFirstKey` / `getLastKey` do not return the raw
first / last key. The code calls `getNextKey` / `getPreviousKey` on that key, and
those return `undefined`. So the model returns `None`;
`UsageExamples.AllDisabled` shows it.

## Model

| member | source | states |
|---|---|---|
| ActionGroup.ActionGroupKeyboardDelegate.constructor | packages/@react-aria/actiongroup/src/ActionGroupKeyboardDelegate.ts:22-28 | The fields are the inputs. `flipDirection` holds exactly when the direction is rtl and the orientation is horizontal. `isDisabled` holds exactly when every key of the collection is disabled, so it holds for an empty collection. |
| Navigation.SomeEnabled | packages/@react-aria/actiongroup/src/ActionGroupKeyboardDelegate.ts:26-27 | The scan of the constructor is true exactly when some key at some position is not disabled. |
| ActionGroup.ActionGroupKeyboardDelegate.GetKeyLeftOf | packages/@react-aria/actiongroup/src/ActionGroupKeyboardDelegate.ts:30-36 | For an rtl horizontal group, left is the next enabled key. For ltr, or for a vertical group, left is the previous enabled key. |
| ActionGroup.ActionGroupKeyboardDelegate.GetKeyRightOf | packages/@react-aria/actiongroup/src/ActionGroupKeyboardDelegate.ts:38-44 | The exact complement of left. For rtl horizontal, right is the previous enabled key; otherwise it is the next. |
| ActionGroup.ActionGroupKeyboardDelegate.GetKeyAbove | packages/@react-aria/actiongroup/src/ActionGroupKeyboardDelegate.ts:46-48 | Above is the previous enabled key, whatever the direction and orientation. |
| ActionGroup.ActionGroupKeyboardDelegate.GetKeyBelow | packages/@react-aria/actiongroup/src/ActionGroupKeyboardDelegate.ts:50-52 | Below is the next enabled key, whatever the direction and orientation. |
| ActionGroup.ActionGroupKeyboardDelegate.GetFirstKey | packages/@react-aria/actiongroup/src/ActionGroupKeyboardDelegate.ts:54-60 | The result is the enabled key of least position. It is no key exactly when every key is disabled; an empty collection counts. This holds even when the first key is disabled and the method falls back on the next-key search. |
| ActionGroup.ActionGroupKeyboardDelegate.GetLastKey | packages/@react-aria/actiongroup/src/ActionGroupKeyboardDelegate.ts:62-68 | The result is the enabled key of greatest position, and no key exactly when every key is disabled. |
| ActionGroup.ActionGroupKeyboardDelegate.GetNextKey | packages/@react-aria/actiongroup/src/ActionGroupKeyboardDelegate.ts:70-81 | The loop terminates. The result is `NextEnabled` of the key, the first enabled key in cyclic order after it. The result is no key exactly when `isDisabled` holds, and then no step is taken. |
| ActionGroup.ActionGroupKeyboardDelegate.GetPreviousKey | packages/@react-aria/actiongroup/src/ActionGroupKeyboardDelegate.ts:83-94 | The loop terminates. The result is `PreviousEnabled` of the key. It is no key exactly when `isDisabled` holds. |
| Collection.FirstKey | packages/@react-aria/actiongroup/src/ActionGroupKeyboardDelegate.ts:55 | `getFirstKey()` gives no key exactly when the collection is empty. Otherwise it gives a collection key at position 0. |
| Collection.LastKey | packages/@react-aria/actiongroup/src/ActionGroupKeyboardDelegate.ts:63 | `getLastKey()` gives no key exactly when the collection is empty, and otherwise a collection key. |
| Collection.LastKeyPosition | packages/@react-aria/actiongroup/src/ActionGroupKeyboardDelegate.ts:63 | In a collection of distinct keys, the last key sits at the last position. |
| Collection.KeyAfter | packages/@react-aria/actiongroup/src/ActionGroupKeyboardDelegate.ts:75 | `getKeyAfter(k)` gives no key exactly when `k` is the last key, and otherwise a collection key. |
| Collection.KeyAfterPosition | packages/@react-aria/actiongroup/src/ActionGroupKeyboardDelegate.ts:75 | The key after `k` sits one position after `k`. |
| Collection.KeyBefore | packages/@react-aria/actiongroup/src/ActionGroupKeyboardDelegate.ts:88 | `getKeyBefore(k)` gives no key exactly when `k` is the first key, and otherwise a collection key. |
| Collection.KeyBeforePosition | packages/@react-aria/actiongroup/src/ActionGroupKeyboardDelegate.ts:88 | The key before `k` sits one position before `k`. |
| Navigation.NextEnabled | packages/@react-aria/actiongroup/src/ActionGroupKeyboardDelegate.ts:74-80 | The reference answer of `getNextKey`: when it is a key, it is an enabled key of the collection. |
| Navigation.PreviousEnabled | packages/@react-aria/actiongroup/src/ActionGroupKeyboardDelegate.ts:87-93 | The reference answer of `getPreviousKey`: when it is a key, it is an enabled key of the collection. |
| Navigation.StepForward | packages/@react-aria/actiongroup/src/ActionGroupKeyboardDelegate.ts:75-78 | `getKeyAfter`, falling back to `getFirstKey` at the end, gives the key one place further round the cycle. |
| Navigation.StepBackward | packages/@react-aria/actiongroup/src/ActionGroupKeyboardDelegate.ts:88-91 | `getKeyBefore`, falling back to `getLastKey` at the start, gives the key one place back round the cycle. |
| Navigation.ScanForward | packages/@react-aria/actiongroup/src/ActionGroupKeyboardDelegate.ts:74-79 | The search finds no key exactly when every key it looks at is disabled. Otherwise it finds an enabled key, and every key before that one is disabled. |
| Navigation.ScanBackward | packages/@react-aria/actiongroup/src/ActionGroupKeyboardDelegate.ts:87-92 | The mirror: no key exactly when all are disabled. Otherwise it finds an enabled key with only disabled keys after it. |
| Navigation.ScanForwardAt | packages/@react-aria/actiongroup/src/ActionGroupKeyboardDelegate.ts:74-79 | An enabled key with only disabled keys before it is exactly what the forward search returns. This is the loop's exit condition. |
| Navigation.ScanBackwardAt | packages/@react-aria/actiongroup/src/ActionGroupKeyboardDelegate.ts:87-92 | An enabled key with only disabled keys after it is exactly what the backward search returns. |
| Navigation.NextEnabledNone | packages/@react-aria/actiongroup/src/ActionGroupKeyboardDelegate.ts:70-79 | The next-key search from a collection key finds nothing exactly when every key of the collection is disabled. That is why the `isDisabled` guard lets the loop terminate. |
| Navigation.PreviousEnabledNone | packages/@react-aria/actiongroup/src/ActionGroupKeyboardDelegate.ts:83-92 | The same for the previous-key search. |
| Navigation.NextEnabledInCyclicOrder | packages/@react-aria/actiongroup/src/ActionGroupKeyboardDelegate.ts:74-80 | When the next key exists, it is the enabled key `g` steps after the query key, wrapping from the end to the start, with 1 <= g <= size. Every key strictly between is disabled. With g = size it is the query key itself. |
| Navigation.PreviousEnabledInCyclicOrder | packages/@react-aria/actiongroup/src/ActionGroupKeyboardDelegate.ts:87-93 | The mirror: when the previous key exists, it is the enabled key `g` steps before the query key, wrapping from the start to the end, with every key strictly between disabled. |
| Navigation.StepForwardAt | packages/@react-aria/actiongroup/src/ActionGroupKeyboardDelegate.ts:75-78 | One loop step from the key `g` places after the start lands on the key `g + 1` places after it, wrapping from the end to the start. |
| Navigation.StepBackwardAt | packages/@react-aria/actiongroup/src/ActionGroupKeyboardDelegate.ts:88-91 | One backward loop step from the key `g` places before the start lands on the key `g + 1` places before it, wrapping from the start to the end. |
| Navigation.NextEnabledAt | packages/@react-aria/actiongroup/src/ActionGroupKeyboardDelegate.ts:74-80 | The converse of the cyclic-order characterization: an enabled key `g` steps after the query key, with only disabled keys strictly between, is the next key. This is where the loop stops. |
| Navigation.PreviousEnabledAt | packages/@react-aria/actiongroup/src/ActionGroupKeyboardDelegate.ts:87-93 | The mirror: an enabled key `g` steps before the query key, with only disabled keys strictly between, is the previous key. |
| Navigation.NextThenPrevious | packages/@react-aria/actiongroup/src/ActionGroupKeyboardDelegate.ts:70-94 | From an enabled key, moving to the next key and then to the previous key returns to the starting key. |
| Navigation.PreviousThenNext | packages/@react-aria/actiongroup/src/ActionGroupKeyboardDelegate.ts:70-94 | From an enabled key, moving to the previous key and then to the next key returns to the starting key. |
| Navigation.SoleEnabledKey | packages/@react-aria/actiongroup/src/ActionGroupKeyboardDelegate.ts:74-93 | When the query key is the only enabled key, both next and previous wrap around to the query key itself. |
| Navigation.FirstEnabledKey | packages/@react-aria/actiongroup/src/ActionGroupKeyboardDelegate.ts:54-60 | The forward search over the collection yields an enabled key. No key at a smaller position is enabled. |
| Navigation.LastEnabledKey | packages/@react-aria/actiongroup/src/ActionGroupKeyboardDelegate.ts:62-68 | The backward search over the collection yields an enabled key. No key at a greater position is enabled. |
| Navigation.NextOfDisabledFirst | packages/@react-aria/actiongroup/src/ActionGroupKeyboardDelegate.ts:54-57 | When the first key is disabled, the next key after it is the forward search over the whole collection, the first enabled key. |
| Navigation.PreviousOfDisabledLast | packages/@react-aria/actiongroup/src/ActionGroupKeyboardDelegate.ts:62-65 | When the last key is disabled, the previous key before it is the backward search over the whole collection, the last enabled key. |
| Navigation.ScanForwardAppendDisabled | packages/@react-aria/actiongroup/src/ActionGroupKeyboardDelegate.ts:56-57 | A disabled first key moved to the back does not change the forward search. So `getNextKey(first)` is the first enabled key. |
| Navigation.ScanBackwardPrependDisabled | packages/@react-aria/actiongroup/src/ActionGroupKeyboardDelegate.ts:64-65 | A disabled last key moved to the front does not change the backward search. So `getPreviousKey(last)` is the last enabled key. |
| UsageExamples.FullRoundNeedNotReturn | packages/@react-aria/actiongroup/src/ActionGroupKeyboardDelegate.ts:70-81 | In A, B, C with A disabled, three next-key moves from B end at C, not at B: as many moves as there are keys need not return to the start. |

## Left out

- The collection is not a live object. It is the sequence of its keys with
  no key repeated, fixed while the delegate exists. The real `Collection`
  implementation and the `Key` type come from other packages and are not part
  of this model.
- Queries about a key that is not in the collection: `getKeyAfter` /
  `getKeyBefore` decide what happens then, and they live outside this code. The
  model requires the query key to be a collection key.
- The rest of the repository is not part of this model. That covers the drop
  zone (DOM drag events and a timer), the autocomplete story (network fetch)
  and the step list rendering tests: they are UI plumbing with no algorithm to
  state.
- Not stated: that `getNextKey` applied as many times as there are keys returns
  to the start. It fails in general: in A, B, C with A disabled, the moves
  from B go B, C, B, C (`UsageExamples.FullRoundNeedNotReturn`). The inverse
  lemmas `NextThenPrevious` / `PreviousThenNext` and the cyclic-order
  characterizations are stated instead.
- The disabled set is an unchanging value. The source keeps the caller's own
  `Set` and reads it live on every query, but computes `isDisabled` only once,
  in the constructor. Changing the set after construction leaves `isDisabled`
  stale, and can make `getNextKey` / `getPreviousKey` loop forever. The model
  does not capture that sharing.
