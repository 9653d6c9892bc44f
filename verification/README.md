# radio-group: keyboard and selection rules of a radio option

A Dafny model of the accessible radio group in `src/index.tsx`. Its
behaviour sits in the `Radio` option: where the option falls among its
siblings, what each key asks the group to select, and which attributes it
derives from the group's current value. The React wiring around it is not
modelled. The model has pure functions over a generic value type `V` with
equality, plus lemmas about them.

- `Js` (`js.dfy`): `Slot<V>`, the result of a JavaScript array read. An index
  outside the array gives `Undefined`, not an error. Also `Prop` for props
  that may be left out.
- `KeyCodes` (`key_codes.dfy`): the key-code constants and the `switch` that
  sorts a code into select-own, previous, next or pass-through.
- `Siblings` (`siblings.dfy`): `IndexOf` (`findIndex`), `LastIndex` (`count`),
  `Previous` and `Next` (`setPrevious` and `setNext`), and `Walk`, which
  applies `setNext` repeatedly. The lemmas show that navigation is a
  rotation of the list when the sibling values are distinct. With a repeated
  value it is not (`DuplicateTrapsNavigation`).
- `RadioGroup` (`radio_group.dfy`): the group's props, the sibling list, the
  published context and `setChecked`.
- `Radio` (`radio.dfy`): `handleKeyDown`, `handleClick`, the `tabIndex` and
  `aria-checked` attributes, and the guard of the focus effect.
- `Modular` (`modular.dfy`): remainder facts used by the proofs.

A request records whether `setChecked` was called and with what.
`Call(Undefined)` is a real call that passes `undefined` to `onChange`.
`NoCall` means no call was made.

## Behaviour as the code has it

- `tabIndex` is 0 only for the checked option. No fallback makes the first
  option tabbable when the group's value matches no sibling
  (`Radio.NoTabStopWhenNothingChecked`).
- `autoFocus` defaults to `false` when the group leaves it out
  (`RadioGroup.Context`, `Radio.FocusFollowsSelection`).
- END (35) and HOME (36) are declared but fall into the `default` branch.
- If an option's value is not among the siblings, its `index` is -1 and the
  arrow keys still call `setChecked`. Up/Left reads position -2, which is
  `undefined`. Down/Right reads position 0, which is `undefined` only in an
  empty group. Either way the event is suppressed.
- `setChecked` is created once, with no dependencies. It therefore forwards to
  the `onChange` present at the group's first render. The model takes
  "`onChange` present" as a parameter, meaning that first-render callback.

## Model

| member | source | states |
|---|---|---|
| KeyCodes.Classify | src/index.tsx:116-134 | a code passes through exactly when it is not one of Space, Return, Up, Left, Down, Right; each action comes only from its two codes |
| KeyCodes.HomeAndEndPassThrough | src/index.tsx:3-12 | the declared END and HOME codes are not handled |
| Siblings.IndexOf | src/index.tsx:84 | `index` is the first position holding the option's value, or -1 exactly when the value is absent |
| Siblings.LastIndex | src/index.tsx:85 | `count` is the list's length minus one, so -1 for an empty group; `Next` compares the index against it to decide the wrap |
| Js.Read | src/index.tsx:100-114 | the array read inside `setPrevious` and `setNext`; the ensures of `Previous` and `Next` state its results, including the read at -2 (undefined) and at 0 for an absent value |
| Siblings.Previous | src/index.tsx:100-106 | for a present value, the sibling at position (index + n - 1) mod n; for an absent value, `undefined` |
| Siblings.Next | src/index.tsx:108-114 | for a present value, the sibling at position (index + 1) mod n; for an absent value, the first sibling, or `undefined` when the list is empty |
| Siblings.NextAt | src/index.tsx:108-114 | with distinct values, Down/Right from position i lands on position (i+1) mod n |
| Siblings.PreviousAt | src/index.tsx:100-106 | with distinct values, Up/Left from position i lands on position (i+n-1) mod n |
| Siblings.PreviousUndoesNext | src/index.tsx:100-114 | with distinct values, previous after next and next after previous both return to the starting option |
| Siblings.SingletonWrapsToItself | src/index.tsx:100-114 | in a one-option group, both directions wrap to the option itself |
| Siblings.NextInjective | src/index.tsx:108-114 | with distinct values, no two options move to the same sibling |
| Siblings.NextStep | src/index.tsx:108-114 | with distinct values, Down/Right from position p lands on p+1, or on position 0 from the last position |
| Siblings.WalkAdvances | src/index.tsx:108-114 | with distinct values, k applications of setNext from position i visit the positions reached by stepping forward one at a time, wrapping at the end |
| Siblings.WalkIsRotation | src/index.tsx:108-114 | with distinct values, k applications of setNext from position i land on position (i+k) mod n |
| Siblings.WalkReturnsToStart | src/index.tsx:108-114 | with distinct values, n applications of setNext return to the starting option |
| Siblings.WalkReachesEveryOption | src/index.tsx:108-114 | with distinct values, every option is reached from any option in fewer than n applications of setNext |
| Siblings.DuplicateTrapsNavigation | src/index.tsx:84-85 | when a value repeats, the first-match lookup traps navigation: in [a, b, a, c], applying setNext from a only alternates between a and b |
| RadioGroup.SiblingValues | src/index.tsx:51-54 | the sibling list has one entry per child, each child's value at its declaration position |
| RadioGroup.Context | src/index.tsx:38-63 | the context carries the group's value and the ordered child values; autoFocus is on only when passed as true (default false) |
| RadioGroup.DeclaredOptionFindsItself | src/index.tsx:51-85 | each declared child finds its value at or before its own position, exactly at it when values are distinct |
| Radio.HandleKeyDown | src/index.tsx:96-142 | suppression happens iff the code is handled iff setChecked is called; Space/Return request the option's own value; Up/Left request the previous sibling, wrapping from first to last; Down/Right request the next sibling, wrapping from last to first; an absent option requests `undefined` or the first sibling |
| Radio.HandleClick | src/index.tsx:144-146 | a click requests the option's own value whatever the group's value; `ClickRequestsOwnValue` ties it to the Space request |
| Radio.UnhandledKeyDoesNothing | src/index.tsx:132-139 | any other code, END and HOME included, makes no call and leaves the flag false, so the event is not suppressed |
| Radio.KeyDownForwarding | src/index.tsx:116-139 | a handled key gives onChange exactly one value when it is present; otherwise onChange receives nothing |
| RadioGroup.SetChecked | src/index.tsx:45-49 | onChange receives the value when it is present and nothing otherwise; `SelectingCheckedOptionStillForwards` and `KeyDownForwarding` state it through the handlers |
| Radio.Forward | src/index.tsx:45-49 | a handler that made no call gives onChange nothing, and a call goes through setChecked; `KeyDownForwarding` counts the values onChange receives |
| Radio.SelectingCheckedOptionStillForwards | src/index.tsx:45-49 | setChecked neither validates nor deduplicates: Space or a click on the option that is already checked hands its value to onChange when it is present, and drops it when it is absent |
| Radio.ClickRequestsOwnValue | src/index.tsx:144-146 | a click requests the option's own value, the same request Space makes, and onChange receives it even when the option is already checked |
| Radio.ArrowKeysCycle | src/index.tsx:100-131 | with distinct values, Down lands on (i+1) mod n, Up lands on (i+n-1) mod n, and Up undoes Down |
| Radio.TabIndexMatchesAriaChecked | src/index.tsx:165-166 | tabIndex is 0 or -1, and it is 0 exactly when aria-checked holds, which is exactly when the group's value is the option's own |
| Radio.TabIndex | src/index.tsx:165 | 0 exactly when the option is checked and -1 otherwise, with no fallback for the first option |
| Radio.AriaChecked | src/index.tsx:166 | true exactly when the group's value is the option's own value, the same predicate `tabIndex` uses |
| Radio.ClaimsFocus | src/index.tsx:87 | the focus effect acts only when autoFocus is on and the option is the checked one |
| Radio.AtMostOneChecked | src/index.tsx:165-166 | with distinct values, two checked options are the same option |
| Radio.ExactlyOneChecked | src/index.tsx:165-166 | when the group's value is among the distinct siblings, exactly one option has tabIndex 0 |
| Radio.NoTabStopWhenNothingChecked | src/index.tsx:165-166 | when the group's value matches no sibling, every option has tabIndex -1 and none is checked |
| Radio.FocusFollowsSelection | src/index.tsx:86-94 | only a checked option claims focus, and with autoFocus left out none does |
| Radio.AtMostOneClaimsFocus | src/index.tsx:86-94 | with distinct values, two options that claim focus are at the same position |
| Radio.RepeatedValueClaimsFocusTwice | src/index.tsx:86-94 | with a repeated value, two positions claim focus at once: in [a, b, a] with a selected, positions 0 and 2 |
| Radio.ColourScenario | src/index.tsx:96-131 | in [red, green, blue] from red, Right requests green and Left requests blue; from blue, Right requests red; a value matching no option leaves every option untabbable |

## Left out

- React machinery is not modelled: the context provider and consumer, the `useMemo`/`useCallback` dependency lists, `forwardRef` and ref assignment. They are framework runtime. The context is passed explicitly as `GroupContext`.
- `ctx` is memoised on `[otherRadioValues, value]`, but `React.Children.map` builds a new array on every render, so the memo never hits and the context is rebuilt every render. The model builds the context from the current props each time.
- The focus effect's DOM work is not modelled: the outer ref versus the inner ref, and calling `.focus()`. Only its guard is modelled, as `ClaimsFocus`. When React re-runs the effect is framework behaviour.
- `event.persist()`, the local `focus` display flag and the forwarding of `onFocus`/`onBlur` are not modelled. They are event plumbing with no observable rule beyond toggling a flag.
- The rendered markup is not modelled. It carries no selection logic:
  - `role` and the presence markers are constants.
  - `aria-labelledby` passes `labelledBy` through.
  - `data-palmerhq-radio-focus` shows the focus flag left out above.
  - `{...props}` spreads the option's props onto its element.
- `React.Children.map` has quirks that are not modelled: it flattens nested arrays, drops `null`/`undefined` results and throws on a `null` child. The model takes the children as a flat sequence of options.
- A `Radio` rendered outside any group reads the default empty context and fails on `findIndex`. This is not modelled.
- `findIndex` compares with loose `==`, while `tabIndex` and `aria-checked` use strict `===`. Both are modelled as Dafny equality on `V`, which is exact for strings. It is not exact for numbers, because `NaN` equals nothing, itself included, under both `==` and `===`.
- `onChange` is modelled by whether it is present, not as an arbitrary callback. Its effect is the list of values it receives.
- `Walk` models repeated Down/Right presses only under two assumptions. The owner must feed every request back as the group's value, and `autoFocus` must be on so that focus moves to the newly selected option. Without `autoFocus`, which is the default, focus stays on the option that was pressed, and every further press repeats the first request.
- The example application (form-library wiring, rendering, `alert`) and the render-only smoke tests are outside the model.
