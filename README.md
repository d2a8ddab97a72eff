# PickerButton title bookkeeping

PickerButton is a UIKit button that uses a wheel picker (`UIPickerView`) as its input view. It keeps one display string per picker column in `values`. Whenever a column's selection changes, it rebuilds its own label from those strings, unless `shouldUpdateTitleAutomatically` is off. This project models that bookkeeping and proves what it computes.

- `title_join.dfy`, module `TitleJoin`. It holds the label fold (`ComputeTitle`, a loop over an accumulator, as the source's `reduce(into:)` is). It also holds an independent reference definition, `Joined`: drop the leading empty entries, then join the rest with single spaces. Lemmas relate `Joined` to appending entries, to replacing one entry, and to the all-empty case.
- `picker_button.dfy`, module `PickerButtons`. The picker's answers are plain inputs in the `Picker` datatype: the component count, the row count per column, and the optional row-0 title per column. `InitialValues` is the per-column map done when a delegate is installed. The class `PickerButton` has the fields `values`, `title` (the label set with `setTitle(_, for: [])`), `closeButtonTitle`, `shouldUpdateTitleAutomatically` and `hasDelegateProxy`. Its methods are the delegate setter (`SetDelegate`), the proxy's title-change event (`TitleChanged`), `UpdateTitle` and the key-input members. Two client methods, `SingleColumnSelection` and `FrozenLabel`, replay example runs using only the contracts.

The fold is easy to misread as a plain space-join that keeps empty entries, which would give `" X"` for `["", "X"]`. The code appends entries bare while the accumulator is still empty, so leading empty entries vanish and `["", "X"]` gives `"X"`. The model follows the code. `TitleJoin.LeadingEmptySwallowed` shows the two results side by side.

## Model

| member | source | states |
|---|---|---|
| `TitleJoin.ComputeTitle` | PickerButton/PickerButton.swift:129-135 | The accumulator fold returns `Joined(values)`: the entries from the first non-empty one onward, joined by single spaces. |
| `TitleJoin.JoinedSnoc` | PickerButton/PickerButton.swift:130-134 | Appending one entry changes the label by one fold step. The entry is appended bare if the label so far is empty, else after one space. |
| `TitleJoin.JoinedEmptyIff` | PickerButton/PickerButton.swift:129-135 | The label is `""` exactly when every entry is `""`, including when there are no entries. |
| `TitleJoin.JoinedSingle` | PickerButton/PickerButton.swift:129-135 | A one-entry list joins to that entry. |
| `TitleJoin.JoinedAppend` | PickerButton/PickerButton.swift:129-135 | Label of `a + b`: if `a`'s label is empty, it is `b`'s label. Otherwise, if `b` is non-empty, it is `a`'s label, a space, then every entry of `b`, empty ones included, separated by single spaces. |
| `TitleJoin.JoinedAt` | PickerButton/PickerButton.swift:129-135 | Seen from column i: if the earlier columns give a non-empty label, the full label is that label, a space, then columns i onward space-joined starting with entry i. Otherwise the full label is the label of columns i onward. |
| `TitleJoin.JoinedAfterReplace` | PickerButton/PickerButton.swift:24-25 | After a title-change event sets column i to t: if some earlier column is non-empty, the new label is the earlier columns' label, a space, t, and each later column after one space; if every earlier column is empty, the new label is the label of t and the later columns alone. |
| `TitleJoin.JoinedNoLeadingEmpty` | PickerButton/PickerButton.swift:129-135 | When the first entry is non-empty, the label is the plain space-join of all entries. |
| `TitleJoin.LeadingEmptySwallowed` | PickerButton/PickerButton.swift:130-131 | `["", "X"]` gives `"X"`, while the plain space-join gives `" X"`. |
| `TitleJoin.InnerEmptyKeepsSpace` | PickerButton/PickerButton.swift:132-134 | `["A", "", "B"]` gives `"A  B"`: an empty entry after a non-empty one still adds its space. |
| `PickerButtons.InitialValues` | PickerButton/PickerButton.swift:35-40 | Exactly n entries. Entry i is `""` when column i has no rows. Otherwise it is the row-0 title, or `""` when the delegate reports none. |
| `PickerButtons.PickerButton.constructor` | PickerButton/PickerButton.swift:13-71 | A new button has no entries, keeps its initial label and has no delegate. The close title is `"Done"` and automatic updating is on. |
| `PickerButtons.PickerButton.UpdateTitle` | PickerButton/PickerButton.swift:124-137 | When automatic updating is off, the label is unchanged whatever `values` holds. Otherwise the label becomes `Joined(values)`. `values` is untouched. |
| `PickerButtons.PickerButton.SetDelegate` | PickerButton/PickerButton.swift:17-42 | The delegate is installed. With zero or fewer components, `values` and the label stay as they were. Otherwise `values` becomes `InitialValues` for that many components, and the label is recomputed as `UpdateTitle` does. |
| `PickerButtons.PickerButton.TitleChanged` | PickerButton/PickerButton.swift:20-26 | Needs an installed delegate proxy and an index within `values`, since the subscript traps otherwise. Sets that one entry, leaves the rest and the length alone, then recomputes the label as `UpdateTitle` does. |
| `PickerButtons.PickerButton.HasText` | PickerButton/PickerButton.swift:144-146 | True exactly when `values` is non-empty. When false, the entries fold to the empty label. |
| `PickerButtons.PickerButton.InsertText` | PickerButton/PickerButton.swift:148 | Changes no state. |
| `PickerButtons.PickerButton.DeleteBackward` | PickerButton/PickerButton.swift:150 | Changes no state. |

## Left out

- The toolbar built in `inputAccessoryView` (PickerButton/PickerButton.swift:83-98) is UIKit view construction with frame geometry. `closeButtonTitle` is kept only as a field with its default.
- Focus handling is the host toolkit's responder machinery, so it is left out: `canBecomeFirstResponder`, `inputView`, `didTap`, `didTapClose` and the target/action wiring in `initialize`.
- The `dataSource` and `showsSelectionIndicator` pass-throughs only forward to `UIPickerView`.
- `UIPickerViewDelegateProxy` is not part of this model. Its forwarding of the other delegate methods is not modelled. Its title-change callback is modelled only as the `(component, title)` event `TitleChanged` receives.
- The picker's answers (component count, row counts, row-0 titles) are inputs to `SetDelegate` in the `Picker` datatype. They are not read from a live picker, so a later change in the data source is not modelled.
- PickerButtons.PickerButton.TitleChanged: its precondition `0 <= component < |values|` stands for the subscript trap at PickerButton/PickerButton.swift:24. That trap is reachable: when a delegate is installed while the picker reports no components (for instance before a data source is set), the early return at PickerButton/PickerButton.swift:30-33 leaves `values` empty, and every later selection event indexes out of range. The model does not describe the crash; it only excludes those events.
- The `[weak self]` capture and its early return in the callback are a memory-management detail.
- The `delegate` getter returns the proxy rather than the original delegate. This is an object-identity detail of a foreign type.
- The button's title for other control states, and the rendering of the label, belong to UIKit.
