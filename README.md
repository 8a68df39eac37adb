# QuickTableViewController text-field binding, in Dafny

This project models the text-input part of QuickTableViewController. That
part binds a `TextFieldRow`, a table row that holds an editable string, to a
reusable `TextFieldCell`, which shows the string in a text field as its
accessory view.

- `kit.dfy` (module `Kit`) holds the UIKit and framework types the binding
  uses. `UIKeyboardType`, `UITableViewCell.CellStyle` and
  `UITableViewCell.AccessoryType` are enumerations. `Icon`, `DetailText` and
  the `action` closure are opaque types. `AnyRow` is what
  `configure(with:)` receives: a row with the `TextFieldRowCompatible` facet
  (`TextFieldCompatible`) or any other row (`OtherRow`).
- `text_field_cell.dfy` (module `Views`) holds the `TextFieldCell` class. It
  has the text field's text, placeholder and keyboard type, the private
  `emptyDefault` fallback (initially "1"), whether the field is the
  accessory view, and the weak delegate. Each method is proved against a pure
  function of the cell state: `Configured` for `configure(with:)` and
  `EndEditingReport` for end of editing. The delegate is a
  `TextFieldCellDelegate` object that logs the reports it receives. A `null`
  delegate drops every report. The keystroke filter and the empty→fallback
  resolution are pure functions, as in the source.
- `text_field_row.dfy` (module `Rows`) holds the `TextFieldRow` class and a
  `MainQueue`. The queue is the list of blocks posted with
  `DispatchQueue.main.async` that have not yet run. The `textFieldValue`
  setter is `SetTextFieldValue`. It posts one block when the value changes
  and none otherwise. `Equal` is the row's `==`.

`CharacterSet.letters` is the parameter `letters: set<char>` of the
keystroke filter. The main queue is passed to the setter instead of being
read as a global.

## Model

| member | source | states |
|---|---|---|
| `Views.TextFieldCell.constructor` | Source/Views/TextFieldCell.swift:19-52 | a new cell has fallback "1", an unattached text field with UIKit's defaults, and no delegate |
| `Views.FreshCellFallsBackToOne` | Source/Views/TextFieldCell.swift:21 | before any binding, the fallback is "1", so an empty commit reports "1" |
| `Views.FallbackStaysOneUntilFirstTextRow` | Source/Views/TextFieldCell.swift:21 | a fresh cell configured only with rows that are not text-compatible still falls back to "1" |
| `Views.TextFieldCell.Configure` | Source/Views/TextFieldCell.swift:86-97 | the new cell state is `Configured(old state, row)`; the delegate is unchanged |
| `Views.ConfigureShowsTextRow` | Source/Views/TextFieldCell.swift:88-95 | a text-compatible row sets the field's text, placeholder and keyboard type to the row's, makes its placeholder the fallback, and attaches the field |
| `Views.ConfigureOtherRowKeepsBinding` | Source/Views/TextFieldCell.swift:88-96 | any other row leaves the field and the fallback untouched, so the cell keeps showing its previous row; only the accessory view is attached |
| `Views.ReuseForgetsEarlierRows` | Source/Views/TextFieldCell.swift:90-94 | after a text-compatible configure, the cell state does not depend on anything before it |
| `Views.ConfiguredAllShowsLastTextRow` | Source/Views/TextFieldCell.swift:86-97 | over any history of configure calls, the cell shows the last text-compatible row; with none, it keeps its starting field and fallback |
| `Views.ReuseExample` | Source/Views/TextFieldCell.swift:90-94 | binding ("5", "1") and then ("", "9") leaves the field showing "", falling back to "9", and an empty commit reporting "9" |
| `Views.Resolved` | Source/Views/TextFieldCell.swift:108-112 | a non-empty text is reported verbatim, an empty one becomes the fallback; the result is empty only if both are |
| `Views.TextFieldCell.TextFieldDidEndEditing` | Source/Views/TextFieldCell.swift:106-116 | a present delegate gets exactly one report of the resolved text, or none when the text is nil; the cell state, the field's text included, is unchanged |
| `Views.CommitAfterBindingUsesPlaceholder` | Source/Views/TextFieldCell.swift:106-116 | after binding a row and typing any text, the commit reports the text, or the row's placeholder when the text is empty; it is never empty when the placeholder is not |
| `Views.EmptyCommitReportsLikeClear` | Source/Views/TextFieldCell.swift:106-125 | ending an edit of an empty field reports the fallback, as the clear button does |
| `Views.TextFieldCell.TextFieldShouldClear` | Source/Views/TextFieldCell.swift:118-125 | returns true; a present delegate gets exactly one report of the fallback; the cell state is unchanged |
| `Views.TextFieldCell.TextFieldShouldReturn` | Source/Views/TextFieldCell.swift:101-104 | always returns true |
| `Views.TextFieldCell.CallDelegate` | Source/Views/TextFieldCell.swift:134-138 | a present delegate gets exactly one report from this cell with the given text; with no delegate nothing happens |
| `Views.TextFieldCellDelegate.TextFieldCellDidChange` | Source/Views/TextFieldCell.swift:10-16 | the delegate's log grows by exactly the reported cell and text |
| `Views.RangeOfCharacter` | Source/Views/TextFieldCell.swift:131 | returns the position of the first character in the set, or none exactly when no character is in the set |
| `Views.ShouldChangeCharacters` | Source/Views/TextFieldCell.swift:127-132 | accepts a replacement exactly when none of its characters is a letter; the empty replacement (a deletion) is accepted |
| `Views.AcceptedEditKeepsTextLetterFree` | Source/Views/TextFieldCell.swift:127-132 | the filter looks only at the replacement, and a letter-free text stays letter-free under accepted edits |
| `Rows.TextFieldRow.constructor` | Source/Rows/TextFieldRow.swift:20-36 | stores every argument verbatim, with defaults "" for the placeholder and `.default` for the keyboard type; it has no queue to post to |
| `Rows.TextFieldRow.AsRow` | Source/Rows/TextFieldRow.swift:38-56 | the row has the text-field facet, carrying its current value, placeholder and keyboard type |
| `Rows.TextFieldRow.SetTextFieldValue` | Source/Rows/TextFieldRow.swift:41-50 | stores the new value; posts exactly one block for this row when the value changed and none when it is the same; no other field changes |
| `Rows.MainQueue.Async` | Source/Rows/TextFieldRow.swift:46-48 | the block is appended to the pending blocks and not run |
| `Rows.RepeatedAssignmentPostsOnce` | Source/Rows/TextFieldRow.swift:41-50 | assigning the same value twice posts at most one block, and none when it was already current |
| `Rows.StyleTraitsAreFixed` | Source/Rows/TextFieldRow.swift:77-87 | every row is not selectable, has the `.subtitle` style and the `.none` accessory type |
| `Rows.TextFieldRow.Equal` | Source/Rows/TextFieldRow.swift:95-102 | true exactly when text, value, placeholder, keyboard type and icon are equal (stated by `Rows.EqualIgnoresDetailTextAndAction`); a row is equal to itself, and equal rows expose the same text-field facet to a cell |
| `Rows.EqualIgnoresDetailTextAndAction` | Source/Rows/TextFieldRow.swift:95-102 | rows are equal exactly when text, value, placeholder, keyboard type and icon agree; detail text and action are ignored |
| `Rows.EqualIsEquivalence` | Source/Rows/TextFieldRow.swift:95-102 | equality is reflexive, symmetric and transitive |
| `Rows.EqualRowsConfigureAlike` | Source/Rows/TextFieldRow.swift:92-102 | equal rows bind any cell to the same state |

Where the doc comment of `==` (Source/Rows/TextFieldRow.swift:94) names only
titles, values and icons, the model follows the code, which also compares
the placeholder and the keyboard type.

## Left out

- The lazy construction of the text field and its appearance (frame from the screen width, font, colours, border, return key, clear-button mode, alignment) and `setUpAppearance`: environmental styling. The field is three properties that exist from the start.
- `PaddedTextField`'s rectangle insets: floating-point layout.
- `Source/Views/QuickTableSectionView.swift`: header view layout, with no state the binding uses.
- The `UITextField` argument of the delegate callbacks: a cell is only the delegate of its own field, so the model reads the cell's own field.
- The `range` argument of the keystroke filter: the source does not read it.
- `Views.ShouldChangeCharacters`: `CharacterSet.letters` is a parameter, not Unicode's letter tables. Characters are Unicode scalars, as `rangeOfCharacter(from:)` searches them.
- Running the main queue: threads and run-loop timing are left out. A posted block stays pending, and running it (calling `action?(row)`) is not modelled.
- Memory management of the weak delegate: a released delegate is a `null` delegate.
- `customize`, `cellType` and `cellReuseIdentifier`: type and reuse plumbing with no behaviour.
- Edits the user types into the field: UIKit applies them. The lemmas quantify over any resulting text, and `Replaced` describes one accepted edit.
- Rows.TextFieldRow.SetTextFieldValue: compares the old and new value as sequences of Unicode scalars, while Swift's `!=` on `String` uses canonical equivalence. A canonically equivalent respelling (precomposed "é" against "e" plus a combining acute accent) therefore counts as a change here and posts a block, where the source posts nothing.
- Rows.RepeatedAssignmentPostsOnce: "already current" means equal as sequences of Unicode scalars, not canonically equivalent as in Swift, for the reason given for `SetTextFieldValue`.
- Rows.TextFieldRow.Equal: compares text, value and placeholder as sequences of Unicode scalars, so rows whose strings are canonically equivalent but spelled differently are unequal here and equal under Swift's `==`.
- Rows.EqualIgnoresDetailTextAndAction: "agree" on text, value and placeholder means equal as sequences of Unicode scalars, not Swift's canonical equivalence, as for `Equal`.
