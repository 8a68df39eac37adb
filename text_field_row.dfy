/**
 * `TextFieldRow`: the row value behind a `TextFieldCell`. Its
 * `textFieldValue` setter posts the row's `action` to the main queue, but
 * only when the value really changes; its equality compares five of its
 * fields.
 */
module Rows {
  import opened Kit
  import Views

  /**
   * The main dispatch queue, reduced to the blocks posted with `async` and
   * not yet run. Each block posted by a row will call `action?(row)`.
   */
  class MainQueue {
    var pending: seq<TextFieldRow>

    constructor ()
      ensures pending == []
    {
      pending := [];
    }

    /** `DispatchQueue.main.async { row.action?(row) }`: queued, not run. */
    method Async(row: TextFieldRow)
      modifies this
      ensures pending == old(pending) + [row]
    {
      pending := pending + [row];
    }
  }

  class TextFieldRow {
    const text: string
    const detailText: Option<DetailText>
    var textFieldValue: string
    var placeholder: string
    var keyboardType: KeyboardType
    const icon: Option<Icon>
    /** Invoked, through the main queue, when `textFieldValue` changes. */
    const action: Option<Action>

    /** The style traits every `TextFieldRow` has. */
    const cellStyle: CellStyle := Subtitle
    const accessoryType: AccessoryType := NoAccessory
    const isSelectable: bool := false

    /**
     * Stores every argument as given. It takes no queue: Swift does not run
     * `didSet` for assignments in the class's own initializer, so creating a
     * row posts nothing.
     */
    constructor (
      text: string,
      detailText: Option<DetailText> := None,
      textFieldValue: string,
      placeholder: string := "",
      keyboardType: KeyboardType := Default,
      icon: Option<Icon> := None,
      action: Option<Action>)
      ensures this.text == text && this.detailText == detailText
      ensures this.textFieldValue == textFieldValue
      ensures this.placeholder == placeholder && this.keyboardType == keyboardType
      ensures this.icon == icon && this.action == action
    {
      this.text := text;
      this.detailText := detailText;
      this.textFieldValue := textFieldValue;
      this.placeholder := placeholder;
      this.keyboardType := keyboardType;
      this.icon := icon;
      this.action := action;
    }

    /** The row as `configure(with:)` sees it: it has the text-field facet. */
    function AsRow(): (r: AnyRow)
      reads this
      ensures r.TextFieldCompatible?
      ensures r.textFieldValue == textFieldValue && r.placeholder == placeholder && r.keyboardType == keyboardType
    {
      TextFieldCompatible(textFieldValue, placeholder, keyboardType)
    }

    /**
     * Assigning `textFieldValue`: the value is stored; `didSet` then posts
     * one block to the main queue when it differs from the old value, and
     * nothing otherwise. No other field of the row changes.
     */
    method SetTextFieldValue(newValue: string, main: MainQueue)
      modifies this`textFieldValue, main
      ensures textFieldValue == newValue
      ensures placeholder == old(placeholder) && keyboardType == old(keyboardType)
      ensures main.pending == old(main.pending) + (if newValue == old(textFieldValue) then [] else [this])
    {
      var oldValue := textFieldValue;
      textFieldValue := newValue;
      if textFieldValue != oldValue {
        main.Async(this);
      }
    }

    /** `==`: title, value, placeholder, keyboard type and icon; not `detailText`, not `action`. */
    static predicate Equal(lhs: TextFieldRow, rhs: TextFieldRow)
      reads lhs, rhs
      ensures lhs == rhs ==> Equal(lhs, rhs)
      ensures Equal(lhs, rhs) ==> lhs.AsRow() == rhs.AsRow()
    {
      lhs.text == rhs.text &&
      lhs.textFieldValue == rhs.textFieldValue &&
      lhs.placeholder == rhs.placeholder &&
      lhs.keyboardType == rhs.keyboardType &&
      lhs.icon == rhs.icon
    }
  }

  /** The style traits do not depend on the row. */
  lemma StyleTraitsAreFixed(row: TextFieldRow)
    ensures !row.isSelectable
    ensures row.cellStyle == Subtitle
    ensures row.accessoryType == NoAccessory
  {
  }

  /** `==` is an equivalence relation. */
  lemma EqualIsEquivalence(a: TextFieldRow, b: TextFieldRow, c: TextFieldRow)
    ensures TextFieldRow.Equal(a, a)
    ensures TextFieldRow.Equal(a, b) ==> TextFieldRow.Equal(b, a)
    ensures TextFieldRow.Equal(a, b) && TextFieldRow.Equal(b, c) ==> TextFieldRow.Equal(a, c)
  {
  }

  /**
   * Rows that differ only in `detailText` or `action` are equal; rows that
   * differ in any of the other five fields are not.
   */
  lemma EqualIgnoresDetailTextAndAction(a: TextFieldRow, b: TextFieldRow)
    ensures TextFieldRow.Equal(a, b) <==>
      (a.text, a.textFieldValue, a.placeholder, a.keyboardType, a.icon) ==
      (b.text, b.textFieldValue, b.placeholder, b.keyboardType, b.icon)
  {
  }

  /**
   * Equality is what table diffing needs: equal rows bind any cell to the
   * same state, so a row equal to the one on screen needs no re-render.
   */
  lemma EqualRowsConfigureAlike(a: TextFieldRow, b: TextFieldRow, s: Views.CellState)
    requires TextFieldRow.Equal(a, b)
    ensures Views.Configured(s, a.AsRow()) == Views.Configured(s, b.AsRow())
  {
  }

  /**
   * Assigning the current value posts nothing, assigning a new value posts
   * exactly one block; in both cases the other fields keep their values.
   */
  method RepeatedAssignmentPostsOnce(row: TextFieldRow, v: string, main: MainQueue)
    modifies row, main
    ensures row.textFieldValue == v
    ensures main.pending == old(main.pending) + (if v == old(row.textFieldValue) then [] else [row])
    ensures row.placeholder == old(row.placeholder) && row.keyboardType == old(row.keyboardType)
  {
    row.SetTextFieldValue(v, main);
    row.SetTextFieldValue(v, main);
  }
}
