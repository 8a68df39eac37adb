/**
 * `TextFieldCell`: a reusable table cell whose accessory view is a text
 * field. It copies a text-compatible row into the field, filters
 * keystrokes, and reports committed text to its delegate, substituting the
 * row's placeholder for an empty commit.
 */
module Views {
  import opened Kit

  /** The three properties of the embedded text field that the cell sets. */
  datatype TextFieldState = TextFieldState(text: Option<string>, placeholder: Option<string>, keyboardType: KeyboardType)

  /** Everything about a cell that `configure` and the commit handlers read or write. */
  datatype CellState = CellState(textField: TextFieldState, emptyDefault: string, textFieldIsAccessory: bool)

  /** The fallback a cell reports for an empty commit before any text row is bound. */
  const InitialEmptyDefault: string := "1"

  /**
   * A freshly initialised cell: the fallback is "1", the text field still
   * has UIKit's defaults (empty text, no placeholder, `.default` keyboard),
   * and no accessory view is attached yet.
   */
  function FreshCell(): CellState
  {
    CellState(TextFieldState(Some(""), None, Default), InitialEmptyDefault, false)
  }

  /**
   * `configure(with:)` on the cell state: a text-compatible row is copied
   * into the text field and its placeholder becomes the fallback; any other
   * row leaves both alone. The field is attached as accessory view either way.
   */
  function Configured(s: CellState, row: AnyRow): CellState
  {
    match row
    case TextFieldCompatible(value, placeholder, keyboardType) =>
      CellState(TextFieldState(Some(value), Some(placeholder), keyboardType), placeholder, true)
    case OtherRow(_) =>
      s.(textFieldIsAccessory := true)
  }

  /** The cell displays `row` in its text field and falls back to `row`'s placeholder. */
  predicate Shows(s: CellState, row: AnyRow)
  {
    row.TextFieldCompatible? &&
    s.textField.text == Some(row.textFieldValue) &&
    s.textField.placeholder == Some(row.placeholder) &&
    s.textField.keyboardType == row.keyboardType &&
    s.emptyDefault == row.placeholder
  }

  /** A sequence of `configure` calls on one cell, oldest first (cell reuse). */
  function ConfiguredAll(s: CellState, rows: seq<AnyRow>): CellState
  {
    if rows == [] then s else Configured(ConfiguredAll(s, rows[..|rows| - 1]), rows[|rows| - 1])
  }

  /** The most recent text-compatible row among `rows`, if any. */
  function LastTextRow(rows: seq<AnyRow>): (r: Option<AnyRow>)
    ensures r.Some? ==> r.value.TextFieldCompatible? && r.value in rows
    ensures r.Some? ==>
      exists i :: 0 <= i < |rows| && rows[i] == r.value && forall j :: i < j < |rows| ==> !rows[j].TextFieldCompatible?
    ensures r.None? <==> forall i :: 0 <= i < |rows| ==> !rows[i].TextFieldCompatible?
  {
    if rows == [] then None
    else if rows[|rows| - 1].TextFieldCompatible? then Some(rows[|rows| - 1])
    else LastTextRow(rows[..|rows| - 1])
  }

  /**
   * The text a commit reports: the typed text, or the fallback when the
   * text is empty (`changedText.count == 0`).
   */
  function Resolved(changedText: string, emptyDefault: string): (r: string)
    ensures changedText != [] ==> r == changedText
    ensures r == changedText || r == emptyDefault
    ensures r == [] <==> changedText == [] && emptyDefault == []
  {
    if |changedText| == 0 then emptyDefault else changedText
  }

  /**
   * What `textFieldDidEndEditing` hands to the delegate: nothing when the
   * field's text is nil, otherwise the resolved text.
   */
  function EndEditingReport(s: CellState): Option<string>
  {
    match s.textField.text
    case None => None
    case Some(t) => Some(Resolved(t, s.emptyDefault))
  }

  /**
   * `rangeOfCharacter(from:)`: the position of the first character of `s`
   * that is in `characters`, or `None` when there is none.
   */
  function RangeOfCharacter(s: string, characters: set<char>): (r: Option<nat>)
    ensures r.Some? ==> r.value < |s| && s[r.value] in characters
    ensures r.Some? ==> forall j :: 0 <= j < r.value ==> s[j] !in characters
    ensures r.None? <==> forall j :: 0 <= j < |s| ==> s[j] !in characters
  {
    if s == [] then None
    else if s[0] in characters then Some(0)
    else match RangeOfCharacter(s[1..], characters)
      case None => None
      case Some(i) => Some(i + 1)
  }

  /**
   * The keystroke filter `textField(_:shouldChangeCharactersIn:replacementString:)`:
   * a replacement is accepted exactly when it holds no letter, so a
   * deletion (the empty replacement) is always accepted. The replaced
   * range is not consulted. `letters` stands for `CharacterSet.letters`.
   */
  function ShouldChangeCharacters(replacement: string, letters: set<char>): (r: bool)
    ensures r <==> forall i :: 0 <= i < |replacement| ==> replacement[i] !in letters
    ensures replacement == [] ==> r
  {
    RangeOfCharacter(replacement, letters) == None
  }

  /** UIKit applying an accepted edit: `text[start..end]` becomes `replacement`. */
  function Replaced(text: string, start: nat, end: nat, replacement: string): (r: string)
    requires start <= end <= |text|
    ensures |r| == |text| - (end - start) + |replacement|
  {
    text[..start] + replacement + text[end..]
  }

  /** One entry of a delegate's log: `textFieldCell(_:textFieldDidChange:)` was called. */
  datatype Report = Report(cell: TextFieldCell, text: string)

  /** The delegate reports as they arrive at a present delegate. */
  function ReportsOf(cell: TextFieldCell, report: Option<string>): (r: seq<Report>)
    ensures |r| <= 1
  {
    match report
    case None => []
    case Some(t) => [Report(cell, t)]
  }

  /**
   * An object adopting `TextFieldCellDelegate`, reduced to the log of the
   * calls it receives.
   */
  class TextFieldCellDelegate {
    var received: seq<Report>

    constructor ()
      ensures received == []
    {
      received := [];
    }

    /** `textFieldCell(_:textFieldDidChange:)`. */
    method TextFieldCellDidChange(cell: TextFieldCell, text: string)
      modifies this
      ensures received == old(received) + [Report(cell, text)]
    {
      received := received + [Report(cell, text)];
    }
  }

  class TextFieldCell {
    /** The text field shown as accessory view (text, placeholder, keyboard type). */
    var textField: TextFieldState
    /** The private fallback for an empty commit. */
    var emptyDefault: string
    /** Whether `accessoryView` is the text field. */
    var textFieldIsAccessory: bool
    /** The weak delegate; `null` when unset or released. */
    var delegate: TextFieldCellDelegate?

    function State(): CellState
      reads this
    {
      CellState(textField, emptyDefault, textFieldIsAccessory)
    }

    constructor ()
      ensures State() == FreshCell() && delegate == null
    {
      textField := TextFieldState(Some(""), None, Default);
      emptyDefault := InitialEmptyDefault;
      textFieldIsAccessory := false;
      delegate := null;
    }

    /** `configure(with:)`: the capability check on the row, then the accessory view. */
    method Configure(row: AnyRow)
      modifies this
      ensures State() == Configured(old(State()), row)
      ensures delegate == old(delegate)
    {
      match row {
        case TextFieldCompatible(value, placeholder, keyboardType) =>
          textField := TextFieldState(Some(value), Some(placeholder), keyboardType);
          emptyDefault := placeholder;
        case OtherRow(_) =>
      }
      textFieldIsAccessory := true;
    }

    /** `textFieldShouldReturn`: the return key's default behaviour is always allowed. */
    method TextFieldShouldReturn() returns (r: bool)
      ensures r
    {
      r := true;
    }

    /**
     * `textFieldDidEndEditing`: reports the field's text, or the fallback
     * when it is empty, exactly once; reports nothing when the text is nil.
     * The field's own text is left as it is.
     */
    method TextFieldDidEndEditing()
      modifies delegate
      ensures State() == old(State()) && delegate == old(delegate)
      ensures delegate != null ==> delegate.received == old(delegate.received) + ReportsOf(this, EndEditingReport(State()))
    {
      match textField.text {
        case None =>
        case Some(changedText) =>
          var resolved := changedText;
          if |changedText| == 0 {
            resolved := emptyDefault;
          }
          CallDelegate(resolved);
      }
    }

    /** `textFieldShouldClear`: always reports the fallback and lets the clear happen. */
    method TextFieldShouldClear() returns (r: bool)
      modifies delegate
      ensures r
      ensures State() == old(State()) && delegate == old(delegate)
      ensures delegate != null ==> delegate.received == old(delegate.received) + [Report(this, emptyDefault)]
    {
      CallDelegate(emptyDefault);
      r := true;
    }

    /** `callDelegate`: forwards one report to the delegate, or drops it when there is none. */
    method CallDelegate(changedText: string)
      modifies delegate
      ensures State() == old(State()) && delegate == old(delegate)
      ensures delegate != null ==> delegate.received == old(delegate.received) + [Report(this, changedText)]
    {
      if delegate != null {
        delegate.TextFieldCellDidChange(this, changedText);
      }
    }
  }

  /** A fresh cell falls back to "1", so an empty commit before any binding reports "1". */
  lemma FreshCellFallsBackToOne()
    ensures FreshCell().emptyDefault == "1"
    ensures EndEditingReport(FreshCell()) == Some("1")
  {
  }

  /** Configuring with a text-compatible row makes the cell show exactly that row. */
  lemma ConfigureShowsTextRow(s: CellState, row: AnyRow)
    requires row.TextFieldCompatible?
    ensures Shows(Configured(s, row), row)
    ensures Configured(s, row).textFieldIsAccessory
  {
  }

  /**
   * Graceful degradation: a row that is not text-compatible changes nothing
   * but the accessory view, so whatever row the cell showed it still shows.
   */
  lemma ConfigureOtherRowKeepsBinding(s: CellState, row: AnyRow)
    requires !row.TextFieldCompatible?
    ensures Configured(s, row).textField == s.textField
    ensures Configured(s, row).emptyDefault == s.emptyDefault
    ensures Configured(s, row).textFieldIsAccessory
    ensures forall shown :: Shows(s, shown) ==> Shows(Configured(s, row), shown)
  {
  }

  /**
   * Reuse: once a text-compatible row is configured, nothing of the cell's
   * earlier state (an earlier row, an earlier fallback) remains.
   */
  lemma ReuseForgetsEarlierRows(s: CellState, t: CellState, row: AnyRow)
    requires row.TextFieldCompatible?
    ensures Configured(s, row) == Configured(t, row)
  {
  }

  /**
   * Over any reuse history, the cell shows the last text-compatible row it
   * was configured with; if there was none, its field and fallback are the
   * ones it started with.
   */
  lemma {:induction false} ConfiguredAllShowsLastTextRow(s: CellState, rows: seq<AnyRow>)
    ensures LastTextRow(rows).Some? ==> ConfiguredAll(s, rows) == Configured(s, LastTextRow(rows).value)
    ensures LastTextRow(rows).Some? ==> Shows(ConfiguredAll(s, rows), LastTextRow(rows).value)
    ensures LastTextRow(rows).None? ==> ConfiguredAll(s, rows).textField == s.textField
    ensures LastTextRow(rows).None? ==> ConfiguredAll(s, rows).emptyDefault == s.emptyDefault
    ensures rows != [] ==> ConfiguredAll(s, rows).textFieldIsAccessory
  {
    if rows != [] {
      var init := rows[..|rows| - 1];
      ConfiguredAllShowsLastTextRow(s, init);
      var last := rows[|rows| - 1];
      if last.TextFieldCompatible? {
        ConfigureShowsTextRow(ConfiguredAll(s, init), last);
      } else {
        ConfigureOtherRowKeepsBinding(ConfiguredAll(s, init), last);
        if LastTextRow(init).Some? {
          ConfigureShowsTextRow(s, LastTextRow(init).value);
        }
      }
    }
  }

  /**
   * Reuse, concretely: a cell bound to a row with value "5" and placeholder
   * "1" and then to a row with value "" and placeholder "9" shows "" and
   * falls back to "9".
   */
  lemma ReuseExample(s: CellState)
    ensures var r1 := TextFieldCompatible("5", "1", Default);
      var r2 := TextFieldCompatible("", "9", NumberPad);
      var t := ConfiguredAll(s, [r1, r2]);
      t.emptyDefault == "9" && t.textField.text == Some("") && EndEditingReport(t) == Some("9")
  {
  }

  /** A fresh cell keeps the "1" fallback until its first text-compatible row. */
  lemma FallbackStaysOneUntilFirstTextRow(rows: seq<AnyRow>)
    requires forall i :: 0 <= i < |rows| ==> !rows[i].TextFieldCompatible?
    ensures ConfiguredAll(FreshCell(), rows).emptyDefault == InitialEmptyDefault
  {
  }

  /**
   * After binding a row, a commit reports the typed text, or the row's
   * placeholder when the typed text is empty, so it is never empty while
   * the placeholder is not.
   */
  lemma CommitAfterBindingUsesPlaceholder(s: CellState, row: AnyRow, typed: string)
    requires row.TextFieldCompatible?
    ensures var edited := Configured(s, row).(textField := Configured(s, row).textField.(text := Some(typed)));
      EndEditingReport(edited) == Some(if typed == [] then row.placeholder else typed)
    ensures var edited := Configured(s, row).(textField := Configured(s, row).textField.(text := Some(typed)));
      row.placeholder != [] ==> EndEditingReport(edited).Some? && EndEditingReport(edited).value != []
  {
  }

  /**
   * The substitution happens only in what is reported: ending an edit of an
   * empty field reports the same text as the clear button, while the field
   * itself stays empty.
   */
  lemma EmptyCommitReportsLikeClear(s: CellState)
    requires s.textField.text == Some("")
    ensures EndEditingReport(s) == Some(s.emptyDefault)
  {
  }

  /**
   * The filter inspects only the replacement, so a field whose text has no
   * letter keeps having none under accepted edits.
   */
  lemma AcceptedEditKeepsTextLetterFree(text: string, start: nat, end: nat, replacement: string, letters: set<char>)
    requires start <= end <= |text|
    requires RangeOfCharacter(text, letters) == None
    requires ShouldChangeCharacters(replacement, letters)
    ensures RangeOfCharacter(Replaced(text, start, end, replacement), letters) == None
  {
  }
}
