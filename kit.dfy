/**
 * The UIKit and framework types that the text-field binding talks to,
 * reduced to what the binding needs of them: values with equality.
 */
module Kit {

  datatype Option<+T> = None | Some(value: T)

  /** UIKit's `UIKeyboardType`; `Default` is `.default`. */
  datatype KeyboardType =
    | Default
    | ASCIICapable
    | NumbersAndPunctuation
    | URL
    | NumberPad
    | PhonePad
    | NamePhonePad
    | EmailAddress
    | DecimalPad
    | Twitter
    | WebSearch
    | ASCIICapableNumberPad

  /** UIKit's `UITableViewCell.CellStyle`. */
  datatype CellStyle = DefaultStyle | Value1 | Value2 | Subtitle

  /** UIKit's `UITableViewCell.AccessoryType`; `NoAccessory` is `.none`. */
  datatype AccessoryType =
    | NoAccessory
    | DisclosureIndicator
    | DetailDisclosureButton
    | Checkmark
    | DetailButton

  /** The framework's `Icon`: only its equality is used here. */
  type Icon(==)

  /** The framework's `DetailText`: stored, never compared. */
  type DetailText

  /** A row's `action` closure, `(Row) -> Void`: stored and posted, never compared. */
  type Action

  /**
   * A row as `configure(with:)` receives it (`Row & RowStyle`). The
   * `TextFieldCompatible` variant is a row that also has the
   * `TextFieldRowCompatible` facet, i.e. one for which `as?` succeeds;
   * every other kind of row is `OtherRow`.
   */
  datatype AnyRow =
    | TextFieldCompatible(textFieldValue: string, placeholder: string, keyboardType: KeyboardType)
    | OtherRow(text: string)
}
