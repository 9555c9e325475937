/** The part of the GUI toolkit's `TreeData` that the application uses: an
    ordered list of top-level rows, each with a key, a text and a list of
    column values. */
module TreeData {

  /** A cell of a row: the reservation id is an integer, every other field text. */
  datatype FieldValue = IdValue(id: nat) | TextValue(text: string)

  /** One row inserted with `treedata.Insert('', key, text, values)`. */
  datatype TreeRow = TreeRow(key: string, text: nat, values: seq<FieldValue>)
}
