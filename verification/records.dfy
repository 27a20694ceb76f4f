/** Values shared by the row transforms and the org chart: the dictionaries that
    csv_to_list builds and list_to_csv consumes, and the errors those raise. */
module Records {

  /** A dictionary value: an ordinary cell, or the header list stored under
      the key "track_column_order". */
  datatype Field = Text(s: string) | Columns(names: seq<string>)

  /** One row as a dictionary from column name to value. */
  type Record = map<string, Field>

  /** The key under which csv_to_list records the header when asked to. */
  const TrackColumnOrder: string := "track_column_order"

  /** The exceptions the source raises on malformed input. */
  datatype Error =
    | RowTooLong(row: nat)     // IndexError: a data row has more cells than the header (row = index in the file)
    | MissingKey(key: string)  // KeyError: a dictionary lacks a column that is read
    | NotText(key: string)     // a person field holds the header list instead of a string

  datatype Result<+T> = Ok(value: T) | Err(error: Error)

  datatype Option<+T> = None | Some(value: T)
}
