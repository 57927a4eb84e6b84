/** The `tileOrder` record in the browser's local storage. */
module Storage {

  datatype Option<+T> = None | Some(value: T)

  /** What `loadTiles` works from: the stored id list, or the empty list when the
      record is absent (`JSON.parse(null)` is `null`, and `null || []` is `[]`). */
  function SavedOrder(record: Option<seq<string>>): (saved: seq<string>)
  {
    match record
    case None => []
    case Some(ids) => ids
  }
}
