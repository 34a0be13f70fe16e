/** Error values of the storage layer and the Result type every fallible operation returns. */
module Results {

  /** One constructor per distinct error the Go code returns (or per runtime panic it can hit). */
  datatype Error =
    | InvalidPageId        // ReadPage: id 0 or beyond the recorded page count
    | PageNotFound         // ReadPage: no line carries the page's id marker
    | NotDataPage          // record API on a page whose type is not "Data"
    | RecordNotFound       // GetRecord / DeleteRecord: no Entry-<n> key
    | NonLeafRoot          // B+Tree Find / Delete on a root that is not a leaf
    | KeyNotFound          // B+Tree Delete of an absent key
    | AlreadyExists        // Database.Insert of an ID the index already maps
    | MissingRecord        // Database.Delete / Update of an ID the index does not map
    | Panic                // a Go runtime panic (slice or index out of range)

  datatype Result<+T> = Ok(value: T) | Err(error: Error) {
    predicate IsFailure() { Err? }

    function PropagateFailure<U>(): Result<U>
      requires Err?
    {
      Err(error)
    }

    function Extract(): T
      requires Ok?
    {
      value
    }
  }

  datatype Option<+T> = None | Some(value: T)
}
