/** A Java reference that may be null, or a query that may have returned no row. */
module Nullable {

  datatype Option<+T> = None | Some(value: T)
}
