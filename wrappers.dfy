/** The optional value the importer uses where the source has `null` or an
    empty selection. */
module Wrappers {
  datatype Option<+T> = None | Some(value: T)
}
