/** Optional values, the failure kinds the store raises, and a result type for them. */
module Errors {

  datatype Option<T> = None | Some(value: T)

  /** The `ValueError`s (and the few crashes) the row store and the catalog raise, by kind. */
  datatype Error =
    // construction of a table
    | MultiplePrimaryKeys
    | UnknownParentTable
    | UnknownParentColumn
    | ForeignKeyTypeMismatch
    | ParentNotPrimaryKey
    // insert
    | AutoIncrementNotNumeric
    | ValueCountMismatch
    | TooManyValues
    | DuplicatePrimaryKey
    | NullViolation
    | TypeMismatch
    // update
    | NamesValuesMismatch
    | TooManyColumns
    | UnknownConditionalColumn
    | PrimaryKeyCollisionRisk
    | UnknownColumn
    | UpdateTypeMismatch
    | ConditionalNotPrimaryKey
    // delete
    | NotPrimaryKey
    | DeleteTypeMismatch
    | IdenticalColumnNames
    // catalog
    | TableExists
    | NoSuchTable
    | ColumnNotInParent
    | StoredRowsDoNotFit
    // a missing dictionary key in the unnormalised schema of the draft
    | MissingKey

  datatype Result<T> = Ok(value: T) | Err(error: Error)
}
