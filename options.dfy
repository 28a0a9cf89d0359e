/** The optional value used wherever the source answers "found / not found"
    through a boolean and an out-parameter, or returns a possibly null
    pointer; and the outcome of an operation that may throw or dereference
    a null pointer. */
module Options {

  datatype Option<+T> = None | Some(value: T)

  /** How an operation ended: it returned `value`, it threw bad_alloc, or
      it dereferenced a null pointer (undefined behaviour in the source;
      the model stops there). */
  datatype Outcome<+T> = Ok(value: T) | OutOfMemory | NullDereference
}
