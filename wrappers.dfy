/** Small failure-carrying datatypes shared by the models. */
module Wrappers {

  /** An optional value: `None` stands for a Kotlin `null` or a JavaScript `undefined`/`null`. */
  datatype Option<+T> = None | Some(value: T)

  /** The outcome of a network fetch, which the models receive as an input. */
  datatype Fetch<+T> = Fetched(data: T) | FetchFailed
}
