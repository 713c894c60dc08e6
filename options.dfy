/** The optional value used throughout the model: `None` stands for JavaScript's
    `undefined`/`null`/`NaN` and for Python's `None`, depending on the module. */
module Options {

  datatype Option<T> = None | Some(value: T)
}
