/** The Python exceptions the modelled code can raise, each kept as a value. */
module Errors {

  datatype Error =
    /** A list subscript past the end, e.g. `spans[1]` or `split("/")[1]`. */
    | IndexError(subscript: string)
    /** A missing dict key, e.g. `attrs['href']`. */
    | KeyError(key: string)
    /** `urlparse` rejecting a netloc with unbalanced brackets. */
    | ValueError(message: string)
    /** A call whose arguments do not bind to the callee's parameters. */
    | TypeError(callee: string)
    /** `NoInputFileFoundError` of src/search.py. */
    | NoInputFileFound
}
