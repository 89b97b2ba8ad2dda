/** Optional values, used for the parser's one-token lookahead, which yields
    "no token" past the end of the input instead of failing. */
module Wrappers {

  datatype Option<+T> = None | Some(value: T)
}
