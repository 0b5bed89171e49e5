/** The optional value used for the pipeline's "no result" outcomes: a header that
    never ends, a quality tally over no rows, a mean over no matched pairs. */
module Wrappers {

  datatype Option<+T> = None | Some(value: T)
}
