/** The optional value used for the scanner's pending cadence and for the
    extractor's "no match" outcome. */
module Wrappers {
  datatype Option<+T> = None | Some(value: T)
}
