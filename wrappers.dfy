/** Optional values and results with the exceptions the modelled code raises. */
module Wrappers {

  /** Python's `None` or a present value. */
  datatype Option<+T> = None | Some(value: T)

  /** The exceptions raised by the modelled code. */
  datatype Error =
    | ValueError      // BracketSort.height on an empty or non-power-of-two list
    | IndexError      // Bracket.binary_tree when a round lists too few teams
    | RecursionError  // BinaryTree(-1): build_tree never reaches its base case
    | TypeError       // ordering a None payload against a built-in value, or an empty Team() against a scraped one

  /** A value, or the exception that the Python code raises instead. */
  datatype Result<+R> = Ok(value: R) | Err(error: Error)
}
