/** Failure-carrying results shared by every module of the model. */
module Wrappers {

  /** A value that may be missing: the model of `std::optional`. */
  datatype Option<+T> = None | Some(value: T)

  /** The result of a run that may abort. `Fatal` stands for an exception the
      program does not catch (`std::optional::value` on an empty optional,
      `std::map::at` on a missing key, `std::stoi` on a field that is not a
      number); the run ends there and prints nothing more. */
  datatype Result<+T> = Fatal | Ok(value: T)
}
