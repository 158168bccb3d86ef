/** Failure-carrying values shared by every part of the model. */
module Common {

  datatype Option<+T> = None | Some(value: T)

  /** The only exception the modelled core can raise: a generator's `__next__()`
      that finds no element (the hit-to-line lookup in run_flawfinder). Nothing
      in shefmine.py catches it, so it ends the whole run. */
  datatype Error = StopIteration

  datatype Result<+T> = Ok(value: T) | Err(error: Error)
}
