/** An optional value: the scanners and index searches answer `None` when
    there is nothing to report, the run's rejection may carry no value. */
module Wrappers {

  datatype Option<+T> = None | Some(value: T)
}
