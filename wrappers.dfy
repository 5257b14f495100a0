/** The conventional Some/None datatype. In this model `None` also stands for
    JavaScript's `NaN` wherever a number is parsed or computed. */
module Wrappers {

  datatype Option<+T> = None | Some(value: T)

}
