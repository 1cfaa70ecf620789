/** Optional values: `None` stands for the Python players' `None` results and for
    the Python exceptions (an empty `max`, an empty `random.choice`) that
    end an operation without a value. */
module Wrappers {

  datatype Option<+T> = None | Some(value: T)
}
