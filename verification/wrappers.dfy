/** Optional values: `None` stands for "no value" wherever the script would
    raise or report absence instead of producing a result. */
module Wrappers {

  datatype Option<+T> = None | Some(value: T)

}
