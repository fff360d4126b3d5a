/** Optional values: `None` stands for a PHP array key that is absent or null
    (the cases in which `isset` is false). */
module Basics {

  datatype Option<+T> = None | Some(value: T)
}
