/** Option type shared by the modules of this model: `None` stands for a
    Python `None` (or a lookup that found nothing). */
module Wrappers {

  datatype Option<+T> = None | Some(value: T)
}
