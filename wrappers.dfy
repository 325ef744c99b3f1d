/** The optional value used wherever the program holds a nullable pointer
    (`registry.try_get` returns `nullptr` when the component is absent). */
module Wrappers {

  datatype Option<+T> = None | Some(value: T)
}
