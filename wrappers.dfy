/** The optional value used wherever the editor may find nothing (a missing key, a cancelled prompt). */
module Wrappers {

  datatype Option<+T> = None | Some(value: T)
}
