/** The repository keeps two copies of several pipeline steps: the current
    one in the `utils` package and an older one at the top level. Where the
    copies differ, an operation takes the copy it models as a parameter. */
module Editions {
  datatype Edition = Current | Legacy
}
