/** Cells of the audit-log table as pandas holds them, and Python's `float()` as a parameter. */
module Cells {
  import opened Wrappers

  /** One cell of an object column: absent or NaN, a string, or a number. */
  datatype Cell = Missing | Text(s: string) | Number(x: real)

  /** Python's `float()` applied to a string: `Some(x)` when it returns `x`, `None` when it raises
      `ValueError`. Its grammar is not modelled; every property quantifies over all such parsers. */
  type FloatParser = string -> Option<real>
}
