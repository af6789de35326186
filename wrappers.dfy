/** The two small result types the library's signatures use. */
module Wrappers {
  /** An optional value. */
  datatype Option<T> = None | Some(value: T)

  /** The result of a comparison. */
  datatype Ordering = Less | Equal | Greater
  {
    /** The same comparison with its operands swapped. */
    function Reverse(): Ordering
    {
      match this
      case Less => Greater
      case Equal => Equal
      case Greater => Less
    }
  }
}
