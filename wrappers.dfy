/** Rust's `Option` and the three-valued `std::cmp::Ordering`, shared by the other modules. */
module Wrappers {

  datatype Option<+T> = None | Some(value: T)

  /** `std::cmp::Ordering`. */
  datatype Ordering = Less | Equal | Greater {
    /** `Ordering::reverse`: swaps Less and Greater, keeps Equal. */
    function Reverse(): (r: Ordering)
      ensures r.Equal? <==> this.Equal?
      ensures r.Less? <==> this.Greater?
      ensures r.Greater? <==> this.Less?
    {
      match this
      case Less => Greater
      case Equal => Equal
      case Greater => Less
    }
  }
}
