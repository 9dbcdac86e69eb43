/** A pandas cell that may hold NaN is modelled as an Option: None stands for NaN. */
module Options {

  datatype Option<+T> = None | Some(value: T) {

    /** pandas `fillna(default)` on one cell */
    function GetOr(default: T): T {
      match this
      case Some(v) => v
      case None => default
    }
  }
}
