/** An optional value: an empty spreadsheet cell, a fee lookup that found nothing. */
module Optional {

  datatype Option<+T> = None | Some(value: T) {

    /** The value, or the default when there is none (pandas' fillna). */
    function GetOr(default: T): (r: T)
      ensures Some? ==> r == value
      ensures None? ==> r == default
    {
      match this
      case Some(v) => v
      case None => default
    }
  }
}
