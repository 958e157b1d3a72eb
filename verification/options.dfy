/** A value that may be absent. */
module Options {

  datatype Option<T> = None | Some(value: T) {
    ghost function ToSet(): set<T> {
      if None? then {} else {value}
    }
  }
}
