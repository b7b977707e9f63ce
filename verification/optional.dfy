/** A value that may be absent: the result of a parse that can fail, or of an
    event sequence that contains an event which cannot happen. */
module Optional {

  datatype Option<+T> = None | Some(value: T)

}
