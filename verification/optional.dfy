/** The optional value used for the `sender` argument of a broadcast, whose
    default is "no sender" (every member receives the message). */
module Optional {

  datatype Option<+T> = None | Some(value: T)

}
