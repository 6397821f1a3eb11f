/** An optional value, used where the source returns "nothing" (a failed
    parse, a missing router configuration, an unknown session type). */
module Optional {

  datatype Option<+T> = None | Some(value: T)

}
