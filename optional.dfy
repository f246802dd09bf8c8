/** java.util.Optional, and the nullable locker reference the machine returns, as a value. */
module Optional {

  datatype Option<+T> = None | Some(value: T)
}
