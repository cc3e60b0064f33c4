/** What most modules share. */
module Common {

  datatype Option<+T> = None | Some(value: T)

  function Min(a: nat, b: nat): (m: nat) {
    if a < b then a else b
  }
}
