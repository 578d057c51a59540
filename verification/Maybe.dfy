/** An optional value, used wherever the modelled code reports "nothing found"
    or "could not read" instead of producing a value. */
module Maybe {

  datatype Option<+T> = None | Some(value: T)

}
