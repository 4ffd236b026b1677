/** The optional value used wherever the harvester has "a value or Python's None". */
module Options {

  datatype Option<+T> = None | Some(value: T)
}
