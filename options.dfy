/** The optional value used for lookups that can miss (`Array.prototype.find`
    returning `undefined`, a getter returning `NaN`). */
module Options {
  datatype Option<+T> = None | Some(value: T)
}
