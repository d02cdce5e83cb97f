/** The optional value the model uses wherever the source holds `null` or a
    value: draft form fields, and an event that is or is not emitted. */
module Options {

  datatype Option<+T> = None | Some(value: T)
}
