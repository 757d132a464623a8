/** A value that may be absent. Used for the source's `Option` and for
    operations that can abort (an index outside a fixed-size array). */
module Options {

  datatype Option<T> = None | Some(value: T)

}
