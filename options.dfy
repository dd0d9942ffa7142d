/** The optional value used by the bookstore model for "maybe a result". */
module Options {

  datatype Option<T> = None | Some(value: T)
}
