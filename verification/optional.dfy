/** The result of a lookup that may find nothing (`std::optional`). */
module Optional {

  datatype Option<T> = None | Some(value: T)
}
