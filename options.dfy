/** The Go idiom `value, ok := ...` (a value paired with a found flag) is modelled
    as an optional value: `None` stands for `(zero, false)`. */
module Options {

  datatype Option<T> = None | Some(value: T)

}
