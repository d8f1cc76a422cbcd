/** The values both pipelines put into their result dictionaries, and Option
    for Python's `None`-or-value results. */
module Records {
  datatype Option<T> = None | Some(value: T)

  /** A dictionary value: a string, a list of strings, or a dictionary from
      strings to lists of strings. */
  datatype Value =
    | Str(s: string)
    | List(items: seq<string>)
    | Dict(entries: map<string, seq<string>>)
}
