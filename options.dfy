/** The optional value used wherever the C# code returns null or "no result". */
module Options {

  datatype Option<+T> = None | Some(value: T)
}
