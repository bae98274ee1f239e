/** Types shared by the reference editor and the functions of sub.c. */
module EdTypes {
  datatype Option<+T> = None | Some(value: T)

  /** The result of substitute_matching_text on one line. */
  datatype Sub = SubError | NoMatch | NewLines(first: string, rest: seq<string>)
}
