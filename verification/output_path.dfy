/**
 Where the deduplicated array is written: the path given with `-o`, or else
 the input path with `.dedup` appended.
 */
module OutputPath {

  datatype Option<T> = None | Some(value: T)

  const Suffix: string := ".dedup"

  /** `output` is the value of `-o`, `None` when the option was not given.
      An explicitly given path is used as it is, even an empty one. */
  function ResolveOutput(input: string, output: Option<string>): (r: string)
    ensures output.Some? ==> r == output.value
    ensures output.None? ==> |r| == |input| + |Suffix| && r[..|input|] == input && r[|input|..] == Suffix
    ensures output.None? ==> r != input
  {
    match output
    case Some(path) => path
    case None => input + Suffix
  }
}
