/** The parsed pull-request diff, as far as the labelling policy looks at it. */
module Changes {

  /** One changed file: its path and `len` of its patch, which for a parsed
      unified diff is the number of hunks touching the file. */
  datatype FileChange = FileChange(path: string, hunks: nat)

  /** The files of a diff in the order the diff lists them. */
  type Diff = seq<FileChange>

  /** Hunks over all files, whatever their type. */
  function TotalHunks(d: Diff): nat
  {
    if |d| == 0 then 0 else d[0].hunks + TotalHunks(d[1..])
  }
}
