/** The record type the search returns, and Python's notion of an optional argument. */
module Records {

  /** A Python value that may be None. */
  datatype Option<T> = None | Some(value: T)

  /** A stored command as the store hands it back (CommandWithMetadata).
      Timestamps are opaque instants; the ranking never reads them. */
  datatype CommandRecord = CommandRecord(
    id: string,
    command: string,
    description: string,
    tags: seq<string>,
    os: Option<string>,
    projectType: Option<string>,
    context: Option<string>,
    category: Option<string>,
    createdAt: Option<int>,
    lastUsed: Option<int>,
    useCount: int)

  /** `if s:` for an argument of type `str | None`: neither None nor the empty string. */
  predicate Truthy(s: Option<string>) {
    s.Some? && s.value != []
  }
}
