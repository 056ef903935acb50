/** The value types of the current generator: the unit a timestamp counts in,
    and the fields `Parse` recovers from an identifier. */
module IdTypes {
  import Wrappers

  /** `TimestampResolution` (the numeric values of its members play no part). */
  datatype TimestampResolution = None | Day | Hour | Minute | Second | Millisecond | Microsecond | Ticks

  /** `IdInformation`: a null string property is `None`; the creation time is
      kept as a UTC tick count. */
  datatype IdInformation = IdInformation(
    base: int,
    timestampComponent: Wrappers.Option<string>,
    hashComponent: Wrappers.Option<string>,
    randomComponent: Wrappers.Option<string>,
    creationTimestampUtc: Wrappers.Option<int>)

  /** `IdInformation.Default`: every property at its default. */
  const Default: IdInformation := IdInformation(0, Wrappers.None, Wrappers.None, Wrappers.None, Wrappers.None)
}
