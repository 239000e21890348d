/** Turning the count of `-v` flags into a logging level: the count is an
    index into the script's list of levels, clamped to its last entry. */
module Verbosity {

  /** Python's numeric logging levels; a smaller number shows more. */
  const WARNING: int := 30
  const INFO: int := 20
  const DEBUG: int := 10

  /** The clamp: `verbosity` itself while it indexes the list, else the last
      index. */
  function ClampIndex(verbosity: nat, count: nat): (k: nat)
    requires count > 0
    ensures k < count
    ensures verbosity < count ==> k == verbosity
    ensures verbosity >= count ==> k == count - 1
    ensures k <= verbosity
  {
    if verbosity >= count then count - 1 else verbosity
  }

  /** Levels listed from least to most verbose. */
  predicate Descending(levels: seq<int>) {
    forall i, j :: 0 <= i < j < |levels| ==> levels[i] > levels[j]
  }

  /** One more `-v` never makes the logging less verbose. */
  lemma MoreFlagsShowMore(levels: seq<int>, verbosity: nat)
    requires levels != [] && Descending(levels)
    ensures levels[ClampIndex(verbosity + 1, |levels|)] <= levels[ClampIndex(verbosity, |levels|)]
  {
  }
}
