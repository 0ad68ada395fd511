/** What the two pattern languages share: texts, and bracket sets. */
module Patterns {
  /** A C string without its terminator; characters compare as numbers. */
  type Text = seq<int>

  const STAR := '*' as int
  const OPEN := '[' as int
  const CLOSE := ']' as int
  const CARET := '^' as int
  const DASH := '-' as int

  predicate Is(P: Text, p: nat, c: int) { p < |P| && P[p] == c }

  /** The first closing bracket from a position on, or the end. */
  function FindClose(P: Text, p: nat): (k: nat)
    ensures p <= |P| ==> p <= k <= |P|
    ensures k < |P| ==> P[k] == CLOSE
    decreases |P| - p
  {
    if p >= |P| || P[p] == CLOSE then p else FindClose(P, p + 1)
  }
}
