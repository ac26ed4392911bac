/** Small facts about sequences that several modules rely on. */
module Seqs {

  lemma AppendAssoc<T>(x: seq<T>, y: seq<T>, z: seq<T>)
    ensures x + (y + z) == (x + y) + z
  {
  }

  /** Dropping the last element, slicing from m, and putting the element back is slicing from m. */
  lemma SuffixOfInit<T>(s: seq<T>, m: nat)
    requires m < |s|
    ensures s[..|s| - 1][m..] + [s[|s| - 1]] == s[m..]
  {
  }

  /** One element appended at a time gives the same list as appending the groups. */
  lemma AppendSingles<T>(a: T, b: T, c: T, d: T, e: T, f: T, g: T)
    ensures [] + [a] + [b] + [c] + [d] + [e] + [f] + [g] == [a, b] + [c, d, e] + [f, g]
  {
  }

  lemma AppendTriple<T>(before: seq<T>, a: T, b: T, c: T)
    ensures before + [a] + [b] + [c] == before + [a, b, c]
  {
  }
}
