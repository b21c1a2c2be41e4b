/** Small facts about sequence concatenation and slicing, proved once so that
    the report lemmas can use them without re-deriving them. */
module SeqFacts {

  lemma ConcatEmpty<T>(a: seq<T>)
    ensures a + [] == a && [] + a == a
  {
  }

  lemma ConcatAssoc<T>(x: seq<T>, y: seq<T>, z: seq<T>)
    ensures (x + y) + z == x + (y + z)
  {
  }

  /** Dropping the last element of `a + b` drops the last element of `b`. */
  lemma DropLastConcat<T>(a: seq<T>, b: seq<T>)
    requires |b| > 0
    ensures (a + b)[..|a + b| - 1] == a + b[..|b| - 1]
  {
  }

  /** `x + [c] + y` splits back into `x` and `y` around position `|x|`. */
  lemma SplitAround<T>(x: seq<T>, c: T, y: seq<T>)
    ensures (x + [c] + y)[..|x|] == x
    ensures (x + [c] + y)[|x|] == c
    ensures (x + [c] + y)[|x| + 1..] == y
  {
  }
}
