/** Small facts about sequence concatenation, stated once for any element type. */
module Sequences {

  /** Concatenation regrouped around a middle part. */
  lemma Regroup<T>(a: seq<T>, b: seq<T>, c: seq<T>, d: seq<T>, e: seq<T>)
    ensures a + (b + c + d) + e == a + b + c + d + e
  {
  }

  /** Concatenation regrouped so the outer parts absorb their neighbours. */
  lemma Absorb<T>(p: seq<T>, a: seq<T>, t: seq<T>, b: seq<T>, q: seq<T>)
    ensures p + (a + t + b) + q == (p + a) + t + (b + q)
  {
  }

  /** The ends of a three-part concatenation are its outer parts. */
  lemma Ends<T>(a: seq<T>, b: seq<T>, c: seq<T>)
    ensures (a + b + c)[..|a|] == a
    ensures (a + b + c)[|a + b + c| - |c|..] == c
  {
  }

  /** Empty parts at either end of a concatenation change nothing. */
  lemma NoPadding<T>(a: seq<T>, b: seq<T>, c: seq<T>)
    ensures [] + a + b + c + [] == a + b + c
  {
  }
}
