/**
 Sequence identities the table and listing proofs split on. Stated once as
 small generic lemmas so that the proofs that need them do not have to
 rediscover them in a crowded context.
 */
module SeqFacts {

  /** A non-empty sequence is its first element followed by the rest. */
  lemma Uncons<T>(a: seq<T>)
    requires |a| > 0
    ensures a == [a[0]] + a[1..]
  {
  }

  /** Appending after a non-empty sequence leaves its first element in front. */
  lemma SplitFirst<T>(a: seq<T>, q: T)
    requires |a| > 0
    ensures a + [q] == [a[0]] + (a[1..] + [q])
    ensures (a + [q])[0] == a[0] && (a + [q])[1..] == a[1..] + [q]
  {
    Uncons(a);
  }

  /** A sequence split around its element at `i`. */
  lemma SplitAt<T>(b: seq<T>, i: int)
    requires 0 <= i < |b|
    ensures b == b[..i] + ([b[i]] + b[i + 1..])
    ensures ([b[i]] + b[i + 1..])[0] == b[i] && ([b[i]] + b[i + 1..])[1..] == b[i + 1..]
  {
  }
}
