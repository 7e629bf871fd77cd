/**
 * General facts about sequences, sets and maps that the proofs of the other
 * modules lean on.
 */
module Collections {
  /** Concatenation regroups freely. */
  lemma Regroup<T>(a: seq<T>, b: seq<T>, c: seq<T>)
    ensures a + (b + c) == (a + b) + c
  {
  }

  /** A non-empty sequence is its head followed by its tail. */
  lemma HeadTail<T>(s: seq<T>)
    requires s != []
    ensures [s[0]] + s[1..] == s
  {
  }

  /** A non-empty set has a member. */
  lemma Pick<T>(s: set<T>) returns (w: T)
    requires s != {}
    ensures w in s
  {
    w :| w in s;
  }

  /** Updating a key twice keeps the second value only. */
  lemma UpdateTwice<K, V>(m: map<K, V>, k: K, v1: V, v2: V)
    ensures m[k := v1][k := v2] == m[k := v2]
  {
  }
}
