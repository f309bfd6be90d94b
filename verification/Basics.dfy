/** Sequences, numbers and settings: what several modules need. */
module Basics {

  lemma Regroup<T>(a: seq<T>, b: seq<T>, c: seq<T>)
    ensures a + (b + c) == a + b + c
  {
  }

  predicate NoDuplicates(s: seq<string>) {
    s != [] ==> s[0] !in s[1..] && NoDuplicates(s[1..])
  }

  lemma {:induction false} NoDuplicatesSnoc(s: seq<string>, x: string)
    requires NoDuplicates(s) && x !in s
    ensures NoDuplicates(s + [x])
  {
    if s != [] {
      NoDuplicatesSnoc(s[1..], x);
      assert (s + [x])[1..] == s[1..] + [x];
    }
  }

  lemma MultiplyMonotone(x: nat, y: nat, b: nat)
    requires x <= y
    ensures x * b <= y * b
  {
  }

  /** A setting that was given, that is, positive, is kept; any other has its default. */
  predicate Settled(given: int, byDefault: int, settled: int) {
    settled > 0 && (given > 0 ==> settled == given) && (given <= 0 ==> settled == byDefault)
  }

  /** The last number from `i` up to `k` for which `holds` is true, as it is for `i`. */
  function Last(holds: nat -> bool, i: nat, k: nat): (j: nat)
    requires i < k && holds(i)
    ensures i <= j < k && holds(j) && forall m: nat :: j < m < k ==> !holds(m)
    decreases k
  {
    if k == i + 1 || holds(k - 1) then k - 1 else Last(holds, i, k - 1)
  }
}
