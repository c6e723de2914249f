/** Small laws of sequences that other modules quote by name. */
module Seqs {

  lemma Assoc<T>(a: seq<T>, b: seq<T>, c: seq<T>)
    ensures a + b + c == a + (b + c)
  {
  }

  lemma Shift<T>(a: seq<T>, b: seq<T>)
    requires b != []
    ensures a + [b[0]] + b[1..] == a + b
  {
  }

  lemma SliceFirst<T>(a: seq<T>, i: nat, j: nat)
    requires i < j <= |a|
    ensures [a[i]] + a[i + 1..j] == a[i..j]
  {
  }

  lemma SliceJoin<T>(a: seq<T>, i: nat, j: nat)
    requires i <= j <= |a|
    ensures a[..i] + a[i..j] == a[..j]
  {
  }
}
