/** Facts about sequences that hold whatever the element type. Stating them
    once, generically, keeps the proofs that use them free of the element
    type's own definitions. */
module Seqs {
  lemma TakeSnoc<T>(s: seq<T>, i: nat)
    requires i < |s|
    ensures s[..i + 1] == s[..i] + [s[i]]
  {
  }

  /** A slice that ends at `b` grows by `s[b]` when its end moves to `b + 1`. */
  lemma SliceGrow<T>(s: seq<T>, a: nat, b: nat, slice: seq<T>, x: T)
    requires a <= b < |s| && slice == s[a..b] && x == s[b]
    ensures slice + [x] == s[a..b + 1]
  {
  }

  lemma AppendAssoc<T>(a: seq<T>, b: seq<T>, c: seq<T>)
    ensures (a + b) + c == a + (b + c)
  {
  }

  /** The number of `true` flags. */
  function Count(flags: seq<bool>): nat
    decreases |flags|
  {
    if flags == [] then 0 else Count(flags[..|flags| - 1]) + (if flags[|flags| - 1] then 1 else 0)
  }

  /** Counting one flag more adds one exactly when that flag is set. */
  lemma CountTake(flags: seq<bool>, n: nat)
    requires n < |flags|
    ensures Count(flags[..n + 1]) == Count(flags[..n]) + (if flags[n] then 1 else 0)
  {
    assert flags[..n + 1][..n] == flags[..n];
  }
}
