/**
  What several of the models share.
 */
module Prelude {

  datatype Option<+T> = None | Some(value: T)

  lemma Regroup<T>(a: seq<T>, b: seq<T>, c: seq<T>)
    ensures a + (b + c) == (a + b) + c
  {}

  /** Different multiples of `c` are at least `c` apart. */
  lemma {:induction false} MulGap(a: nat, b: nat, c: nat)
    requires a < b
    ensures a * c + c <= b * c
  {
    assert b * c == (b - 1) * c + c;
    if a < b - 1 { MulGap(a, b - 1, c); }
  }
}
