/** Facts about sequences that proofs about concatenation lean on. */
module Sequences {

  lemma Associate<T>(a: seq<T>, b: seq<T>, c: seq<T>)
    ensures (a + b) + c == a + (b + c)
  {
  }

  lemma SameHead<T>(head: seq<T>, x: seq<T>, y: seq<T>)
    ensures head + x == head + y <==> x == y
  {
    assert (head + x)[|head|..] == x && (head + y)[|head|..] == y;
  }
}
