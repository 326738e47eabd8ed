/** The bytes that a decoder reads, as a list of ranges. */
module Ranges {

  datatype Range = Range(start: nat, count: nat)

  predicate Inside(touched: seq<Range>, size: nat) {
    forall r <- touched :: r.start + r.count <= size
  }

  lemma InsideBoth(a: seq<Range>, b: seq<Range>, size: nat)
    ensures Inside(a + b, size) <==> Inside(a, size) && Inside(b, size)
  {
    assert forall r <- a :: r in a + b;
    assert forall r <- b :: r in a + b;
  }

  lemma InsideOne(r: Range, size: nat)
    ensures Inside([r], size) <==> r.start + r.count <= size
  {
    assert r in [r];
  }

  lemma InsideNothing(size: nat)
    ensures Inside([], size)
  {
  }
}
