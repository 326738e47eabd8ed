/** Facts about sequences and division that several models need. */
module Basics {

  lemma ConcatAssociative<T>(a: seq<T>, b: seq<T>, c: seq<T>)
    ensures (a + b) + c == a + (b + c)
  {
  }

  /** The next element of a list goes over to what has been used of it. */
  lemma Shift<T>(used: seq<T>, left: seq<T>)
    requires left != []
    ensures used + left == (used + [left[0]]) + left[1..]
  {
  }

  /** Quotient and remainder are determined. */
  lemma DivisionUnique(q: int, r: int, q': int, r': int, d: int)
    requires 0 <= r < d && 0 <= r' < d && q * d + r == q' * d + r'
    ensures q == q' && r == r'
  {
    if q > q' {
      Grows(q - q', d);
    } else if q < q' {
      Grows(q' - q, d);
    }
  }

  lemma Grows(k: int, d: int)
    requires k >= 1 && d >= 1
    ensures k * d >= d
  {
  }

  /** The elements with a property, in order. */
  function Filter<T>(s: seq<T>, keep: T -> bool): (r: seq<T>)
    ensures forall x <- r :: x in s && keep(x)
    ensures forall x <- s :: keep(x) ==> x in r
  {
    if s == [] then [] else (if keep(s[0]) then [s[0]] else []) + Filter(s[1..], keep)
  }

  function Map<T, U>(s: seq<T>, f: T -> U): (r: seq<U>)
    ensures |r| == |s| && forall i :: 0 <= i < |s| ==> r[i] == f(s[i])
  {
    seq(|s|, i requires 0 <= i < |s| => f(s[i]))
  }
}
