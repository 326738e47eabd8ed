/** The elements of a sequence that are the first with their key, in order. */
module Firsts {

  ghost predicate HasKey<T(!new), K(!new)>(s: seq<T>, key: T -> K, k: K) {
    exists i :: 0 <= i < |s| && key(s[i]) == k
  }

  ghost function FirstsOf<T(!new), K(!new)>(s: seq<T>, key: T -> K): seq<T> {
    if s == [] then []
    else
      var before := FirstsOf(s[..|s| - 1], key);
      var x := s[|s| - 1];
      if HasKey(before, key, key(x)) then before else before + [x]
  }

  /** The place of the first element with the key; the length if there is none. */
  ghost function FirstIndex<T(!new), K(!new)>(s: seq<T>, key: T -> K, k: K): (i: nat)
    ensures i <= |s|
    ensures i < |s| ==> key(s[i]) == k
    ensures forall j :: 0 <= j < i ==> key(s[j]) != k
  {
    if s == [] then 0 else if key(s[0]) == k then 0 else 1 + FirstIndex(s[1..], key, k)
  }

  lemma FirstIndexIs<T(!new), K(!new)>(s: seq<T>, key: T -> K, k: K, i: nat)
    requires i < |s| && key(s[i]) == k && forall j :: 0 <= j < i ==> key(s[j]) != k
    ensures FirstIndex(s, key, k) == i
  {
  }

  /** Every key occurs, once. */
  lemma {:induction false} EachKeyOnce<T(!new), K(!new)>(s: seq<T>, key: T -> K)
    ensures forall i :: 0 <= i < |s| ==> HasKey(FirstsOf(s, key), key, key(s[i]))
    ensures forall i, j :: 0 <= i < j < |FirstsOf(s, key)| ==> key(FirstsOf(s, key)[i]) != key(FirstsOf(s, key)[j])
    decreases |s|
  {
    if s != [] {
      var before, f := FirstsOf(s[..|s| - 1], key), FirstsOf(s, key);
      EachKeyOnce(s[..|s| - 1], key);
      forall i | 0 <= i < |s|
        ensures HasKey(f, key, key(s[i]))
      {
        if i < |s| - 1 {
          assert s[..|s| - 1][i] == s[i];
          var j :| 0 <= j < |before| && key(before[j]) == key(s[i]);
          assert f[j] == before[j];
        } else if !HasKey(before, key, key(s[i])) {
          assert f[|before|] == s[i];
        }
      }
    }
  }

  /** Each element is the first with its key, and they stand in the order of those places. */
  lemma {:induction false} InOrder<T(!new), K(!new)>(s: seq<T>, key: T -> K)
    ensures forall i :: 0 <= i < |FirstsOf(s, key)| ==>
              var k := key(FirstsOf(s, key)[i]);
              FirstIndex(s, key, k) < |s| && s[FirstIndex(s, key, k)] == FirstsOf(s, key)[i]
    ensures forall i, j :: 0 <= i < j < |FirstsOf(s, key)| ==>
              FirstIndex(s, key, key(FirstsOf(s, key)[i])) < FirstIndex(s, key, key(FirstsOf(s, key)[j]))
    decreases |s|
  {
    if s != [] {
      var rest, x := s[..|s| - 1], s[|s| - 1];
      var before, f := FirstsOf(rest, key), FirstsOf(s, key);
      InOrder(rest, key);
      forall i | 0 <= i < |before|
        ensures FirstIndex(s, key, key(before[i])) == FirstIndex(rest, key, key(before[i]))
      {
        FirstIndexIs(s, key, key(before[i]), FirstIndex(rest, key, key(before[i])));
      }
      if !HasKey(before, key, key(x)) {
        EachKeyOnce(rest, key);
        forall j | 0 <= j < |rest|
          ensures key(s[j]) != key(x)
        {
          assert rest[j] == s[j];
        }
        FirstIndexIs(s, key, key(x), |s| - 1);
      }
    }
  }

  /** The firsts of a prefix come first. */
  lemma {:induction false} PrefixFirsts<T(!new), K(!new)>(s: seq<T>, key: T -> K, n: nat)
    requires n <= |s|
    ensures FirstsOf(s[..n], key) <= FirstsOf(s, key)
    decreases |s|
  {
    if n == |s| {
      assert s[..n] == s;
    } else {
      var rest := s[..|s| - 1];
      PrefixFirsts(rest, key, n);
      assert rest[..n] == s[..n];
    }
  }

  lemma FirstsNext<T(!new), K(!new)>(s: seq<T>, key: T -> K, x: T)
    ensures FirstsOf(s + [x], key)
         == if HasKey(FirstsOf(s, key), key, key(x)) then FirstsOf(s, key) else FirstsOf(s, key) + [x]
  {
    assert (s + [x])[..|s|] == s;
  }

  lemma NoFirsts<T(!new), K(!new)>(key: T -> K)
    ensures FirstsOf([], key) == []
  {
  }
}
