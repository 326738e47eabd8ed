/** Strings that stand in memory with their terminator behind them, and what keeps them intact. */
module XmlSettled {
  import opened XmlText
  import opened XmlTree
  import opened XmlDom
  import opened XmlMemory

  /** The string and the zero terminator behind it lie in [lo, hi). */
  predicate Placed(memory: Text, s: Str, lo: nat, hi: nat) {
    s.Span? ==> lo <= s.start && s.start + s.size < hi && At(memory, s.start + s.size) == '\0'
  }

  predicate AttributePlaced(memory: Text, a: Attribute<Str>, lo: nat, hi: nat) {
    Placed(memory, a.name, lo, hi) && Placed(memory, a.value, lo, hi)
  }

  predicate AttributesPlaced(memory: Text, attributes: seq<Attribute<Str>>, lo: nat, hi: nat) {
    attributes != [] ==>
      AttributePlaced(memory, attributes[0], lo, hi) && AttributesPlaced(memory, attributes[1..], lo, hi)
  }

  /** Every name and value of the tree is placed in [lo, hi). */
  predicate Settled(memory: Text, t: Tree<Str>, lo: nat, hi: nat)
    decreases t, 1
  {
    && Placed(memory, t.name, lo, hi) && Placed(memory, t.value, lo, hi)
    && AttributesPlaced(memory, t.attributes, lo, hi)
    && AllSettled(memory, t.children, lo, hi)
  }

  predicate AllSettled(memory: Text, trees: seq<Tree<Str>>, lo: nat, hi: nat)
    decreases trees, 0
  {
    trees != [] ==> Settled(memory, trees[0], lo, hi) && AllSettled(memory, trees[1..], lo, hi)
  }

  /** The two memories agree on [lo, hi). */
  predicate Agree(m: Text, n: Text, lo: nat, hi: nat) {
    hi <= |m| == |n| && forall x :: lo <= x < hi ==> m[x] == n[x]
  }

  // ---------------------------------------------------------------- frames

  lemma PlacedFrame(m: Text, n: Text, s: Str, lo: nat, hi: nat, lo': nat, hi': nat)
    requires Agree(m, n, lo, hi) && lo' <= lo && hi <= hi' && Placed(m, s, lo, hi)
    ensures Placed(n, s, lo', hi') && Deref(n, s) == Deref(m, s)
  {
  }

  lemma {:induction false} AttributesFrame(m: Text, n: Text, attributes: seq<Attribute<Str>>, lo: nat, hi: nat,
                                           lo': nat, hi': nat)
    requires Agree(m, n, lo, hi) && lo' <= lo && hi <= hi' && AttributesPlaced(m, attributes, lo, hi)
    ensures AttributesPlaced(n, attributes, lo', hi')
    ensures ResolveAttributes(n, attributes) == ResolveAttributes(m, attributes)
  {
    hide Agree, Placed, Deref;
    if attributes != [] {
      PlacedFrame(m, n, attributes[0].name, lo, hi, lo', hi');
      PlacedFrame(m, n, attributes[0].value, lo, hi, lo', hi');
      AttributesFrame(m, n, attributes[1..], lo, hi, lo', hi');
    }
  }

  /** What happens outside its range does not change the tree that is settled in it. */
  lemma {:induction false} SettledFrame(m: Text, n: Text, t: Tree<Str>, lo: nat, hi: nat, lo': nat, hi': nat)
    requires Agree(m, n, lo, hi) && lo' <= lo && hi <= hi' && Settled(m, t, lo, hi)
    ensures Settled(n, t, lo', hi') && Resolve(n, t) == Resolve(m, t)
    decreases t, 1
  {
    hide Agree, Placed, Deref;
    PlacedFrame(m, n, t.name, lo, hi, lo', hi');
    PlacedFrame(m, n, t.value, lo, hi, lo', hi');
    AttributesFrame(m, n, t.attributes, lo, hi, lo', hi');
    AllSettledFrame(m, n, t.children, lo, hi, lo', hi');
  }

  lemma {:induction false} AllSettledFrame(m: Text, n: Text, trees: seq<Tree<Str>>, lo: nat, hi: nat, lo': nat,
                                           hi': nat)
    requires Agree(m, n, lo, hi) && lo' <= lo && hi <= hi' && AllSettled(m, trees, lo, hi)
    ensures AllSettled(n, trees, lo', hi') && ResolveAll(n, trees) == ResolveAll(m, trees)
    decreases trees, 0
  {
    hide Agree, Settled, Resolve;
    if trees != [] {
      SettledFrame(m, n, trees[0], lo, hi, lo', hi');
      AllSettledFrame(m, n, trees[1..], lo, hi, lo', hi');
    }
  }

  // ---------------------------------------------------------------- concatenation

  lemma {:induction false} AttributesPlacedConcat(m: Text, a: seq<Attribute<Str>>, b: seq<Attribute<Str>>, lo: nat,
                                                  hi: nat)
    requires AttributesPlaced(m, a, lo, hi) && AttributesPlaced(m, b, lo, hi)
    ensures AttributesPlaced(m, a + b, lo, hi)
  {
    hide AttributePlaced;
    if a == [] {
      assert a + b == b;
    } else {
      assert (a + b)[1..] == a[1..] + b;
      AttributesPlacedConcat(m, a[1..], b, lo, hi);
    }
  }

  lemma {:induction false} AllSettledConcat(m: Text, a: seq<Tree<Str>>, b: seq<Tree<Str>>, lo: nat, hi: nat)
    requires AllSettled(m, a, lo, hi) && AllSettled(m, b, lo, hi)
    ensures AllSettled(m, a + b, lo, hi)
  {
    hide Settled;
    if a == [] {
      assert a + b == b;
    } else {
      assert (a + b)[1..] == a[1..] + b;
      AllSettledConcat(m, a[1..], b, lo, hi);
    }
  }

  /** A settled tree lies within the memory. */
  lemma {:induction false} SettledInMemory(m: Text, t: Tree<Str>, lo: nat, hi: nat)
    requires hi <= |m| && Settled(m, t, lo, hi)
    ensures TreeInMemory(m, t)
    decreases t, 1
  {
    AttributesInMemory(m, t.attributes, lo, hi);
    AllInMemory(m, t.children, lo, hi);
  }

  lemma {:induction false} AttributesInMemory(m: Text, attributes: seq<Attribute<Str>>, lo: nat, hi: nat)
    requires hi <= |m| && AttributesPlaced(m, attributes, lo, hi)
    ensures forall a <- attributes :: InMemory(m, a.name) && InMemory(m, a.value)
  {
    if attributes != [] {
      AttributesInMemory(m, attributes[1..], lo, hi);
      assert attributes == [attributes[0]] + attributes[1..];
    }
  }

  lemma {:induction false} AllInMemory(m: Text, trees: seq<Tree<Str>>, lo: nat, hi: nat)
    requires hi <= |m| && AllSettled(m, trees, lo, hi)
    ensures forall t <- trees :: TreeInMemory(m, t)
    decreases trees, 0
  {
    hide TreeInMemory, Settled;
    if trees != [] {
      SettledInMemory(m, trees[0], lo, hi);
      AllInMemory(m, trees[1..], lo, hi);
      assert trees == [trees[0]] + trees[1..];
    }
  }
}
