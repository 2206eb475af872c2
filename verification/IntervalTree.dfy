/**
  The set of received byte ranges of a message, kept as intervals none of which overlap or
  touch.  Intervals are half open here: the original stores hi - 1.  The balancing of the
  original search tree is immaterial; only the set of its nodes matters.
  */
module IntervalTree {

  datatype Interval = Interval(lo: nat, hi: nat)

  predicate Touches(a: Interval, b: Interval) { a.lo <= b.hi && b.lo <= a.hi }

  ghost predicate Canonical(nodes: set<Interval>) {
    && (forall n :: n in nodes ==> n.lo <= n.hi)
    && (forall a, b :: a in nodes && b in nodes && a != b ==> !Touches(a, b))
  }

  predicate Contains(n: Interval, x: nat) { n.lo <= x < n.hi }

  ghost predicate Covers(nodes: set<Interval>, x: nat) {
    exists n :: n in nodes && Contains(n, x)
  }

  ghost predicate Within(nodes: set<Interval>, bound: nat) { forall n :: n in nodes ==> n.hi <= bound }

  function Hull(a: Interval, b: Interval): Interval {
    Interval(if a.lo < b.lo then a.lo else b.lo, if a.hi > b.hi then a.hi else b.hi)
  }

  /** Merging touching intervals covers the bytes of both and nothing else. */
  lemma HullCovers(a: Interval, b: Interval, x: nat)
    requires Touches(a, b)
    ensures Contains(Hull(a, b), x) <==> Contains(a, x) || Contains(b, x)
  {}

  /**
    Adds a range.  Nodes that overlap or touch it are removed one by one, in whatever order the
    search meets them, and the range grows to include them.  A node removed can be used again; if
    there is none and no memory for another one, the range is not added.
    */
  method Insert(nodes: set<Interval>, lo: nat, hi: nat, memory: bool, ghost bound: nat)
    returns (ok: bool, out: set<Interval>)
    requires Canonical(nodes) && lo <= hi <= bound && Within(nodes, bound)
    ensures ok <==> memory || exists n :: n in nodes && Touches(n, Interval(lo, hi))
    ensures Canonical(out) && Within(out, bound) && (!ok ==> out == nodes)
    ensures ok ==> forall x: nat :: Covers(out, x) <==> Covers(nodes, x) || lo <= x < hi
    ensures ok ==> exists n :: n in out && n.lo <= lo && hi <= n.hi
  {
    var merged := Interval(lo, hi);
    var rest := nodes;
    ok := memory || exists n :: n in nodes && Touches(n, merged);
    if !ok {
      return ok, nodes;
    }
    while exists n :: n in rest && Touches(n, merged)
      invariant rest <= nodes && Canonical(rest)
      invariant merged.lo <= lo && hi <= merged.hi && merged.lo <= merged.hi
      invariant forall x: nat :: Covers(rest, x) || Contains(merged, x) <==> Covers(nodes, x) || lo <= x < hi
      invariant merged.hi <= bound
      decreases rest
    {
      var n :| n in rest && Touches(n, merged);
      forall x: nat
        ensures Covers(rest, x) || Contains(merged, x) <==> Covers(rest - {n}, x) || Contains(Hull(n, merged), x)
      {
        HullCovers(n, merged, x);
        if Covers(rest, x) {
          var c :| c in rest && Contains(c, x);
          assert c != n ==> c in rest - {n};
        }
      }
      merged := Hull(n, merged);
      rest := rest - {n};
    }
    out := rest + {merged};
    forall x: nat
      ensures Covers(out, x) <==> Covers(rest, x) || Contains(merged, x)
    {
      if Covers(out, x) {
        var c :| c in out && Contains(c, x);
        assert c in rest || c == merged;
      }
      if Covers(rest, x) {
        var c :| c in rest && Contains(c, x);
        assert c in out;
      }
      if Contains(merged, x) {
        assert merged in out;
      }
    }
    assert merged in out;
  }

  /** The byte after a node is not received. */
  lemma NotFollowed(nodes: set<Interval>, i: Interval)
    requires Canonical(nodes) && i in nodes
    ensures !Covers(nodes, i.hi)
  {
    forall j | j in nodes
      ensures !Contains(j, i.hi)
    {
      assert Contains(j, i.hi) ==> Touches(i, j);
    }
  }

  /** The test for a fully received message of n bytes. */
  predicate EqualRange(nodes: set<Interval>, n: nat) { nodes == {Interval(0, n)} }

  /** Exactly one node spanning the message means that every byte was received, and conversely. */
  lemma EqualRangeIff(nodes: set<Interval>, n: nat)
    requires Canonical(nodes) && n > 0 && Within(nodes, n)
    ensures EqualRange(nodes, n) <==> forall x: nat :: x < n ==> Covers(nodes, x)
  {
    if EqualRange(nodes, n) {
      forall x: nat | x < n
        ensures Covers(nodes, x)
      {
        assert Interval(0, n) in nodes && Contains(Interval(0, n), x);
      }
    }
    if forall x: nat :: x < n ==> Covers(nodes, x) {
      assert Covers(nodes, 0);
      var i :| i in nodes && Contains(i, 0);
      assert i.hi < n ==> Covers(nodes, i.hi);
      NotFollowed(nodes, i);
      assert i == Interval(0, n);
      forall k | k in nodes
        ensures k == i
      {
        assert k != i ==> Touches(k, i);
      }
      assert nodes == {i};
    }
  }
}
