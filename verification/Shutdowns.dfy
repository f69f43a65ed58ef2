/** What a forced shutdown does to the counts (xnContextDestroy, Source/OpenNI/XnOpenNI.cpp:445-487). */
module Shutdowns {
  import opened References

  /** The nodes of a context. */
  function Children(nodes: map<nat, Links>, c: nat): set<nat> {
    set n | n in nodes && nodes[n].parent == c
  }

  /** A node refers to its context once. */
  lemma ContextUsedOnce(l: Links, c: nat)
    ensures multiset(Targets(l))[Context(c)] == if l.parent == c then 1 else 0
  {
    assert Context(c) !in Needed(l);
  }

  lemma {:induction false} UsesAreChildren(nodes: map<nat, Links>, c: nat)
    ensures |Uses(nodes, Context(c))| == |Children(nodes, c)|
    decreases |nodes|
  {
    if nodes == map[] {
      assert Uses(nodes, Context(c)) == {} && Children(nodes, c) == {};
    } else {
      var n :| n in nodes;
      UsesWithout(nodes, n, Context(c));
      ContextUsedOnce(nodes[n], c);
      UsesAreChildren(nodes - {n}, c);
      var rest := Children(nodes - {n}, c);
      assert Children(nodes, c) == if nodes[n].parent == c then rest + {n} else rest;
    }
  }

  /** No other node needs it. */
  predicate Unneeded(b: Books, c: nat, n: nat) {
    n in b.nodes && b.nodes[n].parent == c && Uses(b.nodes, Node(n)) == {}
  }

  /** As long as a context has nodes, there is one that no other needs: the inner loop finds it. */
  lemma SomeUnneeded(b: Ledger, c: nat) returns (n: nat)
    requires Children(b.nodes, c) != {}
    ensures Unneeded(b, c, n)
  {
    n := Newest(Children(b.nodes, c));
    forall m, i | m in b.nodes && 0 <= i < |Targets(b.nodes[m])|
      ensures Targets(b.nodes[m])[i] != Node(n)
    {
      assert Linked(b.refs, b.nodes, m);
      assert Targets(b.nodes[m])[i] in b.refs;
      assert m in Children(b.nodes, c) <==> b.nodes[m].parent == c;
    }
  }

  lemma {:induction false} Newest(ns: set<nat>) returns (n: nat)
    requires ns != {}
    ensures n in ns && forall m :: m in ns ==> m <= n
  {
    n :| n in ns;
    if ns != {n} {
      var first := n;
      n := Newest(ns - {first});
      n := if first > n then first else n;
      assert forall m :: m in ns ==> m == first || m in ns - {first};
    }
  }

  /** The choices that the loop may make; it looks at the context before each. */
  ghost predicate Forcible(b: Ledger, c: nat, picks: seq<nat>)
    decreases |picks|, 0
  {
    picks != [] ==>
      var before, n := picks[..|picks| - 1], picks[|picks| - 1];
      && Forcible(b, c, before)
      && Context(c) in Destroyed(b, c, before).refs && Unneeded(Destroyed(b, c, before), c, n)
  }

  ghost function Destroyed(b: Ledger, c: nat, picks: seq<nat>): (t: Ledger)
    requires Forcible(b, c, picks)
    decreases |picks|, 1
  {
    if picks == [] then b else Gone(Destroyed(b, c, picks[..|picks| - 1]), picks[|picks| - 1])
  }

  lemma OneMorePick(b: Ledger, c: nat, picks: seq<nat>, n: nat)
    requires Forcible(b, c, picks) && Context(c) in Destroyed(b, c, picks).refs
             && Unneeded(Destroyed(b, c, picks), c, n)
    ensures Forcible(b, c, picks + [n]) && Destroyed(b, c, picks + [n]) == Gone(Destroyed(b, c, picks), n)
  {
    assert (picks + [n])[..|picks|] == picks;
  }

  lemma NeededIsUsed(nodes: map<nat, Links>, n: nat)
    ensures Uses(nodes, Node(n)) != {} <==> exists m :: m in nodes && n in nodes[m].needs
  {
    if use :| use in Uses(nodes, Node(n)) {
      assert n in nodes[use.0].needs;
    }
    if m :| m in nodes && n in nodes[m].needs {
      var i :| 0 <= i < |nodes[m].needs| && nodes[m].needs[i] == n;
      assert Needed(nodes[m])[i] == Node(n);
      assert (m, i) in Uses(nodes, Node(n));
    }
  }

  /** The loop never touches the references to the context that are not those of its nodes. */
  lemma {:induction false} DestroyedKeeps(b: Ledger, c: nat, picks: seq<nat>)
    requires Forcible(b, c, picks)
    ensures var t := Destroyed(b, c, picks); Part(t.nodes, b.nodes) && LosesOnly(b, t, c)
    ensures forall x: Handle :: !(x.Node? && Belongs(b.nodes, x, c)) ==> Extra(Destroyed(b, c, picks), x) == Extra(b, x)
    decreases |picks|
  {
    if picks == [] {
    } else {
      var before, n := picks[..|picks| - 1], picks[|picks| - 1];
      var d := Destroyed(b, c, before);
      DestroyedKeeps(b, c, before);
      GoneLosesOnly(d, n, c);
      LosesOnlyBoth(b, d, Gone(d, n), c);
    }
  }

  /** While the loop goes on, the context exists: its nodes refer to it. */
  lemma ContextMeanwhile(b: Ledger, c: nat, picks: seq<nat>)
    requires Forcible(b, c, picks) && Children(Destroyed(b, c, picks).nodes, c) != {}
    ensures Context(c) in Destroyed(b, c, picks).refs
  {
    var n :| n in Children(Destroyed(b, c, picks).nodes, c);
    ParentExists(Destroyed(b, c, picks), n);
  }

  /**
   * When the loop has destroyed all nodes, the context still exists, to raise its shutdown event, if and only
   * if it had more references than nodes at the start.
   */
  lemma ContextSurvives(b: Ledger, c: nat, picks: seq<nat>)
    requires Context(c) in b.refs && Forcible(b, c, picks) && Children(Destroyed(b, c, picks).nodes, c) == {}
    ensures Context(c) in Destroyed(b, c, picks).refs <==> b.refs[Context(c)] > |Children(b.nodes, c)|
  {
    var t := Destroyed(b, c, picks);
    DestroyedKeeps(b, c, picks);
    UsesAreChildren(b.nodes, c);
    UsesAreChildren(t.nodes, c);
    assert Extra(t, Context(c)) == Extra(b, Context(c));
  }

  // ---------- what is left ----------

  function NodesElsewhere(nodes: map<nat, Links>, c: nat): map<nat, Links> {
    map n | n in nodes && nodes[n].parent != c :: nodes[n]
  }

  /** The books without a context and its nodes. */
  function Elsewhere(b: Books, c: nat): Books {
    Books(map h | h in b.refs && !Belongs(b.nodes, h, c) :: b.refs[h], NodesElsewhere(b.nodes, c))
  }

  lemma UsesElsewhere(b: Ledger, c: nat, x: Handle)
    requires !Belongs(b.nodes, x, c)
    ensures Uses(NodesElsewhere(b.nodes, c), x) == Uses(b.nodes, x)
  {
    forall n, i | n in b.nodes && b.nodes[n].parent == c && 0 <= i < |Targets(b.nodes[n])|
      ensures Targets(b.nodes[n])[i] != x
    {
      TargetsBelong(b, n);
      assert Targets(b.nodes[n])[i] in Targets(b.nodes[n]);
    }
  }

  lemma RestIsElsewhere(b: Books, t: Books, c: nat)
    requires Part(t.nodes, b.nodes) && LosesOnly(b, t, c) && Children(t.nodes, c) == {}
    ensures t.nodes == NodesElsewhere(b.nodes, c)
  {
    forall n | n in t.nodes
      ensures n in b.nodes && t.nodes[n] == b.nodes[n] && t.nodes[n].parent != c
    {
      assert n !in Children(t.nodes, c);
    }
  }

  lemma SameCount(b: Ledger, t: Ledger, c: nat, x: Handle)
    requires t.nodes == NodesElsewhere(b.nodes, c) && !Belongs(b.nodes, x, c) && Extra(t, x) == Extra(b, x)
    ensures x in t.refs <==> x in b.refs
    ensures x in t.refs ==> t.refs[x] == b.refs[x]
  {
    UsesElsewhere(b, c, x);
    if x !in t.refs {
      UnusedIfMissing(t, x);
    }
    if x !in b.refs {
      UnusedIfMissing(b, x);
    }
  }

  lemma BooksElsewhere(b: Books, t: Books, c: nat)
    requires t.nodes == NodesElsewhere(b.nodes, c)
    requires forall n :: n in t.nodes <==> Node(n) in t.refs
    requires forall n :: n in b.nodes <==> Node(n) in b.refs
    requires forall x :: !Belongs(b.nodes, x, c) ==>
             (x in t.refs <==> x in b.refs) && (x in t.refs ==> t.refs[x] == b.refs[x])
    ensures WithoutContext(t, c) == Elsewhere(b, c)
  {
    forall x
      ensures x in WithoutContext(t, c).refs <==> x in b.refs && !Belongs(b.nodes, x, c)
    {
      if x.Node? && Belongs(b.nodes, x, c) {
        assert x.node !in t.nodes;
      }
    }
  }

  /**
   * Whatever the loop chooses, in the end the context and its nodes are gone, and the counts of everything
   * else are what they were.
   */
  lemma DestroyedIsElsewhere(b: Ledger, c: nat, picks: seq<nat>)
    requires Forcible(b, c, picks) && Children(Destroyed(b, c, picks).nodes, c) == {}
    ensures WithoutContext(Destroyed(b, c, picks), c) == Elsewhere(b, c)
  {
    var t := Destroyed(b, c, picks);
    DestroyedKeeps(b, c, picks);
    RestIsElsewhere(b, t, c);
    forall x | !Belongs(b.nodes, x, c)
      ensures (x in t.refs <==> x in b.refs) && (x in t.refs ==> t.refs[x] == b.refs[x])
    {
      SameCount(b, t, c, x);
    }
    BooksElsewhere(b, t, c);
  }

  lemma ElsewhereLinked(b: Ledger, c: nat, n: nat)
    requires n in NodesElsewhere(b.nodes, c)
    ensures Linked(Elsewhere(b, c).refs, Elsewhere(b, c).nodes, n)
  {
    TargetsBelong(b, n);
    assert Linked(b.refs, b.nodes, n);
  }

  lemma ElsewhereIsKept(b: Ledger, c: nat)
    ensures Kept(Elsewhere(b, c))
    ensures forall x {:trigger Extra(Elsewhere(b, c), x)} ::
              Extra(Elsewhere(b, c), x) == if Belongs(b.nodes, x, c) then 0 else Extra(b, x)
  {
    forall n | n in NodesElsewhere(b.nodes, c)
      ensures Linked(Elsewhere(b, c).refs, Elsewhere(b, c).nodes, n)
    {
      ElsewhereLinked(b, c, n);
    }
    forall x {:trigger Extra(Elsewhere(b, c), x)}
      ensures Extra(Elsewhere(b, c), x) == if Belongs(b.nodes, x, c) then 0 else Extra(b, x)
    {
      if !Belongs(b.nodes, x, c) {
        UsesElsewhere(b, c, x);
      }
    }
    forall x | x in Elsewhere(b, c).refs
      ensures Elsewhere(b, c).refs[x] > 0
    {
      assert Extra(b, x) >= 0;
    }
  }
}
