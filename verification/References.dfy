/**
 * The reference counts as the C library keeps them (Source/OpenNI/XnOpenNI.cpp): a node has references to
 * the nodes that it needs and to its context, and gives them up when it is destroyed.
 */
module References {

  datatype Handle = Nothing | Node(node: nat) | Context(context: nat)

  datatype Links = Links(needs: seq<nat>, parent: nat)

  datatype Books = Books(refs: map<Handle, nat>, nodes: map<nat, Links>)

  function Needed(l: Links): seq<Handle> {
    seq(|l.needs|, i requires 0 <= i < |l.needs| => Node(l.needs[i]))
  }

  /** What a node has references to, in the order in which it gives them up. */
  function Targets(l: Links): seq<Handle> {
    Needed(l) + [Context(l.parent)]
  }

  lemma LastTarget(l: Links)
    ensures Targets(l)[|l.needs|] == Context(l.parent) && Targets(l)[..|l.needs| + 1] == Targets(l)
  {
  }

  /** The references that nodes have to something: the node and the place among its targets. */
  function Uses(nodes: map<nat, Links>, h: Handle): set<(nat, nat)> {
    set n, i | n in nodes && 0 <= i < |Targets(nodes[n])| && Targets(nodes[n])[i] == h :: (n, i)
  }

  /** The references to something that are not a node's. */
  function Extra(b: Books, h: Handle): int {
    if h in b.refs then b.refs[h] - |Uses(b.nodes, h)| else 0
  }

  /** What a node refers to exists; what it needs is older than it and of the same context. */
  ghost predicate Linked(refs: map<Handle, nat>, nodes: map<nat, Links>, n: nat)
    requires n in nodes
  {
    forall h {:trigger h in refs} :: h in Targets(nodes[n]) ==>
      h in refs && (h.Node? ==> h.node in nodes && h.node < n && nodes[h.node].parent == nodes[n].parent)
  }

  /** Nodes and counts agree, and every count is positive and covers what nodes refer to. */
  ghost predicate Kept(b: Books) {
    && Nothing !in b.refs
    && (forall n :: n in b.nodes <==> Node(n) in b.refs)
    && (forall n {:trigger Linked(b.refs, b.nodes, n)} :: n in b.nodes ==> Linked(b.refs, b.nodes, n))
    && (forall h {:trigger Extra(b, h)} :: h in b.refs ==> b.refs[h] > 0 && Extra(b, h) >= 0)
  }

  type Ledger = b: Books | Kept(b) witness Books(map[], map[])

  /** References that somebody is about to give up. */
  ghost predicate Owes(b: Books, owed: multiset<Handle>) {
    forall h {:trigger Extra(b, h)} :: owed[h] <= Extra(b, h)
  }

  /** Nodes go, but those that stay keep their links. */
  predicate Part(rest: map<nat, Links>, nodes: map<nat, Links>) {
    forall n :: n in rest ==> n in nodes && rest[n] == nodes[n]
  }

  // ---------- counting uses ----------

  function Places(n: nat, hs: seq<Handle>, h: Handle): set<(nat, nat)> {
    set i | 0 <= i < |hs| && hs[i] == h :: (n, i)
  }

  lemma PlacesMore(n: nat, hs: seq<Handle>, last: Handle, h: Handle)
    ensures Places(n, hs + [last], h) == Places(n, hs, h) + if last == h then {(n, |hs|)} else {}
    ensures (n, |hs|) !in Places(n, hs, h)
  {
    forall i | 0 <= i < |hs|
      ensures (hs + [last])[i] == hs[i]
    {
    }
  }

  lemma {:induction false} PlacesCount(n: nat, hs: seq<Handle>, h: Handle)
    ensures |Places(n, hs, h)| == multiset(hs)[h]
  {
    if hs == [] {
    } else {
      var before, last := hs[..|hs| - 1], hs[|hs| - 1];
      PlacesCount(n, before, h);
      PlacesMore(n, before, last, h);
      assert hs == before + [last];
    }
  }

  lemma UsesSplit(nodes: map<nat, Links>, n: nat, l: Links, h: Handle)
    requires n !in nodes
    ensures Uses(nodes[n := l], h) == Uses(nodes, h) + Places(n, Targets(l), h)
  {
  }

  lemma UsesWith(nodes: map<nat, Links>, n: nat, l: Links, h: Handle)
    requires n !in nodes
    ensures |Uses(nodes[n := l], h)| == |Uses(nodes, h)| + multiset(Targets(l))[h]
  {
    UsesSplit(nodes, n, l, h);
    PlacesCount(n, Targets(l), h);
  }

  lemma UsesWithout(nodes: map<nat, Links>, n: nat, h: Handle)
    requires n in nodes
    ensures |Uses(nodes, h)| == |Uses(nodes - {n}, h)| + multiset(Targets(nodes[n]))[h]
  {
    UsesWith(nodes - {n}, n, nodes[n], h);
    assert (nodes - {n})[n := nodes[n]] == nodes;
  }

  lemma NoUses(nodes: map<nat, Links>, n: nat, h: Handle)
    requires n in nodes && Uses(nodes, h) == {}
    ensures h !in Targets(nodes[n])
  {
    forall i | 0 <= i < |Targets(nodes[n])|
      ensures Targets(nodes[n])[i] != h
    {
      assert (n, i) !in Uses(nodes, h);
    }
  }

  // ---------- one reference less ----------

  function Lowered(b: Books, h: Handle): Books
    requires h in b.refs && b.refs[h] > 1
  {
    b.(refs := b.refs[h := b.refs[h] - 1])
  }

  function WithoutContext(b: Books, c: nat): Books {
    b.(refs := b.refs - {Context(c)})
  }

  function WithoutNode(b: Books, n: nat): Books {
    Books(b.refs - {Node(n)}, b.nodes - {n})
  }

  lemma LoweredIsKept(b: Ledger, h: Handle)
    requires h in b.refs && b.refs[h] > 1 && Extra(b, h) >= 1
    ensures Kept(Lowered(b, h))
    ensures forall x {:trigger Extra(Lowered(b, h), x)} ::
              Extra(Lowered(b, h), x) == Extra(b, x) - if x == h then 1 else 0
  {
    forall x
      ensures Extra(Lowered(b, h), x) == Extra(b, x) - if x == h then 1 else 0
      ensures x in b.refs ==> Lowered(b, h).refs[x] > 0
    {
      assert Extra(b, x) >= 0;
    }
    forall n | n in b.nodes
      ensures Linked(Lowered(b, h).refs, b.nodes, n)
    {
      assert Linked(b.refs, b.nodes, n);
    }
  }

  /** A context that no node refers to may go. */
  lemma WithoutContextIsKept(b: Ledger, c: nat)
    requires Context(c) in b.refs && Uses(b.nodes, Context(c)) == {}
    ensures Kept(WithoutContext(b, c))
    ensures forall h :: h != Context(c) ==> Extra(WithoutContext(b, c), h) == Extra(b, h)
  {
    var t := WithoutContext(b, c);
    forall n | n in b.nodes
      ensures Linked(t.refs, t.nodes, n)
    {
      NoUses(b.nodes, n, Context(c));
      assert Linked(b.refs, b.nodes, n);
    }
    forall h | h != Context(c)
      ensures Extra(t, h) == Extra(b, h) && (h in t.refs ==> t.refs[h] > 0)
    {
      assert Extra(b, h) >= 0;
    }
  }

  lemma WithoutNodeLinked(b: Ledger, n: nat, m: nat)
    requires n in b.nodes && Uses(b.nodes, Node(n)) == {} && m in b.nodes && m != n
    ensures Linked(WithoutNode(b, n).refs, WithoutNode(b, n).nodes, m)
  {
    NoUses(b.nodes, m, Node(n));
    assert Linked(b.refs, b.nodes, m);
  }

  lemma WithoutNodeExtra(b: Ledger, n: nat, h: Handle)
    requires n in b.nodes && h != Node(n)
    ensures Extra(WithoutNode(b, n), h) == Extra(b, h) + multiset(Targets(b.nodes[n]))[h]
  {
    UsesWithout(b.nodes, n, h);
    assert Linked(b.refs, b.nodes, n);
    assert h !in b.refs ==> h !in Targets(b.nodes[n]);
  }

  /** A node that no node refers to may go; it then owes its references. */
  lemma WithoutNodeIsKept(b: Ledger, n: nat)
    requires n in b.nodes && Uses(b.nodes, Node(n)) == {}
    ensures Kept(WithoutNode(b, n))
    ensures forall h {:trigger Extra(WithoutNode(b, n), h)} :: h != Node(n) ==>
              Extra(WithoutNode(b, n), h) == Extra(b, h) + multiset(Targets(b.nodes[n]))[h]
  {
    var t := WithoutNode(b, n);
    forall m | m in t.nodes
      ensures Linked(t.refs, t.nodes, m)
    {
      WithoutNodeLinked(b, n, m);
    }
    forall h {:trigger Extra(t, h)} | h != Node(n)
      ensures Extra(t, h) == Extra(b, h) + multiset(Targets(b.nodes[n]))[h]
    {
      WithoutNodeExtra(b, n, h);
    }
    forall h | h in t.refs
      ensures t.refs[h] > 0 && Extra(t, h) >= 0
    {
      assert Extra(b, h) >= 0;
    }
  }

  lemma ParentExists(b: Ledger, n: nat)
    requires n in b.nodes
    ensures Context(b.nodes[n].parent) in b.refs
  {
    var hs := Targets(b.nodes[n]);
    assert Linked(b.refs, b.nodes, n);
    assert hs[|hs| - 1] == Context(b.nodes[n].parent);
    assert Context(b.nodes[n].parent) in b.refs;
  }

  // ---------- giving up references ----------

  /** Of several owed references, all but the last are owed, and the last still is when they are given up. */
  lemma LastIsOwed(b: Books, hs: seq<Handle>)
    requires hs != [] && Owes(b, multiset(hs))
    ensures var before, last := hs[..|hs| - 1], hs[|hs| - 1];
            && Owes(b, multiset(before))
            && Extra(b, last) - multiset(before)[last] >= 1
            && multiset(hs) == multiset(before) + multiset{last}
  {
    var before, last := hs[..|hs| - 1], hs[|hs| - 1];
    assert hs == before + [last];
    assert multiset(hs)[last] <= Extra(b, last);
    forall x {:trigger Extra(b, x)}
      ensures multiset(before)[x] <= Extra(b, x)
    {
      assert multiset(hs)[x] <= Extra(b, x);
    }
  }

  lemma TargetsAreOwed(b: Ledger, n: nat)
    requires n in b.nodes && Uses(b.nodes, Node(n)) == {}
    ensures Owes(WithoutNode(b, n), multiset(Targets(b.nodes[n])))
  {
    WithoutNodeIsKept(b, n);
    forall x {:trigger Extra(WithoutNode(b, n), x)}
      ensures multiset(Targets(b.nodes[n]))[x] <= Extra(WithoutNode(b, n), x)
    {
      assert Linked(b.refs, b.nodes, n);
      assert Extra(b, x) >= 0;
      assert Node(n) in b.refs;
    }
  }

  /**
   * Gives up a reference that is not a node's. What loses its last reference is destroyed; a node then gives
   * up its references one by one, and its context at last.
   */
  function Drop(b: Ledger, h: Handle): (t: Ledger)
    requires Extra(b, h) >= 1
    ensures forall x {:trigger Extra(t, x)} :: Extra(t, x) == Extra(b, x) - if x == h then 1 else 0
    ensures Part(t.nodes, b.nodes) && |t.nodes| <= |b.nodes|
    decreases |b.nodes|, 1
  {
    if b.refs[h] > 1 then
      LoweredIsKept(b, h);
      Lowered(b, h)
    else
      match h
      case Context(c) =>
        WithoutContextIsKept(b, c);
        WithoutContext(b, c)
      case Node(n) => Gone(b, n)
  }

  /** A node that no other needs is destroyed, and gives up its references. */
  function Gone(b: Ledger, n: nat): (t: Ledger)
    requires n in b.nodes && Uses(b.nodes, Node(n)) == {}
    ensures Extra(t, Node(n)) == 0
    ensures forall x {:trigger Extra(t, x)} :: x != Node(n) ==> Extra(t, x) == Extra(b, x)
    ensures Part(t.nodes, b.nodes) && |t.nodes| < |b.nodes| && n !in t.nodes
    decreases |b.nodes|, 0
  {
    WithoutNodeIsKept(b, n);
    TargetsAreOwed(b, n);
    var t := DropAll(WithoutNode(b, n), Targets(b.nodes[n]));
    GoneKeeps(b, n, t);
    t
  }

  lemma GoneKeeps(b: Ledger, n: nat, t: Books)
    requires n in b.nodes && Uses(b.nodes, Node(n)) == {}
    requires forall x {:trigger Extra(t, x)} ::
             Extra(t, x) == Extra(WithoutNode(b, n), x) - multiset(Targets(b.nodes[n]))[x]
    ensures Extra(t, Node(n)) == 0
    ensures forall x {:trigger Extra(t, x)} :: x != Node(n) ==> Extra(t, x) == Extra(b, x)
  {
    NoUses(b.nodes, n, Node(n));
    forall x {:trigger Extra(t, x)} | x != Node(n)
      ensures Extra(t, x) == Extra(b, x)
    {
      WithoutNodeExtra(b, n, x);
    }
  }

  function DropAll(b: Ledger, hs: seq<Handle>): (t: Ledger)
    requires Owes(b, multiset(hs))
    ensures forall x {:trigger Extra(t, x)} :: Extra(t, x) == Extra(b, x) - multiset(hs)[x]
    ensures Part(t.nodes, b.nodes) && |t.nodes| <= |b.nodes|
    decreases |b.nodes|, |hs| + 2
  {
    if hs == [] then b else
      LastIsOwed(b, hs);
      Drop(DropAll(b, hs[..|hs| - 1]), hs[|hs| - 1])
  }

  /** After the first i references have been given up, the next one can be. */
  lemma OwedAtFirst(b: Ledger, hs: seq<Handle>, i: nat)
    requires i < |hs| && Owes(b, multiset(hs))
    ensures Owes(b, multiset(hs[..i])) && Owes(b, multiset(hs[..i + 1]))
    ensures Extra(DropAll(b, hs[..i]), hs[i]) >= 1 && DropAll(b, hs[..i + 1]) == Drop(DropAll(b, hs[..i]), hs[i])
  {
    assert hs == hs[..i + 1] + hs[i + 1..];
    forall x {:trigger Extra(b, x)}
      ensures multiset(hs[..i + 1])[x] <= Extra(b, x)
    {
      assert multiset(hs)[x] <= Extra(b, x);
    }
    LastIsOwed(b, hs[..i + 1]);
    assert hs[..i + 1][..i] == hs[..i];
  }

  /** Whatever goes belongs to one context: the thing itself, or the context of the thing. */
  predicate Belongs(nodes: map<nat, Links>, h: Handle, c: nat) {
    match h
    case Nothing => false
    case Node(n) => n in nodes && nodes[n].parent == c
    case Context(d) => d == c
  }

  ghost predicate LosesOnly(b: Books, t: Books, c: nat) {
    forall n :: n in b.nodes && n !in t.nodes ==> b.nodes[n].parent == c
  }

  lemma {:induction false} DropLosesOnly(b: Ledger, h: Handle, c: nat)
    requires Extra(b, h) >= 1 && Belongs(b.nodes, h, c)
    ensures LosesOnly(b, Drop(b, h), c)
    decreases |b.nodes|, 1
  {
    if b.refs[h] == 1 && h.Node? {
      GoneLosesOnly(b, h.node, c);
    }
  }

  lemma {:induction false} GoneLosesOnly(b: Ledger, n: nat, c: nat)
    requires n in b.nodes && Uses(b.nodes, Node(n)) == {} && b.nodes[n].parent == c
    ensures LosesOnly(b, Gone(b, n), c)
    decreases |b.nodes|, 0
  {
    WithoutNodeIsKept(b, n);
    TargetsAreOwed(b, n);
    TargetsBelong(b, n);
    DropAllLosesOnly(WithoutNode(b, n), Targets(b.nodes[n]), c);
    LosesOnlyBoth(b, WithoutNode(b, n), Gone(b, n), c);
  }

  lemma TargetsBelong(b: Ledger, n: nat)
    requires n in b.nodes
    ensures forall h :: h in Targets(b.nodes[n]) ==> Belongs(b.nodes - {n}, h, b.nodes[n].parent)
  {
    assert Linked(b.refs, b.nodes, n);
    forall h | h in Targets(b.nodes[n])
      ensures Belongs(b.nodes - {n}, h, b.nodes[n].parent)
    {
      assert h in b.refs;
    }
  }

  lemma {:induction false} DropAllLosesOnly(b: Ledger, hs: seq<Handle>, c: nat)
    requires Owes(b, multiset(hs)) && forall h :: h in hs ==> Belongs(b.nodes, h, c)
    ensures LosesOnly(b, DropAll(b, hs), c)
    decreases |b.nodes|, |hs| + 2
  {
    if hs == [] {
    } else {
      var before, last := hs[..|hs| - 1], hs[|hs| - 1];
      LastIsOwed(b, hs);
      DropAllLosesOnly(b, before, c);
      var t := DropAll(b, before);
      StillBelongs(b, t, last, c);
      DropLosesOnly(t, last, c);
      LosesOnlyBoth(b, t, Drop(t, last), c);
    }
  }

  lemma LosesOnlyBoth(b: Books, t: Books, u: Books, c: nat)
    requires LosesOnly(b, t, c) && LosesOnly(t, u, c) && Part(t.nodes, b.nodes)
    ensures LosesOnly(b, u, c)
  {
  }

  /** What is owed still exists. */
  lemma StillBelongs(b: Ledger, t: Ledger, h: Handle, c: nat)
    requires Extra(t, h) >= 1 && Part(t.nodes, b.nodes) && Belongs(b.nodes, h, c)
    ensures Belongs(t.nodes, h, c)
  {
  }

  // ---------- new references ----------

  function Raised(b: Books, h: Handle): Books
    requires h in b.refs
  {
    b.(refs := b.refs[h := b.refs[h] + 1])
  }

  lemma RaisedIsKept(b: Ledger, h: Handle)
    requires h in b.refs
    ensures Kept(Raised(b, h))
    ensures forall x {:trigger Extra(Raised(b, h), x)} ::
              Extra(Raised(b, h), x) == Extra(b, x) + if x == h then 1 else 0
  {
    forall x
      ensures Extra(Raised(b, h), x) == Extra(b, x) + if x == h then 1 else 0
      ensures x in b.refs ==> Raised(b, h).refs[x] > 0
    {
      assert Extra(b, x) >= 0;
    }
    forall n | n in b.nodes
      ensures Linked(Raised(b, h).refs, b.nodes, n)
    {
      assert Linked(b.refs, b.nodes, n);
    }
  }

  function WithContext(b: Books, c: nat): Books {
    b.(refs := b.refs[Context(c) := 1])
  }

  lemma UnusedIfMissing(b: Ledger, h: Handle)
    requires h !in b.refs
    ensures Uses(b.nodes, h) == {}
  {
    forall n, i | n in b.nodes && 0 <= i < |Targets(b.nodes[n])|
      ensures Targets(b.nodes[n])[i] != h
    {
      assert Linked(b.refs, b.nodes, n);
      assert Targets(b.nodes[n])[i] in b.refs;
    }
  }

  lemma WithContextIsKept(b: Ledger, c: nat)
    requires Context(c) !in b.refs
    ensures Kept(WithContext(b, c))
    ensures forall x {:trigger Extra(WithContext(b, c), x)} ::
              Extra(WithContext(b, c), x) == Extra(b, x) + if x == Context(c) then 1 else 0
  {
    UnusedIfMissing(b, Context(c));
    forall x
      ensures Extra(WithContext(b, c), x) == Extra(b, x) + if x == Context(c) then 1 else 0
      ensures x in b.refs ==> WithContext(b, c).refs[x] > 0
    {
      assert Extra(b, x) >= 0;
    }
    forall n | n in b.nodes
      ensures Linked(WithContext(b, c).refs, b.nodes, n)
    {
      assert Linked(b.refs, b.nodes, n);
    }
  }

  /** The nodes that a new node needs exist, are older, and are of its context. */
  predicate CanLink(b: Books, n: nat, l: Links) {
    && Node(n) !in b.refs && Context(l.parent) in b.refs
    && forall i :: 0 <= i < |l.needs| ==>
         l.needs[i] in b.nodes && l.needs[i] < n && b.nodes[l.needs[i]].parent == l.parent
  }

  /** A new node takes over references to what it needs, and takes one to its context. */
  function WithNode(b: Books, n: nat, l: Links): Books
    requires CanLink(b, n, l)
  {
    Books(b.refs[Context(l.parent) := b.refs[Context(l.parent)] + 1][Node(n) := 1], b.nodes[n := l])
  }

  lemma WithNodeLinked(b: Ledger, n: nat, l: Links, m: nat)
    requires CanLink(b, n, l) && m in WithNode(b, n, l).nodes
    ensures Linked(WithNode(b, n, l).refs, WithNode(b, n, l).nodes, m)
  {
    if m != n {
      assert Linked(b.refs, b.nodes, m);
      UnusedIfMissing(b, Node(n));
      NoUses(b.nodes, m, Node(n));
    }
  }

  lemma WithNodeExtra(b: Ledger, n: nat, l: Links, x: Handle)
    requires CanLink(b, n, l)
    ensures Extra(WithNode(b, n, l), x) == Extra(b, x) - multiset(Needed(l))[x] + if x == Node(n) then 1 else 0
  {
    UsesWith(b.nodes, n, l, x);
    UnusedIfMissing(b, Node(n));
    assert multiset(Targets(l)) == multiset(Needed(l)) + multiset{Context(l.parent)};
    if x !in WithNode(b, n, l).refs || x == Node(n) {
      assert x !in Needed(l);
    }
  }

  lemma WithNodeIsKept(b: Ledger, n: nat, l: Links)
    requires CanLink(b, n, l) && Owes(b, multiset(Needed(l)))
    ensures Kept(WithNode(b, n, l))
    ensures forall x {:trigger Extra(WithNode(b, n, l), x)} ::
              Extra(WithNode(b, n, l), x) == Extra(b, x) - multiset(Needed(l))[x] + if x == Node(n) then 1 else 0
  {
    var t := WithNode(b, n, l);
    forall m | m in t.nodes
      ensures Linked(t.refs, t.nodes, m)
    {
      WithNodeLinked(b, n, l, m);
    }
    forall x {:trigger Extra(t, x)}
      ensures Extra(t, x) == Extra(b, x) - multiset(Needed(l))[x] + if x == Node(n) then 1 else 0
    {
      WithNodeExtra(b, n, l, x);
      assert multiset(Needed(l))[x] <= Extra(b, x);
    }
    forall x | x in t.refs
      ensures t.refs[x] > 0
    {
      assert Extra(b, x) >= 0;
    }
  }
}
