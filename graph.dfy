/** The values the node editor keeps in its two lists: nodes, their connection
    points and the connections between them, together with the list operations
    the editor applies to them (List<T>.Remove and the cascade filter). */
module Graph {

  datatype Option<T> = None | Some(value: T)

  /** A screen position (the host's Vector2). */
  datatype Vec2 = Vec2(x: real, y: real)

  /** Object identity of a node, as handed out when the node is allocated. */
  type NodeId = nat

  datatype Side = In | Out

  /** The two node variants the context menu can create (NodeInput, NodeOutput). */
  datatype NodeKind = Input | Output

  /** A connection point: the node it belongs to, its side and its slot in
      that node's inPoint / outPoint collection. */
  datatype Point = Point(owner: NodeId, side: Side, index: nat)

  /** A node: its identity, its variant and the position it was created at.
      Dragging moves the node's rectangle, which belongs to the Node class
      itself and is not part of this model. */
  datatype Node = Node(id: NodeId, kind: NodeKind, origin: Vec2)
  {
    /** node.inPoint[0] */
    function FirstInPoint(): Point { Point(id, In, 0) }

    /** node.outPoint[0] */
    function FirstOutPoint(): Point { Point(id, Out, 0) }
  }

  /** A connection from an in-point to an out-point; `id` is its object identity. */
  datatype Connection = Connection(id: nat, inPoint: Point, outPoint: Point)

  /** The contents of a list field that may still be null. */
  function Items<T>(list: Option<seq<T>>): (r: seq<T>)
  {
    if list.Some? then list.value else []
  }

  /** No object occurs twice in the list. */
  ghost predicate Distinct<T>(s: seq<T>)
  {
    s == [] || (s[0] !in s[1..] && Distinct(s[1..]))
  }

  /** Appending an element that is not there yet keeps a list duplicate-free. */
  lemma {:induction false} DistinctAppend<T>(s: seq<T>, x: T)
    requires Distinct(s) && x !in s
    ensures Distinct(s + [x])
  {
    if s != [] {
      DistinctAppend(s[1..], x);
      assert (s + [x])[1..] == s[1..] + [x];
    } else {
      assert [] + [x] == [x];
    }
  }

  /** An identity names at most one node of the list. */
  ghost predicate UniqueNodeIds(ns: seq<Node>)
  {
    forall m, n | m in ns && n in ns && m.id == n.id :: m == n
  }

  /** An identity names at most one connection of the list. */
  ghost predicate UniqueConnectionIds(cs: seq<Connection>)
  {
    forall c, d | c in cs && d in cs && c.id == d.id :: c == d
  }

  /** Every node in the list is a different object with an identity of its
      own, allocated before `bound`. */
  ghost predicate FreshNodes(ns: seq<Node>, bound: nat)
  {
    Distinct(ns) && UniqueNodeIds(ns) && forall n | n in ns :: n.id < bound
  }

  /** Every connection in the list is a different object with an identity of
      its own, allocated before `bound`. */
  ghost predicate FreshConnections(cs: seq<Connection>, bound: nat)
  {
    Distinct(cs) && UniqueConnectionIds(cs) && forall c | c in cs :: c.id < bound
  }

  /** No connection joins two points of the same node. */
  ghost predicate NoSelfLoop(cs: seq<Connection>)
  {
    forall c | c in cs :: c.inPoint.owner != c.outPoint.owner
  }

  /** Appending a node with the next identity keeps the node list fresh. */
  lemma AppendFreshNode(ns: seq<Node>, n: Node, bound: nat)
    requires FreshNodes(ns, bound) && n.id == bound
    ensures FreshNodes(ns + [n], bound + 1) && n !in ns
  {
    DistinctAppend(ns, n);
  }

  /** Appending a connection with the next identity between points of two
      different nodes keeps the connection list fresh and free of self-loops. */
  lemma AppendFreshConnection(cs: seq<Connection>, c: Connection, bound: nat)
    requires FreshConnections(cs, bound) && c.id == bound
    ensures FreshConnections(cs + [c], bound + 1) && c !in cs
    ensures NoSelfLoop(cs) && c.inPoint.owner != c.outPoint.owner ==> NoSelfLoop(cs + [c])
  {
    DistinctAppend(cs, c);
  }

  // ---------------------------------------------------------------------------
  // List<T>.Remove

  /** Position of the first element equal to x. */
  function FirstIndex<T(==)>(s: seq<T>, x: T): (i: nat)
    requires x in s
    ensures i < |s| && s[i] == x
    ensures x !in s[..i]
  {
    if s[0] == x then 0
    else
      var k := FirstIndex(s[1..], x);
      assert s[..k + 1] == [s[0]] + s[1..][..k];
      k + 1
  }

  /** List<T>.Remove(x): drops the first element equal to x; a no-op when
      there is none. */
  function RemoveFirst<T(==)>(s: seq<T>, x: T): (r: seq<T>)
  {
    if s == [] then []
    else if s[0] == x then s[1..]
    else [s[0]] + RemoveFirst(s[1..], x)
  }

  /** Remove cuts out the element at the first index of x, and leaves the
      list alone when x is absent. */
  lemma {:induction false} RemoveFirstSpec<T>(s: seq<T>, x: T)
    ensures x !in s ==> RemoveFirst(s, x) == s
    ensures x in s ==> RemoveFirst(s, x) == s[..FirstIndex(s, x)] + s[FirstIndex(s, x) + 1..]
  {
    if s != [] && s[0] != x {
      RemoveFirstSpec(s[1..], x);
      if x in s {
        var k := FirstIndex(s[1..], x);
        assert s[..k + 1] == [s[0]] + s[1..][..k];
        assert s[k + 2..] == s[1..][k + 1..];
      } else {
        assert s == [s[0]] + s[1..];
      }
    }
  }

  /** Element k of the list after Remove(x): the elements before the removed
      one keep their index, the ones after it move down by one. */
  lemma RemoveFirstAt<T>(s: seq<T>, x: T, k: nat)
    requires x in s && k < |s| - 1
    ensures |RemoveFirst(s, x)| == |s| - 1
    ensures RemoveFirst(s, x)[k] == if k < FirstIndex(s, x) then s[k] else s[k + 1]
  {
    RemoveFirstSpec(s, x);
  }

  /** Remove keeps only elements that were there, and shrinks the list by one
      exactly when x was present. */
  lemma {:induction false} RemoveFirstSubset<T>(s: seq<T>, x: T)
    ensures |RemoveFirst(s, x)| == if x in s then |s| - 1 else |s|
    ensures forall y | y in RemoveFirst(s, x) :: y in s
  {
    RemoveFirstSpec(s, x);
    if x in s {
      var i := FirstIndex(s, x);
      forall y | y in RemoveFirst(s, x) ensures y in s {
        var k :| 0 <= k < |RemoveFirst(s, x)| && RemoveFirst(s, x)[k] == y;
        RemoveFirstAt(s, x, k);
        if k < i { assert s[k] == y; } else { assert s[k + 1] == y; }
      }
    }
  }

  /** On a list without duplicates, Remove takes x out completely and the
      list stays duplicate-free. */
  lemma {:induction false} RemoveFirstDistinct<T>(s: seq<T>, x: T)
    requires Distinct(s)
    ensures Distinct(RemoveFirst(s, x)) && x !in RemoveFirst(s, x)
  {
    if s != [] && s[0] != x {
      var rest := RemoveFirst(s[1..], x);
      RemoveFirstDistinct(s[1..], x);
      RemoveFirstSubset(s[1..], x);
      assert s[0] !in rest;
      assert ([s[0]] + rest)[1..] == rest;
    }
  }

  /** Removing a node keeps the node list fresh and takes the node out; when
      x is the node its identity names, no node with that identity is left. */
  lemma RemoveKeepsFreshNodes(ns: seq<Node>, x: Node, bound: nat)
    requires FreshNodes(ns, bound)
    ensures FreshNodes(RemoveFirst(ns, x), bound) && x !in RemoveFirst(ns, x)
    ensures (forall m | m in ns && m.id == x.id :: m == x) ==>
              forall m | m in RemoveFirst(ns, x) :: m.id != x.id
  {
    RemoveFirstSubset(ns, x);
    RemoveFirstDistinct(ns, x);
  }

  /** Removing a connection keeps the connection list fresh and free of
      self-loops, and takes the connection out. */
  lemma RemoveKeepsConnections(cs: seq<Connection>, x: Connection, bound: nat)
    requires FreshConnections(cs, bound) && NoSelfLoop(cs)
    ensures FreshConnections(RemoveFirst(cs, x), bound) && NoSelfLoop(RemoveFirst(cs, x))
    ensures x !in RemoveFirst(cs, x)
  {
    RemoveFirstSubset(cs, x);
    RemoveFirstDistinct(cs, x);
  }

  /** Appending a fresh element and then removing it gives the list back. */
  lemma {:induction false} RemoveAppended<T>(s: seq<T>, x: T)
    requires x !in s
    ensures RemoveFirst(s + [x], x) == s
  {
    RemoveFirstSpec(s + [x], x);
    assert FirstIndex(s + [x], x) == |s|;
    assert (s + [x])[..|s|] == s;
  }

  // ---------------------------------------------------------------------------
  // The cascade of OnClickRemoveNode

  /** The source's cascade test: the connection's in-point is the node's
      inPoint[0], or its out-point is the node's outPoint[0]. */
  predicate Touches(c: Connection, n: Node)
  {
    c.inPoint == n.FirstInPoint() || c.outPoint == n.FirstOutPoint()
  }

  /** The connections the first loop collects into connectionsToRemove, in order. */
  function Touching(cs: seq<Connection>, n: Node): (r: seq<Connection>)
  {
    if cs == [] then []
    else (if Touches(cs[0], n) then [cs[0]] else []) + Touching(cs[1..], n)
  }

  /** The connections that outlive the removal of n, in their original order. */
  function Surviving(cs: seq<Connection>, n: Node): (r: seq<Connection>)
  {
    if cs == [] then []
    else (if Touches(cs[0], n) then [] else [cs[0]]) + Surviving(cs[1..], n)
  }

  /** The collected connections are exactly the touching ones. */
  lemma {:induction false} TouchingMembers(cs: seq<Connection>, n: Node)
    ensures forall c :: c in Touching(cs, n) <==> c in cs && Touches(c, n)
  {
    if cs != [] {
      TouchingMembers(cs[1..], n);
      assert forall c :: c in cs <==> c == cs[0] || c in cs[1..];
    }
  }

  /** The surviving connections are exactly the ones that do not touch. */
  lemma {:induction false} SurvivingMembers(cs: seq<Connection>, n: Node)
    ensures forall c :: c in Surviving(cs, n) <==> c in cs && !Touches(c, n)
  {
    if cs != [] {
      SurvivingMembers(cs[1..], n);
      assert forall c :: c in cs <==> c == cs[0] || c in cs[1..];
    }
  }

  /** The cascade test looks at inPoint[0] and outPoint[0] only: a connection
      attached to another in-point of the removed node (and to another node's
      out-point) is kept. */
  lemma CascadeChecksFirstPointsOnly(n: Node, c: Connection)
    requires c.inPoint == Point(n.id, In, 1)
    requires c.outPoint.owner != n.id
    ensures Touching([c], n) == [] && Surviving([c], n) == [c]
  {
  }

  /** Collecting over a concatenation collects over each part in turn; this is
      what lets the first loop extend its list one connection at a time. */
  lemma {:induction false} TouchingAppend(a: seq<Connection>, b: seq<Connection>, n: Node)
    ensures Touching(a + b, n) == Touching(a, n) + Touching(b, n)
  {
    if a != [] {
      var head := if Touches(a[0], n) then [a[0]] else [];
      assert (a + b)[0] == a[0] && (a + b)[1..] == a[1..] + b;
      TouchingAppend(a[1..], b, n);
      calc {
        Touching(a + b, n);
        head + Touching(a[1..] + b, n);
        head + (Touching(a[1..], n) + Touching(b, n));
        (head + Touching(a[1..], n)) + Touching(b, n);
        Touching(a, n) + Touching(b, n);
      }
    } else {
      assert a + b == b;
    }
  }

  /** Survivors of a concatenation are the survivors of each part, in order:
      the cascade keeps the relative order of what it does not remove. */
  lemma {:induction false} SurvivingAppend(a: seq<Connection>, b: seq<Connection>, n: Node)
    ensures Surviving(a + b, n) == Surviving(a, n) + Surviving(b, n)
  {
    if a != [] {
      var head := if Touches(a[0], n) then [] else [a[0]];
      assert (a + b)[0] == a[0] && (a + b)[1..] == a[1..] + b;
      SurvivingAppend(a[1..], b, n);
      calc {
        Surviving(a + b, n);
        head + Surviving(a[1..] + b, n);
        head + (Surviving(a[1..], n) + Surviving(b, n));
        (head + Surviving(a[1..], n)) + Surviving(b, n);
        Surviving(a, n) + Surviving(b, n);
      }
    } else {
      assert a + b == b;
    }
  }

  /** Every connection is either collected or survives, never both. */
  lemma {:induction false} TouchingSurvivingSplit(cs: seq<Connection>, n: Node)
    ensures |Touching(cs, n)| + |Surviving(cs, n)| == |cs|
  {
    if cs != [] {
      TouchingSurvivingSplit(cs[1..], n);
    }
  }

  /** A node that no connection touches leaves the connection list as it is. */
  lemma {:induction false} SurvivingUntouched(cs: seq<Connection>, n: Node)
    requires forall c | c in cs :: !Touches(c, n)
    ensures Surviving(cs, n) == cs
  {
    if cs != [] {
      assert cs[0] in cs;
      SurvivingUntouched(cs[1..], n);
    }
  }

  /** Filtering a list without duplicates leaves a list without duplicates. */
  lemma {:induction false} SurvivingDistinct(cs: seq<Connection>, n: Node)
    requires Distinct(cs)
    ensures Distinct(Surviving(cs, n))
  {
    if cs != [] {
      var rest := Surviving(cs[1..], n);
      SurvivingDistinct(cs[1..], n);
      if !Touches(cs[0], n) {
        SurvivingMembers(cs[1..], n);
        assert cs[0] !in rest;
        assert Surviving(cs, n) == [cs[0]] + rest;
        assert ([cs[0]] + rest)[1..] == rest;
      } else {
        assert Surviving(cs, n) == rest;
      }
    }
  }

  /** cs with its first k touching connections removed: the connection list
      after the second loop of the cascade has run k times. */
  function SkipTouching(cs: seq<Connection>, n: Node, k: nat): (r: seq<Connection>)
  {
    if cs == [] then []
    else if k > 0 && Touches(cs[0], n) then SkipTouching(cs[1..], n, k - 1)
    else [cs[0]] + SkipTouching(cs[1..], n, k)
  }

  lemma {:induction false} SkipNone(cs: seq<Connection>, n: Node)
    ensures SkipTouching(cs, n, 0) == cs
  {
    if cs != [] {
      SkipNone(cs[1..], n);
    }
  }

  /** One iteration of the second loop: Remove of the k-th collected connection
      takes out exactly the k-th touching connection, because an equal
      connection earlier in the list would touch n as well. */
  lemma {:induction false} SkipStep(cs: seq<Connection>, n: Node, k: nat)
    requires k < |Touching(cs, n)|
    ensures RemoveFirst(SkipTouching(cs, n, k), Touching(cs, n)[k]) == SkipTouching(cs, n, k + 1)
  {
    var x, rest := cs[0], cs[1..];
    var target := Touching(cs, n)[k];
    if Touches(x, n) {
      assert Touching(cs, n) == [x] + Touching(rest, n);
      if k == 0 {
        SkipNone(cs, n);
        SkipNone(rest, n);
      } else {
        SkipStep(rest, n, k - 1);
      }
    } else {
      assert Touching(cs, n) == Touching(rest, n);
      TouchingMembers(cs, n);
      assert target in Touching(cs, n);
      assert target != x;
      SkipStep(rest, n, k);
      var skipped := SkipTouching(rest, n, k);
      assert SkipTouching(cs, n, k) == [x] + skipped;
      assert ([x] + skipped)[1..] == skipped;
    }
  }

  /** Once every collected connection has been removed, what is left is
      exactly the survivors. */
  lemma {:induction false} SkipAll(cs: seq<Connection>, n: Node)
    ensures SkipTouching(cs, n, |Touching(cs, n)|) == Surviving(cs, n)
  {
    if cs != [] {
      SkipAll(cs[1..], n);
    }
  }

  /** The cascade keeps the connection list fresh and free of self-loops, and
      no surviving connection touches the removed node. */
  lemma CascadeKeepsConnections(cs: seq<Connection>, n: Node, bound: nat)
    requires FreshConnections(cs, bound) && NoSelfLoop(cs)
    ensures FreshConnections(Surviving(cs, n), bound) && NoSelfLoop(Surviving(cs, n))
    ensures forall c | c in Surviving(cs, n) :: !Touches(c, n)
  {
    SurvivingMembers(cs, n);
    SurvivingDistinct(cs, n);
  }

  /** Remove called for each element of xs in turn, as the cascade's second
      loop does. */
  function RemoveAll<T(==)>(s: seq<T>, xs: seq<T>): (r: seq<T>)
    decreases xs
  {
    if xs == [] then s else RemoveAll(RemoveFirst(s, xs[0]), xs[1..])
  }

  /** Removing the touching connections still to go from the list in which
      the first k have been removed leaves the survivors. */
  lemma {:induction false} RemoveAllFrom(cs: seq<Connection>, n: Node, k: nat)
    requires k <= |Touching(cs, n)|
    ensures RemoveAll(SkipTouching(cs, n, k), Touching(cs, n)[k..]) == Surviving(cs, n)
    decreases |Touching(cs, n)| - k
  {
    var todo := Touching(cs, n)[k..];
    if k == |Touching(cs, n)| {
      assert todo == [];
      SkipAll(cs, n);
    } else {
      SkipStep(cs, n, k);
      assert todo[0] == Touching(cs, n)[k] && todo[1..] == Touching(cs, n)[k + 1..];
      RemoveAllFrom(cs, n, k + 1);
    }
  }

  /** The cascade's two loops together: removing, one by one, every
      connection the first loop collected leaves exactly the survivors. */
  lemma RemoveAllTouching(cs: seq<Connection>, n: Node)
    ensures RemoveAll(cs, Touching(cs, n)) == Surviving(cs, n)
  {
    SkipNone(cs, n);
    RemoveAllFrom(cs, n, 0);
    assert Touching(cs, n)[0..] == Touching(cs, n);
  }
}
