/** The editor window's graph bookkeeping: the node and connection lists, the
    two pending connection endpoints, and the handlers that the window, the
    nodes' points and the context menu call. */
module Editor {
  import opened Graph

  /** The host event kinds the window reacts to; every other kind is Other. */
  datatype EventType = MouseDown | MouseDrag | Other

  datatype Event = Event(kind: EventType, button: int, mousePosition: Vec2)

  /** The two entries of the canvas context menu. */
  datatype MenuItem = AddInput | AddOutput

  class NodeBasedEditor {
    var nodes: Option<seq<Node>>
    var connections: Option<seq<Connection>>
    var selectedInPoint: Option<Point>
    var selectedOutPoint: Option<Point>
    /** Identities handed out so far; stands for allocating a fresh object. */
    var nextId: nat

    /** Every node and connection has its own identity, older than nextId. */
    ghost predicate WellFormed()
      reads this
    {
      FreshNodes(Items(nodes), nextId) && FreshConnections(Items(connections), nextId)
    }

    /** No connection joins two points of the same node. */
    ghost predicate NoSelfLoops()
      reads this
    {
      NoSelfLoop(Items(connections))
    }

    /** Between events at most one endpoint of a connection is pending. */
    ghost predicate AtMostOnePending()
      reads this
    {
      selectedInPoint.None? || selectedOutPoint.None?
    }

    ghost predicate Valid()
      reads this
    {
      WellFormed() && NoSelfLoops() && AtMostOnePending()
    }

    /** A fresh window: both lists and both selections are null. */
    constructor ()
      ensures Valid()
      ensures nodes == None && connections == None
      ensures selectedInPoint == None && selectedOutPoint == None
    {
      nodes, connections := None, None;
      selectedInPoint, selectedOutPoint := None, None;
      nextId := 0;
    }

    /** Creates the node list if needed and appends a new node of the given
        kind; there is no de-duplication, so the node is always new. */
    method AddNode(kind: NodeKind, mousePosition: Vec2)
      requires Valid()
      modifies this
      ensures Valid()
      ensures nodes == Some(Items(old(nodes)) + [Node(old(nextId), kind, mousePosition)])
      ensures Node(old(nextId), kind, mousePosition) !in Items(old(nodes))
      ensures connections == old(connections)
      ensures selectedInPoint == old(selectedInPoint) && selectedOutPoint == old(selectedOutPoint)
    {
      if nodes.None? {
        nodes := Some([]);
      }
      var node := Node(nextId, kind, mousePosition);
      AppendFreshNode(nodes.value, node, nextId);
      nodes := Some(nodes.value + [node]);
      nextId := nextId + 1;
    }

    method OnClickAddNodeInput(mousePosition: Vec2)
      requires Valid()
      modifies this
      ensures Valid()
      ensures nodes == Some(Items(old(nodes)) + [Node(old(nextId), Input, mousePosition)])
      ensures Node(old(nextId), Input, mousePosition) !in Items(old(nodes))
      ensures connections == old(connections)
      ensures selectedInPoint == old(selectedInPoint) && selectedOutPoint == old(selectedOutPoint)
    {
      AddNode(Input, mousePosition);
    }

    method OnClickAddNodeOutput(mousePosition: Vec2)
      requires Valid()
      modifies this
      ensures Valid()
      ensures nodes == Some(Items(old(nodes)) + [Node(old(nextId), Output, mousePosition)])
      ensures Node(old(nextId), Output, mousePosition) !in Items(old(nodes))
      ensures connections == old(connections)
      ensures selectedInPoint == old(selectedInPoint) && selectedOutPoint == old(selectedOutPoint)
    {
      AddNode(Output, mousePosition);
    }

    method ClearConnectionSelection()
      modifies this
      ensures selectedInPoint == None && selectedOutPoint == None
      ensures nodes == old(nodes) && connections == old(connections) && nextId == old(nextId)
    {
      selectedInPoint := None;
      selectedOutPoint := None;
    }

    /** Appends a connection between the two selected points. It does not
        compare their owners: its callers do. */
    method CreateConnection()
      requires WellFormed()
      requires selectedInPoint.Some? && selectedOutPoint.Some?
      modifies this
      ensures WellFormed()
      ensures connections == Some(Items(old(connections)) +
                                  [Connection(old(nextId), old(selectedInPoint).value, old(selectedOutPoint).value)])
      ensures nodes == old(nodes)
      ensures selectedInPoint == old(selectedInPoint) && selectedOutPoint == old(selectedOutPoint)
    {
      if connections.None? {
        connections := Some([]);
      }
      var connection := Connection(nextId, selectedInPoint.value, selectedOutPoint.value);
      AppendFreshConnection(connections.value, connection, nextId);
      connections := Some(connections.value + [connection]);
      nextId := nextId + 1;
    }

    /** A click on an in-point: it becomes pending, unless an out-point was
        pending already, in which case the connection is made when the two
        points belong to different nodes, and both selections are dropped. */
    method OnClickInPoint(inPoint: Point)
      requires Valid()
      modifies this
      ensures Valid()
      ensures nodes == old(nodes)
      ensures old(selectedOutPoint).None? ==>
        selectedInPoint == Some(inPoint) && selectedOutPoint == None &&
        connections == old(connections)
      ensures old(selectedOutPoint).Some? && old(selectedOutPoint).value.owner != inPoint.owner ==>
        connections == Some(Items(old(connections)) +
                            [Connection(old(nextId), inPoint, old(selectedOutPoint).value)]) &&
        selectedInPoint == None && selectedOutPoint == None
      ensures old(selectedOutPoint).Some? && old(selectedOutPoint).value.owner == inPoint.owner ==>
        connections == old(connections) &&
        selectedInPoint == None && selectedOutPoint == None
    {
      selectedInPoint := Some(inPoint);

      if selectedOutPoint.Some? {
        if selectedOutPoint.value.owner != selectedInPoint.value.owner {
          CreateConnection();
          ClearConnectionSelection();
        } else {
          ClearConnectionSelection();
        }
      }
    }

    /** The mirror image of OnClickInPoint for a click on an out-point. */
    method OnClickOutPoint(outPoint: Point)
      requires Valid()
      modifies this
      ensures Valid()
      ensures nodes == old(nodes)
      ensures old(selectedInPoint).None? ==>
        selectedOutPoint == Some(outPoint) && selectedInPoint == None &&
        connections == old(connections)
      ensures old(selectedInPoint).Some? && old(selectedInPoint).value.owner != outPoint.owner ==>
        connections == Some(Items(old(connections)) +
                            [Connection(old(nextId), old(selectedInPoint).value, outPoint)]) &&
        selectedInPoint == None && selectedOutPoint == None
      ensures old(selectedInPoint).Some? && old(selectedInPoint).value.owner == outPoint.owner ==>
        connections == old(connections) &&
        selectedInPoint == None && selectedOutPoint == None
    {
      selectedOutPoint := Some(outPoint);

      if selectedInPoint.Some? {
        if selectedOutPoint.value.owner != selectedInPoint.value.owner {
          CreateConnection();
          ClearConnectionSelection();
        } else {
          ClearConnectionSelection();
        }
      }
    }

    /** The first loop of OnClickRemoveNode: every connection whose in-point
        is the node's inPoint[0] or whose out-point is its outPoint[0], in
        list order. */
    method CollectConnectionsToRemove(node: Node) returns (connectionsToRemove: seq<Connection>)
      requires connections.Some?
      ensures connectionsToRemove == Touching(connections.value, node)
    {
      var i := 0;
      connectionsToRemove := [];
      while i < |connections.value|
        invariant i <= |connections.value|
        invariant connectionsToRemove == Touching(connections.value[..i], node)
      {
        var c := connections.value[i];
        if c.inPoint == node.FirstInPoint() || c.outPoint == node.FirstOutPoint() {
          connectionsToRemove := connectionsToRemove + [c];
        }
        assert connections.value[..i + 1] == connections.value[..i] + [c];
        TouchingAppend(connections.value[..i], [c], node);
        i := i + 1;
      }
      assert connections.value[..i] == connections.value;
    }

    /** Removes a node: first every connection whose in-point is the node's
        inPoint[0] or whose out-point is its outPoint[0] (collected in one
        pass, removed one by one in a second), then the node itself. The
        handler is only reachable from a node in the list, so the list exists,
        and `node` is the object its identity names there, if it is there. */
    method OnClickRemoveNode(node: Node)
      requires Valid()
      requires nodes.Some?
      requires forall m | m in nodes.value && m.id == node.id :: m == node
      modifies this
      ensures Valid()
      ensures connections == if old(connections).Some?
                             then Some(Surviving(old(connections).value, node))
                             else None
      ensures nodes == Some(RemoveFirst(old(nodes).value, node))
      ensures node !in Items(nodes)
      ensures forall m | m in Items(nodes) :: m.id != node.id
      ensures forall c | c in Items(connections) :: !Touches(c, node)
      ensures selectedInPoint == old(selectedInPoint) && selectedOutPoint == old(selectedOutPoint)
    {
      if connections.Some? {
        var connectionsToRemove := CollectConnectionsToRemove(node);
        RemoveAllTouching(connections.value, node);

        ghost var original := connections.value;
        var i := 0;
        while i < |connectionsToRemove|
          invariant i <= |connectionsToRemove|
          invariant connections.Some?
          invariant RemoveAll(connections.value, connectionsToRemove[i..]) == RemoveAll(original, connectionsToRemove)
          invariant nodes == old(nodes) && nextId == old(nextId)
          invariant selectedInPoint == old(selectedInPoint) && selectedOutPoint == old(selectedOutPoint)
        {
          assert connectionsToRemove[i..][1..] == connectionsToRemove[i + 1..];
          connections := Some(RemoveFirst(connections.value, connectionsToRemove[i]));
          i := i + 1;
        }
        assert connectionsToRemove[i..] == [];
      }
      assert Items(connections) == Surviving(Items(old(connections)), node);
      CascadeKeepsConnections(Items(old(connections)), node, nextId);

      RemoveKeepsFreshNodes(nodes.value, node, nextId);
      nodes := Some(RemoveFirst(nodes.value, node));
    }

    /** Removes one occurrence of the connection; nothing happens when it is
        not in the list. Only a live connection can call this, so the list
        exists. */
    method OnClickRemoveConnection(connection: Connection)
      requires Valid()
      requires connections.Some?
      modifies this
      ensures Valid()
      ensures connections == Some(RemoveFirst(old(connections).value, connection))
      ensures connection !in Items(connections)
      ensures nodes == old(nodes)
      ensures selectedInPoint == old(selectedInPoint) && selectedOutPoint == old(selectedOutPoint)
    {
      RemoveKeepsConnections(connections.value, connection, nextId);
      connections := Some(RemoveFirst(connections.value, connection));
    }

    /** The window's own event handling, drawing and dragging aside: a
        left-button press clears the pending selection; a right-button press
        opens the context menu at the pointer, returned as menuAt. */
    method ProcessEvents(e: Event) returns (menuAt: Option<Vec2>)
      requires Valid()
      modifies this
      ensures Valid()
      ensures nodes == old(nodes) && connections == old(connections)
      ensures e.kind == MouseDown && e.button == 0 ==>
        selectedInPoint == None && selectedOutPoint == None
      ensures !(e.kind == MouseDown && e.button == 0) ==>
        selectedInPoint == old(selectedInPoint) && selectedOutPoint == old(selectedOutPoint)
      ensures menuAt == if e.kind == MouseDown && e.button == 1 then Some(e.mousePosition) else None
    {
      menuAt := None;
      match e.kind {
        case MouseDown =>
          if e.button == 0 {
            ClearConnectionSelection();
          }
          if e.button == 1 {
            menuAt := Some(e.mousePosition);
          }
        case MouseDrag =>
        case Other =>
      }
    }

    /** Picking an entry of the context menu opened at mousePosition. */
    method ChooseContextMenuItem(item: MenuItem, mousePosition: Vec2)
      requires Valid()
      modifies this
      ensures Valid()
      ensures nodes == Some(Items(old(nodes)) +
        [Node(old(nextId), if item == AddInput then Input else Output, mousePosition)])
      ensures connections == old(connections)
      ensures selectedInPoint == old(selectedInPoint) && selectedOutPoint == old(selectedOutPoint)
    {
      match item {
        case AddInput => OnClickAddNodeInput(mousePosition);
        case AddOutput => OnClickAddNodeOutput(mousePosition);
      }
    }
  }
}
