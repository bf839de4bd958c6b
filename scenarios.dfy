/** End-to-end uses of the editor, written as a client of its handlers only. */
module Scenarios {
  import opened Graph
  import opened Editor

  /** Add an Input node and an Output node, click the first node's out-point
      and the second node's in-point, then remove the first node: one
      connection is made, and the cascade takes it away with the node. */
  method ConnectThenRemoveNode() returns (connectionsMade: nat, nodesLeft: nat, connectionsLeft: nat)
    ensures connectionsMade == 1 && nodesLeft == 1 && connectionsLeft == 0
  {
    var editor := new NodeBasedEditor();
    editor.OnClickAddNodeInput(Vec2(10.0, 10.0));
    editor.OnClickAddNodeOutput(Vec2(200.0, 10.0));
    var node1 := editor.nodes.value[0];
    var node2 := editor.nodes.value[1];

    editor.OnClickOutPoint(node1.FirstOutPoint());
    editor.OnClickInPoint(node2.FirstInPoint());
    connectionsMade := |Items(editor.connections)|;

    editor.OnClickRemoveNode(node1);
    nodesLeft := |Items(editor.nodes)|;
    connectionsLeft := |Items(editor.connections)|;
  }

  /** Clicking a node's in-point and then its own out-point is rejected: no
      connection, and nothing stays pending. */
  method SameNodeClickRejected() returns (connectionsMade: nat, pending: bool)
    ensures connectionsMade == 0 && !pending
  {
    var editor := new NodeBasedEditor();
    editor.OnClickAddNodeOutput(Vec2(0.0, 0.0));
    var node := editor.nodes.value[0];

    editor.OnClickInPoint(node.FirstInPoint());
    editor.OnClickOutPoint(node.FirstOutPoint());
    connectionsMade := |Items(editor.connections)|;
    pending := editor.selectedInPoint.Some? || editor.selectedOutPoint.Some?;
  }

  /** Two adds at the same position give two different nodes. */
  method AddTwiceSamePosition() returns (count: nat, different: bool)
    ensures count == 2 && different
  {
    var editor := new NodeBasedEditor();
    editor.OnClickAddNodeInput(Vec2(5.0, 5.0));
    editor.OnClickAddNodeInput(Vec2(5.0, 5.0));
    count := |Items(editor.nodes)|;
    different := editor.nodes.value[0] != editor.nodes.value[1];
  }

  /** A pending in-point is dropped by a left-button press on the canvas. */
  method LeftClickCancelsPending() returns (pendingBefore: bool, pendingAfter: bool)
    ensures pendingBefore && !pendingAfter
  {
    var editor := new NodeBasedEditor();
    editor.OnClickAddNodeInput(Vec2(0.0, 0.0));
    var node := editor.nodes.value[0];
    editor.OnClickInPoint(node.FirstInPoint());
    pendingBefore := editor.selectedInPoint.Some?;
    var menuAt := editor.ProcessEvents(Event(MouseDown, 0, Vec2(50.0, 50.0)));
    pendingAfter := editor.selectedInPoint.Some? || editor.selectedOutPoint.Some?;
  }

  /** A right-button press opens the context menu; choosing "Add Input" then
      adds an Input node where the menu was opened. */
  method ContextMenuAddsAtPress() returns (count: nat, added: Node)
    ensures count == 1 && added.kind == Input && added.origin == Vec2(30.0, 40.0)
  {
    var editor := new NodeBasedEditor();
    var menuAt := editor.ProcessEvents(Event(MouseDown, 1, Vec2(30.0, 40.0)));
    editor.ChooseContextMenuItem(AddInput, menuAt.value);
    count := |Items(editor.nodes)|;
    added := editor.nodes.value[0];
  }
}
