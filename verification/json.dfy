/**
 The parsed translation document: a JSON value in the sense of the value
 grammar in section 3 of RFC 8259 (object, array, string, number, true/false,
 null). Numbers are carried as `real`; nothing in the model computes with them.
 */
module Json {

  datatype Node =
    | Obj(fields: map<string, Node>)
    | Arr(items: seq<Node>)
    | Str(text: string)
    | Num(number: real)
    | Bool(flag: bool)
    | Null

  /** `child` is a direct member of `parent`: the value of one of its keys or one of its elements. */
  ghost predicate ChildOf(child: Node, parent: Node)
  {
    || (parent.Obj? && exists k :: k in parent.fields && parent.fields[k] == child)
    || (parent.Arr? && exists i :: 0 <= i < |parent.items| && parent.items[i] == child)
  }

  /** `n` is `root` itself or a node nested somewhere inside it. */
  ghost predicate Reachable(root: Node, n: Node)
    decreases root
  {
    || root == n
    || (root.Obj? && exists k :: k in root.fields && Reachable(root.fields[k], n))
    || (root.Arr? && exists i :: 0 <= i < |root.items| && Reachable(root.items[i], n))
  }

  /** Whatever is reachable from a child is reachable from its parent. */
  lemma ReachableThroughChild(parent: Node, child: Node, n: Node)
    requires ChildOf(child, parent)
    requires Reachable(child, n)
    ensures Reachable(parent, n)
  {
    if parent.Obj? {
      var k :| k in parent.fields && parent.fields[k] == child;
      assert Reachable(parent.fields[k], n);
    } else {
      var i :| 0 <= i < |parent.items| && parent.items[i] == child;
      assert Reachable(parent.items[i], n);
    }
  }
}
