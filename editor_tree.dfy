/**
 * The slice of the host editor's document and view trees that the plugins
 * read: elements with a name, attributes and children, and text nodes.
 */
module EditorTree {
  import opened Optional

  datatype Node =
    | Element(name: string, attrs: map<string, string>, children: seq<Node>)
    | Text(data: string)

  /** The name of the document's root element. */
  const RootName := "$root"

  /** `node.is('element', name)` */
  predicate IsElementNamed(n: Node, name: string) {
    n.Element? && n.name == name
  }

  /** `node.getAttribute(key)`: undefined when the attribute is absent. */
  function GetAttribute(n: Node, key: string): Option<string> {
    if n.Element? && key in n.attrs then Some(n.attrs[key]) else None
  }

  /**
   * The chain of elements from the root down to one element, that element
   * last. It is what an element's ancestors (self included) and a schema
   * context are built from; its last item's `parent` is the item before it.
   */
  type ElementPath = p: seq<Node> | |p| > 0 && forall i :: 0 <= i < |p| ==> p[i].Element?
    witness [Element(RootName, map[], [])]

  /** A position in the document: its parent element, given by its path, and an offset in it. */
  datatype Position = Position(parentPath: ElementPath, offset: nat)

  function Last(p: ElementPath): Node {
    p[|p| - 1]
  }
}
