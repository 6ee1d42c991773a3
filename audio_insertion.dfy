/**
 * Where audio may go: `getInsertAudioParent`, `isAudioAllowedInParent`,
 * `checkSelectionOnObject`, `isInOtherAudio` and `isAudioAllowed`, then
 * `insertAudio` itself, and `isHtmlIncluded` for a drop or paste.
 *
 * The host engine's own answers (the optimal insertion position, the
 * schema's child check and object test, and what `insertContent` does)
 * are parameters of the model.
 */
module AudioInsertion {
  import opened Optional
  import opened EditorTree

  /** What the code reads of the document selection. */
  datatype Selection = Selection(
    selected: Option<Node>,      // `getSelectedElement()`
    focusAncestors: seq<Node>)   // `focus.getAncestors()`, root first

  /** The host engine's services, left uninterpreted. */
  datatype Host = Host(
    findOptimalInsertionPosition: Selection -> Position,
    checkChild: (seq<Node>, string) -> bool,
    isObject: Node -> bool)

  /**
   * `getInsertAudioParent`: the parent of the optimal insertion position,
   * or that parent's own parent when the parent is an empty element other
   * than the root. The result is the chosen element's path from the root,
   * i.e. the context a schema check is asked about; it is empty when the
   * parent's parent is `null`.
   */
  function InsertAudioParent(host: Host, sel: Selection): (context: seq<Node>)
    ensures var path := host.findOptimalInsertionPosition(sel).parentPath;
      context <= path && |path| - 1 <= |context|
    ensures var path := host.findOptimalInsertionPosition(sel).parentPath;
      |context| < |path| <==> Last(path).children == [] && !IsElementNamed(Last(path), RootName)
  {
    var path := host.findOptimalInsertionPosition(sel).parentPath;
    var parent := Last(path);
    if parent.children == [] && !IsElementNamed(parent, RootName) then path[..|path| - 1] else path
  }

  /** `isAudioAllowedInParent` */
  function IsAudioAllowedInParent(host: Host, sel: Selection): (allowed: bool)
    ensures var path := host.findOptimalInsertionPosition(sel).parentPath;
      allowed <==>
        if Last(path).children == [] && !IsElementNamed(Last(path), RootName)
        then host.checkChild(path[..|path| - 1], "audio")
        else host.checkChild(path, "audio")
  {
    host.checkChild(InsertAudioParent(host, sel), "audio")
  }

  /** `checkSelectionOnObject`: an element is selected and the schema calls it an object. */
  function CheckSelectionOnObject(host: Host, sel: Selection): (onObject: bool)
    ensures onObject <==> sel.selected.Some? && host.isObject(sel.selected.value)
  {
    sel.selected.Some? && host.isObject(sel.selected.value)
  }

  /**
   * `isInOtherAudio`. Despite its name it is true when the focus is NOT
   * inside an audio element: every ancestor of the focus is something
   * other than an `audio` element.
   */
  function IsInOtherAudio(sel: Selection): (outsideAudio: bool)
    ensures outsideAudio <==> !exists i :: 0 <= i < |sel.focusAncestors| && IsElementNamed(sel.focusAncestors[i], "audio")
  {
    forall a :: a in sel.focusAncestors ==> !IsElementNamed(a, "audio")
  }

  /**
   * `isAudioAllowed`: audio may be inserted exactly when the schema allows
   * an `audio` child in the chosen parent, no object is selected, and the
   * focus has no `audio` element among its ancestors.
   */
  function IsAudioAllowed(host: Host, sel: Selection): (allowed: bool)
    ensures allowed <==>
      && host.checkChild(InsertAudioParent(host, sel), "audio")
      && !(sel.selected.Some? && host.isObject(sel.selected.value))
      && !exists i :: 0 <= i < |sel.focusAncestors| && IsElementNamed(sel.focusAncestors[i], "audio")
  {
    IsAudioAllowedInParent(host, sel) && !CheckSelectionOnObject(host, sel) && IsInOtherAudio(sel)
  }

  /** Audio is refused inside audio whatever the schema says. */
  lemma NoAudioInsideAudio(host: Host, sel: Selection, i: nat)
    requires i < |sel.focusAncestors| && IsElementNamed(sel.focusAncestors[i], "audio")
    ensures !IsAudioAllowed(host, sel)
  {
    assert sel.focusAncestors[i] in sel.focusAncestors;
  }

  /** What the drag-and-drop data carries: its advertised types and the data stored per type. */
  datatype DataTransfer = DataTransfer(types: seq<string>, data: map<string, string>)

  /** `dataTransfer.getData(type)`: the empty string for a type it does not hold. */
  function GetData(dt: DataTransfer, t: string): string {
    if t in dt.data then dt.data[t] else ""
  }

  /** `isHtmlIncluded`: `text/html` is advertised and its data is not empty. */
  function IsHtmlIncluded(dt: DataTransfer): (included: bool)
    ensures included <==> "text/html" in dt.types && "text/html" in dt.data && dt.data["text/html"] != ""
  {
    "text/html" in dt.types && GetData(dt, "text/html") != ""
  }

  /** The caller's `attributes` object, which `insertAudio` changes in place. */
  class Attributes {
    var entries: map<string, string>

    constructor (entries: map<string, string>)
      ensures this.entries == entries
    {
      this.entries := entries;
    }
  }

  /**
   * What `model.insertContent` did with an element: placed it, giving the
   * new document root and the ancestors of the position before it, or
   * left it without a parent, giving the document root as it then stands.
   */
  datatype InsertOutcome = Inserted(root: Node, ancestors: seq<Node>) | NotInserted(root: Node)

  /** The document root and selection of the editor model. */
  class EditorModel {
    var root: Node
    var selection: Selection

    constructor (root: Node, selection: Selection)
      ensures this.root == root && this.selection == selection
    {
      this.root := root;
      this.selection := selection;
    }

    /**
     * `insertAudio(writer, model, attributes)`: sets `controls` on the
     * caller's attributes, creates an `audio` element with them, inserts it
     * at the optimal position for the current selection, and selects it if
     * it got a parent. The document is whatever `insertContent` leaves; the
     * selection changes only when the element was placed.
     */
    method InsertAudio(
      host: Host,
      insertContent: (Node, Node, Position) -> InsertOutcome,
      attributes: Attributes)
      returns (audio: Node)
      modifies this, attributes
      ensures attributes.entries == old(attributes.entries)["controls" := "controls"]
      ensures audio == Element("audio", attributes.entries, [])
      ensures var at := host.findOptimalInsertionPosition(old(selection));
        match insertContent(old(root), audio, at)
        case NotInserted(newRoot) => root == newRoot && selection == old(selection)
        case Inserted(newRoot, ancestors) =>
          root == newRoot && selection == Selection(Some(audio), ancestors)
    {
      attributes.entries := attributes.entries["controls" := "controls"];
      audio := Element("audio", attributes.entries, []);
      var insertAt := host.findOptimalInsertionPosition(selection);
      var outcome := insertContent(root, audio, insertAt);
      root := outcome.root;
      if outcome.Inserted? {
        selection := Selection(Some(audio), outcome.ancestors);
      }
    }
  }
}
