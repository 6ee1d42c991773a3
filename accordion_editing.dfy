/**
 * The imperative half of the accordion item: `createAccordionItem`, which
 * builds the item through successive writer calls, and the insert
 * command's `refresh`, which sets whether the command is enabled.
 *
 * The model writer is a store of elements indexed by handle: the name of
 * each created element and the handles of its children in order. It
 * models only what `createAccordionItem` asks of the engine's writer.
 */
module AccordionItemEditing {
  import opened Optional
  import opened EditorTree
  import opened AccordionSchema

  /** The element tree rooted at handle `h`, read out of the store; `fuel` bounds the depth. */
  ghost function Build(names: seq<string>, kids: seq<seq<nat>>, h: nat, fuel: nat): Node
    decreases fuel, 0
  {
    if fuel == 0 || h >= |names| || h >= |kids| then Text("")
    else Element(names[h], map[], BuildAll(names, kids, kids[h], fuel - 1))
  }

  ghost function BuildAll(names: seq<string>, kids: seq<seq<nat>>, hs: seq<nat>, fuel: nat): seq<Node>
    decreases fuel, 1, |hs|
  {
    if hs == [] then [] else [Build(names, kids, hs[0], fuel)] + BuildAll(names, kids, hs[1..], fuel)
  }

  class Writer {
    var names: seq<string>
    var kids: seq<seq<nat>>

    ghost predicate Valid()
      reads this
    {
      |names| == |kids| && forall h, k :: 0 <= h < |kids| && k in kids[h] ==> k < |names|
    }

    /** No element of the store has `h` among its children. */
    ghost predicate Detached(h: nat)
      reads this
    {
      forall p :: 0 <= p < |kids| ==> h !in kids[p]
    }

    /** The element tree rooted at `h`, as far down as the store goes. */
    ghost function Tree(h: nat): Node
      reads this
    {
      Build(names, kids, h, |names|)
    }

    constructor ()
      ensures Valid() && names == [] && kids == []
    {
      names := [];
      kids := [];
    }

    /** `writer.createElement(name)`: a new element with no attributes, no children and no parent. */
    method CreateElement(name: string) returns (h: nat)
      requires Valid()
      modifies this
      ensures Valid() && Detached(h)
      ensures h == old(|names|)
      ensures names == old(names) + [name] && kids == old(kids) + [[]]
    {
      h := |names|;
      names := names + [name];
      kids := kids + [[]];
    }

    /** `writer.append(child, parent)` for an element that has no parent yet. */
    method Append(child: nat, parent: nat)
      requires Valid() && child < |names| && parent < |names|
      requires child != parent && Detached(child)
      modifies this
      ensures Valid()
      ensures names == old(names) && kids == old(kids)[parent := old(kids)[parent] + [child]]
    {
      kids := kids[parent := kids[parent] + [child]];
    }

    /** `writer.appendElement(name, parent)`: create an element and append it. */
    method AppendElement(name: string, parent: nat) returns (h: nat)
      requires Valid() && parent < |names|
      modifies this
      ensures Valid()
      ensures h == old(|names|)
      ensures names == old(names) + [name] && kids == old(kids)[parent := old(kids)[parent] + [h]] + [[]]
    {
      h := CreateElement(name);
      Append(h, parent);
    }
  }

  /** The fragment `createAccordionItem` builds: an item holding an empty title and a description with one empty paragraph. */
  function AccordionItemTemplate(): Node {
    Element(AccordionItemName, map[], [
      Element(TitleName, map[], []),
      Element(DescriptionName, map[], [Element(ParagraphName, map[], [])])])
  }

  lemma BuildLeaf(names: seq<string>, kids: seq<seq<nat>>, h: nat, fuel: nat)
    requires h < |names| == |kids| && kids[h] == [] && fuel > 0
    ensures Build(names, kids, h, fuel) == Element(names[h], map[], [])
  {
  }

  lemma BuildAllPair(names: seq<string>, kids: seq<seq<nat>>, a: nat, b: nat, fuel: nat)
    ensures BuildAll(names, kids, [a, b], fuel) == [Build(names, kids, a, fuel), Build(names, kids, b, fuel)]
  {
    assert [a, b][1..] == [b];
    BuildAllSingle(names, kids, b, fuel);
  }

  lemma BuildAllSingle(names: seq<string>, kids: seq<seq<nat>>, a: nat, fuel: nat)
    ensures BuildAll(names, kids, [a], fuel) == [Build(names, kids, a, fuel)]
  {
    assert [a][1..] == [];
  }

  /** The four handles `createAccordionItem` creates, read back as a tree. */
  lemma ItemTreeIsTemplate(names: seq<string>, kids: seq<seq<nat>>, n: nat)
    requires |names| == |kids| == n + 4
    requires names[n..] == [AccordionItemName, TitleName, DescriptionName, ParagraphName]
    requires kids[n..] == [[n + 1, n + 2], [], [n + 3], []]
    ensures Build(names, kids, n, |names|) == AccordionItemTemplate()
  {
    var f := |names|;
    assert names[n] == AccordionItemName && names[n + 1] == TitleName;
    assert names[n + 2] == DescriptionName && names[n + 3] == ParagraphName;
    assert kids[n] == [n + 1, n + 2] && kids[n + 1] == [] && kids[n + 2] == [n + 3] && kids[n + 3] == [];
    BuildLeaf(names, kids, n + 1, f - 2);
    BuildLeaf(names, kids, n + 3, f - 3);
    BuildAllSingle(names, kids, n + 3, f - 2);
    assert Build(names, kids, n + 2, f - 1) == Element(DescriptionName, map[], [Element(ParagraphName, map[], [])]);
    BuildAllPair(names, kids, n + 1, n + 2, f - 1);
  }

  /**
   * `createAccordionItem(writer)`: creates the item, its title and its
   * description, appends the title and then the description to the item,
   * appends a paragraph to the description, and returns the item. Nothing
   * the writer held before is changed.
   */
  method CreateAccordionItem(w: Writer) returns (item: nat)
    requires w.Valid()
    modifies w
    ensures w.Valid()
    ensures item == old(|w.names|) && |w.names| == item + 4
    ensures w.names[..item] == old(w.names) && w.kids[..item] == old(w.kids)
    ensures w.Tree(item) == AccordionItemTemplate()
  {
    item := w.CreateElement(AccordionItemName);
    var title := w.CreateElement(TitleName);
    var description := w.CreateElement(DescriptionName);
    w.Append(title, item);
    w.Append(description, item);
    var paragraph := w.AppendElement(ParagraphName, description);
    assert w.names[item..] == [AccordionItemName, TitleName, DescriptionName, ParagraphName];
    assert w.kids[item] == [title, description] && w.kids[title] == [];
    assert w.kids[description] == [paragraph] && w.kids[paragraph] == [];
    assert w.kids[item..] == [[title, description], [], [paragraph], []];
    ItemTreeIsTemplate(w.names, w.kids, item);
  }

  /**
   * The built fragment fits the registered schema: each child of the item
   * is registered as allowed in the item, both are limits, and the item is
   * an object.
   */
  lemma {:induction false} TemplateFitsRegistration()
    ensures var t := AccordionItemTemplate();
      Registration(Item).isObject
      && ModelName(Item) == t.name
      && |t.children| == 2
      && t.children[0].name == ModelName(Title)
      && t.children[1].name == ModelName(Description)
      && forall e :: e != Item ==> Registration(e).allowIn == Some(t.name) && Registration(e).isLimit
  {
    forall e | e != Item ensures Registration(e).allowIn == Some(AccordionItemName) && Registration(e).isLimit {
      var def := Registration(e);
      assert def.allowIn == Some(AccordionItemName);
    }
  }

  /**
   * Inserting the fragment is refused by the child check exactly where
   * the innermost context element is a description; nothing inside the
   * fragment is ever refused by it.
   */
  lemma {:induction false} TemplateVetoedOnlyInDescription(context: seq<string>)
    ensures AccordionChildCheck(context, AccordionItemTemplate().name) == Some(false) <==> EndsWith(context, DescriptionName)
    ensures AccordionChildCheck(context + [AccordionItemName], TitleName).None?
    ensures AccordionChildCheck(context + [AccordionItemName], DescriptionName).None?
    ensures AccordionChildCheck(context + [AccordionItemName, DescriptionName], ParagraphName).None?
  {
    assert TitleName != AccordionItemName && DescriptionName != AccordionItemName by {
      assert |TitleName| != |AccordionItemName| && |DescriptionName| != |AccordionItemName|;
    }
    assert ParagraphName != AccordionItemName by {
      assert |ParagraphName| != |AccordionItemName|;
    }
  }

  /** `InsertAccordionItemCommand`: the part of the command whose state `refresh` sets. */
  class InsertAccordionItemCommand {
    var isEnabled: bool

    constructor ()
      ensures !isEnabled
    {
      isEnabled := false;
    }

    /**
     * `refresh()`: enabled exactly when the engine finds a parent that
     * allows an accordion item for the selection's first position.
     */
    method Refresh(firstPosition: Position, findAllowedParent: (Position, string) -> Option<Node>)
      modifies this
      ensures isEnabled <==> findAllowedParent(firstPosition, AccordionItemName).Some?
    {
      var allowedIn := findAllowedParent(firstPosition, AccordionItemName);
      isEnabled := allowedIn.Some?;
    }
  }
}
