/**
 * The accordion item's schema: the three model elements it registers,
 * the child check that forbids an accordion item directly inside an
 * accordion description, and the table of view descriptors that upcast,
 * data downcast and editing downcast use for each of them.
 */
module AccordionSchema {
  import opened Optional

  const AccordionItemName := "accordionItem"
  const TitleName := "accordionItemTitle"
  const DescriptionName := "accordionItemDescription"
  const ParagraphName := "paragraph"

  /** The model elements the plugin registers. */
  datatype AccordionElement = Item | Title | Description

  function ModelName(e: AccordionElement): (name: string)
    ensures name in {AccordionItemName, TitleName, DescriptionName}
  {
    match e
    case Item => AccordionItemName
    case Title => TitleName
    case Description => DescriptionName
  }

  /** The registered name is enough to tell the elements apart. */
  lemma ModelNameInjective(a: AccordionElement, b: AccordionElement)
    ensures ModelName(a) == ModelName(b) <==> a == b
  {
    if a != b {
      assert ModelName(a)[10] != ModelName(b)[10] || |ModelName(a)| != |ModelName(b)|;
    }
  }

  /** The properties an element is registered with; generic items are named as the schema names them. */
  datatype ItemDefinition = ItemDefinition(
    isObject: bool,
    isLimit: bool,
    allowIn: Option<string>,
    allowWhere: Option<string>,
    allowContentOf: Option<string>)

  /** What `_defineSchema` registers for each element. */
  function Registration(e: AccordionElement): (def: ItemDefinition)
    ensures def.isObject <==> e == Item
    ensures def.isLimit <==> e != Item
    ensures e != Item <==> def.allowIn == Some(AccordionItemName)
    ensures e == Item <==> def.allowWhere == Some("$block")
  {
    match e
    case Item => ItemDefinition(true, false, None, Some("$block"), None)
    case Title => ItemDefinition(false, true, Some(AccordionItemName), None, Some("$block"))
    case Description => ItemDefinition(false, true, Some(AccordionItemName), None, Some("$root"))
  }

  /** `context.endsWith(name)` for a one-name query: the innermost context item has that name. */
  predicate EndsWith(context: seq<string>, name: string) {
    |context| > 0 && context[|context| - 1] == name
  }

  /**
   * The callback given to `schema.addChildCheck`: `Some(false)` vetoes the
   * child, `None` is the callback returning `undefined`, which leaves the
   * decision to the registered rules. It never answers `Some(true)`.
   */
  function AccordionChildCheck(context: seq<string>, childName: string): (verdict: Option<bool>)
    ensures verdict != Some(true)
    ensures verdict == Some(false) <==> EndsWith(context, DescriptionName) && childName == AccordionItemName
  {
    if EndsWith(context, DescriptionName) && childName == AccordionItemName then Some(false) else None
  }

  /**
   * How the engine combines a child-check callback with the registered
   * rules: a boolean verdict decides, no verdict defers to the rules.
   * The rules themselves are the engine's and are a parameter here.
   * Whatever they say, an accordion item is refused directly inside a
   * description, and every other question gets the rules' own answer.
   */
  function CheckChild(registeredRules: (seq<string>, string) -> bool, context: seq<string>, childName: string): (allowed: bool)
    ensures EndsWith(context, DescriptionName) && childName == AccordionItemName ==> !allowed
    ensures !(EndsWith(context, DescriptionName) && childName == AccordionItemName) ==>
      allowed == registeredRules(context, childName)
  {
    match AccordionChildCheck(context, childName)
    case Some(verdict) => verdict
    case None => registeredRules(context, childName)
  }

  /** An accordion item may still sit inside an item that is itself inside a description. */
  lemma NestingOneLevelDownIsNotVetoed(outer: seq<string>)
    ensures AccordionChildCheck(outer + [DescriptionName, AccordionItemName], AccordionItemName).None?
  {
    var context := outer + [DescriptionName, AccordionItemName];
    assert context[|context| - 1] == AccordionItemName;
    assert AccordionItemName != DescriptionName by {
      assert |AccordionItemName| != |DescriptionName|;
    }
  }

  /** A view element as the converters describe it: its name and its classes. */
  datatype ViewDescriptor = ViewDescriptor(name: string, classes: set<string>)

  /** The view each element is written as by the data downcast. */
  function DataView(e: AccordionElement): ViewDescriptor {
    match e
    case Item => ViewDescriptor("details", {"accordion-item"})
    case Title => ViewDescriptor("summary", {"accordion-item-title"})
    case Description => ViewDescriptor("div", {"accordion-item-description"})
  }

  /**
   * The view each element is rendered as in the editing view, before it
   * is made a widget or an editable: the same as the data view except
   * that the description becomes a `p`.
   */
  function EditingView(e: AccordionElement): ViewDescriptor {
    match e
    case Item => ViewDescriptor("details", {"accordion-item"})
    case Title => ViewDescriptor("summary", {"accordion-item-title"})
    case Description => ViewDescriptor("p", {"accordion-item-description"})
  }

  /**
   * The upcast converters: a view element matches a descriptor when it has
   * the descriptor's name and at least its classes. The three upcast
   * descriptors are written out on their own, as the source registers them.
   */
  function UpcastView(viewName: string, classes: set<string>): (e: Option<AccordionElement>)
    ensures e.Some? ==> DataView(e.value).name == viewName && DataView(e.value).classes <= classes
    ensures e.None? ==> forall d :: !(DataView(d).name == viewName && DataView(d).classes <= classes)
  {
    if viewName == "details" && "accordion-item" in classes then Some(Item)
    else if viewName == "summary" && "accordion-item-title" in classes then Some(Title)
    else if viewName == "div" && "accordion-item-description" in classes then Some(Description)
    else None
  }

  /** Data downcast followed by upcast gives back the model element. */
  lemma DataRoundTrip(e: AccordionElement)
    ensures UpcastView(DataView(e).name, DataView(e).classes) == Some(e)
  {
    match e
    case Item =>
    case Title =>
      assert "summary" != "details";
    case Description =>
      assert "div" != "details" && "div" != "summary";
  }

  /** No two elements share a data view, so the table is a bijection onto its three views. */
  lemma {:induction false} DataViewInjective(a: AccordionElement, b: AccordionElement)
    ensures DataView(a) == DataView(b) <==> a == b
  {
    if DataView(a) == DataView(b) {
      DataRoundTrip(a);
      DataRoundTrip(b);
    }
  }

  /** Upcast then data downcast gives back the descriptor when the view carries exactly those classes. */
  lemma UpcastRoundTrip(viewName: string, classes: set<string>)
    requires UpcastView(viewName, classes).Some?
    requires classes == DataView(UpcastView(viewName, classes).value).classes
    ensures DataView(UpcastView(viewName, classes).value) == ViewDescriptor(viewName, classes)
  {
  }

  /**
   * The editing view agrees with the data view for the item and its
   * title and differs for the description alone, whose editing view
   * (a `p`) the upcast does not recognise.
   */
  lemma EditingDiffersOnlyForDescription(e: AccordionElement)
    ensures EditingView(e) == DataView(e) <==> e != Description
    ensures EditingView(e).classes == DataView(e).classes
    ensures UpcastView(EditingView(Description).name, EditingView(Description).classes).None?
  {
    assert "p" != "div";
  }
}
