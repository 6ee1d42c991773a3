/**
 * `getViewAudioFromWidget`: the `audio` view element inside an audio
 * widget's `figure`. The code lists every child of the figure followed by
 * that child's own children, then takes the first `audio` element of the
 * list; nothing deeper than a grandchild is looked at.
 */
module WidgetAudio {
  import opened Optional
  import opened EditorTree

  /** A child of the figure, then its children when it is an element. */
  function ChildThenItsChildren(child: Node): seq<Node> {
    [child] + (if child.Element? then child.children else [])
  }

  /** The list the code assembles from the figure's children, in the same order. */
  function WidgetCandidates(children: seq<Node>): seq<Node> {
    if children == [] then []
    else WidgetCandidates(children[..|children| - 1]) + ChildThenItsChildren(children[|children| - 1])
  }

  predicate IsAudio(n: Node) {
    IsElementNamed(n, "audio")
  }

  /** The search only ever sees children and grandchildren of the figure, and all of them. */
  lemma {:induction false} CandidatesAreChildrenAndGrandchildren(children: seq<Node>, n: Node)
    ensures n in WidgetCandidates(children) <==>
      n in children || exists c :: c in children && c.Element? && n in c.children
  {
    if children != [] {
      var init, last := children[..|children| - 1], children[|children| - 1];
      CandidatesAreChildrenAndGrandchildren(init, n);
      assert children == init + [last];
      if n in WidgetCandidates(children) && n !in WidgetCandidates(init) {
        assert n == last || (last.Element? && n in last.children);
      }
      if c :| c in children && c.Element? && n in c.children {
        if c != last {
          assert c in init;
        }
      }
    }
  }

  /**
   * The first `audio` element among the candidates, or `None` (the
   * source's `undefined`) when there is none.
   */
  method GetViewAudioFromWidget(figure: Node) returns (audio: Option<Node>)
    requires figure.Element?
    ensures audio.Some? ==>
      IsAudio(audio.value)
      && exists i :: 0 <= i < |WidgetCandidates(figure.children)|
           && WidgetCandidates(figure.children)[i] == audio.value
           && forall k :: 0 <= k < i ==> !IsAudio(WidgetCandidates(figure.children)[k])
    ensures audio.None? ==> forall n :: n in WidgetCandidates(figure.children) ==> !IsAudio(n)
  {
    var children := figure.children;
    var figureChildren: seq<Node> := [];
    var i := 0;
    while i < |children|
      invariant 0 <= i <= |children|
      invariant figureChildren == WidgetCandidates(children[..i])
    {
      var child := children[i];
      figureChildren := figureChildren + [child];
      if child.Element? {
        figureChildren := figureChildren + child.children;
      }
      assert children[..i + 1][..i] == children[..i];
      i := i + 1;
    }
    assert children[..|children|] == children;

    var j := 0;
    while j < |figureChildren|
      invariant 0 <= j <= |figureChildren|
      invariant forall k :: 0 <= k < j ==> !IsAudio(figureChildren[k])
    {
      if IsAudio(figureChildren[j]) {
        return Some(figureChildren[j]);
      }
      j := j + 1;
    }
    return None;
  }

  /** A figure with an `audio` element wrapped one level down: the search reaches it. */
  lemma WrappedAudioIsFound(audio: Node, wrapper: Node)
    requires IsAudio(audio) && wrapper.Element? && wrapper.children == [audio]
    ensures exists n :: n in WidgetCandidates([wrapper]) && IsAudio(n)
  {
    assert WidgetCandidates([wrapper]) == [wrapper, audio];
  }

  /** An `audio` element three levels down is out of reach. */
  lemma {:induction false} DeepAudioIsNotFound(audio: Node, inner: Node, wrapper: Node)
    requires IsAudio(audio) && inner == Element("div", map[], [audio]) && wrapper == Element("div", map[], [inner])
    ensures forall n :: n in WidgetCandidates([wrapper]) ==> !IsAudio(n)
  {
    assert WidgetCandidates([wrapper]) == [wrapper, inner];
  }
}
