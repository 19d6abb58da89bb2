/**
 * Tree `Item` identity (Components/PerspectiveComponents/Common/Tree.py:18-90): an immutable linked
 * chain of labels from which the ancestry, the CSS locator and the slash-delimited path derive.
 */
module TreeItems {
  import opened Wrappers
  import opened Strings
  import opened Locators

  /** An item: its label, its parent item and the zero-indexed path Perspective derives (unused here). */
  datatype Item = Item(labelText: string, parent: Option<Item>, indexPath: Option<string>)

  /** `_ITEM_CLASS`. */
  const ItemClass: string := "tree-item"

  /**
   * `_build_ancestry` from a starting parent: walk up while there is a parent with a non-empty
   * label, listing the parents root-first. A parent with an empty label stops the walk and is
   * excluded, together with everything above it.
   */
  function Above(p: Option<Item>): (r: seq<Item>)
    ensures |r| == 0 <==> p.None? || |p.value.labelText| == 0
    ensures |r| > 0 ==> r[|r| - 1] == p.value
    ensures |r| > 0 ==> r[0].parent.None? || |r[0].parent.value.labelText| == 0
    ensures forall i :: 0 <= i < |r| ==> |r[i].labelText| > 0
    ensures forall i :: 0 < i < |r| ==> r[i].parent == Some(r[i - 1])
    decreases p
  {
    if p.None? || |p.value.labelText| == 0 then [] else Above(p.value.parent) + [p.value]
  }

  /** `get_ancestry`: the item's ancestors root-first, ending with the direct parent, the item excluded. */
  function Ancestry(item: Item): seq<Item> {
    Above(item.parent)
  }

  /** The labels of the ancestry followed by the own label: the `path_pieces` of `_build_locator`. */
  function Labels(item: Item): (r: seq<string>)
    ensures |r| == |Ancestry(item)| + 1
    ensures r[|r| - 1] == item.labelText
    ensures forall i :: 0 <= i < |Ancestry(item)| ==> r[i] == Ancestry(item)[i].labelText
  {
    LabelsOf(Ancestry(item)) + [item.labelText]
  }

  /** The labels of a list of items. */
  function LabelsOf(items: seq<Item>): (r: seq<string>)
    ensures |r| == |items| && forall i :: 0 <= i < |items| ==> r[i] == items[i].labelText
  {
    if |items| == 0 then [] else [items[0].labelText] + LabelsOf(items[1..])
  }

  /** `_build_path` / `get_path` / `str(item)`: the labels joined by `/`. */
  function Path(item: Item): string {
    Join("/", Labels(item))
  }

  /** One ancestry segment of the locator: any `-node` element carrying the label. */
  function NodeSegment(own: string): string {
    "[class*=\"-node\"][data-label=\"" + own + "\"]"
  }

  /** The terminal segment: the tree item itself carrying the own label. */
  function TerminalSegment(own: string): string {
    "." + ItemClass + "[data-label=\"" + own + "\"]"
  }

  /** The segments of the locator for a chain of labels: one per label, then the terminal one. */
  function Segments(labels: seq<string>): (r: seq<string>)
    requires |labels| > 0
    ensures |r| == |labels| + 1
    ensures forall i :: 0 <= i < |labels| ==> r[i] == NodeSegment(labels[i])
    ensures r[|labels|] == TerminalSegment(labels[|labels| - 1])
  {
    NodeSegments(labels) + [TerminalSegment(labels[|labels| - 1])]
  }

  function NodeSegments(labels: seq<string>): (r: seq<string>)
    ensures |r| == |labels| && forall i :: 0 <= i < |labels| ==> r[i] == NodeSegment(labels[i])
  {
    if |labels| == 0 then [] else [NodeSegment(labels[0])] + NodeSegments(labels[1..])
  }

  /**
   * The CSS locator for a chain of labels: the segments joined by the descendant combinator
   * (`ChainValueIsJoin`).
   */
  function ChainLocator(labels: seq<string>): (l: Locator)
    requires |labels| > 0
    ensures l.Located? && l.strategy == CssSelector
  {
    Located(CssSelector, ChainValue(labels))
  }

  /** The selector text for a chain of labels, built one node segment at a time. */
  function ChainValue(labels: seq<string>): string
    requires |labels| > 0
  {
    if |labels| == 1 then NodeSegment(labels[0]) + " " + TerminalSegment(labels[0])
    else NodeSegment(labels[0]) + " " + ChainValue(labels[1..])
  }

  /** The selector text is the space-join of the segments. */
  lemma {:induction false} ChainValueIsJoin(labels: seq<string>)
    requires |labels| > 0
    ensures ChainValue(labels) == Join(" ", Segments(labels))
    decreases |labels|
  {
    var segs := Segments(labels);
    if |labels| == 1 {
      assert segs == [NodeSegment(labels[0]), TerminalSegment(labels[0])];
      assert segs[1..] == [TerminalSegment(labels[0])];
    } else {
      ChainValueIsJoin(labels[1..]);
      assert segs[1..] == Segments(labels[1..]);
    }
  }

  /** `_build_locator` / `get_locator`. */
  function ItemLocator(item: Item): Locator {
    ChainLocator(Labels(item))
  }

  /**
   * The locator has one space-separated segment per label plus the terminal one, and they can be
   * read back when no label contains a space.
   */
  lemma LocatorSegments(item: Item)
    requires forall i :: 0 <= i < |Labels(item)| ==> ' ' !in Labels(item)[i]
    ensures Split(ItemLocator(item).value, ' ') == Segments(Labels(item))
    ensures |Split(ItemLocator(item).value, ' ')| == |Labels(item)| + 1
  {
    ChainSegments(Labels(item));
  }

  lemma ChainSegments(labels: seq<string>)
    requires |labels| > 0
    requires forall i :: 0 <= i < |labels| ==> ' ' !in labels[i]
    ensures Split(ChainLocator(labels).value, ' ') == Segments(labels)
  {
    var segs := Segments(labels);
    forall i | 0 <= i < |segs| ensures ' ' !in segs[i] {
      if i < |labels| {
        NodeSegmentHasNoSpace(labels[i]);
      } else {
        TerminalSegmentHasNoSpace(labels[|labels| - 1]);
      }
    }
    SplitJoin(segs, ' ');
    ChainValueIsJoin(labels);
  }

  lemma NodeSegmentHasNoSpace(own: string)
    requires ' ' !in own
    ensures ' ' !in NodeSegment(own)
  {
    var front := "[class*=\"-node\"][data-label=\"";
    assert ' ' !in front;
    assert ' ' !in "\"]";
    assert NodeSegment(own) == front + own + "\"]";
  }

  lemma TerminalSegmentHasNoSpace(own: string)
    requires ' ' !in own
    ensures ' ' !in TerminalSegment(own)
  {
    var front := "." + ItemClass + "[data-label=\"";
    assert ' ' !in front;
    assert ' ' !in "\"]";
    assert TerminalSegment(own) == front + own + "\"]";
  }

  /** Only the label chain identifies an item: equal chains give equal locators and paths. */
  lemma SameLabelsSameIdentity(a: Item, b: Item)
    requires Labels(a) == Labels(b)
    ensures ItemLocator(a) == ItemLocator(b) && Path(a) == Path(b)
  {
  }

  /** Under a parent with a non-empty label, the chain is the parent's chain plus the own label. */
  lemma ChildExtendsParent(parent: Item, own: string, indexPath: Option<string>)
    requires |parent.labelText| > 0
    ensures Ancestry(Item(own, Some(parent), indexPath)) == Ancestry(parent) + [parent]
    ensures Labels(Item(own, Some(parent), indexPath)) == Labels(parent) + [own]
  {
    var child := Item(own, Some(parent), indexPath);
    assert Ancestry(child) == Above(parent.parent) + [parent];
    var lp := Labels(parent);
    var lc := Labels(child);
    assert |lc| == |lp| + 1;
    forall i | 0 <= i < |lc| ensures lc[i] == (lp + [own])[i] {
      if i < |lp| - 1 {
        assert Ancestry(child)[i] == Ancestry(parent)[i];
      }
    }
  }

  /** A parent with an empty label cuts the chain: the child stands alone. */
  lemma EmptyLabelIsSentinel(parent: Item, own: string, indexPath: Option<string>)
    requires |parent.labelText| == 0
    ensures Ancestry(Item(own, Some(parent), indexPath)) == []
    ensures Labels(Item(own, Some(parent), indexPath)) == [own]
    ensures Path(Item(own, Some(parent), indexPath)) == own
  {
  }

  /** The documented example: "Child" under "Parent" under "Grandparent". */
  lemma GrandparentExample()
    ensures var g := Item("Grandparent", None, None);
            var p := Item("Parent", Some(g), None);
            var c := Item("Child", Some(p), None);
            && Ancestry(c) == [g, p]
            && Labels(c) == ["Grandparent", "Parent", "Child"]
            && Path(c) == "Grandparent/Parent/Child"
  {
    var g := Item("Grandparent", None, None);
    var p := Item("Parent", Some(g), None);
    var c := Item("Child", Some(p), None);
    ChildExtendsParent(g, "Parent", None);
    ChildExtendsParent(p, "Child", None);
    assert Labels(g) == ["Grandparent"];
    assert Labels(c) == ["Grandparent", "Parent", "Child"];
    assert Join("/", ["Child"]) == "Child";
    assert ["Grandparent", "Parent", "Child"][1..] == ["Parent", "Child"];
    assert ["Parent", "Child"][1..] == ["Child"];
  }
}
