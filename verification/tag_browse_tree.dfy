/**
 * `TagBrowseTree` (Components/PerspectiveComponents/Displays/TagBrowseTree.py): the tree item built
 * for a tag path, and the overrides that refuse plain item selection.
 */
module TagBrowseTree {
  import opened Wrappers
  import opened Failures
  import opened Strings
  import opened TreeItems

  /** The labels along an item's whole parent chain, root first, empty labels included. */
  function ChainLabels(item: Item): (r: seq<string>)
    ensures |r| > 0 && r[|r| - 1] == item.labelText
    decreases item
  {
    if item.parent.None? then [item.labelText] else ChainLabels(item.parent.value) + [item.labelText]
  }

  /** The root of an item's parent chain. */
  function Root(item: Item): Item
    decreases item
  {
    if item.parent.None? then item else Root(item.parent.value)
  }

  /** The non-empty strings of a list, in order. */
  function NonEmpty(pieces: seq<string>): (r: seq<string>)
    ensures |r| <= |pieces|
    ensures forall i :: 0 <= i < |r| ==> |r[i]| > 0
  {
    if |pieces| == 0 then [] else (if |pieces[0]| > 0 then [pieces[0]] else []) + NonEmpty(pieces[1..])
  }

  function Reverse<T>(s: seq<T>): (r: seq<T>)
    ensures |r| == |s|
    ensures forall i :: 0 <= i < |s| ==> r[i] == s[|s| - 1 - i]
  {
    if |s| == 0 then [] else Reverse(s[1..]) + [s[0]]
  }

  /** The loop of `_item_from_tag` as written: pieces are popped from the END of the list. */
  function PopFromEnd(item: Item, rest: seq<string>): (r: Item)
    ensures ChainLabels(r) == ChainLabels(item) + Reverse(NonEmpty(rest))
    ensures Root(r) == Root(item)
    decreases |rest|
  {
    if |rest| == 0 then item
    else
      var piece := rest[|rest| - 1];
      var init := rest[..|rest| - 1];
      var next := if |piece| > 0 then Item(piece, Some(item), None) else item;
      var kept := if |piece| > 0 then [piece] else [];
      assert init + [piece] == rest;
      NonEmptyOfSnoc(init, piece);
      ReverseAppend(NonEmpty(init), kept);
      assert ChainLabels(next) == ChainLabels(item) + kept;
      PopFromEnd(next, init)
  }

  lemma ReverseAppend<T>(s: seq<T>, t: seq<T>)
    requires |t| <= 1
    ensures Reverse(s + t) == t + Reverse(s)
  {
    if |t| == 1 {
      var r := Reverse(s + t);
      assert forall i :: 0 <= i < |r| ==> r[i] == (t + Reverse(s))[i];
    } else {
      assert s + t == s;
    }
  }

  lemma {:induction false} NonEmptyOfSnoc(s: seq<string>, x: string)
    ensures NonEmpty(s + [x]) == NonEmpty(s) + (if |x| > 0 then [x] else [])
    decreases |s|
  {
    if |s| == 0 {
      assert s + [x] == [x];
    } else {
      assert (s + [x])[1..] == s[1..] + [x];
      NonEmptyOfSnoc(s[1..], x);
    }
  }

  /**
   * `_item_from_tag` as written, from the part of the tag path after the provider: the first piece
   * becomes a parentless root (even when empty), then the remaining pieces, taken from the end,
   * each become a child of the item built so far, empty pieces skipped.
   */
  function ItemFromTagAsWritten(tagPath: string): (r: Item)
    ensures var pieces := Split(tagPath, '/');
            ChainLabels(r) == [pieces[0]] + Reverse(NonEmpty(pieces[1..]))
  {
    var pieces := Split(tagPath, '/');
    PopFromEnd(Item(pieces[0], None, None), pieces[1..])
  }

  /** The corrected loop: pieces are taken from the FRONT of the list, so parents come first. */
  function TakeFromFront(item: Item, rest: seq<string>): (r: Item)
    ensures ChainLabels(r) == ChainLabels(item) + NonEmpty(rest)
    ensures Root(r) == Root(item)
    decreases |rest|
  {
    if |rest| == 0 then item
    else
      var piece := rest[0];
      var next := if |piece| > 0 then Item(piece, Some(item), None) else item;
      TakeFromFront(next, rest[1..])
  }

  /** `_item_from_tag` as intended: the item chain follows the tag path from the root. */
  function ItemFromTag(tagPath: string): (r: Item)
    ensures var pieces := Split(tagPath, '/');
            ChainLabels(r) == [pieces[0]] + NonEmpty(pieces[1..])
  {
    var pieces := Split(tagPath, '/');
    TakeFromFront(Item(pieces[0], None, None), pieces[1..])
  }

  /** Both builders make one item per non-empty piece after the first, on a root made from the first. */
  lemma ChainLength(tagPath: string)
    ensures var pieces := Split(tagPath, '/');
            && |ChainLabels(ItemFromTagAsWritten(tagPath))| == 1 + |NonEmpty(pieces[1..])|
            && |ChainLabels(ItemFromTag(tagPath))| == 1 + |NonEmpty(pieces[1..])|
            && Root(ItemFromTagAsWritten(tagPath)) == Root(ItemFromTag(tagPath)) == Item(pieces[0], None, None)
  {
  }

  /** As written, the returned item carries the first non-empty piece after the root, not the last. */
  lemma AsWrittenReturnsFirstPiece(tagPath: string)
    ensures var pieces := Split(tagPath, '/');
            var later := NonEmpty(pieces[1..]);
            ItemFromTagAsWritten(tagPath).labelText == if |later| > 0 then later[0] else pieces[0]
  {
  }

  /** Every label along the chain is non-empty. */
  ghost predicate NoEmptyLabels(item: Item)
    decreases item
  {
    |item.labelText| > 0 && (item.parent.Some? ==> NoEmptyLabels(item.parent.value))
  }

  /** Without empty labels, the chain is exactly what ancestry, locator and path are built from. */
  lemma {:induction false} LabelsAreChain(item: Item)
    requires NoEmptyLabels(item)
    ensures Labels(item) == ChainLabels(item)
    decreases item
  {
    if item.parent.Some? {
      LabelsAreChain(item.parent.value);
      ChildExtendsParent(item.parent.value, item.labelText, item.indexPath);
    }
  }

  lemma {:induction false} TakeFromFrontKeepsLabels(item: Item, rest: seq<string>)
    requires NoEmptyLabels(item)
    ensures NoEmptyLabels(TakeFromFront(item, rest))
    decreases |rest|
  {
    if |rest| > 0 {
      var next := if |rest[0]| > 0 then Item(rest[0], Some(item), None) else item;
      TakeFromFrontKeepsLabels(next, rest[1..]);
    }
  }

  /**
   * The corrected item's path is the tag path itself whenever no piece is empty: the round trip
   * `get_path(_item_from_tag(tag))` is the tag's path below its provider.
   */
  lemma PathRoundTrip(tagPath: string)
    requires forall i :: 0 <= i < |Split(tagPath, '/')| ==> |Split(tagPath, '/')[i]| > 0
    ensures Path(ItemFromTag(tagPath)) == tagPath
  {
    var pieces := Split(tagPath, '/');
    TakeFromFrontKeepsLabels(Item(pieces[0], None, None), pieces[1..]);
    LabelsAreChain(ItemFromTag(tagPath));
    NonEmptyKeepsAll(pieces[1..]);
    assert [pieces[0]] + pieces[1..] == pieces;
    JoinSplit(tagPath, '/');
  }

  lemma {:induction false} NonEmptyKeepsAll(pieces: seq<string>)
    requires forall i :: 0 <= i < |pieces| ==> |pieces[i]| > 0
    ensures NonEmpty(pieces) == pieces
    decreases |pieces|
  {
    if |pieces| > 0 {
      NonEmptyKeepsAll(pieces[1..]);
      assert [pieces[0]] + pieces[1..] == pieces;
    }
  }

  lemma ThreePieces()
    ensures Split("A/B/C", '/') == ["A", "B", "C"]
  {
    SplitJoin(["A", "B", "C"], '/');
    assert ["A", "B", "C"][1..] == ["B", "C"];
    assert ["B", "C"][1..] == ["C"];
    assert Join("/", ["A", "B", "C"]) == "A/B/C";
  }

  lemma LaterPieces()
    ensures NonEmpty(["B", "C"]) == ["B", "C"]
    ensures Reverse(["B", "C"]) == ["C", "B"]
  {
    assert ["B", "C"][1..] == ["C"];
    assert ["C"][1..] == [];
  }

  /** "A/B/C": as written the chain runs A, C, B and the item is "B"; corrected it runs A, B, C. */
  lemma ThreeLevelTag()
    ensures ChainLabels(ItemFromTagAsWritten("A/B/C")) == ["A", "C", "B"]
    ensures ItemFromTagAsWritten("A/B/C").labelText == "B"
    ensures ChainLabels(ItemFromTag("A/B/C")) == ["A", "B", "C"]
    ensures Path(ItemFromTag("A/B/C")) == "A/B/C"
  {
    ThreeLevelAsWritten();
    ThreeLevelCorrected();
  }

  lemma ThreeLevelAsWritten()
    ensures ChainLabels(ItemFromTagAsWritten("A/B/C")) == ["A", "C", "B"]
    ensures ItemFromTagAsWritten("A/B/C").labelText == "B"
  {
    ThreePieces();
    var pieces := Split("A/B/C", '/');
    assert pieces[1..] == ["B", "C"];
    LaterPieces();
    var r := ItemFromTagAsWritten("A/B/C");
    assert ChainLabels(r) == ["A"] + ["C", "B"];
  }

  lemma ThreeLevelCorrected()
    ensures ChainLabels(ItemFromTag("A/B/C")) == ["A", "B", "C"]
    ensures Path(ItemFromTag("A/B/C")) == "A/B/C"
  {
    ThreePieces();
    var pieces := Split("A/B/C", '/');
    assert pieces[1..] == ["B", "C"];
    LaterPieces();
    var r := ItemFromTag("A/B/C");
    assert ChainLabels(r) == ["A"] + ["B", "C"];
    PathRoundTrip("A/B/C");
  }

  /** The `multi_select` override: plain items are refused, tags must be used. */
  function MultiSelect(items: seq<Item>, inclusive: bool): (r: Result<(), Error>)
    ensures r == Failure(NotImplemented)
  {
    Failure(NotImplemented)
  }

  /** The `select_item` override: plain items are refused, tags must be used. */
  function SelectItem(item: Item): (r: Result<(), Error>)
    ensures r == Failure(NotImplemented)
  {
    Failure(NotImplemented)
  }
}
