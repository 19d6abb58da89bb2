/**
 * `CommonTree` (Components/PerspectiveComponents/Common/Tree.py:93-457): the memo caches of item,
 * icon and label pieces, the expansion walk with its restarts, the expansion toggle and the
 * multi-selection gesture.
 */
module CommonTree {
  import opened Wrappers
  import opened Failures
  import opened Strings
  import opened Locators
  import opened TreeItems
  import opened ComponentPieces
  import opened TypedKeys
  import ElementPolicies

  // ---------------------------------------------------------------------------------------------
  // The caches

  /** `_get_item`'s default timeout. */
  const ItemTimeout: real := 5.0

  /** The timeout of the icon pieces; `CommonIcon` is not part of this model, its default is taken as the piece's. */
  const IconTimeout: real := DefaultTimeout

  /** The pieces cached per item besides the item itself, one dictionary each. */
  datatype ChildKind = ExpansionIcon | NodeIcon | LabelText

  /** The locator each child piece is built with, under the item's locator list. */
  function ChildLocator(kind: ChildKind): (l: Locator)
    ensures Truthy(l)
  {
    match kind
    case ExpansionIcon => Located(CssSelector, "svg.expand-icon")
    case NodeIcon => Located(CssSelector, "svg.node-icon")
    case LabelText => Located(CssSelector, "div.label-wrapper-text")
  }

  function ChildTimeout(kind: ChildKind): real {
    if kind == LabelText then DefaultTimeout else IconTimeout
  }

  /**
   * What the caches are keyed by. The code keys them by `str(item)`, the path; keying by the
   * label chain is the corrected choice (see `Faithful`).
   */
  datatype Keying = ByPath | ByLabels

  function Key(keying: Keying, item: Item): (k: seq<string>)
    ensures |k| > 0
  {
    match keying
    case ByPath => [Path(item)]
    case ByLabels => Labels(item)
  }

  /**
   * The tree's locator list and its four dictionaries: `_items`, and `_expand_collapse_icons`,
   * `_item_icons` and `_labels` held as one map keyed by kind and item key.
   */
  datatype Caches = Caches(
    treeChain: seq<Locator>,
    items: map<seq<string>, Piece>,
    children: map<(ChildKind, seq<string>), Piece>,
    nextId: nat)

  /**
   * Every item piece hangs under the tree's locator list with a CSS item locator, and every child
   * piece hangs under the item piece cached for the same key.
   */
  ghost predicate Coherent(c: Caches) {
    && |c.treeChain| > 0
    && (forall k :: k in c.items ==>
          c.items[k].parent == c.treeChain && c.items[k].own.Located? && c.items[k].id < c.nextId)
    && (forall kk :: kk in c.children ==>
          && kk.1 in c.items
          && c.children[kk].parent == c.items[kk.1].Chain()
          && c.children[kk].own == ChildLocator(kk.0)
          && c.children[kk].id < c.nextId)
  }

  /** Each cached item piece locates the items its key stands for: holds when keyed by label chain. */
  ghost predicate Faithful(c: Caches) {
    forall k :: k in c.items ==> |k| > 0 && c.items[k].own == ChainLocator(k)
  }

  function EmptyCaches(treeChain: seq<Locator>): (c: Caches)
    requires |treeChain| > 0
    ensures Coherent(c) && Faithful(c)
  {
    Caches(treeChain, map[], map[], 0)
  }

  /**
   * The dictionary lookup behind `_get_item`: the piece cached under `key`, or a new piece for the
   * locator `own` under the tree's locator list, with the given timeout.
   */
  function Lookup(c: Caches, key: seq<string>, own: Locator, timeout: real): (r: (Caches, Piece))
    ensures key in r.0.items && r.0.items[key] == r.1
    ensures r.0.treeChain == c.treeChain && r.0.children == c.children
    ensures key in c.items ==> r == (c, c.items[key])
    ensures key !in c.items ==>
              && r.1 == Piece(c.nextId, own, c.treeChain, timeout)
              && r.0.items == c.items[key := r.1]
              && r.0.nextId == c.nextId + 1
  {
    if key in c.items then
      (c, c.items[key])
    else
      var p := Piece(c.nextId, own, c.treeChain, timeout);
      (c.(items := c.items[key := p], nextId := c.nextId + 1), p)
  }

  /** A lookup of a CSS locator keeps the caches coherent; the piece hangs under the tree's list. */
  lemma LookupKeepsCoherent(c: Caches, key: seq<string>, own: Locator, timeout: real)
    requires Coherent(c) && own.Located?
    ensures var r := Lookup(c, key, own, timeout);
            && Coherent(r.0)
            && r.1.parent == c.treeChain && r.1.own.Located?
            && r.1.Chain() == c.treeChain + [r.1.own]
  {
    var r := Lookup(c, key, own, timeout);
    if key !in c.items {
      forall kk | kk in r.0.children
        ensures kk.1 in r.0.items && r.0.children[kk].parent == r.0.items[kk.1].Chain()
      {
        assert kk.1 != key;
      }
    }
  }

  /** A lookup whose locator is the one for its key chain keeps the cache faithful. */
  lemma LookupKeepsFaithful(c: Caches, key: seq<string>, own: Locator, timeout: real)
    requires Faithful(c) && |key| > 0 && own == ChainLocator(key)
    ensures Lookup(c, key, own, timeout).1.own == own
    ensures Faithful(Lookup(c, key, own, timeout).0)
  {
  }

  /**
   * `_get_item`: the cached piece for the item's key, or a new piece for the item's locator under
   * the tree's locator list, with the given timeout.
   */
  function GetItem(c: Caches, keying: Keying, item: Item, timeout: real): (r: (Caches, Piece))
    ensures Key(keying, item) in r.0.items && r.0.items[Key(keying, item)] == r.1
    ensures r.0.treeChain == c.treeChain && r.0.children == c.children
    ensures Key(keying, item) in c.items ==> r == (c, c.items[Key(keying, item)])
    ensures Key(keying, item) !in c.items ==>
              && r.1 == Piece(c.nextId, ItemLocator(item), c.treeChain, timeout)
              && r.0.items == c.items[Key(keying, item) := r.1]
              && r.0.nextId == c.nextId + 1
  {
    Lookup(c, Key(keying, item), ItemLocator(item), timeout)
  }

  /** An item piece, cached or new, hangs under the tree's locator list; the caches stay coherent. */
  lemma GetItemKeepsCoherent(c: Caches, keying: Keying, item: Item, timeout: real)
    requires Coherent(c)
    ensures var r := GetItem(c, keying, item, timeout);
            && Coherent(r.0)
            && r.1.parent == c.treeChain && r.1.own.Located?
            && r.1.Chain() == c.treeChain + [r.1.own]
  {
    LookupKeepsCoherent(c, Key(keying, item), ItemLocator(item), timeout);
  }

  /** `_get_item`'s timeout takes effect only on the call that builds the piece. */
  lemma TimeoutOnlyOnFirstCall(c: Caches, keying: Keying, item: Item, t1: real, t2: real)
    ensures GetItem(GetItem(c, keying, item, t1).0, keying, item, t2) == GetItem(c, keying, item, t1)
  {
  }

  /**
   * The lookup behind the child getters: the child piece cached under `(kind, key)`, or a new one
   * under the locator list of the item piece looked up (and cached) for `key` and `itemOwn`.
   */
  function ChildLookup(c: Caches, key: seq<string>, itemOwn: Locator, kind: ChildKind): (r: (Caches, Piece))
    ensures (kind, key) in r.0.children && r.0.children[(kind, key)] == r.1
    ensures r.0.treeChain == c.treeChain
    ensures (kind, key) in c.children ==> r == (c, c.children[(kind, key)])
    ensures (kind, key) !in c.children ==>
              && r.1.own == ChildLocator(kind) && r.1.timeout == ChildTimeout(kind)
              && r.1.parent == Lookup(c, key, itemOwn, ItemTimeout).1.Chain()
              && r.0.items == Lookup(c, key, itemOwn, ItemTimeout).0.items
              && r.0.children == c.children[(kind, key) := r.1]
              && r.0.nextId == Lookup(c, key, itemOwn, ItemTimeout).0.nextId + 1
  {
    if (kind, key) in c.children then
      (c, c.children[(kind, key)])
    else
      var got := Lookup(c, key, itemOwn, ItemTimeout);
      var p := Piece(got.0.nextId, ChildLocator(kind), got.1.Chain(), ChildTimeout(kind));
      (got.0.(children := got.0.children[(kind, key) := p], nextId := got.0.nextId + 1), p)
  }

  /** A child lookup keeps the caches coherent and hangs the child under the item piece of its key. */
  lemma ChildLookupKeepsCoherent(c: Caches, key: seq<string>, itemOwn: Locator, kind: ChildKind)
    requires Coherent(c) && itemOwn.Located?
    ensures var r := ChildLookup(c, key, itemOwn, kind);
            && Coherent(r.0)
            && key in r.0.items
            && r.1.Chain() == r.0.items[key].Chain() + [ChildLocator(kind)]
  {
    if (kind, key) !in c.children {
      LookupKeepsCoherent(c, key, itemOwn, ItemTimeout);
    }
  }

  /** A child lookup with the key chain's own locator hangs under the tree's list and that locator. */
  lemma ChildLookupLocates(c: Caches, key: seq<string>, itemOwn: Locator, kind: ChildKind)
    requires Coherent(c) && Faithful(c) && |key| > 0 && itemOwn == ChainLocator(key)
    ensures var r := ChildLookup(c, key, itemOwn, kind);
            && Faithful(r.0)
            && r.1.Chain() == c.treeChain + [itemOwn, ChildLocator(kind)]
  {
    if (kind, key) in c.children {
      CachedChildLocates(c, key, itemOwn, kind);
      assert ChildLookup(c, key, itemOwn, kind).0 == c;
    } else {
      NewChildLocates(c, key, itemOwn, kind);
    }
  }

  lemma NewChildLocates(c: Caches, key: seq<string>, itemOwn: Locator, kind: ChildKind)
    requires Coherent(c) && Faithful(c) && |key| > 0 && itemOwn == ChainLocator(key)
    requires (kind, key) !in c.children
    ensures var r := ChildLookup(c, key, itemOwn, kind);
            && Faithful(r.0)
            && r.1.Chain() == c.treeChain + [itemOwn, ChildLocator(kind)]
  {
    var got := Lookup(c, key, itemOwn, ItemTimeout);
    LookupKeepsCoherent(c, key, itemOwn, ItemTimeout);
    LookupKeepsFaithful(c, key, itemOwn, ItemTimeout);
    var r := ChildLookup(c, key, itemOwn, kind);
    assert r.1.parent == c.treeChain + [itemOwn];
    assert r.0.items == got.0.items;
  }

  lemma CachedChildLocates(c: Caches, key: seq<string>, itemOwn: Locator, kind: ChildKind)
    requires Coherent(c) && Faithful(c) && |key| > 0 && itemOwn == ChainLocator(key)
    ensures (kind, key) in c.children ==>
              c.children[(kind, key)].Chain() == c.treeChain + [itemOwn, ChildLocator(kind)]
  {
    if (kind, key) in c.children {
      var p := c.children[(kind, key)];
      assert key in c.items && p.parent == c.items[key].Chain() && p.own == ChildLocator(kind);
      var q := c.items[key];
      assert q.own == itemOwn && q.parent == c.treeChain;
    }
  }

  /**
   * `_get_expansion_icon`, `_get_icon` and the label lookup of `click_item`: the cached child piece
   * for the item's key, or a new one under the locator list of the item's piece (itself fetched, and
   * cached, only on a miss).
   */
  function GetChild(c: Caches, keying: Keying, item: Item, kind: ChildKind): (r: (Caches, Piece))
    ensures (kind, Key(keying, item)) in r.0.children && r.0.children[(kind, Key(keying, item))] == r.1
    ensures r.0.treeChain == c.treeChain
    ensures (kind, Key(keying, item)) in c.children ==> r == (c, c.children[(kind, Key(keying, item))])
    ensures (kind, Key(keying, item)) !in c.children ==>
              && r.1.own == ChildLocator(kind) && r.1.timeout == ChildTimeout(kind)
              && r.1.parent == GetItem(c, keying, item, ItemTimeout).1.Chain()
              && r.0.items == GetItem(c, keying, item, ItemTimeout).0.items
              && r.0.children == c.children[(kind, Key(keying, item)) := r.1]
              && r.0.nextId == GetItem(c, keying, item, ItemTimeout).0.nextId + 1
  {
    ChildLookup(c, Key(keying, item), ItemLocator(item), kind)
  }

  /**
   * A child piece, cached or new, hangs under the piece cached for its item with its kind's
   * locator, and the caches stay coherent.
   */
  lemma GetChildHangsUnderItem(c: Caches, keying: Keying, item: Item, kind: ChildKind)
    requires Coherent(c)
    ensures var r := GetChild(c, keying, item, kind);
            && Coherent(r.0)
            && Key(keying, item) in r.0.items
            && r.1.Chain() == r.0.items[Key(keying, item)].Chain() + [ChildLocator(kind)]
  {
    ChildLookupKeepsCoherent(c, Key(keying, item), ItemLocator(item), kind);
  }

  /** Keyed by label chain, a child piece's locator list is the tree's, the item's, then its own. */
  lemma LabelKeyedChildLocatesItem(c: Caches, item: Item, kind: ChildKind)
    requires Coherent(c) && Faithful(c)
    ensures var r := GetChild(c, ByLabels, item, kind);
            && Faithful(r.0)
            && r.1.Chain() == c.treeChain + [ItemLocator(item), ChildLocator(kind)]
  {
    ChildLookupLocates(c, Labels(item), ItemLocator(item), kind);
  }

  /**
   * `click_item`: the label piece that receives the click. A cached label is reused as it is; in
   * coherent caches the label hangs under the item's piece, which is itself cached by then.
   */
  function ClickItem(c: Caches, keying: Keying, item: Item): (r: (Caches, Piece))
    ensures (LabelText, Key(keying, item)) in r.0.children && r.0.children[(LabelText, Key(keying, item))] == r.1
    ensures (LabelText, Key(keying, item)) in c.children ==> r == (c, c.children[(LabelText, Key(keying, item))])
    ensures (LabelText, Key(keying, item)) !in c.children ==>
              r.1.own == ChildLocator(LabelText) && r.1.parent == GetItem(c, keying, item, ItemTimeout).1.Chain()
    ensures Coherent(c) ==>
              && Coherent(r.0)
              && Key(keying, item) in r.0.items
              && r.1.Chain() == r.0.items[Key(keying, item)].Chain() + [ChildLocator(LabelText)]
  {
    var r := GetChild(c, keying, item, LabelText);
    assert Coherent(c) ==> Coherent(r.0) && Key(keying, item) in r.0.items
                           && r.1.Chain() == r.0.items[Key(keying, item)].Chain() + [ChildLocator(LabelText)] by {
      if Coherent(c) {
        GetChildHangsUnderItem(c, keying, item, LabelText);
      }
    }
    r
  }

  /** `_split_item_label_path`. */
  function SplitItemLabelPath(path: string): (r: seq<string>)
    ensures |r| > 0
    ensures forall i :: 0 <= i < |r| ==> '/' !in r[i]
  {
    Split(path, '/')
  }

  /** Splitting an item's path gives back its label chain when no label contains `/`. */
  lemma SplitPathGivesLabels(item: Item)
    requires forall i :: 0 <= i < |Labels(item)| ==> '/' !in Labels(item)[i]
    ensures SplitItemLabelPath(Path(item)) == Labels(item)
  {
    SplitJoin(Labels(item), '/');
  }

  // Two distinct items whose paths coincide: a label holding `/` at the top level, and its halves
  // as parent and child.

  function SlashedItem(): Item {
    Item("a/b", None, None)
  }

  function NestedItem(): Item {
    Item("b", Some(Item("a", None, None)), None)
  }

  lemma SlashedAndNestedShareAPath()
    ensures Labels(SlashedItem()) == ["a/b"] && Labels(NestedItem()) == ["a", "b"]
    ensures Path(SlashedItem()) == Path(NestedItem()) == "a/b"
    ensures ItemLocator(SlashedItem()) != ItemLocator(NestedItem())
  {
    NestedLabels();
    SlashedAndNestedLocators();
  }

  lemma NestedLabels()
    ensures Labels(NestedItem()) == ["a", "b"]
    ensures Path(NestedItem()) == "a/b"
  {
    ChildExtendsParent(Item("a", None, None), "b", None);
    assert Labels(Item("a", None, None)) == ["a"];
    assert ["a", "b"][1..] == ["b"];
    assert Join("/", ["a", "b"]) == "a" + "/" + "b";
  }

  lemma SlashedAndNestedLocators()
    ensures ItemLocator(SlashedItem()) != ItemLocator(NestedItem())
  {
    NestedLabels();
    assert Labels(SlashedItem()) == ["a/b"];
    ChainSegments(["a/b"]);
    ChainSegments(["a", "b"]);
  }

  /**
   * Keyed by path, as written, the caches confuse items: there are two items with one path but
   * different label chains such that, once the first has been looked up, looking up the second
   * returns a piece that does not locate it (the slashed and the nested item are such a pair).
   */
  lemma PathKeyedCacheConfusesItems(treeChain: seq<Locator>)
    requires |treeChain| > 0
    ensures exists a: Item, b: Item ::
              && Path(a) == Path(b) && Labels(a) != Labels(b)
              && GetItem(GetItem(EmptyCaches(treeChain), ByPath, a, ItemTimeout).0, ByPath, b, ItemTimeout).1.own
                 != ItemLocator(b)
  {
    SlashedAndNestedShareAPath();
    var a, b := SlashedItem(), NestedItem();
    assert GetItem(GetItem(EmptyCaches(treeChain), ByPath, a, ItemTimeout).0, ByPath, b, ItemTimeout).1.own
           == ItemLocator(a);
  }

  /** Keyed by label chain, every lookup returns a piece with the item's own locator. */
  lemma LabelKeyedCacheLocatesItem(c: Caches, item: Item, timeout: real)
    requires Faithful(c)
    ensures GetItem(c, ByLabels, item, timeout).1.own == ItemLocator(item)
    ensures Faithful(GetItem(c, ByLabels, item, timeout).0)
  {
    LookupKeepsFaithful(c, Labels(item), ItemLocator(item), timeout);
  }

  /**
   * Keyed by path, each cached item piece locates the item its path splits back into: holds as
   * long as no label of a looked-up item contains `/`.
   */
  ghost predicate PathFaithful(c: Caches) {
    forall k :: k in c.items ==> |k| == 1 && c.items[k].own == ChainLocator(SplitItemLabelPath(k[0]))
  }

  predicate NoSlashInLabels(item: Item) {
    forall i :: 0 <= i < |Labels(item)| ==> '/' !in Labels(item)[i]
  }

  /** Keyed by path, as written, a lookup of an item whose labels hold no `/` returns its own locator. */
  lemma PathKeyedCacheLocatesItem(c: Caches, item: Item, timeout: real)
    requires PathFaithful(c) && NoSlashInLabels(item)
    ensures GetItem(c, ByPath, item, timeout).1.own == ItemLocator(item)
    ensures PathFaithful(GetItem(c, ByPath, item, timeout).0)
  {
    SplitPathGivesLabels(item);
  }

  /** Keyed by path, an icon's or label's locator list is the tree's, the item's, then its own. */
  lemma PathKeyedChildLocatesItem(c: Caches, item: Item, kind: ChildKind)
    requires Coherent(c) && PathFaithful(c) && NoSlashInLabels(item)
    ensures var r := GetChild(c, ByPath, item, kind);
            && PathFaithful(r.0)
            && r.1.Chain() == c.treeChain + [ItemLocator(item), ChildLocator(kind)]
  {
    var key := Key(ByPath, item);
    GetChildHangsUnderItem(c, ByPath, item, kind);
    PathKeyedCacheLocatesItem(c, item, ItemTimeout);
    GetItemKeepsCoherent(c, ByPath, item, ItemTimeout);
    if (kind, key) in c.children {
      assert key in c.items;
      assert GetItem(c, ByPath, item, ItemTimeout).1 == c.items[key];
    }
  }

  // ---------------------------------------------------------------------------------------------
  // expand_to_item

  /** What `set_expansion_state` did for one ancestor in one attempt, its own recursion included. */
  datatype StepOutcome = Expanded | StepFailed(error: Error)

  /** How `expand_to_item` ended: the item shown after some attempt, every attempt spent, or raising. */
  datatype Expansion = ShownAt(attempt: nat) | NotShown | ExpandFailed(attempt: nat, error: Error)

  /** `item_is_displayed`: a TimeoutException from the zero-timeout find reads as not displayed. */
  function ItemIsDisplayed(find: ElementPolicies.Outcome<bool>): (r: ElementPolicies.Outcome<bool>)
    ensures r.Raised? ==> r == find && !r.error.Timeout?
    ensures find.Raised? && find.error.Timeout? ==> r == ElementPolicies.Returned(false)
  {
    if find.Raised? && find.error.Timeout? then ElementPolicies.Returned(false) else find
  }

  /**
   * `item_is_displayed` with its effect on the caches: `_get_item(item)` at its default timeout
   * comes first, so an item not cached before is cached with that timeout.
   */
  function ItemIsDisplayedIn(c: Caches, keying: Keying, item: Item, find: ElementPolicies.Outcome<bool>)
    : (r: (Caches, ElementPolicies.Outcome<bool>))
    ensures r.1 == ItemIsDisplayed(find)
    ensures Key(keying, item) in r.0.items
    ensures r.0.treeChain == c.treeChain && r.0.children == c.children
    ensures Key(keying, item) in c.items ==> r.0 == c
    ensures Key(keying, item) !in c.items ==>
              r.0.items == c.items[Key(keying, item) := r.0.items[Key(keying, item)]]
              && r.0.items[Key(keying, item)].timeout == ItemTimeout
  {
    (GetItem(c, keying, item, ItemTimeout).0, ItemIsDisplayed(find))
  }

  /**
   * Once `item_is_displayed` has run, as it does in every attempt of `expand_to_item` that gets
   * through the walk, a later `_get_item(item, timeout)` (that of `select_item`) keeps the piece
   * of the display check: its timeout is the default one unless the item was cached before.
   */
  lemma DisplayCheckFixesTimeout(c: Caches, keying: Keying, item: Item, find: ElementPolicies.Outcome<bool>, timeout: real)
    ensures var p := GetItem(ItemIsDisplayedIn(c, keying, item, find).0, keying, item, timeout).1;
            && (Key(keying, item) !in c.items ==> p.timeout == ItemTimeout)
            && (Key(keying, item) in c.items ==> p == c.items[Key(keying, item)])
  {
  }

  /**
   * The walk over the ancestry from position `k` in attempt `a`: the first failing step's error,
   * if any.
   */
  function WalkFrom(n: nat, walk: (nat, nat) -> StepOutcome, a: nat, k: nat): (r: Option<Error>)
    requires k <= n
    decreases n - k
  {
    if k == n then None
    else if walk(a, k).StepFailed? then Some(walk(a, k).error)
    else WalkFrom(n, walk, a, k + 1)
  }

  /**
   * The walk goes through exactly when every step expands, and otherwise stops at the first
   * failing step with its error.
   */
  lemma {:induction false} WalkFromStopsAtFirstFailure(n: nat, walk: (nat, nat) -> StepOutcome, a: nat, k: nat)
    requires k <= n
    ensures WalkFrom(n, walk, a, k).None? <==> forall j :: k <= j < n ==> walk(a, j).Expanded?
    ensures WalkFrom(n, walk, a, k).Some? ==>
              exists j :: k <= j < n && walk(a, j) == StepFailed(WalkFrom(n, walk, a, k).value)
                          && forall i :: k <= i < j ==> walk(a, i).Expanded?
    decreases n - k
  {
    if k < n && walk(a, k).Expanded? {
      WalkFromStopsAtFirstFailure(n, walk, a, k + 1);
      if WalkFrom(n, walk, a, k).Some? {
        var j :| k + 1 <= j < n && walk(a, j) == StepFailed(WalkFrom(n, walk, a, k).value)
                 && forall i :: k + 1 <= i < j ==> walk(a, i).Expanded?;
        assert forall i :: k <= i < j ==> walk(a, i).Expanded?;
      }
    }
  }

  /**
   * One attempt over an ancestry of `n` items: the walk from the root, then, if it went through,
   * the display check of the item.
   */
  function Attempt(n: nat, walk: (nat, nat) -> StepOutcome, shown: nat -> ElementPolicies.Outcome<bool>, a: nat)
    : ElementPolicies.Outcome<bool>
  {
    match WalkFrom(n, walk, a, 0)
    case Some(e) => ElementPolicies.Raised(e)
    case None => ItemIsDisplayed(shown(a))
  }

  /** An attempt after which the loop goes on: the item not displayed, or a caught failure. */
  predicate GoesOn(o: ElementPolicies.Outcome<bool>) {
    o == ElementPolicies.Returned(false) || (o.Raised? && Transient(o.error))
  }

  /** The attempts in `[1, upto)` that raised, in order: before the last attempt those are the ones followed by a sleep. */
  function SleptAfter(n: nat, walk: (nat, nat) -> StepOutcome, shown: nat -> ElementPolicies.Outcome<bool>, upto: nat)
    : (r: seq<nat>)
    ensures forall b :: b in r <==> 1 <= b < upto && Attempt(n, walk, shown, b).Raised?
  {
    if upto <= 1 then []
    else SleptAfter(n, walk, shown, upto - 1) + (if Attempt(n, walk, shown, upto - 1).Raised? then [upto - 1] else [])
  }

  /** The message of the TimeoutException raised when the last attempt fails. */
  function GiveUpMessage(path: string, maxAttempts: nat): string {
    "Could not expand ancestry to display item " + path + " after " + NatToString(maxAttempts) + " attempts"
  }

  /** The attempt an expansion ended in; for every attempt spent, one past the last. */
  function EndAttempt(r: Expansion, maxAttempts: int): nat {
    match r
    case ShownAt(a) => a
    case ExpandFailed(a, _) => a
    case NotShown => if maxAttempts > 0 then maxAttempts + 1 else 1
  }

  /**
   * The outcome of the attempts from `a` on, as a recursion over the attempts: the reference the
   * loop of `ExpandToItem` is checked against.
   */
  function ExpandFrom(path: string, n: nat, maxAttempts: int,
                      walk: (nat, nat) -> StepOutcome, shown: nat -> ElementPolicies.Outcome<bool>, a: nat)
    : Expansion
    decreases maxAttempts - a
  {
    if a > maxAttempts then NotShown
    else
      var o := Attempt(n, walk, shown, a);
      if o.Raised? then
        if !Transient(o.error) then ExpandFailed(a, o.error)
        else if a == maxAttempts then ExpandFailed(a, Timeout(GiveUpMessage(path, a)))
        else ExpandFrom(path, n, maxAttempts, walk, shown, a + 1)
      else if o.value then ShownAt(a)
      else ExpandFrom(path, n, maxAttempts, walk, shown, a + 1)
  }

  /** One attempt of the reference: it ends the expansion, or hands over to the next attempt. */
  lemma ExpandFromStep(path: string, n: nat, maxAttempts: int,
                       walk: (nat, nat) -> StepOutcome, shown: nat -> ElementPolicies.Outcome<bool>, a: nat)
    requires 1 <= a <= maxAttempts
    ensures var o := Attempt(n, walk, shown, a);
            && (o.Raised? && !Transient(o.error) ==> ExpandFrom(path, n, maxAttempts, walk, shown, a) == ExpandFailed(a, o.error))
            && (o.Raised? && Transient(o.error) && a == maxAttempts ==>
                  ExpandFrom(path, n, maxAttempts, walk, shown, a) == ExpandFailed(a, Timeout(GiveUpMessage(path, a))))
            && (o == ElementPolicies.Returned(true) ==> ExpandFrom(path, n, maxAttempts, walk, shown, a) == ShownAt(a))
            && (GoesOn(o) && a < maxAttempts ==>
                  ExpandFrom(path, n, maxAttempts, walk, shown, a) == ExpandFrom(path, n, maxAttempts, walk, shown, a + 1))
            && (o == ElementPolicies.Returned(false) ==>
                  ExpandFrom(path, n, maxAttempts, walk, shown, a) == ExpandFrom(path, n, maxAttempts, walk, shown, a + 1))
  {
  }

  /**
   * `expand_to_item` for an item at `path` with an ancestry of `n` items. Each attempt walks the
   * whole ancestry from the root; a displayed item ends the loop; a TimeoutException or stale
   * reference sleeps and restarts, except on the last attempt, which raises a TimeoutException.
   * Any other failure escapes at once. When no attempt shows the item, the method returns normally.
   */
  method ExpandToItem(path: string, n: nat, maxAttempts: int,
                      walk: (nat, nat) -> StepOutcome, shown: nat -> ElementPolicies.Outcome<bool>)
    returns (r: Expansion, slept: seq<nat>)
    ensures forall b :: 1 <= b < EndAttempt(r, maxAttempts) ==> GoesOn(Attempt(n, walk, shown, b))
    ensures slept == SleptAfter(n, walk, shown, EndAttempt(r, maxAttempts))
    ensures r.ShownAt? ==> 1 <= r.attempt <= maxAttempts
                           && Attempt(n, walk, shown, r.attempt) == ElementPolicies.Returned(true)
    ensures r.NotShown? && maxAttempts >= 1 ==>
              Attempt(n, walk, shown, maxAttempts) == ElementPolicies.Returned(false)
    ensures r.ExpandFailed? ==>
              && 1 <= r.attempt <= maxAttempts
              && Attempt(n, walk, shown, r.attempt).Raised?
              && (Transient(Attempt(n, walk, shown, r.attempt).error) ==>
                    r.attempt == maxAttempts && r.error == Timeout(GiveUpMessage(path, maxAttempts)))
              && (!Transient(Attempt(n, walk, shown, r.attempt).error) ==>
                    r.error == Attempt(n, walk, shown, r.attempt).error)
    ensures maxAttempts < 1 ==> r == NotShown && slept == []
    ensures r == ExpandFrom(path, n, maxAttempts, walk, shown, 1)
  {
    var attempt: nat := 1;
    slept := [];
    ghost var outcome := ExpandFrom(path, n, maxAttempts, walk, shown, 1);
    while attempt <= maxAttempts
      invariant 1 <= attempt
      invariant maxAttempts >= 1 ==> attempt <= maxAttempts + 1
      invariant maxAttempts < 1 ==> attempt == 1
      invariant forall b :: 1 <= b < attempt && b >= maxAttempts ==>
                  Attempt(n, walk, shown, b) == ElementPolicies.Returned(false)
      invariant forall b :: 1 <= b < attempt ==> GoesOn(Attempt(n, walk, shown, b))
      invariant slept == SleptAfter(n, walk, shown, attempt)
      invariant ExpandFrom(path, n, maxAttempts, walk, shown, attempt) == outcome
      decreases maxAttempts - attempt
    {
      var o := Attempt(n, walk, shown, attempt);
      ExpandFromStep(path, n, maxAttempts, walk, shown, attempt);
      if o.Raised? {
        if !Transient(o.error) {
          return ExpandFailed(attempt, o.error), slept;
        }
        if attempt >= maxAttempts {
          return ExpandFailed(attempt, Timeout(GiveUpMessage(path, attempt))), slept;
        }
        slept := slept + [attempt];
      } else if o.value {
        return ShownAt(attempt), slept;
      }
      attempt := attempt + 1;
    }
    r := NotShown;
  }

  /**
   * As written, an item that no attempt shows is not an error: when every attempt expands the
   * ancestry and then finds the item not displayed, the call returns normally.
   */
  lemma {:induction false} NeverDisplayedReturnsNormally(path: string, n: nat, maxAttempts: int,
                                                         walk: (nat, nat) -> StepOutcome,
                                                         shown: nat -> ElementPolicies.Outcome<bool>, a: nat)
    requires 1 <= a
    requires forall b :: a <= b <= maxAttempts ==> Attempt(n, walk, shown, b) == ElementPolicies.Returned(false)
    ensures ExpandFrom(path, n, maxAttempts, walk, shown, a) == NotShown
    decreases maxAttempts - a
  {
    if a <= maxAttempts {
      assert Attempt(n, walk, shown, a) == ElementPolicies.Returned(false);
      NeverDisplayedReturnsNormally(path, n, maxAttempts, walk, shown, a + 1);
    }
  }

  /**
   * `expand_to_item` as its documentation describes it: an item still not displayed once the
   * attempts are spent raises the give-up TimeoutException, so the call returns normally only with
   * the item shown.
   */
  function ExpandToItemAsDocumented(path: string, n: nat, maxAttempts: int,
                                    walk: (nat, nat) -> StepOutcome, shown: nat -> ElementPolicies.Outcome<bool>)
    : (r: Expansion)
    ensures !r.NotShown?
    ensures r.ShownAt? <==> ExpandFrom(path, n, maxAttempts, walk, shown, 1).ShownAt?
    ensures r.ShownAt? ==> Attempt(n, walk, shown, r.attempt) == ElementPolicies.Returned(true)
    ensures (forall b :: 1 <= b <= maxAttempts ==> Attempt(n, walk, shown, b) == ElementPolicies.Returned(false))
            ==> r.ExpandFailed? && r.error.Timeout?
  {
    var written := ExpandFrom(path, n, maxAttempts, walk, shown, 1);
    NeverDisplayedFromFirst(path, n, maxAttempts, walk, shown);
    ShownAtIsDisplayed(path, n, maxAttempts, walk, shown, 1);
    match written
    case NotShown =>
      var last: nat := if maxAttempts > 0 then maxAttempts else 0;
      ExpandFailed(last, Timeout(GiveUpMessage(path, last)))
    case _ => written
  }

  lemma NeverDisplayedFromFirst(path: string, n: nat, maxAttempts: int,
                                walk: (nat, nat) -> StepOutcome, shown: nat -> ElementPolicies.Outcome<bool>)
    ensures (forall b :: 1 <= b <= maxAttempts ==> Attempt(n, walk, shown, b) == ElementPolicies.Returned(false))
            ==> ExpandFrom(path, n, maxAttempts, walk, shown, 1) == NotShown
  {
    if forall b :: 1 <= b <= maxAttempts ==> Attempt(n, walk, shown, b) == ElementPolicies.Returned(false) {
      NeverDisplayedReturnsNormally(path, n, maxAttempts, walk, shown, 1);
    }
  }

  /** An expansion that ends with the item shown ends at an attempt that displayed it. */
  lemma {:induction false} ShownAtIsDisplayed(path: string, n: nat, maxAttempts: int,
                                              walk: (nat, nat) -> StepOutcome,
                                              shown: nat -> ElementPolicies.Outcome<bool>, a: nat)
    ensures ExpandFrom(path, n, maxAttempts, walk, shown, a).ShownAt? ==>
              var b := ExpandFrom(path, n, maxAttempts, walk, shown, a).attempt;
              a <= b <= maxAttempts && Attempt(n, walk, shown, b) == ElementPolicies.Returned(true)
    decreases maxAttempts - a
  {
    if a <= maxAttempts {
      ShownAtIsDisplayed(path, n, maxAttempts, walk, shown, a + 1);
    }
  }

  // ---------------------------------------------------------------------------------------------
  // set_expansion_state

  /** `_EXPANDED_ICON_CLASS`. */
  const ExpandedIconClass: string := "ia_treeComponent__expandIcon--expanded"

  /** `item_is_expanded`: the icon's class marks it expanded; no icon within no time reads as collapsed. */
  function ItemIsExpanded(iconClass: Option<string>): (r: bool)
    ensures iconClass.None? ==> !r
    ensures iconClass.Some? ==>
              (r <==> exists i, j :: 0 <= i <= j <= |iconClass.value| && iconClass.value[i..j] == ExpandedIconClass)
  {
    if iconClass.None? then false
    else
      SubstringIsSlice(ExpandedIconClass, iconClass.value);
      IsSubstring(ExpandedIconClass, iconClass.value)
  }

  /** Whether `set_expansion_state` clicked the expansion icon. */
  datatype Toggle = Untouched | Clicked

  function NoIconMessage(path: string): string {
    "Node with path of '" + path + "' does not contain an expand/collapse icon, so we may not expand it."
  }

  /**
   * `item_is_expanded` with its effect on the caches: the expansion icon piece (and, behind it,
   * the item piece) is looked up and cached before the class is read.
   */
  function ItemIsExpandedIn(c: Caches, keying: Keying, item: Item, iconClass: Option<string>): (r: (Caches, bool))
    ensures r.1 == ItemIsExpanded(iconClass)
    ensures (ExpansionIcon, Key(keying, item)) in r.0.children && r.0.treeChain == c.treeChain
    ensures (ExpansionIcon, Key(keying, item)) in c.children ==> r.0 == c
    ensures Coherent(c) ==> Coherent(r.0) && Key(keying, item) in r.0.items
  {
    var got := GetChild(c, keying, item, ExpansionIcon);
    assert Coherent(c) ==> Coherent(got.0) && Key(keying, item) in got.0.items by {
      if Coherent(c) {
        GetChildHangsUnderItem(c, keying, item, ExpansionIcon);
      }
    }
    (got.0, ItemIsExpanded(iconClass))
  }

  /** The click of `set_expansion_state` reuses the icon piece `item_is_expanded` cached, changing nothing. */
  lemma ClickReusesExpansionIcon(c: Caches, keying: Keying, item: Item, iconClass: Option<string>)
    ensures var after := ItemIsExpandedIn(c, keying, item, iconClass).0;
            && GetChild(after, keying, item, ExpansionIcon) == (after, GetChild(c, keying, item, ExpansionIcon).1)
  {
  }

  /**
   * `set_expansion_state`: after expanding to the item, click its expansion icon exactly when its
   * expanded state differs from the requested one. A failure of the preceding expansion escapes; a
   * TimeoutException from the click is raised again naming the item's path.
   */
  function SetExpansionState(path: string, expansion: Expansion, iconClass: Option<string>,
                             shouldBeExpanded: bool, click: Option<Error>): (r: Result<Toggle, Error>)
    ensures expansion.ExpandFailed? ==> r == Failure(expansion.error)
    ensures !expansion.ExpandFailed? ==>
              (r == Success(Clicked) <==> ItemIsExpanded(iconClass) != shouldBeExpanded && click.None?)
              && (r == Success(Untouched) <==> ItemIsExpanded(iconClass) == shouldBeExpanded)
    ensures r.Failure? && !expansion.ExpandFailed? ==>
              click.Some? && ItemIsExpanded(iconClass) != shouldBeExpanded
              && (click.value.Timeout? ==> r.error == Timeout(NoIconMessage(path)) && IsSubstring(path, r.error.message))
              && (!click.value.Timeout? ==> r.error == click.value)
  {
    if expansion.ExpandFailed? then Failure(expansion.error)
    else if ItemIsExpanded(iconClass) != shouldBeExpanded then
      match click
      case None => Success(Clicked)
      case Some(e) =>
        if e.Timeout? then
          PathInNoIconMessage(path);
          Failure(Timeout(NoIconMessage(path)))
        else Failure(e)
    else Success(Untouched)
  }

  lemma PathInNoIconMessage(path: string)
    ensures IsSubstring(path, NoIconMessage(path))
  {
    var m := NoIconMessage(path);
    var pre := "Node with path of '";
    assert m[|pre|..|pre| + |path|] == path;
    SubstringIsSlice(path, m);
  }

  /** The expanded state after the call, given that a click on the icon flips it. */
  function StateAfter(before: bool, t: Toggle): bool {
    if t == Clicked then !before else before
  }

  /**
   * Given that a click on the icon flips its expanded state, a successful call leaves the item in
   * the requested state, and a second call then clicks nothing. The code never reads the state back.
   */
  lemma SetExpansionStateReachesRequest(path: string, expansion: Expansion, iconClass: Option<string>,
                                        shouldBeExpanded: bool, click: Option<Error>,
                                        iconClassAfter: Option<string>, click2: Option<Error>, expansion2: Expansion)
    requires SetExpansionState(path, expansion, iconClass, shouldBeExpanded, click).Success?
    requires ItemIsExpanded(iconClassAfter)
             == StateAfter(ItemIsExpanded(iconClass), SetExpansionState(path, expansion, iconClass, shouldBeExpanded, click).value)
    requires !expansion2.ExpandFailed?
    ensures ItemIsExpanded(iconClassAfter) == shouldBeExpanded
    ensures SetExpansionState(path, expansion2, iconClassAfter, shouldBeExpanded, click2) == Success(Untouched)
  {
  }

  // ---------------------------------------------------------------------------------------------
  // multi_select

  /** SHIFT for an inclusive selection, otherwise COMMAND on macOS and CONTROL elsewhere. */
  function ModifierKey(inclusive: bool, platform: string): (k: char)
    ensures inclusive ==> k == Shift
    ensures !inclusive && "darwin" <= platform ==> k == Command
    ensures !inclusive && !("darwin" <= platform) ==> k == Control
  {
    if inclusive then Shift else if "darwin" <= platform then Command else Control
  }

  /** One action of an `ActionChains`; a click is on the element a piece's locator list finds. */
  datatype Gesture = KeyDown(key: char) | Click(element: seq<Locator>) | Pause(seconds: nat) | KeyUp(key: char)

  /** `[self._get_item(item=item, timeout=timeout) for item in items]`, threading the cache. */
  function GetItems(c: Caches, keying: Keying, items: seq<Item>, timeout: real): (r: (Caches, seq<Piece>))
    ensures |r.1| == |items|
    ensures r.0.treeChain == c.treeChain
    decreases |items|
  {
    if |items| == 0 then (c, [])
    else
      var first := GetItem(c, keying, items[0], timeout);
      var rest := GetItems(first.0, keying, items[1..], timeout);
      (rest.0, [first.1] + rest.1)
  }

  /** Every piece fetched hangs under the tree's locator list. */
  lemma {:induction false} GetItemsKeepsCoherent(c: Caches, keying: Keying, items: seq<Item>, timeout: real)
    requires Coherent(c)
    ensures var r := GetItems(c, keying, items, timeout);
            && Coherent(r.0)
            && forall i :: 0 <= i < |items| ==> r.1[i].Chain() == c.treeChain + [r.1[i].own]
    decreases |items|
  {
    if |items| > 0 {
      GetItemKeepsCoherent(c, keying, items[0], timeout);
      var first := GetItem(c, keying, items[0], timeout);
      GetItemsKeepsCoherent(first.0, keying, items[1..], timeout);
    }
  }

  /** The own locators of a list of pieces. */
  function Owns(ps: seq<Piece>): (r: seq<Locator>)
    ensures |r| == |ps| && forall i :: 0 <= i < |ps| ==> r[i] == ps[i].own
  {
    if |ps| == 0 then [] else [ps[0].own] + Owns(ps[1..])
  }

  /** The locators of a list of items. */
  function ItemLocators(items: seq<Item>): (r: seq<Locator>)
    ensures |r| == |items| && forall i :: 0 <= i < |items| ==> r[i] == ItemLocator(items[i])
  {
    if |items| == 0 then [] else [ItemLocator(items[0])] + ItemLocators(items[1..])
  }

  /**
   * The cache invariant that makes lookups locate their items: `Faithful` when keyed by label
   * chain, `PathFaithful` when keyed by path.
   */
  ghost predicate KeyFaithful(c: Caches, keying: Keying) {
    match keying
    case ByLabels => Faithful(c)
    case ByPath => PathFaithful(c)
  }

  /** The items a keying tells apart: all of them by label chain, those without `/` in a label by path. */
  predicate Locatable(keying: Keying, item: Item) {
    keying == ByPath ==> NoSlashInLabels(item)
  }

  /** A lookup of a locatable item returns its own locator and keeps the keying's invariant. */
  lemma KeyedCacheLocatesItem(c: Caches, keying: Keying, item: Item, timeout: real)
    requires KeyFaithful(c, keying) && Locatable(keying, item)
    ensures GetItem(c, keying, item, timeout).1.own == ItemLocator(item)
    ensures KeyFaithful(GetItem(c, keying, item, timeout).0, keying)
  {
    match keying
    case ByLabels => LabelKeyedCacheLocatesItem(c, item, timeout);
    case ByPath => PathKeyedCacheLocatesItem(c, item, timeout);
  }

  /** For locatable items, the i-th piece fetched carries the i-th item's locator. */
  lemma {:induction false} KeyedItemsLocate(c: Caches, keying: Keying, items: seq<Item>, timeout: real)
    requires KeyFaithful(c, keying)
    requires forall j :: 0 <= j < |items| ==> Locatable(keying, items[j])
    ensures KeyFaithful(GetItems(c, keying, items, timeout).0, keying)
    ensures Owns(GetItems(c, keying, items, timeout).1) == ItemLocators(items)
    decreases |items|
  {
    if |items| > 0 {
      KeyedCacheLocatesItem(c, keying, items[0], timeout);
      var first := GetItem(c, keying, items[0], timeout);
      KeyedItemsLocate(first.0, keying, items[1..], timeout);
      var rest := GetItems(first.0, keying, items[1..], timeout);
      assert ([first.1] + rest.1)[1..] == rest.1;
    }
  }

  /** The clicks of the gesture: one click and a one-second pause per piece, in order. */
  function Clicks(pieces: seq<Piece>): (g: seq<Gesture>)
    ensures |g| == 2 * |pieces|
    ensures forall i :: 0 <= i < |pieces| ==> g[2 * i] == Click(pieces[i].Chain()) && g[2 * i + 1] == Pause(1)
  {
    seq(2 * |pieces|, k requires 0 <= k < 2 * |pieces| => if k % 2 == 0 then Click(pieces[k / 2].Chain()) else Pause(1))
  }

  /**
   * The loop over the pieces: each is found in turn and its click queued; a piece that is not
   * found raises the find's TimeoutException, whichever piece it is.
   */
  function ClickAll(pieces: seq<Piece>, present: seq<Locator> -> bool): (r: Result<seq<Gesture>, Error>)
    ensures r.Success? <==> forall i :: 0 <= i < |pieces| ==> present(pieces[i].Chain())
    ensures r.Failure? ==> r.error.Timeout?
    ensures r.Success? ==> r.value == Clicks(pieces)
  {
    if forall i :: 0 <= i < |pieces| ==> present(pieces[i].Chain()) then Success(Clicks(pieces))
    else Failure(Timeout(ElementPolicies.NotFoundMessage))
  }

  /**
   * `multi_select`: every item's piece is fetched (and cached) first, then the gesture is built as
   * key-down, a click and pause per item in order, key-up, and performed once. An item that cannot
   * be found raises before anything is performed; the cache has been filled by then.
   */
  function MultiSelect(c: Caches, keying: Keying, items: seq<Item>, inclusive: bool, platform: string,
                       timeout: real, present: seq<Locator> -> bool): (r: (Caches, Result<seq<Gesture>, Error>))
    ensures r.0 == GetItems(c, keying, items, timeout).0
    ensures r.1.Success? <==>
              forall i :: 0 <= i < |items| ==> present(GetItems(c, keying, items, timeout).1[i].Chain())
    ensures r.1.Success? ==>
              Performed(r.1.value, ModifierKey(inclusive, platform), GetItems(c, keying, items, timeout).1)
  {
    var got := GetItems(c, keying, items, timeout);
    var mod := ModifierKey(inclusive, platform);
    var clicks := ClickAll(got.1, present);
    if clicks.Failure? then (got.0, Failure(clicks.error))
    else
      GestureShape(mod, got.1, clicks.value);
      (got.0, Success([KeyDown(mod)] + clicks.value + [KeyUp(mod)]))
  }

  /** The gesture performed: key-down, then a click and a pause per piece in order, then key-up. */
  predicate Performed(g: seq<Gesture>, mod: char, pieces: seq<Piece>) {
    && |g| == 2 * |pieces| + 2
    && g[0] == KeyDown(mod)
    && g[|g| - 1] == KeyUp(mod)
    && forall i :: 0 <= i < |pieces| ==> g[2 * i + 1] == Click(pieces[i].Chain()) && g[2 * i + 2] == Pause(1)
  }

  lemma GestureShape(mod: char, pieces: seq<Piece>, clicks: seq<Gesture>)
    requires |clicks| == 2 * |pieces|
    requires forall i :: 0 <= i < |pieces| ==> clicks[2 * i] == Click(pieces[i].Chain()) && clicks[2 * i + 1] == Pause(1)
    ensures Performed([KeyDown(mod)] + clicks + [KeyUp(mod)], mod, pieces)
  {
    var g := [KeyDown(mod)] + clicks + [KeyUp(mod)];
    forall i | 0 <= i < |pieces|
      ensures g[2 * i + 1] == Click(pieces[i].Chain()) && g[2 * i + 2] == Pause(1)
    {
      assert g[2 * i + 1] == clicks[2 * i];
      assert g[2 * i + 2] == clicks[2 * i + 1];
    }
  }

  /**
   * The n-th click of a multi-selection lands on the n-th item's locator under the tree's list:
   * always when keyed by label chain, and keyed by path as written when no label holds `/`.
   */
  lemma MultiSelectClicksItemsInOrder(c: Caches, keying: Keying, items: seq<Item>, inclusive: bool, platform: string,
                                      timeout: real, present: seq<Locator> -> bool)
    requires Coherent(c) && KeyFaithful(c, keying)
    requires forall j :: 0 <= j < |items| ==> Locatable(keying, items[j])
    ensures var r := MultiSelect(c, keying, items, inclusive, platform, timeout, present).1;
            r.Success? ==> forall i :: 0 <= i < |items| ==> r.value[2 * i + 1] == Click(c.treeChain + [ItemLocator(items[i])])
  {
    KeyedItemChains(c, keying, items, timeout);
  }

  /** For locatable items, the i-th piece fetched hangs under the tree's list with the i-th item's locator. */
  lemma KeyedItemChains(c: Caches, keying: Keying, items: seq<Item>, timeout: real)
    requires Coherent(c) && KeyFaithful(c, keying)
    requires forall j :: 0 <= j < |items| ==> Locatable(keying, items[j])
    ensures var ps := GetItems(c, keying, items, timeout).1;
            forall i :: 0 <= i < |items| ==> ps[i].Chain() == c.treeChain + [ItemLocator(items[i])]
  {
    GetItemsKeepsCoherent(c, keying, items, timeout);
    KeyedItemsLocate(c, keying, items, timeout);
    var ps := GetItems(c, keying, items, timeout).1;
    forall i | 0 <= i < |items| ensures ps[i].Chain() == c.treeChain + [ItemLocator(items[i])] {
      assert Owns(ps)[i] == ItemLocators(items)[i];
    }
  }
}
