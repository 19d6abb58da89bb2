# Component locators, trees and text entry of a Selenium page-object library

This project models the core of a Python page-object library for Perspective web pages, written
with Selenium. It proves properties of that model.

- **Locator chains.** A component piece is described by a chain of locators inherited from its
  parent piece. `_LocatorBuilder` folds such a chain into one CSS selector or one XPath
  expression.
- **Collections.** `ComponentCollection.get` memoises pieces by formatted locator.
- **Element policies.** Every piece shares three behaviours:
  - a retry on stale element references;
  - rectangle geometry (origin, termination, boundary collision);
  - a polling wait on the element's text.
- **Trees.** The tree component (`CommonTree`) addresses its rows through `Item`s, a chain of
  labels from which the row's locator and slash-delimited path derive. It caches:
  - one piece per item;
  - one piece per item icon;
  - one piece per item label.
- **Tree operations.** The model covers:
  - expanding the ancestry of an item, with restarts;
  - toggling an item's expansion state;
  - selecting several items with a modifier key held.
- **Tag browse tree.** It builds tree items from tag paths and refuses plain item selection.
- **Text entry.** The form input widget (`_set_text`) and the common text input (`set_text`)
  clear a field with arrow-right and backspace keys, type the text, and check the value read back.

The browser is never modelled as state. What the browser does is passed in as a **trace**:

- the n-th outcome of a decorated call;
- the sequence of observations of a polling wait;
- the outcome of each expansion step;
- which locator chains can be found.

The model states what the code does with any such trace.

Modules:

- `Wrappers` and `Failures` (wrappers.dfy): `Option`, `Result`, and the exceptions that can escape.
- `Strings` (strings.dfy): the few Python `str` operations the code uses:
  - `join` and `split`;
  - filtering;
  - the `in` test for substrings;
  - `replace` of one character;
  - `str` of a natural number.
- `Locators` (locators.dfy): a locator is one of:
  - a `(By, value)` tuple;
  - a bare CSS string;
  - `None`.
- `LocatorBuilder`: the CSS and XPath builders, as written and corrected.
- `ComponentPieces`: locator lists, `set_locator`, `ComponentCollection`.
- `ElementPolicies`: retry, geometry, text wait.
- `TreeItems`: `Item`, with its ancestry, label chain, CSS locator and path.
- `TypedKeys`: Selenium key code points, the key sequences the text widgets send, and a text
  field that receives them.
- `CommonTree`, `TagBrowseTree`, `FormComponent`, `TextInput`: the components.

## Model

| member | source | states |
|---|---|---|
| LocatorBuilder.StripBranches | Components/BasicComponent.py:972-974 | Comma branches are accepted exactly when none is empty. Each loses one leading space and nothing else. An empty branch raises IndexError. |
| LocatorBuilder.RawPiece | Components/BasicComponent.py:966-968 | A value the comma splitter leaves whole is kept verbatim as one part. Branches arise only from a split into more than one piece, and they are those pieces each stripped of one leading space. An empty piece raises IndexError. |
| LocatorBuilder.CssPieceOf | Components/BasicComponent.py:949-966 | An XPATH locator or a missing locator raises TypeError. ID gives `[id="v"]`, CLASS_NAME gives `.v` and NAME gives `[name="v"]`. A bare string and every other strategy pass their value to the comma splitter unchanged. Any comma branching has at least two branches. |
| LocatorBuilder.CrossIsBranchMajor | Components/BasicComponent.py:972-978 | In the extended alternatives, alternative i followed by branch j sits at position j·(number of alternatives)+i. The order is branch-major. |
| LocatorBuilder.RemovalOrderIrrelevant | Components/BasicComponent.py:983-984 | Removing each alternative once (`list.remove`), in any order without repeats, equals dropping the first occurrence of each. Set iteration order cannot change the result. |
| LocatorBuilder.StepAgreesOnDistinct | Components/BasicComponent.py:967-984 | When the accumulated alternatives are distinct, the comma step as written equals the intended cross product. |
| LocatorBuilder.FoldStopsAtFirstError | Components/BasicComponent.py:949-959 | The locator loop completes exactly when every locator converts. Otherwise the error of the first failing locator escapes. |
| LocatorBuilder.CssLocatorAsWritten | Components/BasicComponent.py:934-988 | The builder as written. It succeeds exactly when every locator converts, and its result is a CSS_SELECTOR locator. |
| LocatorBuilder.AsWrittenFailsLikeCorrected | Components/BasicComponent.py:949-967 | The builder as written fails exactly when the intended one does, and with the same error: that of the first locator that raises. |
| LocatorBuilder.AsWrittenAgreesWithoutRepeats | Components/BasicComponent.py:941-988 | The builder as written builds exactly the intended selector, the cross product of `CssLocatorIsProduct`. This holds whenever every comma step after the first meets pairwise distinct alternatives. |
| LocatorBuilder.AtMostOneCommaAgrees | Components/BasicComponent.py:941-988 | With at most one locator that splits into comma branches, the builder as written builds exactly the intended selector. |
| LocatorBuilder.CssLocator | Components/BasicComponent.py:934-988 | The corrected builder. It succeeds exactly when every locator converts, returns a CSS_SELECTOR locator, and fails with the first failing locator's error. |
| LocatorBuilder.CssLocatorIsProduct | Components/BasicComponent.py:941-988 | The selector equals an independent reference. Without commas it is the parts joined by spaces. Otherwise it is the ", "-join of the cross product of every locator's options, where each later alternative keeps the plain prefix gathered before it. |
| LocatorBuilder.CssAppendSingle | Components/BasicComponent.py:941-947 | Appending a plain locator to a plain chain appends a space and that locator's part to the selector. On such chains the builder as written and the intended one agree. |
| LocatorBuilder.BranchesKeepPrefixExample | Components/BasicComponent.py:979-981 | In the builder as written, and in the intended one, `[".a", "b, c"]` composes to `.a b, .a c`. The plain prefix is carried into every first alternative. |
| LocatorBuilder.RepeatedAlternativeSurvives | Components/BasicComponent.py:975-984 | With a repeated alternative, the builder as written keeps one unextended copy. `["a, a", "b, c"]` gives `a, a b, a b, a c, a c`; the corrected builder gives `a b, a b, a c, a c`. |
| LocatorBuilder.XPathFragment | Components/BasicComponent.py:993-1012 | A CSS_SELECTOR or missing locator raises TypeError. An XPATH value is taken verbatim. ID, CLASS_NAME, NAME, LINK_TEXT, PARTIAL_LINK_TEXT and TAG_NAME each give their fixed XPath template around the value. A bare string is indexed like a tuple: one shorter than two characters raises IndexError, and otherwise its second character is the fragment. |
| LocatorBuilder.XPathJoinStopsAtFirstError | Components/BasicComponent.py:992-1013 | The XPath loop completes exactly when every fragment converts. Otherwise the first failing fragment's error escapes. |
| LocatorBuilder.XPathLocator | Components/BasicComponent.py:991-1013 | Succeeds exactly when every fragment converts, returns an XPATH locator, and fails with the first failing locator's error. |
| LocatorBuilder.XPathConcat | Components/BasicComponent.py:991-1013 | The XPath of a concatenated chain is the concatenation of the two chains' XPaths. |
| ComponentPieces.LocatorList | Components/BasicComponent.py:587-597 | The list is never empty. A non-empty parent list is kept as a prefix, with at most one entry added. |
| ComponentPieces.LocatorListShape | Components/BasicComponent.py:587-597 | With a parent list, the own locator is appended exactly when it is truthy. Without one, the list is exactly the own locator. |
| ComponentPieces.SetLocator | Components/BasicComponent.py:429-436 | Replaces the own locator and keeps identity, parent list and timeout. |
| ComponentPieces.SetLocatorLastWins | Components/BasicComponent.py:429-436 | Setting a locator twice equals setting the second one. The recomputed list follows the same rule as construction. |
| ComponentPieces.ChildSelectorExtendsParent | Components/BasicComponent.py:104-112 | With the builder as written, a plain piece built under a plain parent piece composes to the parent's selector, a space, and its own part. The intended builder gives the same selector. |
| ComponentPieces.Format | Components/BasicComponent.py:58 | `{}` formatting succeeds exactly when there are at least as many arguments as fields. Too few arguments raise IndexError. |
| ComponentPieces.FormatIgnoresSurplus | Components/BasicComponent.py:58 | Arguments beyond the number of fields do not change the formatted string. |
| ComponentPieces.NewCollection | Components/BasicComponent.py:31-49 | A new collection is empty and valid. |
| ComponentPieces.Get | Components/BasicComponent.py:51-72 | `get` fails exactly when formatting fails. On a cache hit it returns the stored piece and changes nothing. On a miss it stores a new piece with the collection's parent list and timeout under `(by, formatted)`, with a fresh identity. Validity is preserved. |
| ComponentPieces.SameFormattedSameInstance | Components/BasicComponent.py:51-72 | Two lookups whose arguments format alike return the same piece, and the second adds nothing. |
| ComponentPieces.DifferentKeysDifferentInstances | Components/BasicComponent.py:51-72 | Lookups that format differently return pieces of different identity. |
| ComponentPieces.SurplusArgumentsShareInstance | Components/BasicComponent.py:51-72 | For `"x{}"`, the arguments `["a"]` and `["a", "b"]` share one piece. |
| ElementPolicies.RetryOnStale | Components/BasicComponent.py:116-130 | At most `retry_attempts`+1 calls are made. Every call before the last went stale. The result is the last call's. A result from before the final call is never stale. |
| ElementPolicies.StaleEscapesOnlyWhenAllStale | Components/BasicComponent.py:116-130 | The decorator raises a stale reference exactly when every call in its budget went stale. |
| ElementPolicies.Termination | Components/BasicComponent.py:338-347 | The termination is the origin moved by the width and the height. |
| ElementPolicies.BoundaryCollision | Components/BasicComponent.py:133-148 | Two rectangles collide exactly when each starts strictly before the other ends, on both axes. |
| ElementPolicies.CollisionIsSharedInterior | Components/BasicComponent.py:133-148 | For rectangles of positive size, a collision is exactly a shared interior point. The relation is symmetric, and a rectangle collides with itself. |
| ElementPolicies.SharedEdgeIsNoCollision | Components/BasicComponent.py:133-148 | Rectangles that only share an edge do not collide. Half a unit of overlap does collide. |
| ElementPolicies.Compare | Components/BasicComponent.py:485-498 | Text conditions compare by equality and by substring. An unhandled condition raises NotImplementedError, and only it raises. |
| ElementPolicies.WaitOnText | Components/BasicComponent.py:438-506 | An element never found raises a timeout, and only then. A returned text is one that was read. The first read that satisfies the condition after unsatisfied reads decides the result. When all polls run out unsatisfied, the last text read is returned. An element gone after unsatisfied reads ends the wait with the last text read. A stale reference met before the wait ends escapes as StaleElementReferenceException. |
| ElementPolicies.WaitFromEndsOnVanish | Components/BasicComponent.py:471-505 | From any point of the polling loop, an element gone after a read ends the wait, without raising, with the text read just before. |
| ElementPolicies.WaitFromEndsOnStale | Components/BasicComponent.py:471-476 | From any point of the polling loop, a stale reference met while the wait keeps going escapes: the polled function catches only a TimeoutException. |
| ElementPolicies.SatisfiedIffReached | Components/BasicComponent.py:461-506 | The wait ends with a satisfying text exactly when such a text is read before anything else stops the polling. |
| ElementPolicies.UnhandledConditionRaises | Components/BasicComponent.py:497-498 | An unsupported condition raises NotImplementedError at the first text read. |
| TreeItems.Above | Components/PerspectiveComponents/Common/Tree.py:68-74 | The ancestry lists parents root-first, each with a non-empty label, each the parent of the next. It ends at the item's parent and stops below the first parent with an empty label. |
| TreeItems.Labels | Components/PerspectiveComponents/Common/Tree.py:76-78 | The label chain is the ancestry's labels followed by the item's own label. |
| TreeItems.ChainValueIsJoin | Components/PerspectiveComponents/Common/Tree.py:78-84 | The item selector is the space-join of one `-node` segment per label and a terminal `.tree-item` segment. |
| TreeItems.LocatorSegments | Components/PerspectiveComponents/Common/Tree.py:76-84 | When no label contains a space, splitting the item locator on spaces gives back one segment per label plus the terminal one. |
| TreeItems.SameLabelsSameIdentity | Components/PerspectiveComponents/Common/Tree.py:68-87 | Items with the same label chain have the same locator and the same path. |
| TreeItems.ChildExtendsParent | Components/PerspectiveComponents/Common/Tree.py:68-74 | Under a labelled parent, a child's ancestry is the parent's plus the parent, and its label chain is the parent's plus its own label. |
| TreeItems.EmptyLabelIsSentinel | Components/PerspectiveComponents/Common/Tree.py:71 | Under a parent with an empty label, an item has no ancestry, and its path is its own label. |
| TreeItems.GrandparentExample | Components/PerspectiveComponents/Common/Tree.py:18-90 | "Child" under "Parent" under "Grandparent" has ancestry [Grandparent, Parent] and path `Grandparent/Parent/Child`. |
| CommonTree.Lookup | Components/PerspectiveComponents/Common/Tree.py:440-452 | After the lookup the key is cached with the returned piece. A hit changes nothing. A miss builds one new piece under the tree's locator list with the given timeout. |
| CommonTree.GetItem | Components/PerspectiveComponents/Common/Tree.py:440-452 | `_get_item` returns the cached piece for the item's key, or caches a new one. The icon and label caches are untouched. |
| CommonTree.GetItemKeepsCoherent | Components/PerspectiveComponents/Common/Tree.py:440-452 | Every cached item piece hangs under the tree's locator list, before and after. |
| CommonTree.TimeoutOnlyOnFirstCall | Components/PerspectiveComponents/Common/Tree.py:440-452 | The timeout of a later `_get_item` call for a cached item has no effect. |
| CommonTree.GetChild | Components/PerspectiveComponents/Common/Tree.py:410-434 | An icon or label piece is cached per item key, and a hit changes nothing. A miss builds one new piece under the item piece's locator list. It adds that one child entry, the item lookup's entry if the item was not cached, and nothing else. |
| CommonTree.GetChildHangsUnderItem | Components/PerspectiveComponents/Common/Tree.py:410-434 | Every cached icon or label piece hangs under the item piece cached for the same key. |
| CommonTree.LabelKeyedChildLocatesItem | Components/PerspectiveComponents/Common/Tree.py:410-452 | When keyed by label chain, an icon's or label's locator list is the tree's list, the item's locator, then the icon or label locator. |
| CommonTree.ClickItem | Components/PerspectiveComponents/Common/Tree.py:166-186 | Clicking an item clicks its label piece, which stays cached. A cached label is reused unchanged. A new label piece uses the label locator under the item piece's list. In coherent caches the label hangs under the item's cached piece. |
| CommonTree.SplitItemLabelPath | Components/PerspectiveComponents/Common/Tree.py:454-457 | Splitting a path gives at least one piece, and no piece contains `/`. |
| CommonTree.SplitPathGivesLabels | Components/PerspectiveComponents/Common/Tree.py:454-457 | When no label contains `/`, splitting an item's path gives back its label chain. |
| CommonTree.SlashedAndNestedShareAPath | Components/PerspectiveComponents/Common/Tree.py:86-90 | A top-level item labelled `a/b` and item `b` under `a` have the same path, but different locators. |
| CommonTree.PathKeyedCacheConfusesItems | Components/PerspectiveComponents/Common/Tree.py:440-452 | Keyed by path as written, the cache confuses items. Some two items share a path but not a label chain, and once the first is cached, looking up the second returns a piece that does not locate it. The top-level `a/b` and `b` under `a` are such a pair. |
| CommonTree.LabelKeyedCacheLocatesItem | Components/PerspectiveComponents/Common/Tree.py:440-452 | Keyed by label chain, every lookup returns a piece with the item's own locator, and the cache stays faithful. |
| CommonTree.PathKeyedCacheLocatesItem | Components/PerspectiveComponents/Common/Tree.py:440-452 | Keyed by path as written, a lookup returns the item's own locator when no label of the item holds `/`. This holds as long as every cached path splits back into a chain whose locator its piece carries. |
| CommonTree.PathKeyedChildLocatesItem | Components/PerspectiveComponents/Common/Tree.py:410-452 | Keyed by path as written, with no `/` in the item's labels, an icon's or label's locator list is the tree's list, the item's locator, then the icon or label locator. |
| CommonTree.ItemIsDisplayed | Components/PerspectiveComponents/Common/Tree.py:328-339 | A timeout reads as "not displayed". Any other exception escapes unchanged. |
| CommonTree.ItemIsDisplayedIn | Components/PerspectiveComponents/Common/Tree.py:328-339 | `item_is_displayed` first caches the item's piece. An item not cached before is cached with the default timeout of 5, and nothing else changes. |
| CommonTree.DisplayCheckFixesTimeout | Components/PerspectiveComponents/Common/Tree.py:376-388 | After a display check, the timeout of `select_item`'s `_get_item` has no effect. The piece keeps the default timeout, or the timeout it was cached with before. |
| CommonTree.WalkFromStopsAtFirstFailure | Components/PerspectiveComponents/Common/Tree.py:205-206 | The walk over the ancestry goes through exactly when every step expands. Otherwise it stops at the first failing step with its error. |
| CommonTree.ExpandToItem | Components/PerspectiveComponents/Common/Tree.py:188-216 | See the list of guarantees after this table. |
| CommonTree.NeverDisplayedReturnsNormally | Components/PerspectiveComponents/Common/Tree.py:203-216 | As written, when every attempt expands the ancestry but finds the item not displayed, the call returns normally. |
| CommonTree.ExpandToItemAsDocumented | Components/PerspectiveComponents/Common/Tree.py:188-216 | As documented, the call returns normally only with the item shown, at an attempt that displayed it. An item never displayed raises a TimeoutException. |
| CommonTree.ItemIsExpanded | Components/PerspectiveComponents/Common/Tree.py:341-354 | An icon not found within no time reads as collapsed. Otherwise the item is expanded exactly when its icon's class contains `ia_treeComponent__expandIcon--expanded`. |
| CommonTree.ItemIsExpandedIn | Components/PerspectiveComponents/Common/Tree.py:341-354 | `item_is_expanded` caches the expansion icon piece, and behind it the item piece. A cached icon leaves the caches unchanged, and coherent caches stay coherent. |
| CommonTree.ClickReusesExpansionIcon | Components/PerspectiveComponents/Common/Tree.py:402-404 | The click of `set_expansion_state` reuses the icon piece that `item_is_expanded` cached, and changes no cache. |
| CommonTree.SetExpansionState | Components/PerspectiveComponents/Common/Tree.py:390-408 | A failed expansion escapes. The icon is clicked exactly when the expanded state differs from the request. A timeout on the click is raised again with a message naming the item's path. |
| CommonTree.PathInNoIconMessage | Components/PerspectiveComponents/Common/Tree.py:405-408 | The message raised for a missing icon contains the item's path. |
| CommonTree.SetExpansionStateReachesRequest | Components/PerspectiveComponents/Common/Tree.py:390-408 | Given that a click on the icon flips its expanded state, a successful call leaves the item in the requested state, and a second call clicks nothing. The code itself never reads the state back after clicking. |
| CommonTree.ModifierKey | Components/PerspectiveComponents/Common/Tree.py:315-318 | SHIFT for an inclusive selection. Otherwise COMMAND on a platform whose name starts with `darwin`, and CONTROL elsewhere. |
| CommonTree.GetItemsKeepsCoherent | Components/PerspectiveComponents/Common/Tree.py:321 | Fetching the pieces of a list of items keeps the caches coherent. Every piece fetched hangs under the tree's locator list. |
| CommonTree.KeyedItemsLocate | Components/PerspectiveComponents/Common/Tree.py:321 | The i-th piece fetched carries the i-th item's locator. This holds keyed by label chain, and keyed by path as written when no label holds `/`. |
| CommonTree.ClickAll | Components/PerspectiveComponents/Common/Tree.py:322-323 | The clicks are queued exactly when every piece is found. Otherwise the find's timeout escapes. Each piece gets one click and a one-second pause, in order. |
| CommonTree.MultiSelect | Components/PerspectiveComponents/Common/Tree.py:302-326 | All pieces are fetched and cached first. The gesture is performed exactly when every piece is found. It is key-down, then a click and a pause per item in order, then key-up. |
| CommonTree.MultiSelectClicksItemsInOrder | Components/PerspectiveComponents/Common/Tree.py:302-326 | The n-th click lands on the tree's locator list followed by the n-th item's locator. This holds keyed by label chain, and keyed by path as written when no label holds `/`. |
| TagBrowseTree.ItemFromTagAsWritten | Components/PerspectiveComponents/Displays/TagBrowseTree.py:84-93 | As written, the chain is the first piece followed by the other non-empty pieces in reverse order. |
| TagBrowseTree.AsWrittenReturnsFirstPiece | Components/PerspectiveComponents/Displays/TagBrowseTree.py:89-92 | As written, the returned item is labelled with the first non-empty piece after the root, not the last. |
| TagBrowseTree.ThreeLevelAsWritten | Components/PerspectiveComponents/Displays/TagBrowseTree.py:89-92 | For `A/B/C`, as written, the chain runs A, C, B and the returned item is `B`. |
| TagBrowseTree.ItemFromTag | Components/PerspectiveComponents/Displays/TagBrowseTree.py:84-93 | Corrected, the chain is the first piece followed by the other non-empty pieces in path order. |
| TagBrowseTree.ChainLength | Components/PerspectiveComponents/Displays/TagBrowseTree.py:84-93 | Both versions build one item per non-empty piece after the first, on a root made from the first piece. |
| TagBrowseTree.PathRoundTrip | Components/PerspectiveComponents/Displays/TagBrowseTree.py:84-93 | When no piece is empty, the corrected item's path is the tag path itself. |
| TagBrowseTree.MultiSelect | Components/PerspectiveComponents/Displays/TagBrowseTree.py:40-46 | Selecting plain items always raises NotImplementedError. |
| TagBrowseTree.SelectItem | Components/PerspectiveComponents/Displays/TagBrowseTree.py:66-71 | Selecting a plain item always raises NotImplementedError. |
| TypedKeys.KeysFor | Components/PerspectiveComponents/Inputs/FormComponent.py:339-354 | The keys are one arrow-right per current character, then one backspace per current character, then the text. An empty text becomes a space and a backspace. |
| TypedKeys.KeysReplaceValue | Components/PerspectiveComponents/Inputs/FormComponent.py:351-356 | From any caret position, typing the keys into a field holding the current value leaves exactly the text, for a text without editing keys. |
| FormComponent.ExpectedText | Components/PerspectiveComponents/Inputs/FormComponent.py:336-338 | The expected value is all ASCII. Its length is the number of ASCII characters of the text. Each ASCII character of the text appears in it, after the ASCII characters before it, so order is kept. It equals the text exactly when the text is all ASCII. |
| FormComponent.IsEnabled | Components/PerspectiveComponents/Inputs/FormComponent.py:301-307 | Enabled exactly when the element has no `disabled` attribute. An empty `disabled` attribute still disables. |
| FormComponent.IsReadOnly | Components/PerspectiveComponents/Inputs/FormComponent.py:309-315 | Read-only exactly when the element has a `readonly` attribute. An empty `readonly` attribute still counts. |
| FormComponent.ReadOnlyGuard | Components/PerspectiveComponents/Inputs/FormComponent.py:309-334 | The guard is the truthiness of the `readonly` value as read. Read through `get_attribute`, which reports a present `readonly` as `"true"`, it agrees with `is_read_only` exactly. |
| FormComponent.SetText | Components/PerspectiveComponents/Inputs/FormComponent.py:317-364 | See the list of guarantees after this table. |
| FormComponent.SetTextOnModelField | Components/PerspectiveComponents/Inputs/FormComponent.py:317-364 | On a field that takes the keys as typed, from any caret position, `_set_text` succeeds exactly when the text is ASCII, for a text without editing keys. |
| FormComponent.CancelActionButtonText | Components/PerspectiveComponents/Inputs/FormComponent.py:112-127 | An empty button text raises NoSuchElementException, and only it does. Otherwise the text is returned unchanged. |
| FormComponent.SubmitActionButtonText | Components/PerspectiveComponents/Inputs/FormComponent.py:149-164 | An empty button text raises NoSuchElementException, and only it does. Otherwise the text is returned unchanged. |
| TextInput.NewTextInput | Components/Common/TextInput.py:18-43 | The internal `<input>` piece hangs under the input's own locator list, has timeout 0, and is a distinct piece. |
| TextInput.Target | Components/Common/TextInput.py:53-60 | An element whose tag is neither `input` nor `textarea` is read and typed through the internal `<input>` piece. Otherwise it is read and typed through itself. |
| TextInput.TargetChain | Components/Common/TextInput.py:36-43 | The target's locator list is the input's, extended by the `input` tag only when the element is not itself an input or a textarea. |
| TextInput.PlaceholderTextExists | Components/Common/TextInput.py:62-68 | Holds exactly when a placeholder attribute is present and a value attribute is absent. |
| TextInput.ExpectedText | Components/Common/TextInput.py:84-87 | The expected value holds only printable characters, newlines and tabs. Every such character of the text appears in it, in order, and its length is their number. It equals the text exactly when the text holds nothing else. |
| TextInput.EscapeOnlyFromText | Components/Common/TextInput.py:92-108 | The keys hold an ESCAPE exactly when the text does. Firefox's `clear()` therefore depends on the text alone. |
| TextInput.SetText | Components/Common/TextInput.py:70-117 | See the list of guarantees after this table. |
| TextInput.SetTextSucceedsIffExpectedRead | Components/Common/TextInput.py:112-116 | Once the first wait went through, `set_text` succeeds exactly when a poll reads the expected text before anything else stops the wait. |
| TextInput.SetTextOnModelField | Components/Common/TextInput.py:70-117 | On a field that takes the keys as typed, `set_text` succeeds exactly when every character of the text is printable, a newline or a tab, for a text without editing keys. |

Guarantees of the members marked "see the list" in the table:

- `CommonTree.ExpandToItem`:
  - Every attempt before the last one was either "not displayed" or a transient failure (a
    timeout or a stale reference).
  - Exactly those transient failures are followed by a sleep.
  - A displayed item ends the loop.
  - A non-transient failure escapes at once.
  - A transient failure on the last attempt raises a TimeoutException that names the path and the
    attempt count.
  - When every attempt leaves the item not displayed, the call returns normally.
  - With no attempt allowed, nothing is done.
  - The loop's outcome equals that of a recursive reference over the attempts.
- `FormComponent.SetText`:
  - A truthy `readonly` raises ElementNotInteractableException before anything else.
  - A missing value raises TypeError.
  - Otherwise the call succeeds exactly when the value read back is the expected text, and raises
    AssertionError when it is not.
  - The keys sent clear the current value and then type the text.
- `TextInput.SetText`:
  - A failure of the first wait escapes.
  - A missing value raises TypeError.
  - The call succeeds exactly when the final wait returns the expected text.
  - The keys go to the target piece.
  - The field is cleared first exactly when the driver is Firefox and the text holds no ESCAPE.

## Left out

- Time is left out: sleeps, poll frequencies and timeouts in seconds. A wait is a finite sequence
  of polls, and its timeout is the end of that sequence. The decorated calls, the expansion steps,
  the display checks and the finds are traces given as parameters.
- The browser is left out: no DOM, and no matching of selectors against elements. Only the
  selector strings are modelled.
- The comma-splitting regular expression of the CSS builder is an uninterpreted function
  parameter. Its behaviour on quoted attribute values is not modelled.
- `str()` conversion of arguments is assumed already applied. Format strings are modelled with
  `{}` fields only.
- `IAec.function_returns_true` is not part of this model. A TimeoutException raised inside the
  polled function is assumed to end the wait, as the caller's `should_raise` handling expects. The
  message of the "not found" timeout is a stand-in.
- ElementPolicies.WaitOnText: with a `None` comparand, the polled function returns the text read.
  The model assumes `IAec.function_returns_true` judges that by truthiness, so polling continues
  while the text is empty. The docstring instead promises the text at once. The model follows the
  code under this assumption.
- ElementPolicies.BoundaryCollision: Selenium's `rect` holds floats, and the model uses exact
  reals. Rounding in `x + width` near a shared edge is not modelled.
- CommonTree.ItemIsExpanded: an icon not found within no time reads as collapsed, as in the code.
  Two other outcomes are not modelled: a found icon without a `class` attribute (the `in` test
  raises TypeError) and a stale reference, which escapes.
- `CommonIcon` is not part of this model. Icon pieces are built as plain pieces with the piece
  default timeout.
- CommonTree.ExpandToItem: the caches are not threaded through the walk and the attempts.
  `ExpandToItem`, `Attempt`, `ItemIsDisplayed` and `SetExpansionState` take the driver's answers
  as parameters and leave the caches alone. The cache effect of each display check and icon read
  is modelled per call, by `ItemIsDisplayedIn` and `ItemIsExpandedIn`. `DisplayCheckFixesTimeout`
  states its consequence for a later `_get_item`.
- FormComponent.ReadOnlyGuard: the guard receives the `readonly` value as `get_attribute`
  reports it. For `readonly` and `disabled`, the model takes Selenium's reading of boolean
  attributes: `"true"` when present, `None` when absent. A driver that returned the raw attribute
  text would let an empty `readonly` attribute through the guard. That case is not modelled.
- `expand_to_item` and `set_expansion_state` call each other. The model takes the outcome of each
  ancestor's expansion step as a parameter instead of unfolding that recursion.
- The click-intercept fallback (`ActionChains` click with offset), `scroll_to_element`,
  `release_focus` and `wait_after` are left out. They do not change the keys sent or the value
  checked.
- The remaining methods of the tree, the form and the text input are outside the modelled core:
  - the icon fill colours and paths;
  - the top-level and all-items text;
  - `select_item` of the common tree, apart from the cache lookup in `DisplayCheckFixesTimeout`;
  - the quality overlay;
  - `get_placeholder_text`;
  - the dropdown and number widgets;
  - the remaining `BasicComponent` methods.
  `multi_select_tags` and `select_tag` of the tag browse tree are also left out.
- The part of a tag's full path after its provider is the input of `_item_from_tag`. `Tag`,
  `Folder` and the provider split are not part of this model.
- Keys are single characters with Selenium's code points. `str.isprintable` is a predicate
  parameter, because the Unicode tables are not modelled.
- `sys.platform` and the driver name are string parameters.
- TextInput.SetTextOnModelField: the field model does not apply Firefox's `clear()` before typing.
  Clearing an already-cleared field changes nothing in the model, so the property is stated
  without it.
- ElementPolicies.Compare: the numeric conditions are stated only by their definition. They
  compare the two strings with every comma removed, not as numbers.

## Findings

| source | as written | input that shows it | evidently intended | confidence | as-written member | corrected member |
|---|---|---|---|---|---|---|
| Components/BasicComponent.py:975-984 | Each accumulated alternative is extended by every branch, then removed once with `list.remove`. A repeated alternative therefore leaves one unextended copy. | `["a, a", "b, c"]` composes to `a, a b, a b, a c, a c` | every alternative is replaced by its extensions: `a b, a b, a c, a c` | medium; not executed | LocatorBuilder.RepeatedAlternativeSurvives | LocatorBuilder.CssLocatorIsProduct |
| Components/PerspectiveComponents/Displays/TagBrowseTree.py:89-92 | After the first piece, the pieces are popped from the end of the list. Each becomes the child of the item built so far, so the chain runs in reverse order. | tag path `A/B/C` gives chain A, C, B and returns the item `B` | the chain follows the tag path, A, B, C, and returns the item `C` | high; not executed | TagBrowseTree.ThreeLevelAsWritten | TagBrowseTree.PathRoundTrip |
| Components/PerspectiveComponents/Common/Tree.py:440-452 | `_get_item` caches pieces by `str(item)`, the slash-joined path. An item whose label contains `/` shares its path with a nested item. | top-level `a/b` looked up first, then `b` under `a`: the second lookup returns the first item's piece | distinct items get pieces that locate them, as when keyed by the label chain | medium; not executed | CommonTree.PathKeyedCacheConfusesItems | CommonTree.LabelKeyedCacheLocatesItem |
| Components/PerspectiveComponents/Common/Tree.py:203-216 | An attempt that finds the item not displayed raises nothing. When every attempt does so, the loop ends and the call returns normally. | an ancestry that always expands, with the item never displayed, for any `max_attempts` | the docstring (lines 191-201) promises a TimeoutException when the item is still not displayed after `max_attempts` | high; not executed | CommonTree.NeverDisplayedReturnsNormally | CommonTree.ExpandToItemAsDocumented |
