# useClickAway — the click-away rule and its listener lifecycle, in Dafny

`useClickAway(callback, excludeClasses?)` is a React hook that closes
dropdowns and popovers when the user presses the mouse outside them. It returns
a reference (`clickAwayRef`) that the caller binds to the region's root
element, and while the component is mounted it keeps one `mousedown` listener
on the document. On every press the listener calls `callback` when all four of
these hold:

1. the reference is bound to an element;
2. the press target is not that element or a descendant of it (`Node.contains`,
   section 4.4 of the DOM Standard);
3. the target's whole `className` string is not an entry of `excludeClasses`;
4. neither the target nor any ancestor carries an entry as a class
   (`Element.closest(".entry")`, section 4.9 of the DOM Standard, with a class
   selector from section 6.6 of Selectors Level 4).

This project models that rule and the add/remove pairing of the effect.

- `wrappers.dfy` (`Wrappers`): `Option`, standing for `null`/`undefined`.
- `dom_tree.dfy` (`DomTree`): a document as a node set with a parent map and
  `class` attributes. A `rank` map witnesses that the parent relation has no
  cycle. It defines the inclusive-ancestor chain, `contains` and `closest`. The
  chain is proved to be exactly the DOM's inclusive-ancestor relation, given as
  "a parent path leads from the node to the ancestor".
- `class_list.dfy` (`ClassList`): an element's classes are its `class`
  attribute split on ASCII whitespace. The split is proved to find exactly the
  whitespace-delimited occurrences of a token.
- `click_away.dfy` (`ClickAway`): the handler's test `ShouldFire`. It is proved
  equal to the same rule stated with the DOM relations. It also gets the
  suppression, firing and monotonicity laws.
- `listeners.dfy` (`Listeners`): the document's listener list, with "add" and
  "remove" as section 2.7 of the DOM Standard defines them. It also holds the
  effect (`Activate`) and its cleanup (`Deactivate`), any lifetime of commits
  and unmounts (`Run`), and the dispatch of one press to the live listeners.
- `scenarios.dfy` (`Scenarios`): a concrete page with a panel and menu items,
  with the decision worked out for each press.

A side result: when every entry is a CSS class identifier, test 3 never
suppresses a press that test 4 lets through (`ExactMatchImpliesClosestMatch`).
A `className` equal to an identifier has that identifier as its only class, so
`closest` already matches the target itself. For such lists the asymmetry
between the whole-string test and the token-aware test changes no decision.
Outside identifier entries it does: the `&&` evaluates test 3 first, so an
entry equal to the whole `className` suppresses the press before `closest`
would throw (`"2col"`, or `""` on an element without a class) or read the
entry as a different selector (`"a.b"` is a compound of two classes). Those
lists are not modelled in the test; the add/remove lifecycle, which never
reads the entries, is modelled for every list.

## Model

| member | source | states |
|---|---|---|
| DomTree.Document.InclusiveAncestors | src/index.ts:25 | the chain starts at the target, steps from each node to its parent, stays in the document and ends at a node without a parent |
| DomTree.Document.InclusiveAncestorsAreAncestors | src/index.ts:25 | a node is in the computed chain iff a parent path leads from the target to it, so `contains` is the DOM's inclusive-descendant relation |
| DomTree.Document.Closest | src/index.ts:27 | `closest` returns an inclusive ancestor that matches and no nearer one matches; it returns nothing iff no inclusive ancestor matches |
| DomTree.Document.Contains | src/index.ts:25 | `root.contains(target)` holds iff a parent path leads from the target to the root, i.e. the target is the root or a descendant of it |
| ClassList.SplitTokens | src/index.ts:27 | every class the split yields is non-empty and free of ASCII whitespace |
| ClassList.SplitTokensFindsOccurrences | src/index.ts:27 | for a whitespace-free non-empty `c`, `.c` matches a `className` iff `c` occurs in it delimited by whitespace or the ends of the string |
| ClickAway.ClosestClassFindsAncestor | src/index.ts:27 | `closest(".e")` finds a node iff some inclusive ancestor of the target has `e` as a whitespace-delimited token |
| ClickAway.ExcludedByClassName | src/index.ts:26 | the optional chain on an omitted list suppresses nothing, and with identifier entries a whole-string match can only happen on an element with a single class |
| ClickAway.WhitespaceClassNameNeverExactlyExcluded | src/index.ts:26 | with identifier entries, a `className` that is not a single token (empty, or several classes such as "menu-item active") never equals an entry, so `includes` never suppresses a press on it |
| ClickAway.SomeClosestAgreesWithDom | src/index.ts:27 | for identifier entries, some `closest(".e")` finds a node iff some entry is a class token of the target or of one of its ancestors |
| ClickAway.ExcludedByClosest | src/index.ts:27 | `exclude?.some(item => target.closest(...))` holds iff the list is supplied and some entry is a class token of the target or of one of its ancestors |
| ClickAway.ShouldFire | src/index.ts:23-31 | the callback is called iff the reference is bound, the target is not an inclusive descendant of the root, the whole `className` is no entry, and no inclusive ancestor carries an entry as a token |
| ClickAway.UnboundNeverFires | src/index.ts:24 | with the reference unbound, no press fires, whatever the target and list |
| ClickAway.InsideNeverFires | src/index.ts:25 | a press on the root or on any descendant never fires |
| ClickAway.ExactClassNameNeverFires | src/index.ts:26 | a target whose whole `className` equals an entry never fires, inside or outside the root |
| ClickAway.ExcludedAncestorNeverFires | src/index.ts:27 | a target that is, or is inside, an element with an entry among its class tokens never fires |
| ClickAway.NoExclusionsFireIffOutside | src/index.ts:26-27 | with the list omitted or empty, a press fires iff the reference is bound and the target is outside the root |
| ClickAway.MoreExclusionsFireLess | src/index.ts:26-27 | if every entry of one list is in a second list, a press that fires under the second also fires under the first |
| ClickAway.ExactMatchImpliesClosestMatch | src/index.ts:26-27 | when entries are class identifiers, a whole-`className` match implies that `closest` matches the target itself |
| ClassList.TokenHasItself | src/index.ts:26-27 | a whitespace-free non-empty string has itself as a class token |
| Listeners.AddEventListener | src/index.ts:32 | after adding, the list holds the old listeners and the new one; an equal listener already present leaves it unchanged, otherwise the new one is appended |
| Listeners.RemoveEventListener | src/index.ts:35 | removing takes out exactly the first listener equal to the handler and keeps the others in order, and leaves a list without it untouched |
| Listeners.RemoveUndoesAdd | src/index.ts:32-36 | removing a handler right after adding it (when it was absent) gives back the original list |
| Listeners.Activate | src/index.ts:20-33 | an effect run registers one fresh handler, carrying the given callback and list (whatever its entries), which the pending cleanup will remove |
| Listeners.Deactivate | src/index.ts:34-36 | the cleanup removes its handler, leaving one listener fewer and no pending cleanup |
| Listeners.DeactivateUndoesActivate | src/index.ts:32-36 | an effect run followed by its own cleanup leaves the document's listeners as they were |
| Listeners.Apply | src/index.ts:20-37 | a commit runs the pending cleanup, so the old handler is no longer registered, and installs a handler with the new callback and list; an unmount leaves no listener and no pending cleanup; both keep "at most one live listener, the one the pending cleanup removes" |
| Listeners.Run | src/index.ts:20-37 | any lifetime of commits and unmounts, with any exclusion lists, keeps that invariant; after a final commit the live handler carries that commit's callback and list, and after a final unmount nothing is registered |
| Listeners.RunKeepsAtMostOneListener | src/index.ts:32-36 | over any lifetime there is at most one live listener, exactly one after a commit and none after an unmount |
| Listeners.Dispatch | src/index.ts:21-31 | a press invokes no more callbacks than there are listeners; every callback it invokes belongs to a listener whose test passes, and every listener whose test passes has its callback invoked |
| Listeners.FiringCallbacksInOrder | src/index.ts:21-31 | the listeners a press runs are visited in list order, and the invoked callbacks are those of exactly the passing listeners, one per listener, in that order |
| Listeners.DispatchCallsFiringListenersInOrder | src/index.ts:21-31 | for the `mousedown` handlers' test: there are increasing positions, exactly those of the listeners whose test passes, and the invoked callbacks are the callbacks at those positions in order |
| Listeners.AtMostOneCallPerEvent | src/index.ts:23-30 | a press calls the callback at most once; exactly once iff an effect is in place and its handler's test passes (for a live list of identifier entries, where the test is modelled) |
| Listeners.NothingFiresAfterUnmount | src/index.ts:34-36 | after teardown no press, however made, calls the callback |
| Scenarios.WholeStringComparison | src/index.ts:26-27 | `className` "menu-item active" does not equal the entry "menu-item", yet `closest(".menu-item")` matches it |
| Scenarios.PanelScenario | src/index.ts:21-31 | with region `#panel` and list `["menu-item"]`: a panel child, a `.menu-item` button and a div inside `.menu-item.active` do not fire; an unrelated span does |
| Scenarios.OmittedListScenario | src/index.ts:26-27 | with the list omitted, the presses the list suppressed fire, and a press inside the panel still does not |

## Left out

- React's hook machinery: `useRef`, `useMemo` and `useEffect` scheduling and dependency comparison (src/index.ts:13-20, 37). The framework decides when an effect reruns; the model takes that decision as the input sequence of `Step`s. `useMemo` keys on the array's identity, not its contents, so a fresh array with equal entries reruns the effect; that churn changes no decision and is not modelled.
- `document.addEventListener`/`removeEventListener` and event dispatch are reduced to this instance's part of the document's `mousedown` listener list. The capture flag is always unset, and other event types and other instances' listeners are not modelled.
- The callback's side effects: a callback is represented only by its identity, and a press yields the list of callbacks it invokes.
- ClickAway.ValidExclusions: entries must be ASCII CSS identifiers. Entries with whitespace or selector characters change what `.${item}` means, and an empty entry makes `closest` throw a `SyntaxError`; neither is modelled. Escapes and non-ASCII identifier characters, which CSS accepts, are excluded as well.
- Listeners.AtMostOneCallPerEvent: requires the live handler's list to hold identifiers, because only then is its test modelled (see ClickAway.ValidExclusions); the lifecycle lemmas have no such requirement.
- ClickAway.ShouldFire: its characterisation holds only under ValidExclusions, for the reason above.
- ClickAway.ExcludedByClosest: holds only under ValidExclusions, for the reason above.
- ClickAway.SomeClosestAgreesWithDom: holds only for identifier entries, for the reason above.
- SVG targets (their `className` is an `SVGAnimatedString`), text and document targets, and shadow-DOM retargeting. Every node is an HTML element whose `className` reflects its `class` attribute, reading "" when the attribute is missing.
- Quirks-mode documents, where class selectors match case-insensitively; the model matches case-sensitively, as in no-quirks mode.
- The ordered set parser drops duplicate class tokens; `SplitTokens` keeps them, which changes no membership test.
