/**
 The decision `useClickAway` makes on every `mousedown`: call the callback
 when the press landed outside the bound region and outside every excluded
 class, and do nothing otherwise.
 */
module ClickAway {
  import opened Wrappers
  import opened DomTree
  import opened ClassList

  /** Every entry of a supplied exclusion list names exactly one class. */
  predicate ValidExclusions(exclude: Option<seq<string>>) {
    exclude.Some? ==> forall i :: 0 <= i < |exclude.value| ==> IsClassIdentifier(exclude.value[i])
  }

  /** The class selector `.c`, as a test on nodes of `doc`. */
  function ClassSelector(doc: Document, c: string): NodeId -> bool {
    (a: NodeId) => HasClass(doc.ClassName(a), c)
  }

  /** `exclude?.includes(target.className)`: some position of the list holds
      the whole `className` string. An omitted list makes the optional call
      yield `undefined`, which suppresses nothing. */
  function ExcludedByClassName(doc: Document, exclude: Option<seq<string>>, target: NodeId): (r: bool)
    ensures exclude.None? ==> !r
    ensures r && ValidExclusions(exclude) ==> IsToken(doc.ClassName(target))
  {
    exclude.Some? && doc.ClassName(target) in exclude.value
  }

  /** `exclude?.some(item => target.closest(`.${item}`))`: the target or one of
      its ancestors carries some entry as a class. */
  function ExcludedByClosest(doc: Document, exclude: Option<seq<string>>, target: NodeId): (r: bool)
    requires doc.Valid() && target in doc.nodes && ValidExclusions(exclude)
    ensures r <==> HasExcludedAncestor(doc, exclude, target)
  {
    exclude.Some? &&
    (SomeClosestAgreesWithDom(doc, exclude.value, target);
     exists e :: e in exclude.value && doc.Closest(target, ClassSelector(doc, e)).Some?)
  }

  /** The `mousedown` handler's test: true iff the callback is called. `root`
      is `clickAwayRef.current`, `None` while no element is bound. The handler
      fires exactly when the bound root exists, the target is not an inclusive
      descendant of it, the target's `className` is no entry, and no inclusive
      ancestor of the target carries an entry as a class. */
  function ShouldFire(doc: Document, root: Option<NodeId>, exclude: Option<seq<string>>, target: NodeId): (fire: bool)
    requires doc.Valid() && target in doc.nodes && ValidExclusions(exclude)
    ensures fire <==> FiresPerDom(doc, root, exclude, target)
  {
    && root.Some?
    && !doc.Contains(root.value, target)
    && !ExcludedByClassName(doc, exclude, target)
    && !ExcludedByClosest(doc, exclude, target)
  }

  // ---------------------------------------------------------------------
  // The same decision, stated with the DOM's relations rather than with the
  // walks that compute them.

  /** Some inclusive ancestor of the target has some entry as a token of its `class`. */
  ghost predicate HasExcludedAncestor(doc: Document, exclude: Option<seq<string>>, target: NodeId) {
    exclude.Some? &&
    exists e, a :: e in exclude.value && doc.IsInclusiveAncestor(a, target) && OccursAsToken(doc.ClassName(a), e)
  }

  ghost predicate FiresPerDom(doc: Document, root: Option<NodeId>, exclude: Option<seq<string>>, target: NodeId) {
    && root.Some?
    && !doc.IsInclusiveAncestor(root.value, target)
    && !(exclude.Some? && doc.ClassName(target) in exclude.value)
    && !HasExcludedAncestor(doc, exclude, target)
  }

  /** `closest(.e)` finds a node exactly when some inclusive ancestor has token `e`. */
  lemma ClosestClassFindsAncestor(doc: Document, target: NodeId, e: string)
    requires doc.Valid() && target in doc.nodes && IsToken(e)
    ensures doc.Closest(target, ClassSelector(doc, e)).Some? <==>
            exists a :: doc.IsInclusiveAncestor(a, target) && OccursAsToken(doc.ClassName(a), e)
  {
    var r := doc.Closest(target, ClassSelector(doc, e));
    if r.Some? {
      doc.InclusiveAncestorsAreAncestors(r.value, target);
      SplitTokensFindsOccurrences(doc.ClassName(r.value), e);
    } else {
      forall a | doc.IsInclusiveAncestor(a, target)
        ensures !OccursAsToken(doc.ClassName(a), e)
      {
        doc.InclusiveAncestorsAreAncestors(a, target);
        SplitTokensFindsOccurrences(doc.ClassName(a), e);
      }
    }
  }

  /** Over a list of identifier entries, some `closest(".e")` finds a node
      exactly when some inclusive ancestor carries some entry as a token. */
  lemma SomeClosestAgreesWithDom(doc: Document, entries: seq<string>, target: NodeId)
    requires doc.Valid() && target in doc.nodes
    requires forall i :: 0 <= i < |entries| ==> IsClassIdentifier(entries[i])
    ensures (exists e :: e in entries && doc.Closest(target, ClassSelector(doc, e)).Some?) <==>
            exists e, a :: e in entries && doc.IsInclusiveAncestor(a, target) && OccursAsToken(doc.ClassName(a), e)
  {
    forall e | e in entries
      ensures doc.Closest(target, ClassSelector(doc, e)).Some? <==>
              exists a :: doc.IsInclusiveAncestor(a, target) && OccursAsToken(doc.ClassName(a), e)
    {
      IdentifierIsToken(e);
      ClosestClassFindsAncestor(doc, target, e);
    }
  }

  // ---------------------------------------------------------------------
  // Suppression and firing rules.

  /** With no element bound to the reference, no press fires the callback. */
  lemma UnboundNeverFires(doc: Document, exclude: Option<seq<string>>, target: NodeId)
    requires doc.Valid() && target in doc.nodes && ValidExclusions(exclude)
    ensures !ShouldFire(doc, None, exclude, target)
  {
  }

  /** A press on the root itself or on any of its descendants never fires. */
  lemma InsideNeverFires(doc: Document, root: NodeId, exclude: Option<seq<string>>, target: NodeId)
    requires doc.Valid() && target in doc.nodes && ValidExclusions(exclude)
    requires doc.IsInclusiveAncestor(root, target)
    ensures !ShouldFire(doc, Some(root), exclude, target)
  {
  }

  /** A target whose whole `className` equals an entry never fires, wherever it is. */
  lemma ExactClassNameNeverFires(doc: Document, root: Option<NodeId>, exclude: Option<seq<string>>, target: NodeId)
    requires doc.Valid() && target in doc.nodes && ValidExclusions(exclude)
    requires exclude.Some? && doc.ClassName(target) in exclude.value
    ensures !ShouldFire(doc, root, exclude, target)
  {
  }

  /** A target that is, or sits inside, an element carrying an entry as one of
      its class tokens never fires. */
  lemma ExcludedAncestorNeverFires(doc: Document, root: Option<NodeId>, exclude: Option<seq<string>>,
                                   target: NodeId, a: NodeId, e: string)
    requires doc.Valid() && target in doc.nodes && ValidExclusions(exclude)
    requires exclude.Some? && e in exclude.value
    requires doc.IsInclusiveAncestor(a, target) && OccursAsToken(doc.ClassName(a), e)
    ensures !ShouldFire(doc, root, exclude, target)
  {
  }

  /** With the list omitted or empty, the callback fires exactly for presses
      outside a bound root. */
  lemma NoExclusionsFireIffOutside(doc: Document, root: Option<NodeId>, exclude: Option<seq<string>>, target: NodeId)
    requires doc.Valid() && target in doc.nodes
    requires exclude == None || exclude == Some([])
    ensures ShouldFire(doc, root, exclude, target) <==>
            root.Some? && !doc.IsInclusiveAncestor(root.value, target)
  {
  }

  /** Lengthening the exclusion list can only turn firing into not firing. */
  lemma MoreExclusionsFireLess(doc: Document, root: Option<NodeId>, exclude: Option<seq<string>>,
                               wider: Option<seq<string>>, target: NodeId)
    requires doc.Valid() && target in doc.nodes && ValidExclusions(exclude) && ValidExclusions(wider)
    requires exclude.Some? ==> wider.Some? && forall e :: e in exclude.value ==> e in wider.value
    ensures ShouldFire(doc, root, wider, target) ==> ShouldFire(doc, root, exclude, target)
  {
    if HasExcludedAncestor(doc, exclude, target) {
      var e, a :| e in exclude.value && doc.IsInclusiveAncestor(a, target) && OccursAsToken(doc.ClassName(a), e);
      assert e in wider.value;
    }
  }

  /** The comparison on line 26 is on the whole string: an element whose
      `className` is not a single token (empty, or holding whitespace, like
      "menu-item active") is never excluded by it, whatever identifier
      entries the list holds. */
  lemma WhitespaceClassNameNeverExactlyExcluded(doc: Document, exclude: Option<seq<string>>, target: NodeId)
    requires ValidExclusions(exclude) && !IsToken(doc.ClassName(target))
    ensures !ExcludedByClassName(doc, exclude, target)
  {
  }

  /** On an element whose classes are an identifier entry alone, the exact
      comparison adds nothing: `closest` already matches the target itself. */
  lemma ExactMatchImpliesClosestMatch(doc: Document, exclude: Option<seq<string>>, target: NodeId)
    requires doc.Valid() && target in doc.nodes && ValidExclusions(exclude)
    requires ExcludedByClassName(doc, exclude, target)
    ensures ExcludedByClosest(doc, exclude, target)
  {
    var e := doc.ClassName(target);
    IdentifierIsToken(e);
    TokenHasItself(e);
    assert doc.InclusiveAncestors(target)[0] == target;
    assert doc.Closest(target, ClassSelector(doc, e)).Some?;
  }
}
