/**
 Concrete documents on which the click-away decision is worked out in full.

     0 html
     └ 1 body
       ├ 2 #panel              (the bound region)
       │ └ 3 child of #panel
       ├ 4 button.menu-item
       ├ 5 li.menu-item.active (class "menu-item active")
       │ └ 6 div.label
       └ 7 span
 */
module Scenarios {
  import opened Wrappers
  import opened DomTree
  import opened ClassList
  import opened ClickAway

  function Page(): (doc: Document)
    ensures doc.Valid()
  {
    Document(
      {0, 1, 2, 3, 4, 5, 6, 7},
      map[1 := 0, 2 := 1, 3 := 2, 4 := 1, 5 := 1, 6 := 5, 7 := 1],
      map[4 := "menu-item", 5 := "menu-item active", 6 := "label"],
      map[0 := 0, 1 := 1, 2 := 2, 3 := 3, 4 := 2, 5 := 2, 6 := 3, 7 := 2])
  }

  const MenuItem: string := "menu-item"

  /** `class="menu-item active"` has `menu-item` as a token. */
  lemma MenuItemActiveHasMenuItem()
    ensures HasClass("menu-item active", MenuItem)
  {
    MenuItemIsValidExclusion();
    IdentifierIsToken(MenuItem);
    var s := "menu-item active";
    assert s[..9] == MenuItem;
    LeadingWordIsClass(s, MenuItem);
  }

  lemma ActiveMenuItemOccurrence()
    ensures OccursAsToken("menu-item active", MenuItem)
  {
    var s := "menu-item active";
    assert s[0..9] == MenuItem;
    assert DelimitedAt(s, 0, MenuItem);
  }

  lemma ActiveMenuItemIsMatchedByClosest()
    ensures Page().Closest(5, ClassSelector(Page(), MenuItem)) == Some(5)
  {
    var doc := Page();
    assert doc.ClassName(5) == "menu-item active";
    MenuItemActiveHasMenuItem();
    assert ClassSelector(doc, MenuItem)(5);
  }

  /** The exact comparison is on the whole string: `"menu-item active"` is not
      the entry `"menu-item"`, yet `closest(".menu-item")` finds the element. */
  lemma WholeStringComparison()
    ensures !ExcludedByClassName(Page(), Some([MenuItem]), 5)
    ensures ExcludedByClosest(Page(), Some([MenuItem]), 5)
  {
    assert |Page().ClassName(5)| != |MenuItem|;
    ActiveMenuItemIsMatchedByClosest();
    assert MenuItem in [MenuItem];
  }

  lemma MenuItemIsValidExclusion()
    ensures ValidExclusions(Some([MenuItem]))
  {
    forall i | 0 <= i < |MenuItem| ensures IsIdentChar(MenuItem[i]) { }
  }

  lemma PanelChildDoesNotFire()
    ensures !ShouldFire(Page(), Some(2), Some([MenuItem]), 3)
  {
    MenuItemIsValidExclusion();
    assert Page().ParentPath([3, 2]);
    InsideNeverFires(Page(), 2, Some([MenuItem]), 3);
  }

  lemma MenuItemDoesNotFire()
    ensures !ShouldFire(Page(), Some(2), Some([MenuItem]), 4)
  {
    MenuItemIsValidExclusion();
    assert Page().ClassName(4) == MenuItem;
    ExactClassNameNeverFires(Page(), Some(2), Some([MenuItem]), 4);
  }

  lemma InsideActiveMenuItemDoesNotFire()
    ensures !ShouldFire(Page(), Some(2), Some([MenuItem]), 6)
  {
    var doc := Page();
    MenuItemIsValidExclusion();
    ActiveMenuItemOccurrence();
    assert doc.ClassName(5) == "menu-item active";
    assert doc.ParentPath([6, 5]);
    ExcludedAncestorNeverFires(doc, Some(2), Some([MenuItem]), 6, 5, MenuItem);
  }

  lemma UnrelatedSpanFires()
    ensures ShouldFire(Page(), Some(2), Some([MenuItem]), 7)
  {
    var doc := Page();
    MenuItemIsValidExclusion();
    assert doc.InclusiveAncestors(7) == [7, 1, 0];
    assert doc.ClassName(7) == "" && doc.ClassName(1) == "" && doc.ClassName(0) == "";
    assert SplitTokens("") == [];
    assert doc.Closest(7, ClassSelector(doc, MenuItem)).None?;
  }

  /** Region `#panel`, exclusions `["menu-item"]`: presses inside the panel, on
      the menu item, and inside the active menu item do nothing; a press on the
      unrelated span fires the callback. */
  lemma PanelScenario()
    ensures !ShouldFire(Page(), Some(2), Some([MenuItem]), 3)
    ensures !ShouldFire(Page(), Some(2), Some([MenuItem]), 4)
    ensures !ShouldFire(Page(), Some(2), Some([MenuItem]), 6)
    ensures ShouldFire(Page(), Some(2), Some([MenuItem]), 7)
  {
    PanelChildDoesNotFire();
    MenuItemDoesNotFire();
    InsideActiveMenuItemDoesNotFire();
    UnrelatedSpanFires();
  }

  lemma OmittedListMenuItemFires()
    ensures ShouldFire(Page(), Some(2), None, 4)
  {
    assert Page().InclusiveAncestors(4) == [4, 1, 0];
  }

  lemma OmittedListInsideActiveMenuItemFires()
    ensures ShouldFire(Page(), Some(2), None, 6)
  {
    var doc := Page();
    assert doc.InclusiveAncestors(5) == [5, 1, 0];
    assert doc.InclusiveAncestors(6) == [6, 5, 1, 0];
  }

  /** With the exclusion list omitted, every press outside the panel fires,
      including those on the elements the list excluded above. */
  lemma OmittedListScenario()
    ensures ShouldFire(Page(), Some(2), None, 4)
    ensures ShouldFire(Page(), Some(2), None, 6)
    ensures !ShouldFire(Page(), Some(2), None, 3)
  {
    OmittedListMenuItemFires();
    OmittedListInsideActiveMenuItemFires();
    assert Page().ParentPath([3, 2]);
    InsideNeverFires(Page(), 2, None, 3);
  }
}
