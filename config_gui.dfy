/**
 The bone-colour part of the overlay settings tab, run on a configuration
 object the way the settings window runs it each frame: the link button, the
 erase button, the linked-colour widget, the reset button and the list of
 per-category colour widgets. Buttons and widgets are inputs: a pressed
 button or a held confirmation gesture is a boolean, a colour widget the user
 changed is the colour it reported.
 */
module ConfigGui {
  import opened BoneCategories

  /** The colour fields of the plugin configuration. */
  class Configuration {
    var boneCategoryColors: Overrides
    var linkBoneCategoryColors: bool
    var linkedBoneCategoryColor: Color

    constructor (colors: Overrides, link: bool, linked: Color)
      ensures boneCategoryColors == colors
      ensures linkBoneCategoryColors == link
      ensures linkedBoneCategoryColor == linked
    {
      boneCategoryColors := colors;
      linkBoneCategoryColors := link;
      linkedBoneCategoryColor := linked;
    }

    /** The link button flips link mode and keeps both colour stores. */
    method PressLink()
      modifies this
      ensures linkBoneCategoryColors == !old(linkBoneCategoryColors)
      ensures boneCategoryColors == old(boneCategoryColors)
      ensures linkedBoneCategoryColor == old(linkedBoneCategoryColor)
    {
      linkBoneCategoryColors := !linkBoneCategoryColors;
    }

    /** The erase button. Without confirmation nothing happens; in link mode
        the linked colour becomes the erase colour; out of link mode every
        visible category's entry does. */
    method EraseColors(registry: seq<Category>, confirmed: bool)
      requires DistinctNames(registry)
      modifies this
      ensures linkBoneCategoryColors == old(linkBoneCategoryColors)
      ensures !confirmed ==>
        boneCategoryColors == old(boneCategoryColors) && linkedBoneCategoryColor == old(linkedBoneCategoryColor)
      ensures confirmed && old(linkBoneCategoryColors) ==>
        boneCategoryColors == old(boneCategoryColors) && linkedBoneCategoryColor == EraseColor
      ensures confirmed && !old(linkBoneCategoryColors) ==>
        boneCategoryColors == Erased(registry, old(boneCategoryColors)) &&
        linkedBoneCategoryColor == old(linkedBoneCategoryColor)
    {
      if confirmed {
        if linkBoneCategoryColors {
          linkedBoneCategoryColor := EraseColor;
        } else {
          var i := 0;
          while i < |registry|
            invariant 0 <= i <= |registry|
            invariant boneCategoryColors == Erased(registry[..i], old(boneCategoryColors))
            invariant linkBoneCategoryColors == old(linkBoneCategoryColors)
            invariant linkedBoneCategoryColor == old(linkedBoneCategoryColor)
          {
            AppliedStep(registry, i, old(boneCategoryColors), EraseUpdate);
            var category := registry[i];
            if Visible(category, boneCategoryColors) {
              boneCategoryColors := boneCategoryColors[category.name := EraseColor];
            }
            i := i + 1;
          }
          assert registry[..i] == registry;
        }
      }
    }

    /** The linked-colour widget, drawn in link mode: it overwrites the linked
        colour only. */
    method EditLinkedColor(color: Color)
      requires linkBoneCategoryColors
      modifies this
      ensures linkedBoneCategoryColor == color
      ensures boneCategoryColors == old(boneCategoryColors)
      ensures linkBoneCategoryColors == old(linkBoneCategoryColors)
    {
      linkedBoneCategoryColor := color;
    }

    /** The reset button, drawn out of link mode. Without confirmation nothing
        happens; otherwise every visible category's entry becomes that
        category's default colour. */
    method ResetToDefaults(registry: seq<Category>, confirmed: bool)
      requires DistinctNames(registry)
      requires !linkBoneCategoryColors
      modifies this
      ensures linkBoneCategoryColors == old(linkBoneCategoryColors)
      ensures linkedBoneCategoryColor == old(linkedBoneCategoryColor)
      ensures boneCategoryColors == if confirmed then Reset(registry, old(boneCategoryColors)) else old(boneCategoryColors)
    {
      if confirmed {
        var i := 0;
        while i < |registry|
          invariant 0 <= i <= |registry|
          invariant boneCategoryColors == Reset(registry[..i], old(boneCategoryColors))
          invariant linkBoneCategoryColors == old(linkBoneCategoryColors)
          invariant linkedBoneCategoryColor == old(linkedBoneCategoryColor)
        {
          AppliedStep(registry, i, old(boneCategoryColors), ResetUpdate);
          var category := registry[i];
          if Visible(category, boneCategoryColors) {
            boneCategoryColors := boneCategoryColors[category.name := category.defaultColor];
          }
          i := i + 1;
        }
        assert registry[..i] == registry;
      }
    }

    /** One category's colour widget, drawn out of link mode: it upserts that
        category's entry only. */
    method EditCategoryColor(name: string, color: Color)
      requires !linkBoneCategoryColors
      modifies this
      ensures boneCategoryColors == old(boneCategoryColors)[name := color]
      ensures linkedBoneCategoryColor == old(linkedBoneCategoryColor)
      ensures linkBoneCategoryColors == old(linkBoneCategoryColors)
    {
      boneCategoryColors := boneCategoryColors[name := color];
    }

    /** The list of per-category colour widgets, drawn out of link mode. It
        lists the visible categories in registry order with the colour each
        shows, applies the edits their widgets reported, and says whether it
        listed anything. */
    method DrawCategoryList(registry: seq<Category>, edits: map<string, Color>)
      returns (listed: seq<Category>, shown: seq<Color>, hasShownAny: bool)
      requires DistinctNames(registry)
      requires !linkBoneCategoryColors
      modifies this
      ensures listed == VisibleCategories(registry, old(boneCategoryColors))
      ensures |shown| == |listed|
      ensures forall k :: 0 <= k < |listed| ==>
        shown[k] == ShownColor(listed[k].name, old(boneCategoryColors), linkedBoneCategoryColor)
      ensures hasShownAny <==> listed != []
      ensures boneCategoryColors == Edited(registry, old(boneCategoryColors), edits)
      ensures linkedBoneCategoryColor == old(linkedBoneCategoryColor)
      ensures linkBoneCategoryColors == old(linkBoneCategoryColors)
    {
      ghost var before := boneCategoryColors;
      listed, shown, hasShownAny := [], [], false;
      var i := 0;
      while i < |registry|
        invariant 0 <= i <= |registry|
        invariant boneCategoryColors == Edited(registry[..i], before, edits)
        invariant listed == VisibleCategories(registry[..i], before)
        invariant |shown| == |listed|
        invariant forall k :: 0 <= k < |listed| ==> shown[k] == ShownColor(listed[k].name, before, linkedBoneCategoryColor)
        invariant hasShownAny <==> listed != []
        invariant linkedBoneCategoryColor == old(linkedBoneCategoryColor)
        invariant linkBoneCategoryColors == old(linkBoneCategoryColors)
      {
        AppliedStep(registry, i, before, EditUpdate(edits));
        ListStep(registry, i, before);
        var category := registry[i];
        if Visible(category, boneCategoryColors) {
          var categoryColor := ShownColor(category.name, boneCategoryColors, linkedBoneCategoryColor);
          listed, shown := listed + [category], shown + [categoryColor];
          if category.name in edits {
            EditCategoryColor(category.name, edits[category.name]);
          }
          hasShownAny := true;
        }
        i := i + 1;
      }
      assert registry[..i] == registry;
    }

    /** The bone-colour section of one frame of the overlay tab. The flags say
        which buttons were pressed (with the confirmation gesture held, for
        erase and reset); linkedEdit and edits are what the colour widgets
        reported. Every step after the link button reads link mode as it was
        when the frame began. */
    method DrawBoneColors(registry: seq<Category>, linkPressed: bool, eraseConfirmed: bool,
                          linkedEdit: Option<Color>, resetConfirmed: bool, edits: map<string, Color>)
      returns (listed: seq<Category>, shown: seq<Color>, showsMessage: bool)
      requires DistinctNames(registry)
      modifies this
      ensures linkBoneCategoryColors == (old(linkBoneCategoryColors) != linkPressed)
      ensures old(linkBoneCategoryColors) ==>
        boneCategoryColors == old(boneCategoryColors) &&
        linkedBoneCategoryColor == (if linkedEdit.Some? then linkedEdit.value
                                    else if eraseConfirmed then EraseColor
                                    else old(linkedBoneCategoryColor)) &&
        listed == [] && shown == [] && !showsMessage
      ensures !old(linkBoneCategoryColors) ==>
        var erased := if eraseConfirmed then Erased(registry, old(boneCategoryColors)) else old(boneCategoryColors);
        var reset := if resetConfirmed then Reset(registry, erased) else erased;
        && linkedBoneCategoryColor == old(linkedBoneCategoryColor)
        && boneCategoryColors == Edited(registry, reset, edits)
        && listed == VisibleCategories(registry, reset)
        && |shown| == |listed|
        && (forall k :: 0 <= k < |listed| ==> shown[k] == ShownColor(listed[k].name, reset, linkedBoneCategoryColor))
        && showsMessage == ShowsNoCategoriesMessage(false, registry, reset)
    {
      var link := linkBoneCategoryColors;
      EraseColors(registry, eraseConfirmed);
      if link {
        if linkedEdit.Some? {
          EditLinkedColor(linkedEdit.value);
        }
        listed, shown, showsMessage := [], [], false;
      } else {
        ResetToDefaults(registry, resetConfirmed);
        var hasShownAny;
        listed, shown, hasShownAny := DrawCategoryList(registry, edits);
        showsMessage := !hasShownAny;
      }
      if linkPressed {
        PressLink();
      }
    }
  }

  /** Pressing the link button twice restores the whole colour state. */
  method PressLinkTwice(cfg: Configuration)
    modifies cfg
    ensures cfg.linkBoneCategoryColors == old(cfg.linkBoneCategoryColors)
    ensures cfg.boneCategoryColors == old(cfg.boneCategoryColors)
    ensures cfg.linkedBoneCategoryColor == old(cfg.linkedBoneCategoryColor)
  {
    cfg.PressLink();
    cfg.PressLink();
  }

  /** Out of link mode, "Head" with an override shows it, and "Tail" without
      one shows the linked colour. */
  method ListScenario() {
    var red, blue := Color(1.0, 0.0, 0.0, 1.0), Color(0.0, 0.0, 1.0, 1.0);
    var head := Category("Head", true, Color(1.0, 1.0, 1.0, 1.0));
    var tail := Category("Tail", true, Color(0.5, 0.5, 0.5, 1.0));
    var cfg := new Configuration(map["Head" := red], false, blue);
    var listed, shown, hasShownAny := cfg.DrawCategoryList([head, tail], map[]);
    assert [head, tail][..1] == [head];
    assert listed == [head, tail];
    assert shown == [red, blue];
  }

  /** A confirmed erase out of link mode gives both visible categories the
      erase colour. */
  method EraseScenario() {
    var head := Category("Head", true, Color(1.0, 1.0, 1.0, 1.0));
    var tail := Category("Tail", true, Color(0.5, 0.5, 0.5, 1.0));
    var before := map["Head" := Color(1.0, 0.0, 0.0, 1.0)];
    var cfg := new Configuration(before, false, Color(0.0, 0.0, 1.0, 1.0));
    cfg.EraseColors([head, tail], true);
    ErasedEntries([head, tail], before);
    assert cfg.boneCategoryColors["Head"] == EraseColor && cfg.boneCategoryColors["Tail"] == EraseColor;
  }

  // ---------------------------------------------------------------------------
  // One loop step: the category at index i sees the table as it was before
  // the loop, because the earlier steps only wrote names that differ from its
  // own.

  lemma NameNotEarlier(registry: seq<Category>, i: int)
    requires DistinctNames(registry) && 0 <= i < |registry|
    ensures forall c :: c in registry[..i] ==> c.name != registry[i].name
  {
  }

  /** One more step of the listing adds at most the category at index i. */
  lemma ListStep(registry: seq<Category>, i: int, colors: Overrides)
    requires 0 <= i < |registry|
    ensures VisibleCategories(registry[..i + 1], colors) ==
      VisibleCategories(registry[..i], colors) + (if Visible(registry[i], colors) then [registry[i]] else [])
  {
    assert registry[..i + 1][..i] == registry[..i];
  }

  /** The category at index i sees its own entry as it was before the pass,
      and one more step of the pass writes at most that entry. */
  lemma AppliedStep(registry: seq<Category>, i: int, colors: Overrides, update: Category -> Option<Color>)
    requires DistinctNames(registry) && 0 <= i < |registry|
    ensures var c, now := registry[i], Applied(registry[..i], colors, update);
      && (c.name in now <==> c.name in colors)
      && (c.name in colors ==> now[c.name] == colors[c.name])
      && Applied(registry[..i + 1], colors, update) ==
         (if Visible(c, colors) && update(c).Some? then now[c.name := update(c).value] else now)
  {
    NameNotEarlier(registry, i);
    AppliedOutside(registry[..i], colors, update, registry[i].name);
    assert registry[..i + 1][..i] == registry[..i];
  }
}
