/**
 Bone categories and their colours, as the overlay settings tab of Ktisis sees
 them: a registry of categories (each with a name, a "should display" flag and
 a default colour), a table of per-category colour overrides keyed by category
 name, and a shared "linked" colour that also serves as the fallback for
 categories without an override.

 This module holds the pure part: which categories are visible, which colour a
 listed category shows, and what the bulk operations (erase, reset) and the
 per-category edits do to the override table, stated as map values. The
 module ConfigGui runs the same operations step by step on a configuration
 object and is proved to agree with the functions here.
 */
module BoneCategories {

  /** An RGBA colour (a four-component float vector in the program). Colours
      are only copied and compared, never computed on. */
  datatype Color = Color(r: real, g: real, b: real, a: real)

  /** The colour the erase button writes: white at alpha 0.5647059 (about 144/255). */
  const EraseColor: Color := Color(1.0, 1.0, 1.0, 0.5647059)

  datatype Option<T> = None | Some(value: T)

  /** A bone category as the skeleton renderer registers it. */
  datatype Category = Category(name: string, shouldDisplay: bool, defaultColor: Color)

  /** The per-category override table, keyed by category name. */
  type Overrides = map<string, Color>

  /** The registry is a dictionary keyed by category name, so no two of its
      categories share a name. */
  predicate DistinctNames(registry: seq<Category>) {
    forall i, j :: 0 <= i < j < |registry| ==> registry[i].name != registry[j].name
  }

  function Names(registry: seq<Category>): set<string> {
    set c | c in registry :: c.name
  }

  /** A category is listed, erased and reset when it has been displayed once
      or the user already gave it a colour. */
  predicate Visible(c: Category, colors: Overrides) {
    c.shouldDisplay || c.name in colors
  }

  /** The colour a listed category shows out of link mode: its override, or
      else the linked colour. */
  function ShownColor(name: string, colors: Overrides, linked: Color): Color {
    if name in colors then colors[name] else linked
  }

  /** The visible categories, in registry order. */
  function VisibleCategories(registry: seq<Category>, colors: Overrides): (r: seq<Category>)
    ensures |r| <= |registry|
    ensures forall c :: c in r <==> c in registry && Visible(c, colors)
  {
    if registry == [] then []
    else
      var init := registry[..|registry| - 1];
      var last := registry[|registry| - 1];
      assert registry == init + [last];
      var rest := VisibleCategories(init, colors);
      if Visible(last, colors) then rest + [last] else rest
  }

  /** The listing keeps registry order: any two listed categories stand in
      the registry in the same order. So it repeats no name when the
      registry does not. */
  lemma {:induction false} VisibleCategoriesOrdered(registry: seq<Category>, colors: Overrides)
    ensures forall i, j :: 0 <= i < j < |VisibleCategories(registry, colors)| ==>
      exists i', j' :: 0 <= i' < j' < |registry| &&
        registry[i'] == VisibleCategories(registry, colors)[i] && registry[j'] == VisibleCategories(registry, colors)[j]
    ensures DistinctNames(registry) ==> DistinctNames(VisibleCategories(registry, colors))
    decreases |registry|
  {
    var r := VisibleCategories(registry, colors);
    if registry != [] {
      var init := registry[..|registry| - 1];
      var last := registry[|registry| - 1];
      var rest := VisibleCategories(init, colors);
      VisibleCategoriesOrdered(init, colors);
      forall i, j | 0 <= i < j < |r|
        ensures exists i', j' :: 0 <= i' < j' < |registry| && registry[i'] == r[i] && registry[j'] == r[j]
      {
        if j < |rest| {
          assert r[i] == rest[i] && r[j] == rest[j];
          var i', j' :| 0 <= i' < j' < |init| && init[i'] == rest[i] && init[j'] == rest[j];
          assert registry[i'] == r[i] && registry[j'] == r[j];
        } else {
          assert r == rest + [last] && r[j] == last;
          assert rest[i] in init;
          var i' :| 0 <= i' < |init| && init[i'] == rest[i];
          assert registry[i'] == r[i] && registry[|registry| - 1] == r[j];
        }
      }
    }
    if DistinctNames(registry) {
      forall i, j | 0 <= i < j < |r| ensures r[i].name != r[j].name {
        var i', j' :| 0 <= i' < j' < |registry| && registry[i'] == r[i] && registry[j'] == r[j];
      }
    }
  }

  /** The "categories will be added after bones are displayed once" message
      appears exactly when link mode is off and nothing in the registry is
      visible. */
  function ShowsNoCategoriesMessage(link: bool, registry: seq<Category>, colors: Overrides): (r: bool)
    ensures r <==> !link && forall c :: c in registry ==> !Visible(c, colors)
  {
    var listed := VisibleCategories(registry, colors);
    assert listed != [] ==> listed[0] in listed;
    !link && listed == []
  }

  /** What a bulk pass over the registry leaves in the override table: every
      category that is visible in the table as it was before the pass, and
      for which update gives a colour, gets that colour; nothing else
      changes. */
  function Applied(registry: seq<Category>, colors: Overrides, update: Category -> Option<Color>): Overrides
    decreases |registry|
  {
    if registry == [] then colors
    else
      var init := registry[..|registry| - 1];
      var last := registry[|registry| - 1];
      var rest := Applied(init, colors, update);
      if Visible(last, colors) && update(last).Some? then rest[last.name := update(last).value] else rest
  }

  /** Erase writes the erase colour. */
  function EraseUpdate(c: Category): Option<Color> {
    Some(EraseColor)
  }

  /** Reset writes the category's default colour. */
  function ResetUpdate(c: Category): Option<Color> {
    Some(c.defaultColor)
  }

  /** A category's colour widget writes what it reported, if anything. */
  function EditUpdate(edits: map<string, Color>): Category -> Option<Color> {
    (c: Category) => if c.name in edits then Some(edits[c.name]) else None
  }

  /** The override table after a confirmed erase out of link mode. */
  function Erased(registry: seq<Category>, colors: Overrides): Overrides {
    Applied(registry, colors, EraseUpdate)
  }

  /** The override table after a confirmed reset to the default colours. */
  function Reset(registry: seq<Category>, colors: Overrides): Overrides {
    Applied(registry, colors, ResetUpdate)
  }

  /** The override table after the colour widgets of the listed categories
      reported the new colours in edits (keyed by category name). */
  function Edited(registry: seq<Category>, colors: Overrides, edits: map<string, Color>): Overrides {
    Applied(registry, colors, EditUpdate(edits))
  }

  /** A name no category of the registry carries keeps its entry, or its
      absence. */
  lemma {:induction false} AppliedOutside(registry: seq<Category>, colors: Overrides, update: Category -> Option<Color>, n: string)
    requires forall c :: c in registry ==> c.name != n
    ensures n in Applied(registry, colors, update) <==> n in colors
    ensures n in colors ==> Applied(registry, colors, update)[n] == colors[n]
    decreases |registry|
  {
    if registry != [] {
      var init := registry[..|registry| - 1];
      assert forall c :: c in init ==> c in registry;
      AppliedOutside(init, colors, update, n);
    }
  }

  /** With distinct names, each category of the registry ends up with the
      colour update gives it when it was visible, and keeps its entry (or its
      absence) otherwise. */
  lemma {:induction false} AppliedAt(registry: seq<Category>, colors: Overrides, update: Category -> Option<Color>, c: Category)
    requires DistinctNames(registry) && c in registry
    ensures Visible(c, colors) && update(c).Some? ==>
      c.name in Applied(registry, colors, update) && Applied(registry, colors, update)[c.name] == update(c).value
    ensures !(Visible(c, colors) && update(c).Some?) ==>
      (c.name in Applied(registry, colors, update) <==> c.name in colors) &&
      (c.name in colors ==> Applied(registry, colors, update)[c.name] == colors[c.name])
    decreases |registry|
  {
    var init := registry[..|registry| - 1];
    var last := registry[|registry| - 1];
    assert registry == init + [last];
    if c == last {
      forall d | d in init ensures d.name != c.name {
        var j :| 0 <= j < |init| && init[j] == d;
      }
      AppliedOutside(init, colors, update, c.name);
    } else {
      assert c.name != last.name by {
        var j :| 0 <= j < |registry| && registry[j] == c;
      }
      AppliedAt(init, colors, update, c);
    }
  }

  // ---------------------------------------------------------------------------
  // What erase, reset and edit do to each entry

  /** Erase gives every visible category the erase colour, creates no entry
      for a hidden category and leaves names outside the registry alone. */
  lemma ErasedEntries(registry: seq<Category>, colors: Overrides)
    requires DistinctNames(registry)
    ensures forall c :: c in registry && Visible(c, colors) ==>
      c.name in Erased(registry, colors) && Erased(registry, colors)[c.name] == EraseColor
    ensures forall c :: c in registry && !Visible(c, colors) ==> c.name !in Erased(registry, colors)
    ensures forall n :: n !in Names(registry) ==>
      (n in Erased(registry, colors) <==> n in colors) &&
      (n in colors ==> Erased(registry, colors)[n] == colors[n])
  {
    var update := EraseUpdate;
    forall c | c in registry
      ensures Visible(c, colors) ==> c.name in Erased(registry, colors) && Erased(registry, colors)[c.name] == EraseColor
      ensures !Visible(c, colors) ==> c.name !in Erased(registry, colors)
    {
      AppliedAt(registry, colors, update, c);
    }
    forall n | n !in Names(registry)
      ensures n in Erased(registry, colors) <==> n in colors
      ensures n in colors ==> Erased(registry, colors)[n] == colors[n]
    {
      AppliedOutside(registry, colors, update, n);
    }
  }

  /** Reset gives every visible category its default colour, creates no entry
      for a hidden category and leaves names outside the registry alone. */
  lemma ResetEntries(registry: seq<Category>, colors: Overrides)
    requires DistinctNames(registry)
    ensures forall c :: c in registry && Visible(c, colors) ==>
      c.name in Reset(registry, colors) && Reset(registry, colors)[c.name] == c.defaultColor
    ensures forall c :: c in registry && !Visible(c, colors) ==> c.name !in Reset(registry, colors)
    ensures forall n :: n !in Names(registry) ==>
      (n in Reset(registry, colors) <==> n in colors) &&
      (n in colors ==> Reset(registry, colors)[n] == colors[n])
  {
    var update := ResetUpdate;
    forall c | c in registry
      ensures Visible(c, colors) ==> c.name in Reset(registry, colors) && Reset(registry, colors)[c.name] == c.defaultColor
      ensures !Visible(c, colors) ==> c.name !in Reset(registry, colors)
    {
      AppliedAt(registry, colors, update, c);
    }
    forall n | n !in Names(registry)
      ensures n in Reset(registry, colors) <==> n in colors
      ensures n in colors ==> Reset(registry, colors)[n] == colors[n]
    {
      AppliedOutside(registry, colors, update, n);
    }
  }

  /** The widget edits land on the listed categories only: a visible
      category whose widget reported a colour gets it; every other category
      and every name outside the registry keeps its entry, or its absence. */
  lemma EditedEntries(registry: seq<Category>, colors: Overrides, edits: map<string, Color>)
    requires DistinctNames(registry)
    ensures forall c :: c in registry && Visible(c, colors) && c.name in edits ==>
      c.name in Edited(registry, colors, edits) && Edited(registry, colors, edits)[c.name] == edits[c.name]
    ensures forall c :: c in registry && !(Visible(c, colors) && c.name in edits) ==>
      (c.name in Edited(registry, colors, edits) <==> c.name in colors) &&
      (c.name in colors ==> Edited(registry, colors, edits)[c.name] == colors[c.name])
    ensures forall n :: n !in Names(registry) ==>
      (n in Edited(registry, colors, edits) <==> n in colors) &&
      (n in colors ==> Edited(registry, colors, edits)[n] == colors[n])
  {
    var update := EditUpdate(edits);
    forall c | c in registry
      ensures Visible(c, colors) && c.name in edits ==>
        c.name in Edited(registry, colors, edits) && Edited(registry, colors, edits)[c.name] == edits[c.name]
      ensures !(Visible(c, colors) && c.name in edits) ==>
        (c.name in Edited(registry, colors, edits) <==> c.name in colors) &&
        (c.name in colors ==> Edited(registry, colors, edits)[c.name] == colors[c.name])
    {
      AppliedAt(registry, colors, update, c);
    }
    forall n | n !in Names(registry)
      ensures n in Edited(registry, colors, edits) <==> n in colors
      ensures n in colors ==> Edited(registry, colors, edits)[n] == colors[n]
    {
      AppliedOutside(registry, colors, update, n);
    }
  }

  // ---------------------------------------------------------------------------
  // The visible set never shrinks

  /** Erase, reset and the widget edits leave every category exactly as
      visible as it was. */
  lemma VisibilityNeverShrinks(registry: seq<Category>, colors: Overrides, edits: map<string, Color>)
    requires DistinctNames(registry)
    ensures forall c :: c in registry ==> (Visible(c, Erased(registry, colors)) <==> Visible(c, colors))
    ensures forall c :: c in registry ==> (Visible(c, Reset(registry, colors)) <==> Visible(c, colors))
    ensures forall c :: c in registry ==> (Visible(c, Edited(registry, colors, edits)) <==> Visible(c, colors))
    ensures VisibleCategories(registry, Erased(registry, colors)) == VisibleCategories(registry, colors)
    ensures VisibleCategories(registry, Reset(registry, colors)) == VisibleCategories(registry, colors)
    ensures VisibleCategories(registry, Edited(registry, colors, edits)) == VisibleCategories(registry, colors)
  {
    ErasedEntries(registry, colors);
    ResetEntries(registry, colors);
    EditedEntries(registry, colors, edits);
    SameVisibleCategories(registry, colors, Erased(registry, colors));
    SameVisibleCategories(registry, colors, Reset(registry, colors));
    SameVisibleCategories(registry, colors, Edited(registry, colors, edits));
  }

  /** Two override tables that agree on which categories are visible list the
      same categories. */
  lemma {:induction false} SameVisibleCategories(registry: seq<Category>, colors: Overrides, colors': Overrides)
    requires forall c :: c in registry ==> (Visible(c, colors) <==> Visible(c, colors'))
    ensures VisibleCategories(registry, colors) == VisibleCategories(registry, colors')
    decreases |registry|
  {
    if registry != [] {
      var init := registry[..|registry| - 1];
      assert registry == init + [registry[|registry| - 1]];
      SameVisibleCategories(init, colors, colors');
    }
  }

  // ---------------------------------------------------------------------------
  // How the bulk operations compose

  /** Two tables are equal when they agree on every registry name and on every
      other name. */
  lemma EqualEntries(registry: seq<Category>, m: Overrides, m': Overrides)
    requires forall c :: c in registry ==> (c.name in m <==> c.name in m') && (c.name in m ==> m[c.name] == m'[c.name])
    requires forall n :: n !in Names(registry) ==> (n in m <==> n in m') && (n in m ==> m[n] == m'[n])
    ensures m == m'
  {
  }

  /** Erasing twice is erasing once. */
  lemma EraseIdempotent(registry: seq<Category>, colors: Overrides)
    requires DistinctNames(registry)
    ensures Erased(registry, Erased(registry, colors)) == Erased(registry, colors)
  {
    var once := Erased(registry, colors);
    ErasedEntries(registry, colors);
    ErasedEntries(registry, once);
    EqualEntries(registry, Erased(registry, once), once);
  }

  /** Resetting twice is resetting once. */
  lemma ResetIdempotent(registry: seq<Category>, colors: Overrides)
    requires DistinctNames(registry)
    ensures Reset(registry, Reset(registry, colors)) == Reset(registry, colors)
  {
    var once := Reset(registry, colors);
    ResetEntries(registry, colors);
    ResetEntries(registry, once);
    EqualEntries(registry, Reset(registry, once), once);
  }

  /** A reset after an erase gives back what a reset alone gives: erasing
      neither hides nor reveals a category, and reset overwrites every
      visible entry. */
  lemma ResetAfterErase(registry: seq<Category>, colors: Overrides)
    requires DistinctNames(registry)
    ensures Reset(registry, Erased(registry, colors)) == Reset(registry, colors)
  {
    var erased := Erased(registry, colors);
    ErasedEntries(registry, colors);
    ResetEntries(registry, colors);
    ResetEntries(registry, erased);
    EqualEntries(registry, Reset(registry, erased), Reset(registry, colors));
  }

  // ---------------------------------------------------------------------------
  // What a listed category shows

  /** After an erase every visible category shows the erase colour; after a
      reset it shows its default colour. */
  lemma ShownAfterUpdates(registry: seq<Category>, colors: Overrides, linked: Color)
    requires DistinctNames(registry)
    ensures forall c :: c in registry && Visible(c, colors) ==>
      ShownColor(c.name, Erased(registry, colors), linked) == EraseColor
    ensures forall c :: c in registry && Visible(c, colors) ==>
      ShownColor(c.name, Reset(registry, colors), linked) == c.defaultColor
  {
    ErasedEntries(registry, colors);
    ResetEntries(registry, colors);
  }

  /** A single edit upserts one name: it never hides a category, the edited
      name shows the new colour, and every other name shows what it showed. */
  lemma UpsertEntry(colors: Overrides, linked: Color, name: string, x: Color)
    ensures forall c :: Visible(c, colors) ==> Visible(c, colors[name := x])
    ensures ShownColor(name, colors[name := x], linked) == x
    ensures forall n :: n != name ==> ShownColor(n, colors[name := x], linked) == ShownColor(n, colors, linked)
  {
  }
}
