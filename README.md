# Ktisis bone-category colours, modelled in Dafny

Ktisis is a posing plugin for a game client. Its settings window has an
"Overlay" tab that lets the user colour the skeleton overlay by bone category.
The colour state has three parts:

- a registry of bone categories, each with a name, a "should display" flag
  (set once bones of that category have been drawn) and a default colour;
- a per-category override table (`BoneCategoryColors`), keyed by category name;
- a link mode flag (`LinkBoneCategoryColors`) with one shared colour
  (`LinkedBoneCategoryColor`). Out of link mode the shared colour also serves
  as the fallback for categories that have no override.

Each frame the tab runs these buttons and widgets. This project models them
and proves what they do to that state:

- the link button;
- the erase button (guarded by a hold-to-confirm gesture);
- the linked-colour widget;
- the reset-to-defaults button (guarded the same way);
- the list of per-category colour widgets, with its "no categories yet" message.

Two modules:

- `BoneCategories` (`bone_categories.dfy`) holds the pure part.
  - Colours and categories are datatypes.
  - `Visible` is the visibility rule and `ShownColor` is the override-or-fallback lookup.
  - `VisibleCategories` is the listing.
  - `Erased`, `Reset` and `Edited` give the override table after a bulk pass.
  - The lemmas say what those passes do to each entry, that they never hide
    a category, and how they compose.
  - The three passes are one fold, `Applied`.
    - It decides visibility against the table as it stood before the pass.
    - It walks the registry in the same order as the program.
- `ConfigGui` (`config_gui.dfy`) holds the `Configuration` class. Its three
  fields are the ones above. Its methods run the program's `foreach` loops step
  by step, on the table as it changes.
  - Each loop re-reads the table it is writing.
  - The registry is a dictionary keyed by category name, so no two
    categories share a name (`DistinctNames`).
  - Because of that, each step sees its own category's entry as it was before
    the loop.
  - So each loop is proved equal to the fold in `BoneCategories`.
  - `DrawBoneColors` runs the whole colour section of one frame.

Whatever comes from outside the model is a parameter:

- the registry is a parameter;
- a pressed button, or a held Ctrl+Shift confirmation, is a boolean parameter;
- a colour widget the user changed is the colour it reported: `linkedEdit` for
  the linked widget, and `edits`, keyed by category name, for the list.

## Model

| member | source | states |
|---|---|---|
| `BoneCategories.VisibleCategories` | Ktisis/Interface/Windows/ConfigGui.cs:127-130 | the list holds exactly the registry categories that should display or already have an override, and is no longer than the registry |
| `BoneCategories.VisibleCategoriesOrdered` | Ktisis/Interface/Windows/ConfigGui.cs:127-130 | the list keeps registry order (any two listed categories stand in the registry in the same order), so it repeats no name when the registry does not |
| `BoneCategories.ShowsNoCategoriesMessage` | Ktisis/Interface/Windows/ConfigGui.cs:126-140 | the "categories will be added" message appears iff link mode is off and no registry category is visible |
| `BoneCategories.AppliedOutside` | Ktisis/Interface/Windows/ConfigGui.cs:99-121 | a bulk pass keeps the entry (or its absence) of every name that no registry category carries |
| `BoneCategories.AppliedAt` | Ktisis/Interface/Windows/ConfigGui.cs:99-121 | with distinct names, a bulk pass writes its colour exactly for the categories that were visible, and keeps every other category's entry or absence |
| `BoneCategories.ErasedEntries` | Ktisis/Interface/Windows/ConfigGui.cs:98-103 | erase gives each visible category the erase colour (1,1,1,0.5647059), creates no entry for a hidden category, and keeps all names outside the registry |
| `BoneCategories.ResetEntries` | Ktisis/Interface/Windows/ConfigGui.cs:116-121 | reset gives each visible category its own default colour, creates no entry for a hidden category, and keeps all names outside the registry |
| `BoneCategories.EditedEntries` | Ktisis/Interface/Windows/ConfigGui.cs:127-138 | a widget edit is stored only for a listed category whose widget reported it; every other entry and absence is kept |
| `BoneCategories.VisibilityNeverShrinks` | Ktisis/Interface/Windows/ConfigGui.cs:99-136 | erase, reset and the list's edits leave each category exactly as visible as before, and the listing unchanged |
| `BoneCategories.SameVisibleCategories` | Ktisis/Interface/Windows/ConfigGui.cs:127-130 | two tables that agree on which categories are visible give the same listing |
| `BoneCategories.EraseIdempotent` | Ktisis/Interface/Windows/ConfigGui.cs:98-103 | erasing twice leaves the same table as erasing once |
| `BoneCategories.ResetIdempotent` | Ktisis/Interface/Windows/ConfigGui.cs:116-121 | resetting twice leaves the same table as resetting once |
| `BoneCategories.ResetAfterErase` | Ktisis/Interface/Windows/ConfigGui.cs:93-122 | a reset after an erase leaves the same table as the reset alone |
| `BoneCategories.ShownAfterUpdates` | Ktisis/Interface/Windows/ConfigGui.cs:132-136 | after an erase a visible category shows the erase colour; after a reset, its default colour |
| `BoneCategories.UpsertEntry` | Ktisis/Interface/Windows/ConfigGui.cs:132-136 | a single edit (an upsert of one name) never hides a category; the edited name then shows the new colour and every other name shows what it showed |
| `ConfigGui.Configuration.PressLink` | Ktisis/Interface/Windows/ConfigGui.cs:85-87 | flips link mode; the override table and the linked colour are unchanged |
| `ConfigGui.PressLinkTwice` | Ktisis/Interface/Windows/ConfigGui.cs:85-87 | pressing the link button twice restores all three fields |
| `ConfigGui.Configuration.EraseColors` | Ktisis/Interface/Windows/ConfigGui.cs:93-104 | unconfirmed: nothing changes; confirmed in link mode: only the linked colour, set to the erase colour; confirmed out of link mode: the table becomes `Erased` of the old table, and the linked colour is unchanged |
| `ConfigGui.Configuration.EditLinkedColor` | Ktisis/Interface/Windows/ConfigGui.cs:106-110 | in link mode, overwrites only the linked colour |
| `ConfigGui.Configuration.ResetToDefaults` | Ktisis/Interface/Windows/ConfigGui.cs:111-122 | reached only out of link mode; unconfirmed: nothing changes; confirmed: the table becomes `Reset` of the old table, and nothing else changes |
| `ConfigGui.Configuration.EditCategoryColor` | Ktisis/Interface/Windows/ConfigGui.cs:135-136 | out of link mode, upserts one name's entry; nothing else changes |
| `ConfigGui.Configuration.DrawCategoryList` | Ktisis/Interface/Windows/ConfigGui.cs:124-140 | lists the visible categories of the table before the loop, in registry order; each shows its override, or else the linked colour; the table becomes `Edited` of the old table; "has shown any" holds iff the list is non-empty |
| `ConfigGui.Configuration.DrawBoneColors` | Ktisis/Interface/Windows/ConfigGui.cs:85-141 | one frame: see the notes below the table |

`ConfigGui.Configuration.DrawBoneColors`, one frame:

- Link mode flips iff the link button was pressed.
- In link mode:
  - the table is unchanged;
  - the linked colour becomes the widget's edit, else the erase colour when
    the erase was confirmed, else what it was;
  - nothing is listed and no message is shown.
- Out of link mode:
  - the linked colour is unchanged;
  - the table is erased (if confirmed), then reset (if confirmed), then edited;
  - the listing and the message are those of the table after erase and reset.

Notes on the model:

- In the source, the link button writes the flag at line 87. Everything after it
  reads the copy taken at line 85, so the rest of the frame sees the mode as it
  was when the frame began. `DrawBoneColors` applies the flip last, which gives
  the same final state.
- The visibility test is written three times in the source: at line 100, and
  negated at lines 118 and 129. All three are the single predicate `Visible`.
- Erase also creates entries: every visible category without an override gets
  one at line 101, not only the categories the user set or reset.

## Left out

- All drawing: window, tab bar, buttons, texts, tooltips, and the tint of the
  link button. These are calls into the immediate-mode UI toolkit.
- The checkbox and slider bindings of the other settings, the language combo
  and the Data tab. They are widget-to-field glue or foreign calls into game
  memory and plate storage.
- The hold-to-confirm helper and the Ctrl+Shift key state. They are input
  handling outside this file; the model takes their outcome as a boolean.
- How the registry and its "should display" flags are filled. The skeleton
  renderer does that, and it is not part of this model. The registry is an
  input, a sequence of categories with distinct names (the dictionary's keys).
- The colour the skeleton renderer draws for a category in link mode. The
  renderer decides it, not this tab; the tab shows only the linked colour there.
- Floating-point colour components. Colours are only copied, never computed on,
  so they are kept as four reals.
