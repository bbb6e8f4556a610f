# Preferences dialog: advanced page

A Dafny model of the logic inside the Qt preferences dialog of a network
protocol analyzer (`ui/qt/preferences_dialog.cpp`). The dialog shows every
registered preference in a tree. Grouping rows stand for preference modules,
and leaf rows stand for single prefs. The user can filter the tree with a
search box. Activating a row resets its pref or edits it, depending on the
pref's type.

The model has these modules:

- Prefs (prefs.dfy): the registry as the dialog sees it. A pref's value is a
  tagged variant, so the type tag is the variant's constructor. `Reset`
  replaces the current value with the default value.
- Text (text.dfy): case-insensitive substring search, ASCII lower-casing,
  the decimal text of a number, and `QString::toUInt` on digit strings.
- Walker (walker.dfy): `fill_advanced_prefs`, which walks the module tree and
  builds tree items. `FillModule` is the recursive method: it appends the
  pref items in one loop and walks the submodules in another.
  `FillAdvancedPrefs` is its entry point and handles a null module or root.
  `ModuleItems` is the function that specifies both.
- Rows (rows.dfy): a row of the advanced tree, and the refresh done by
  `updateItem` (status text, bold columns, value text).
- Visibility (visibility.dfy): which rows stay visible for a given search
  text (`Visible`), with lemmas about it.
- Editing (editing.dfy): what activation does to a pref's value, the colour
  channel conversion, the range editor's syntax state and commit rule, the
  enumeration choice list, and the initial text of the unsigned-integer editor.
- Pages (pages.dfy): the frame name derived from a page title, and the page
  that gets shown.
- Dialog (dialog.dfy): the class `PreferencesDialog`. It holds the prefs, the
  rows, an array of hidden flags and the current row. It has one method per
  slot, and each method writes values and rows in place.

Functions given to the dialog stand for calls into the registry whose code is
not part of this model:

- isDefault stands for `prefs_pref_is_default`. The model assumes only
  that it answers yes for a pref that was just reset (`ResetMakesDefault`).
- display stands for `prefs_pref_to_str`. It receives the whole pref and the
  flag: `display(p, false)` is the current value's text (lines 162 and 303),
  and `display(p, true)` is the default value's text (line 74).
- convert stands for `range_convert_str`.
- Pref.typeName and `Pref.typeDescription` hold what
  `prefs_pref_type_name` and `prefs_pref_type_description` answer.
- The modal file and colour prompts are method parameters: the name the user
  picked (empty when cancelled) and the colour the user picked (None when
  cancelled).

The search box matches the column-0 tooltip, and that tooltip contains the
`<span>` markup the walker wraps around the description. As a result, the
search text "span" matches every pref row (`Walker.TooltipMarkupMatchesSpan`).

Three behaviours of the code are worth spelling out, and the model keeps
each of them:

- When range editing ends, the text reaches the converter even when it is
  empty (lines 434-440). The range is stored whenever the converter reports
  no error.
- The range editor is removed after every confirm (line 441), whether or not
  the range was stored.
- An unsigned value is stored as `QString::toUInt`'s result (line 367), which
  is 0 when the text does not parse or does not fit 32 bits.

## Model

| member | source | states |
|---|---|---|
| `Walker.FillAdvancedPrefs` | ui/qt/preferences_dialog.cpp:47-94 | A null module or null root yields 1 and adds nothing. Otherwise the walk yields 0 and adds exactly the module's items (`ModuleItems`). |
| `Walker.FillModule` | ui/qt/preferences_dialog.cpp:54-93 | The pref loop appends one item per listed pref, in order. The submodules are visited in order and stop at the first non-zero answer. The result is the module's items, and the answer is 0. |
| `Walker.PrefItemsListed` | ui/qt/preferences_dialog.cpp:64-87 | Every pref item comes from a pref of the module that is neither obsolete nor static text and whose type has a name. It is named `<qualifier>.<pref name>` and has no children. Every such pref gets its item. |
| `Walker.ModuleItemsShape` | ui/qt/preferences_dialog.cpp:54-88 | A module adds nothing exactly when it has no prefs and no submodules. Otherwise it adds one grouping item (no pref), titled with the module's title, whose children start with the pref items. |
| `Walker.WalkKeepsPrefsAsLeaves` | ui/qt/preferences_dialog.cpp:58-91 | In the whole item tree the walk builds, a pref item never has children. |
| `Walker.TooltipMarkupMatchesSpan` | ui/qt/preferences_dialog.cpp:78 | Every pref item's column-0 tooltip contains "span" when case is ignored, because of the markup. |
| `Rows.StatusOf` | ui/qt/preferences_dialog.cpp:166-173 | The status is Unknown exactly for UAT prefs. It is Default exactly for the other prefs the registry's `isDefault` reports at their default, and Changed exactly for the rest. |
| `Rows.UpdatedRow` | ui/qt/preferences_dialog.cpp:157-184 | A row without a pref is unchanged. A pref row gets "Unknown", "Default" or "Changed" by the rule above, and all four columns are bold exactly when it reads "Changed". It also gets the status tooltip and the pref's value text. No other field changes. |
| `Rows.ResetRowIsNotChanged` | ui/qt/preferences_dialog.cpp:247-249 | If the registry reports every reset pref at its default, then a row refreshed right after its pref was reset never reads "Changed" and has no bold column. |
| `Prefs.Reset` | ui/qt/preferences_dialog.cpp:248 | After a reset the value equals the pref's default value. Nothing else about the pref changes, including its type tag. |
| `Visibility.AncestorsOfVisibleAreVisible` | ui/qt/preferences_dialog.cpp:222-227 | Every row above a visible row is visible. |
| `Visibility.PrefRowVisibleIffMatches` | ui/qt/preferences_dialog.cpp:210-221 | In a tree whose pref rows are leaves, a pref row is visible exactly when the search is empty or, ignoring case, its name or tooltip contains the search text. |
| `Visibility.GroupRowVisibleIffPrefBelowVisible` | ui/qt/preferences_dialog.cpp:199-227 | A grouping row is visible exactly when the search is empty or some visible pref row lies below it. |
| `Visibility.EmptySearchShowsEveryRow` | ui/qt/preferences_dialog.cpp:201-202 | With an empty search every row is visible. |
| `Visibility.AncestorIsEarlier` | ui/qt/preferences_dialog.cpp:223-226 | The parent chain only moves to earlier rows, so the upward walk ends. |
| `Dialog.PreferencesDialog.SearchTextEdited` | ui/qt/preferences_dialog.cpp:196-231 | After the two passes, each row's hidden flag is exactly the negation of `Visible` for the new search text. This holds for every row and does not depend on the flags before. |
| `Dialog.PreferencesDialog.ShowAncestors` | ui/qt/preferences_dialog.cpp:222-227 | Exactly the rows on the parent chain are un-hidden. No other flag changes. |
| `Dialog.PreferencesDialog.constructor` | ui/qt/preferences_dialog.cpp:109-120 | Every row without children is refreshed. No row is hidden, and no row is current. |
| `Dialog.PreferencesDialog.UpdateItem` | ui/qt/preferences_dialog.cpp:157-184 | Only row `i` changes, and it becomes `UpdatedRow` of its pref. |
| `Dialog.PreferencesDialog.ActivateItem` | ui/qt/preferences_dialog.cpp:242-356 | A row without a pref is untouched. Otherwise the pref's value becomes `Activated`, and only row `i` changes. The row is refreshed when a value was stored. It gets the type's editor, with an empty value column, for unsigned, enumeration, string and range prefs. It stays as it was otherwise. |
| `Dialog.PreferencesDialog.UintEditingFinished` | ui/qt/preferences_dialog.cpp:358-370 | The current pref becomes `toUInt` of the text. The editor is removed and the row refreshed. Without a current pref row nothing changes. |
| `Dialog.PreferencesDialog.EnumCurrentIndexChanged` | ui/qt/preferences_dialog.cpp:372-384 | The choice list in the current row moves to the index. A negative index stores nothing. Otherwise the current pref takes the value that the list's chosen item carries, and the row is refreshed with the list still in place. The stored value is always the value of some entry of the pref's enumeration table. |
| `Dialog.PreferencesDialog.StringEditingFinished` | ui/qt/preferences_dialog.cpp:386-399 | The current pref becomes the text. The editor is removed and the row refreshed. |
| `Dialog.PreferencesDialog.RangeTextChanged` | ui/qt/preferences_dialog.cpp:401-423 | The current row holds the range editor. The editor now holds the text, and its syntax state is the Empty, Valid or Invalid state of `RangeSyntaxState` for that text under the pref's maximum. Nothing else in the row, no other row and no pref changes. |
| `Dialog.PreferencesDialog.RangeEditingFinished` | ui/qt/preferences_dialog.cpp:425-443 | The range is replaced only when the converter reports no error, and kept otherwise. The editor is removed in both cases. |
| `Dialog.PreferencesDialog.CurrentItemChanged` | ui/qt/preferences_dialog.cpp:233-240 | The previous current row loses its editor and keeps its value text. The current row becomes `next`. |
| `Editing.ActivationKeepsType` | ui/qt/preferences_dialog.cpp:242-335 | Activation never changes a pref's type tag. |
| `Editing.ActivationBeforeValueColumnResets` | ui/qt/preferences_dialog.cpp:247-249 | Activation in columns 0-2 is exactly a reset. If the registry reports reset prefs at their default, the pref then reads as default. |
| `Editing.BoolActivationTwiceRestores` | ui/qt/preferences_dialog.cpp:263-266 | Activating a boolean in the value column negates it, and activating it twice restores it. |
| `Editing.CancelledPromptKeepsValue` | ui/qt/preferences_dialog.cpp:288-329 | An empty file name or a cancelled colour prompt leaves the filename or colour unchanged. |
| `Editing.AcceptedColorIsStored` | ui/qt/preferences_dialog.cpp:321-327 | An accepted colour is stored, and showing it again gives back the colour the user picked. |
| `Editing.ChannelForPrompt` | ui/qt/preferences_dialog.cpp:316-320 | The prompt shows a stored 16-bit channel as the channel divided by 256 and rounded down, which is its high byte. |
| `Editing.ChannelFromPrompt` | ui/qt/preferences_dialog.cpp:323-325 | An accepted 8-bit channel `c` is stored as `c` times 257, the byte repeated in both halves. Its high byte gives `c` back, and its low byte is `c`. |
| `Editing.ColorPromptRoundTrip` | ui/qt/preferences_dialog.cpp:316-327 | Storing a picked colour and showing it again yields the picked colour. |
| `Editing.ChannelRestoredIffBytesAgree` | ui/qt/preferences_dialog.cpp:316-325 | Storing what the prompt shows restores a stored channel exactly when its two bytes are equal. |
| `Editing.RangeSyntaxState` | ui/qt/preferences_dialog.cpp:410-421 | The state is Empty exactly for the empty text. It is Valid exactly for a non-empty text the converter accepts, and Invalid otherwise. |
| `Editing.RangeCommitFollowsSyntaxState` | ui/qt/preferences_dialog.cpp:434-440 | A non-empty text flagged Invalid is never stored. One flagged Valid is stored as the converter's range. |
| `Editing.ChoiceListValuesFromTable` | ui/qt/preferences_dialog.cpp:271-272 | Every value a built choice list carries is the value of an entry of the enumeration table. |
| `Editing.BuildEnumChoiceList` | ui/qt/preferences_dialog.cpp:267-279 | There is one item per table entry before the first entry without a description, in order, each carrying its value. The selection is the last item whose value is the current one. When there is none it is the first item, and an empty list has no selection. |
| `Editing.UintEditorText` | ui/qt/preferences_dialog.cpp:254-262 | The unsigned-integer editor starts with a text that `toUInt` reads back as the current value. |
| `Editing.UintEditorTextAsWritten` | ui/qt/preferences_dialog.cpp:258 | As written, the editor's initial text is read from the string slot of the value union, which is undefined for every unsigned-integer pref. |
| `Editing.UintEditorTextAsWrittenUndefined` | ui/qt/preferences_dialog.cpp:258 | For the value 5, the as-written text is undefined, while the intended text is "5" and reads back as 5. |
| `Editing.StringSlot` | ui/qt/preferences_dialog.cpp:283 | The string slot of the value union holds a string exactly for string and filename prefs. |
| `Text.ToUInt` | ui/qt/preferences_dialog.cpp:367 | A non-empty digit string whose value fits 32 bits gives that value, leading zeros included ("007" gives 7). A non-zero result only comes from such a string, so anything else gives 0. |
| `Text.DecimalRoundTrip` | ui/qt/preferences_dialog.cpp:367 | Parsing the decimal text of an unsigned 32-bit value gives the value back. |
| `Text.Decimal` | ui/qt/preferences_dialog.cpp:258 | The decimal text is a non-empty run of digits without a leading zero. |
| `Pages.FrameName` | ui/qt/preferences_dialog.cpp:189 | The frame name ends in "Frame". Before that suffix it has no spaces and no upper-case letters. |
| `Pages.FrameNameIgnoresSpaces` | ui/qt/preferences_dialog.cpp:189 | A space anywhere in the title does not change the frame name. |
| `Pages.FrameNameIgnoresCase` | ui/qt/preferences_dialog.cpp:189 | Lower-casing the title does not change the frame name. |
| `Pages.FrameNameOfPlainTitle` | ui/qt/preferences_dialog.cpp:189 | A title with no spaces and no upper-case letters names the frame made of the title followed by "Frame". So every other character of a title survives, in order. |
| `Pages.SelectedPage` | ui/qt/preferences_dialog.cpp:189-193 | When a frame has the derived name, that frame is shown. Otherwise the page stays. |

## Findings

| source | as written | input that shows it | evidently intended | confidence | as-written member | corrected member |
|---|---|---|---|---|---|---|
| ui/qt/preferences_dialog.cpp:258 | The unsigned-integer editor is filled from `*pref->varp.string`, which reads the integer's storage as a string pointer | any unsigned-integer pref, for example one holding 5 | fill the editor with the decimal text of the value ("5"), which `toUInt` reads back on commit | high; not executed | `Editing.UintEditorTextAsWritten` | `Editing.UintEditorText` |

`Dialog.PreferencesDialog.ActivateItem` uses the corrected text.

## Left out

- Widget work is not modelled, because it has no behaviour to state: layout, splitter sizing, column widths, sorting, expanding, fonts other than bold, the edit frame and spacer, and the help button.
- Signal/slot wiring and the `QObject::sender()` casts are not modelled. Each slot acts on the current row, and the text it receives is a parameter.
- Memory management (`g_free`, `g_strdup`) is not modelled.
- A custom pref's state is an uninspected sequence. Its callbacks (reset, to-string, is-default) belong to the registry and are not part of this model.
- The UAT branch only logs a message, so activation leaves UAT prefs alone.
- The modal file and colour prompts are inputs, not code.
- The registry's value-to-text conversion and range converter are uninterpreted function parameters. Type names and descriptions are fields of the pref.
- Prefs.Reset sets the value to the stored default. The registry's own `reset_pref` and `prefs_pref_is_default` are not part of this model. The one link between them is the hypothesis `ResetMakesDefault`, which the lemmas about resetting require.
- `prefs_modules_foreach_submodules` is modelled as visiting the submodules in the order given and stopping at the first non-zero answer. Its skipping of obsolete modules and its sort order are not modelled.
- Turning the walker's item tree into the rows of the advanced tree, in iterator order, is not modelled. The constructor takes the rows in that order.
- Visibility.PrefRowVisibleIffMatches assumes that pref rows are leaves. The walker guarantees this (`Walker.WalkKeepsPrefsAsLeaves`), but the two are not linked.
- Rows.UpdatedRow: the value column shows the registry's text unchanged. The removal of "\n\t" sequences (line 182) is Qt regular-expression behaviour and is not modelled.
- Text.ToUInt covers digit strings only. Qt's trimming of white space, a leading sign and the editor's input mask (line 257) are not modelled.
- Text.ContainsIgnoringCase folds ASCII letters only, and so does `Pages.FrameName`. Unicode case folding is not modelled.
- Walker.FillAdvancedPrefs requires a module without a name to have a parent. The source dereferences the parent only when such a module has a listed pref, so this is stronger than the source.
- The slot methods (`UintEditingFinished`, `EnumCurrentIndexChanged`, `StringEditingFinished`, `RangeEditingFinished`) require the current pref to have the slot's type. Writing through the wrong member of the value union is undefined behaviour.
- RangeTextChanged requires the current row, when it has a pref, to hold the range editor. The sender is that editor, and the model places it only in the current row.
- EnumCurrentIndexChanged requires the current row to hold the choice list and the index to be -1 or below the number of items. The sender is that list, and a list only reports such indices.
- ActivateItem computes the range editor's initial syntax state from the initial text. This assumes the activated row is the current row when the editor's text is set.
- CurrentItemChanged also records the new current row, which Qt does itself.
