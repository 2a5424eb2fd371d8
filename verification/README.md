# Beer label catalogue: controller model

A Dafny model of the record-list controller of `beer_label_app.py`, a
desktop tool that keeps a list of beer records (name, type, price,
greeting), filters it by a search query, adds and deletes records, and
draws a printable label for the selected record. The widget toolkit, the
image library and the printer are taken away and the data file is reduced to what loading it yields; what is left
is a small state machine over an immutable sequence of records.

Modules, leaf first:

- `Wrappers` (`wrappers.dfy`): `Option` and `Result`.
- `Text` (`text.dfy`): `str.strip()`, `str.lower()` and the substring test `needle in hay`.
- `Records` (`records.dfy`): the `Beer` record, its four fields in dialog order, and the add dialog's validation.
- `Catalog` (`catalog.dfy`): the search filter, listbox names, lookup by name and `list.remove`.
- `Store` (`store.dfy`): the data file as read by `load_data` and written by `save_data`.
- `Controller` (`controller.dfy`): the state `(beers, selected, listed, persisted)` and one transition per user action, with the invariants they keep.
- `Label` (`label.dfy`): the label layout as a list of draw commands, and the font fallback.

The model follows the code in these details:

- Delete removes the first record *equal* to the selected one (the whole record, as Python's `list.remove` compares dictionaries), not the first record with the same name.
- After a refresh the selection is the first record in the *whole* list that has the first visible name. With duplicate names this can be a record the filter hides (`Controller.DuplicateNameSelectsHiddenRecord`).
- A refresh that shows nothing keeps the old selection.
- The price line reads `Цена за 1л: <price> ₽`, as in the code.

## Model

| member | source | states |
|---|---|---|
| Text.Strip | beer_label_app.py:127 | stripping yields the empty string exactly when the input is all whitespace; otherwise a result that neither starts nor ends with whitespace and sits in the input between whitespace-only margins |
| Text.StripPadded | beer_label_app.py:168 | stripping gives back any trimmed text after whitespace is put around it on both sides |
| Text.StripIdempotent | beer_label_app.py:168 | stripping a stripped string changes nothing |
| Text.Lower | beer_label_app.py:113-114 | lower-casing keeps the length, leaves no capital behind, changes every capital and leaves every other character as it was |
| Text.LowerIdempotent | beer_label_app.py:113 | lower-casing a lower-cased string changes nothing |
| Text.ContainsIff | beer_label_app.py:114 | the substring test holds exactly when the needle occurs at some position of the haystack |
| Records.FirstBlank | beer_label_app.py:167-171 | the index returned is the first field in the given order whose entry strips to nothing; none is returned exactly when no entry is blank |
| Records.Validate | beer_label_app.py:165-172 | accepted exactly when all four entries are non-blank, and then the record holds the four stripped entries; rejected with the first blank field in the order name, type, price, greeting, all earlier ones being filled |
| Records.TrimmedIffStripFixed | beer_label_app.py:168 | a field is trimmed exactly when it is non-empty and stripping leaves it unchanged |
| Records.ValidateGivesValid | beer_label_app.py:166-172 | every record the dialog accepts has four non-empty fields with no surrounding whitespace |
| Records.ValidateRoundTrip | beer_label_app.py:166-172 | typing a valid record's fields into the dialog yields that same record |
| Catalog.Filter | beer_label_app.py:114 | the filtered list is an order-preserving subsequence of the records, and a record is in it exactly when it is in the list and its lower-cased name or type contains the query |
| Catalog.Matches | beer_label_app.py:114 | a record matches a lower-cased query exactly when the query occurs at some position of its lower-cased name or of its lower-cased type |
| Catalog.FilterAppend | beer_label_app.py:114 | filtering a concatenation is the concatenation of the filtered parts |
| Catalog.FilterCount | beer_label_app.py:114 | a matching record occurs in the result as often as in the list, a non-matching one not at all |
| Catalog.FilterAllMatch | beer_label_app.py:114 | a query every record matches keeps the whole list |
| Catalog.FilterExampleLager | beer_label_app.py:113-114 | of the records "Lager X"/"Lager" and "Stout Y"/"Stout", the query "lager" keeps exactly the first |
| Catalog.FilterExampleY | beer_label_app.py:113-114 | on the same two records the query "y" keeps exactly the second |
| Catalog.Visible | beer_label_app.py:111-116 | the shown list is a subsequence of the records; with no or an empty filter it holds every record, otherwise exactly the records matching the lower-cased filter |
| Catalog.VisibleUnfiltered | beer_label_app.py:115-116 | with no filter, or an empty one, the shown list is the full list in the same order |
| Catalog.VisibleIgnoresQueryCase | beer_label_app.py:113 | filtering by a query and by its lower-case form shows the same records |
| Catalog.Names | beer_label_app.py:118-119 | the listbox holds one entry per shown record, its name, in order; every shown record's name is listed and every listed name belongs to a shown record |
| Catalog.FindName | beer_label_app.py:143-146 | the index returned holds a record with the given name and no earlier record has it; none is returned exactly when no record has it |
| Catalog.FirstByName | beer_label_app.py:143-146 | the record found has the given name and sits at a position before which no record has that name; none is found exactly when the name is not among the list's names |
| Catalog.LookupName | beer_label_app.py:143-146 | the scan stops at the first record with the name and otherwise reports that no record has it |
| Catalog.FirstIndex | beer_label_app.py:188 | the index holds the element and the element does not occur before it |
| Catalog.RemoveFirst | beer_label_app.py:188 | removal fails exactly when the element is absent; otherwise the list loses one element, its multiset loses one copy of the element, and the rest stay in order |
| Catalog.RemoveFirstAt | beer_label_app.py:188 | the removal takes out exactly the first occurrence: the result is the part before it followed by the part after it |
| Store.Load | beer_label_app.py:42-51 | a stored list is read back unchanged without a warning; a missing file gives an empty list silently; a file that cannot be opened or is not valid JSON gives an empty list with an error dialog |
| Store.Persist | beer_label_app.py:53-59 | after a complete write loading gives the written list back; a failed open leaves the old file as it was; a dump that fails after the truncating open leaves a file that loads as an empty list with an error |
| Store.SaveLoadRoundTrip | beer_label_app.py:53-57 | whatever the file held before, writing a list and loading it again gives that list |
| Controller.OnSelect | beer_label_app.py:135-146 | selecting a listbox entry selects the first record with that name and changes nothing else; with no selection, or no record of that name, the old selection stays |
| Controller.Refresh | beer_label_app.py:108-123 | the listbox shows the names of the visible records; when some are visible the selection becomes a record of the list named like the first visible entry, otherwise it is unchanged; the records and the file are untouched |
| Controller.RefreshUnfilteredSelectsHead | beer_label_app.py:112-123 | an unfiltered refresh of a non-empty list lists every name and selects the first record itself |
| Controller.RefreshUniqueSelectsFirstVisible | beer_label_app.py:121-146 | when names are unique the selection after a refresh is exactly the first visible record |
| Controller.DuplicateNameSelectsHiddenRecord | beer_label_app.py:113-146 | with two records named "X" of types "ale" and "lager", searching "lager" shows only the second but selects the first |
| Controller.Query | beer_label_app.py:127-128 | the submitted filter is absent exactly when the entry is whitespace only, and otherwise is the non-empty stripped entry |
| Controller.Search | beer_label_app.py:108-128 | a search leaves the records and the file alone, lists the names of the records matching the lower-cased stripped query, and selects the first record in the whole list that has the first matching name, or keeps the selection when nothing matches |
| Controller.ResetSearch | beer_label_app.py:130-133 | reset lists every name and selects the first record when there is one |
| Controller.SearchBlankIsReset | beer_label_app.py:127-133 | a search for whitespace only has exactly the effect of reset |
| Controller.SearchIgnoresQueryCase | beer_label_app.py:108-128 | two entry texts whose stripped, lower-cased forms agree lead to the same state after a search: the same listed names and the same selection |
| Controller.Add | beer_label_app.py:165-176 | a blank entry is reported as the first blank field and leaves the state unchanged; otherwise the stripped record is appended, the file is what `Store.Persist` makes of the write, every name is listed and the first record is selected |
| Controller.AddAppends | beer_label_app.py:172-173 | a successful add keeps every earlier record in place and adds one valid record at the end |
| Controller.Delete | beer_label_app.py:180-193 | with no selection, a declined confirmation or a selection not in the list nothing changes; otherwise one copy of the selected record leaves the list, the rest keep their order, the file is what `Store.Persist` makes of the write, every name is listed and the selection is the new first record or none |
| Controller.DeleteRemovesFirstOccurrence | beer_label_app.py:188 | a confirmed delete removes exactly the first occurrence of the selected record |
| Controller.Init | beer_label_app.py:31-40 | at start-up the list is what `load_data` returns (the stored records, or empty for a missing or damaged file, which is left as found), every name is listed and the first record is selected when there is one |
| Controller.InitStoredIsPersisted | beer_label_app.py:31-47 | starting from a readable file, the file holds exactly the in-memory list |
| Controller.Step | beer_label_app.py:125-191 | selecting, searching and resetting leave the list and the file alone; an add changes the list length by at most one up, a delete by at most one down |
| Controller.RefreshInv | beer_label_app.py:108-123 | a refresh of a state whose selection is a record of the list establishes the invariant |
| Controller.InitInv | beer_label_app.py:31-40 | the start-up state satisfies the invariant: the selection is a record of the list and every listed name names a record |
| Controller.StepInv | beer_label_app.py:108-193 | every user action preserves the invariant |
| Controller.DeleteUnderInvRemovesOne | beer_label_app.py:182-191 | in any state satisfying the invariant, a confirmed delete with a selection removes exactly one record, so `list.remove` never raises |
| Controller.AddKeepsValid | beer_label_app.py:165-173 | adding keeps a list of valid records valid |
| Controller.DeleteKeepsValid | beer_label_app.py:180-191 | deleting keeps a list of valid records valid |
| Controller.StepKeepsValid | beer_label_app.py:165-191 | no user action puts an invalid record into a valid list |
| Controller.StepKeepsPersisted | beer_label_app.py:173-189 | when every write completes, a file that holds the in-memory list keeps holding it after any action |
| Label.PriceText | beer_label_app.py:216 | the price line is the fixed prefix, then the price, then the rouble suffix |
| Label.Render | beer_label_app.py:195-219 | the label is 580 by 400 on #11261A with exactly five white lines drawn at x 20 and y 15, 65, 115, 165, 215, in the styles logo, title, type, price and note, reading brand, name, type, price line and greeting |
| Label.GeometryIndependent | beer_label_app.py:197-217 | size, background, positions, styles and colours are the same for every record, whatever the length of its texts |
| Label.ReadBackRender | beer_label_app.py:213-217 | the record can be read back from its label |
| Label.RenderInjective | beer_label_app.py:213-217 | different records give different labels |
| Label.LoadFonts | beer_label_app.py:201-208 | either every style gets its preferred TrueType face or every style gets the default face, the former exactly when both font files load |
| Label.RenderFaces | beer_label_app.py:201-217 | when both font files load, the five lines get bold 28, bold 26, regular 22, bold 22 and regular 18; otherwise every line gets the default face |
| Label.LabelFor | beer_label_app.py:221-239 | without a selection no label is made; with one, the label is exactly the rendering of the selected record |

## Left out

- Tkinter widgets, the listbox, the dialogs and `messagebox`: only the state changes and early returns are modelled. The add dialog's warning is the `Field` returned by `Controller.Add`; the search entry's text is the argument of `Controller.Search`.
- JSON text (lines 42-59): a document is either a list of records, no file, or a file that cannot be opened or is not valid JSON. A file holding valid JSON that is not an array of records (which `load_data` returns as it is, and on which the list code then raises) is assumed not to occur. A stored list is assumed to have the four fields in every record, and encoding then decoding is assumed to give the list back.
- Store.Persist: a dump that fails part-way is assumed to leave text that does not parse, which holds for a truncated JSON array but is not derived from the encoder.
- The cause of a failed write (disk full, permissions) is the `Write` outcome passed to `Controller.Add` and `Controller.Delete`.
- `BASE_DIR` and `DATA_FILE` (lines 16-21): environment and path handling.
- Pixel rendering and `ImageFont.truetype` (lines 198-211): a label is the list of `draw.text` calls; a face is a file name and a size.
- Label.LabelFor: assumes the image modules are bound, as by `from PIL import Image, ImageDraw, ImageFont, ImageTk, ImageWin`. As written, line 7 (`from PIL import *`) binds none of them, because the `PIL` package exports no submodules, so `generate_label` raises `NameError` at line 198 and neither `show_label` nor `print_label` produces a label. Label.Render and Label.RenderFaces rest on the same assumption.
- Printing through `win32print` and `win32ui` (lines 241-254): printer driver calls. `Label.LabelFor` models only the selection check before the image is made.
- Text.Lower: maps only ASCII A-Z and the Cyrillic capitals U+0400 to U+042F, because Python's full Unicode case mapping (including length-changing cases) is not modelled.
- Text.Strip: models Python's whitespace set of `str.isspace()` on single code points; no Unicode normalisation.
- Controller.OnSelect: requires a listbox index in range, which the toolkit guarantees for `curselection()`.

