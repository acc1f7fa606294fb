# TraderPlusEditor core, modelled in Dafny

TraderPlusEditor is a desktop editor for the JSON configuration files of the
TraderPlus mod. A file is one of three shapes:

- a price file, whose `TraderCategories` hold categories, each with a name
  and a list of product lines `classname,coefficient,maxStock,tradeQuantity,buy,sell`;
- a general file, whose `Traders` hold trader records;
- an IDs file, whose `IDs` entries assign category names to a trader Id.

The editor detects the shape from the top-level keys. It lists the entities
with a case-insensitive search and marks search hits with " ★". It adds,
deletes and edits entities through dialogs, and after every change it saves
the whole document back to the file it came from.

This project models that core and proves its contracts:

- `wrappers.dfy`: the `Option` type.
- `text.dfy`: the Python string operations the editor relies on. These are
  `lower()`, `strip()`, `in`, `split(sep)`, `sep.join`, `split()`, `str(int)`
  and `int(str)`.
- `seqs.dfy`: first-match lookup and first-match deletion by key. This is
  the selection policy behind every delete and every lookup by caption.
- `document.dfy`: the typed document and file-type detection. Every key
  outside the model is carried in a pass-through map.
- `codec.dfy`: the six-field product line, and the add and edit dialogs of
  the product window.
- `forms.dfy`: the trader and IDs dialogs, which turn form text back into a
  record.
- `search.dfy`: what each list shows for a query, as functions of the
  document, with the lemmas about them.
- `editor.dfy`: the editor (`class Editor`) and the product window
  (`class ProductWindow`). Their methods mirror the source's loops and
  in-place updates and are proved against the functions above.

`Editor.disk` is a ghost map from file names to documents. It stands for
the file system as far as the editor writes it. `Valid()` says that
everything the editor changed has been written through to the current file,
and that `fileType` is consistent with the document. Every operation
preserves `Valid()`.

Dialogs and confirmations are inputs. An accepted dialog is `Some(fields)`
and a cancelled one is `None`; a confirmation is a `bool`; the caption of
the selected row is an `Option<string>`. JSON reading is an
`Option<Document>` argument of `LoadFile`. `float()` and `str()` of JSON
numbers are function parameters (`parseFloat`, `showNumber`).

Behaviour of the source that the lemmas make explicit:

- The category filter matches the whole product line. The product window
  matches only the line's first six fields. So a category can be starred for
  a product that its window does not list (`Search.WindowIgnoresExtraFields`).
- The product window edits and deletes the first line whose text before the
  first comma is the selected classname, across all lines. That includes
  malformed lines it does not list (`Search.DeleteReachesHiddenLine`).
- A category or trader whose own name ends in " ★" loses that suffix when
  its unstarred caption is looked up (`Search.CategoryLabelKey`).
- A trader without `GivenName` is listed as "Неизвестный" but deleted by the
  key "" (`Search.NamelessTraderKept`).
- An IDs entry without `Id` is listed as "ID: -1". Delete compares -1 with
  the missing `Id`, so that entry is never found (`Search.IdlessEntryKept`).
- In a file of unknown shape, add creates an `IDs` list
  (`Editor.Editor.AddCategory`).

## Model

| member | source | states |
|---|---|---|
| Document.Classify | trader_editor.py:584-593 | "price" iff `TraderCategories` is present; "general" iff it is absent and `Traders` is present; "ids" iff both are absent and `IDs` is present; "unknown" iff none is present |
| Document.ClassifyByKeysOnly | trader_editor.py:584-593 | the file type depends only on which of the three keys are present |
| Document.ClassifyAgrees | trader_editor.py:584-593 | a freshly detected type is consistent with its document |
| Document.AgreesByKeysOnly | trader_editor.py:584-593 | consistency of a file type with a document depends only on which collections are present |
| Document.FirstCategoryNamed | trader_editor.py:1047-1050 | the name search finds position `i` iff category `i` has the name and no earlier category has it |
| Document.FirstTraderKeyed | trader_editor.py:1062-1065 | the search finds position `i` iff trader `i` has the key as `GivenName` (a missing one counts as "") and no earlier trader has it |
| Document.FirstEntryWithId | trader_editor.py:1081-1084 | the search finds position `i` iff entry `i` holds the Id and no earlier entry does; an entry without `Id` never matches |
| Text.LowerIdempotent | trader_editor.py:1179 | lowering an already lowered text changes nothing |
| Text.LowerStrip | trader_editor.py:1179 | `lower()` commutes with `strip()`: lowering a stripped text is stripping the lowered text |
| Text.LowerConcat | trader_editor.py:613 | `lower()` distributes over concatenation |
| Text.Strip | trader_editor.py:613 | the result of `strip()` neither starts nor ends with whitespace |
| Text.StripPiece | trader_editor.py:613 | the result of `strip()` is a piece of the input |
| Text.StripEmpty | trader_editor.py:2032 | `strip()` gives "" exactly when the text is all whitespace |
| Text.StripUnchanged | trader_editor.py:2032 | text without surrounding whitespace is left alone by `strip()` |
| Text.StripPrefix | trader_editor.py:613 | `strip(x)` is a prefix of `strip(x + y)` |
| Text.ContainsPrefix | trader_editor.py:630-640 | a text that contains a pattern contains every prefix of it |
| Text.Split | trader_editor.py:637 | `split(sep)` gives at least one part, and no part contains the separator |
| Text.JoinSplit | trader_editor.py:637-639 | `sep.join(s.split(sep)) == s` |
| Text.SplitJoin | trader_editor.py:1683-1687 | splitting a join of separator-free parts gives the parts back |
| Text.SplitAround | trader_editor.py:637 | splitting `x + sep + y` is splitting `x` followed by splitting `y` |
| Text.Words | trader_editor.py:1946 | every piece `split()` gives is a non-empty text without whitespace |
| Text.WordsEmpty | trader_editor.py:1946-1955 | `split()` gives no word exactly when the text is all whitespace |
| Text.WordsCons | trader_editor.py:1946 | a word followed by a whitespace character and any text splits into that word followed by the words of the text |
| Text.WordsOfWord | trader_editor.py:1946 | a single word splits into itself |
| Text.WordsSkipSpace | trader_editor.py:1946 | a leading whitespace character yields no word, so leading whitespace and runs of separators are skipped |
| Text.ThreeWords | trader_editor.py:1946-1947 | three words separated by single spaces split back into exactly those three words |
| Forms.BlankVectorIsZero | trader_editor.py:1946-1955 | a blank Position or Orientation text is stored as `[0, 0, 0]` |
| Forms.VectorOfThreeNumbers | trader_editor.py:1946-1951 | three numbers separated by spaces are stored as those three numbers, in order |
| Text.IntToString | trader_editor.py:716 | `str(i)` is non-empty, has no surrounding whitespace, and starts with '-' iff `i < 0` |
| Text.ParseIntToString | trader_editor.py:1935 | `int(str(i)) == i` |
| Seqs.IndexOf | trader_editor.py:1047-1050 | the first position holding the key, and none exactly when the key is absent |
| Seqs.FindFirst | trader_editor.py:1047-1050 | the `for i ... if key == k: break` loop stops at the first matching position |
| Seqs.DeleteFirst | trader_editor.py:1047-1050 | without a match nothing changes; otherwise exactly the first match is removed and the rest keeps its order |
| Seqs.DeleteFirstSparesLater | trader_editor.py:1047-1050 | of two entities sharing a key, the later one survives the delete and just moves down one place |
| Codec.ClassnameKeys | trader_editor.py:1461 | the lookup key of every line, well-formed or not, is its text before the first comma, which is the classname of a line that decodes |
| Codec.FirstLineWithClassname | trader_editor.py:1507-1510 | the classname search finds line `i` iff its text before the first comma is the classname and no earlier line has that text |
| Codec.Decode | trader_editor.py:1849-1851 | a line decodes exactly when it has at least six comma-separated fields |
| Codec.DecodeEncode | trader_editor.py:1683-1687 | a product whose fields hold no comma decodes back to itself |
| Codec.EncodeDecode | trader_editor.py:1849-1863 | re-encoding a decoded line gives its first six fields joined, which is the line itself when it has six |
| Codec.TrimmedCommaFree | trader_editor.py:1673-1687 | stripping the fields of a comma-free form keeps them comma-free |
| Codec.StripCommaFree | trader_editor.py:1683-1687 | stripping cannot introduce a comma |
| Codec.AddProductRoundTrip | trader_editor.py:1673-1687 | a form the add dialog accepts yields six non-empty fields that decode to the stripped form |
| Codec.LoadProductData | trader_editor.py:1848-1857 | for a line with at least six fields the edit dialog shows its first six, and for a shorter line six empty fields |
| Codec.UnmodifiedEdit | trader_editor.py:1848-1863 | an untouched edit keeps the first six fields, leaves a six-field line unchanged, and turns a malformed one into ",,,,," |
| Forms.IdTextRoundTrip | trader_editor.py:1914-1938 | an Id shown in the form and read back unchanged is the same Id |
| Forms.IdWithoutDigitsIsZero | trader_editor.py:1934-1937 | Id text without a digit is stored as 0 |
| Forms.NonIntegerIdIsZero | trader_editor.py:1934-1937 | any Id text that `int()` rejects is stored as 0 |
| Forms.IdWithNonDigitIsZero | trader_editor.py:1934-1937 | Id text with a character other than a digit or a leading sign, such as "1.5" or "12abc", is stored as 0 |
| Text.ParseIntRejects | trader_editor.py:1934-1937 | `int()` fails on a stripped text holding a character other than a digit or a leading sign |
| Forms.VectorFromText | trader_editor.py:1941-1968 | Position and Orientation always get three components, and `[0, 0, 0]` when fewer than three words are given |
| Forms.GetTraderData | trader_editor.py:1931-1970 | the copy keeps every key the dialog does not show; Id is the parsed Id text (0 when `int()` fails), Name, GivenName and Role are the texts as typed, and Position and Orientation are the three-component vectors read from their texts |
| Forms.TraderEditRoundTrip | trader_editor.py:1912-1970 | an untouched trader dialog keeps Id, Name, GivenName, Role and the other keys (missing ones become 0 or "") |
| Forms.NewTraderUntouched | trader_editor.py:984-995 | the trader added from an untouched dialog has Id `n`, the default GivenName and its `Clothes` |
| Forms.CleanLines | trader_editor.py:2032 | at most as many items as lines; when no line holds a newline, each item is non-empty, single-line and has no surrounding whitespace |
| Forms.CleanLinesOne | trader_editor.py:2032 | one line gives its stripped text when that is non-empty, and nothing otherwise |
| Forms.CleanLinesAppend | trader_editor.py:2032 | cleaning two blocks of lines is cleaning each and concatenating, so order is kept |
| Forms.CleanLinesSound | trader_editor.py:2032 | every item is non-empty and is the stripped text of some line |
| Forms.CleanLinesComplete | trader_editor.py:2032 | every line whose stripped text is non-empty contributes that text |
| Forms.CategoriesFromText | trader_editor.py:2030-2033 | every category read from the text box is a clean non-empty line |
| Forms.CategoriesFromTextLines | trader_editor.py:2030-2033 | each category is the stripped text of a line of the box, and every non-blank line gives a category |
| Forms.CategoriesFromTextAppend | trader_editor.py:2030-2033 | the text above a line break gives the first categories and the text below it the rest |
| Forms.CleanLinesOfClean | trader_editor.py:2032 | clean lines pass through unchanged and in order |
| Forms.CategoriesRoundTrip | trader_editor.py:2016-2033 | a clean category list shown one per line reads back as itself |
| Forms.GetTraderIdData | trader_editor.py:2021-2035 | the copy keeps every key the dialog does not show; Id is the parsed Id text (0 when `int()` fails) and the categories are those read from the text box, each a clean line |
| Forms.IdEntryEditRoundTrip | trader_editor.py:2012-2035 | an untouched IDs dialog gives the entry back when it has an Id and clean categories |
| Forms.NewIdEntryUntouched | trader_editor.py:1010-1020 | the entry added from an untouched dialog is the default one, with Id `n` |
| Search.QueryExtends | trader_editor.py:613 | typing more characters only lengthens the lowered, stripped query |
| Search.WindowQueryIsQuery | trader_editor.py:1173-1179 | the product window's search text, stripped by the double-click handler (lines 863 and 879) and lowered by the window, equals the query the category filter uses |
| Search.StripStar | trader_editor.py:1037-1038 | a trailing " ★" is removed and any other caption is kept |
| Search.StripStarOfStarred | trader_editor.py:849-850 | removing the star from a starred name gives the name |
| Search.FirstProductHit | trader_editor.py:652-663 | the first line with six fields that contains the query, and none when no line does |
| Search.CategoryViewSound | trader_editor.py:613-693 | every listed category passes the filter and carries its nested hit; rows are in document order, with no category twice |
| Search.CategoryViewComplete | trader_editor.py:613-693 | every category that passes the filter is listed |
| Search.NestedHitSpec | trader_editor.py:634-663 | a product is surfaced iff the query is non-empty and the name did not match, and it is the first matching line |
| Search.CategoryShownNarrows | trader_editor.py:621-645 | a category hidden by a query stays hidden when the query grows |
| Search.CategoryViewNarrows | trader_editor.py:613-693 | every category listed for a longer query is listed for its prefix |
| Search.ListedCategoryInfo | trader_editor.py:619-665 | every listed row has a second column: the product count for a category listed for itself, and fields 0, 4 and 5 of its first matching product for one found through its products |
| Search.CategoryLabelKey | trader_editor.py:1037-1050 | removing the star from a listed caption gives the name back, except for an unstarred name that ends in " ★" |
| Search.TraderViewSound | trader_editor.py:695-757 | every listed trader passes the filter and is starred iff the query is non-empty; rows are in document order |
| Search.TraderViewComplete | trader_editor.py:695-757 | every trader that passes the filter is listed |
| Search.TraderShownNarrows | trader_editor.py:710-721 | a trader hidden by a query stays hidden when the query grows |
| Search.TraderViewNarrows | trader_editor.py:695-757 | every trader listed for a longer query is listed for its prefix |
| Search.TraderLabelKey | trader_editor.py:1037-1065 | removing the star from a listed caption gives the delete key of a trader that has a GivenName |
| Search.IdViewSound | trader_editor.py:759-820 | every listed entry passes the filter and is starred iff the query is non-empty; rows are in document order |
| Search.IdViewComplete | trader_editor.py:759-820 | every entry that passes the filter is listed |
| Search.EntryShownNarrows | trader_editor.py:774-785 | an entry hidden by a query stays hidden when the query grows |
| Search.IdViewNarrows | trader_editor.py:759-820 | every entry listed for a longer query is listed for its prefix |
| Search.IdLabelKey | trader_editor.py:1072-1074 | parsing the "ID: X" caption, starred or not, gives the Id that was shown |
| Search.ProductViewSound | trader_editor.py:1383-1445 | every listed line has six fields and matches the search text in those fields; rows are in line order |
| Search.ProductViewComplete | trader_editor.py:1383-1445 | every well-formed matching line is listed |
| Search.WindowAgreesOnSixFields | trader_editor.py:1392-1408 | on a six-field line, the product window's match on the six fields agrees with the category filter's match on the whole line |
| Search.WindowIgnoresExtraFields | trader_editor.py:1392-1408 | with a seventh field, the category filter (which matches the whole line) can match a line that the product window hides |
| Search.CategoryViewAppend | trader_editor.py:969 | appending a category keeps the earlier rows, and the new one is listed last iff it passes the filter |
| Search.NewCategoryListedLast | trader_editor.py:962-970 | a new category is the last row under the empty query |
| Search.DeleteListedCategory | trader_editor.py:1036-1050 | deleting by a listed caption removes that category when its name is the first of its kind |
| Search.DeleteListedTrader | trader_editor.py:1036-1065 | deleting by a listed caption removes that trader when its GivenName is the first of its kind |
| Search.NamelessTraderKept | trader_editor.py:1062-1065 | a trader without GivenName, listed as "Неизвестный", cannot be deleted by that caption, whose key is looked up as "" for it |
| Search.DeleteListedEntry | trader_editor.py:1072-1084 | deleting by a listed caption removes that entry when its Id is the first of its kind |
| Search.IdlessEntryKept | trader_editor.py:1072-1084 | an entry without Id cannot be deleted by its "ID: -1" caption |
| Search.DeleteListedProduct | trader_editor.py:1501-1510 | deleting by a listed classname removes that line when no earlier line has the same classname |
| Search.DeleteReachesHiddenLine | trader_editor.py:1505-1510 | when a malformed line is followed by a listed line with the same classname, the window lists only the second, but deleting that classname removes the first |
| Editor.WithProducts | trader_editor.py:943-944 | replacing a category's product list changes that list and nothing else in the document |
| Editor.SearchProducts | trader_editor.py:633-645 | the product loop finds a line exactly when some line with six fields contains the query |
| Editor.FirstHit | trader_editor.py:650-663 | the second product loop stops at the first matching line |
| Editor.ScanCategory | trader_editor.py:617-663 | one pass over a category decides `show_category` and the surfaced product as the filter specifies |
| Editor.AnyCategoryMatches | trader_editor.py:779-783 | the category loop of the IDs filter finds a match exactly when some lowered name contains the query |
| Editor.Editor.constructor | trader_editor.py:15-21 | empty document, no file, type "price" |
| Editor.Editor.AutoSave | trader_editor.py:1123-1128 | the document is written to the current file, and nothing is written without one |
| Editor.Editor.LoadFile | trader_editor.py:535-582 | a document that was read becomes current with its detected type, and the file is recorded as holding it; no file name or a failed read changes nothing |
| Editor.Editor.UnloadFile | trader_editor.py:480-491 | a loaded document is dropped, and file name and type are reset, without saving; an editor with nothing loaded is left alone |
| Editor.Editor.SaveFile | trader_editor.py:1101-1108 | the document is written to the current file; without one, the chosen name becomes current and receives it |
| Editor.Editor.SaveFileAs | trader_editor.py:1113-1121 | a chosen name becomes current and receives the document; a cancelled choice changes nothing |
| Editor.Editor.FilterCategories | trader_editor.py:611-693 | the loop builds the category view of the lowered, stripped query |
| Editor.Editor.FilterTraders | trader_editor.py:695-757 | the loop builds the trader view |
| Editor.Editor.FilterIds | trader_editor.py:759-820 | the loop builds the IDs view |
| Editor.Editor.AddCategory | trader_editor.py:958-978 | in a price file a confirmed, non-empty name is appended as an empty category (the list is created when absent); other types go on to the trader or IDs dialog |
| Editor.Editor.AddTrader | trader_editor.py:980-1004 | an accepted dialog appends the edited default trader, whose Id starts as the trader count |
| Editor.Editor.AddTraderId | trader_editor.py:1006-1027 | an accepted dialog appends the edited default entry, whose Id starts as the entry count |
| Editor.Editor.DeleteCategory | trader_editor.py:1029-1090 | once confirmed, the first entity whose key equals the star-stripped caption is deleted; a missing collection raises `KeyError` (`raised`) and changes nothing; an unparsable Id changes nothing |
| Editor.Editor.EditTraderDialog | trader_editor.py:911-922 | an accepted dialog replaces the trader at the index with its copy; nothing else changes |
| Editor.Editor.EditTraderIdDialog | trader_editor.py:924-935 | an accepted dialog replaces the entry at the index with its copy; nothing else changes |
| Editor.Editor.EditProductDialog | trader_editor.py:937-948 | an accepted dialog replaces the line at the index with the joined fields |
| Editor.ProductWindow.constructor | trader_editor.py:1173-1179 | the window keeps its category and the lowered search text |
| Editor.ProductWindow.LoadProducts | trader_editor.py:1383-1445 | the loop builds the product view, and it selects the first row when a search is active |
| Editor.ProductWindow.EditProduct | trader_editor.py:1447-1475 | the first line whose classname key matches is replaced by the edited fields; no match changes nothing |
| Editor.ProductWindow.AddProduct | trader_editor.py:1477-1489 | an accepted form is appended as the stripped fields joined by commas |
| Editor.ProductWindow.DeleteProduct | trader_editor.py:1491-1515 | once confirmed, exactly the first line whose classname key matches is removed |

Definitions without a row of their own are helpers whose meaning is
stated by the rows above. `Codec.Encode`, `Codec.ValidateAndAccept`,
`Codec.AddProductString` and `Codec.EditProductString` are covered by the
round-trip lemmas of `Codec`. `Forms.LoadTraderData`,
`Forms.LoadTraderIdData` and `Forms.IdFromText` are covered by the dialog
round trips and the Id lemmas, and `Text.ParseInt` by
`Text.ParseIntToString` and `Text.ParseIntRejects`. `Search.LabelId` is
covered by `Search.IdLabelKey`. `Search.CategoryView`, `Search.TraderView`,
`Search.IdView` and `Search.ProductView` are covered by their `Sound`,
`Complete` and `Narrows` lemmas. `Search.CategoryInfo` is covered by
`Search.ListedCategoryInfo`. `Document.CategoryNames`,
`Document.GivenNameKeys` and `Document.EntryIds` are covered by the three
`First…` lemmas. `Codec.Fields` lists the six fields and is covered by the
round-trip lemmas. `Document.NewEntitiesWellFormed` only checks that the
created entities meet `Document.WellFormed`. `Text.LowerTrimLeft` and `Text.LowerTrimRight` are the two
halves of `Text.LowerStrip`.

## Left out

- Qt widgets, styles, colours, icons, status messages and drag and drop
  are not modelled. Message boxes and input dialogs become parameters.
  Captions are modelled as text, but the `display_index` alternating colour
  is left out.
- Reading and writing files, and JSON (de)serialisation, are not modelled.
  A read is an `Option<Document>` argument and a write updates the ghost
  `disk`. The order of keys is not modelled. `json.dump` writes keys in the
  order the program inserted them: a `TraderCategories` or `IDs` list
  created by an add goes last (lines 967-968 and 1021-1022), and the dialog
  copies keep the original order. The typed document has no key order.
- Missing required keys are not modelled. A category without `CategoryName`
  or `Products` makes `filter_categories` raise `KeyError` (lines 620-621).
  By then `load_file` has already replaced the document, the file name and
  the type (lines 539-543). The `except` at line 581 skips `auto_save` at
  line 580, so the editor holds a loaded document that was never written.
  That is the state `Valid()` rules out. The typed `Category` always has
  both keys, so the model cannot reach it.
- The pass-through maps are kept free of the keys the editor reads by
  `Document.WellFormed` and its parts. The new entities meet it, and the
  dialog copies keep it. The editor methods do not carry it in `Valid()`,
  because no contract depends on it.
- The second column of the trader list (`ID: … | Роль: …`, line 726) and of
  the IDs list (`Категорий: …`, line 790) is not modelled. These are display
  text that no operation reads back.
- Editor.Editor.DeleteCategory: the `KeyError` raised when the collection is
  missing (lines 1047, 1062 and 1081; the `try` at 1072 catches only
  `ValueError`) is reported by `raised`, with the document unchanged. Its
  escape out of the Qt slot is not modelled. Neither is the usual way to
  reach it: after `unload_file` (lines 487-491) the hidden table keeps its
  old rows and selection.
- Editor.Editor.AutoSave: a write that fails (the `except` branch with its
  error box) is not modelled. Every save succeeds.
- `float()` and `str()` of JSON numbers are parameters, because they are
  floating point.
- `lower()` and `strip()` are restricted: `lower()` covers ASCII and basic
  Cyrillic letters only, and whitespace is what `str.isspace` accepts below
  U+0100. Python's `int()` is modelled only as optional sign plus decimal
  digits after stripping. This leaves out underscores and non-ASCII digits.
- `on_category_double_click`, `open_product_window`, `open_file`,
  `clear_search`, `on_search_change` and `update_button_labels` are UI
  routing. The star handling of the double-click is modelled by
  `Search.StripStar`.
- JSON values of an unexpected type are not modelled: a string `Id`, a
  non-list `Products`, or a top level that is not an object. Where the
  source would raise on them, the typed document cannot express them.
- Editor.Editor.AddTrader and Editor.Editor.AddTraderId require the file type
  they are dispatched on, because `add_category` is their only caller.
