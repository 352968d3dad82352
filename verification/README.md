# Verified models of gEDA's attribute editor, converters and refactoring tools

This project models the hardest parts of a gEDA fork in Dafny and proves what they do, for every input. Seven
parts are covered.

* **Sorting (gattrib).** The bottom-up mergesort that relinks a doubly linked list in place, the natural-order
  comparison that drives it, and the string list with its master-list sorts. The sort is proved on the heap:
  same cells, stable order, links inverse to each other. The comparison is a total preorder on keys of position
  and tokens, where a token is the value of a run of digits or a lower-cased character, and the character right
  after two equal runs does not count.
* **JSON (gattrib).** The cursor-based parser accepts exactly the texts of a grammar given as syntax trees with a
  printer, and returns their meaning; the writer's escaping is undone by the parser. The grammar contains RFC 8259
  sections 2 to 7. Beyond it the code accepts NaN and the infinities, raw control characters in strings, any run
  of number characters that the number conversion takes whole (so `+1` and leading zeros), and lone surrogates;
  the source's own comment names only the first of these.
* **Saving attributes (gattrib).** From the sheet to the table and on to the components. The intended rule is that
  a component ends up with the filled cells of its row. It holds exactly under a condition on the `numslots`
  column, because the row name is worked out again for every entry while the attributes are being changed. Loading a
  design, through its master lists, table and sheet, and saving it again is the identity; with one cell edited in
  between, that attribute changes and nothing else.
* **The refactor pipeline (gedai).** Two lexers that invert printing, the rewrite of `call (void)`, a generator
  with its checks, the splice of a reply into the generated file, and the resumable loop over actions with its
  journal.
* **The Viewlogic converter.** Attachment flags refine a list of objects with their attributes, and the braces of
  the output are well formed.
* **CSV export and overbars.** A reader that splits at unquoted commas recovers the cells of a row and the rows of a
  table, and rows of one width are the same text only for the same cells; overbar markup is read as a token language.
* **Renderer contexts and page layout.** Reference counts over a renderer's whole life, whatever its callers do, and
  the placement of a drawing on a page over exact numbers.

## How the files belong together

| files | part |
|---|---|
| CStrings, NaturalOrder, Comparison, NumeralOrder, MergeSpec, ListSort, SortTransfer, StringLists | sorting |
| JsonSyntax, JsonReader, JsonExact, JsonParser, JsonStrict, JsonEscape, JsonWrite, UnicodeText, QueryRoundTrip | JSON |
| AttribText, SaveSpec, SaveProofs, SaveExact, SaveTwice, SaveInert, SheetLoad, SheetSave, MasterLists, SavedTexts, EditCell | saving |
| PyText, BodyText, GapText, VoidCalls, VoidProofs, MacroArgs, BraceBody, OracleBlock, SolidText | bodies and lexers |
| ActionText, Generator, Validators, ValidatorProofs, GeneratorProofs, ChecksAgree, RenderedChecks, RowText | generator and checks |
| Units, LoneBrace, RefactorRun, RunStory | splice and loop |
| Viewlogic, ViewlogicText, CsvExport, Overbar, RendererContexts, PageLayout | the rest |
| Wrappers, Sequences | a value that may be missing; facts about sequences |

Code that works step by step is a method or a class with mutable fields, proved against a function of its inputs
or its old state; the theorems are lemmas about that function. `dafny verify dfyconfig.toml` checks everything.

## What turned out false, and exactly when it holds

* Saving gives the row: false when a `numslots` cell changes the row name and a filled column to its right is
  displayed differently in the row of the new name, or there is none (`SaveExactly`, with `SaveCanFail`).
* Saving twice is saving once: exactly for the rows described by `SaveTwiceExactly`.
* The checks pass every rendered inventory: exactly when no free text holds the mark of a row or a definition of one
  of the inventory's names, the header's free text declares nothing, and of every body something is left by the
  rewrite, with no lone closing brace and no line that starts another definition (`RenderedExactly`; check by check
  `ArityExactly` and `BodiesExactly`; a failing inventory in `LoneBraceFails`). Lines that only look like foreign
  definitions may stand in the free text.
* An accepted reply never changes the generated file: exactly for bodies with something left and no lone closing
  brace after their first line (`ApplyExactly`, with `LoneBraceFails`).
* A row of the CSV export reads back from its start: exactly if its refdes has no comma (`ReadsExactly`, with
  `CommaFails`); a table does exactly if no refdes has a comma or a newline (`TableExactly`).
* The drawing stays inside the margins: exactly if the margins are no larger than the page (`InsideExactly`, with
  `WideMargins`).
* `cmp` can read one character past a terminating NUL: exactly when `StepsPastEnd` says so (`Comparison.Cmp`, with
  `OverreadHappens`).

## Model

| member | source | states |
|---|---|---|
| `NaturalOrder.TokensAntisymmetric` | gattrib/src/listsort.c:90-112 | Comparing two token sequences the other way round flips the sign. |
| `NaturalOrder.TokensTransitive` | gattrib/src/listsort.c:90-112 | Token comparison is transitive, and strict if either step is. |
| `NaturalOrder.TokensTie` | gattrib/src/listsort.c:90-112 | Two token sequences tie exactly when they are the same sequence. |
| `NaturalOrder.TotalPreorder` | gattrib/src/listsort.c:83-113 | Comparing (pos, tokens) keys is a total preorder: reflexive, antisymmetric in sign, transitive, ties exactly on equal keys. |
| `Comparison.Cmp` | gattrib/src/listsort.c:83-113 | For any two cells with texts the sign of the result is the comparison of their keys; and it says exactly when the walk steps past a terminating NUL. |
| `Comparison.SkipRun` | gattrib/src/listsort.c:98-106 | After a run of digits one more character is skipped, whatever it is; this passes the terminator exactly when the run ends the text. |
| `Comparison.DifferentStringsTie` | gattrib/src/listsort.c:98-106 | Different texts can tie without any over-read: the character after two equal runs is not compared. |
| `Comparison.OverreadHappens` | gattrib/src/listsort.c:98-106 | A concrete pair of texts on which the walk passes the terminator. |
| `NumeralOrder.NumbersByValue` | gattrib/src/listsort.c:98-106 | After any common beginning that does not end in a digit, two different decimal numerals, with any leading zeros and anything that is no digit after them, decide by value: R2 before R10. |
| `NumeralOrder.EqualNumbers` | gattrib/src/listsort.c:98-106 | Equal numerals leave the decision to what follows them, less one character. |
| `NumeralOrder.NumberedCells` | gattrib/src/listsort.c:83-113 | So the key comparison cmp computes has, for cells with such names and one pos, the sign of the difference of the numbers. |
| `NumeralOrder.LetterCase` | gattrib/src/listsort.c:107-108 | The capitals A to Z count as the small letters, and every other character as itself. |
| `MergeSpec.MergeElements` | gattrib/src/listsort.c:173-207 | A merge keeps the elements with their multiplicities. |
| `MergeSpec.MergeAscending` | gattrib/src/listsort.c:173-207 | Merging two ascending runs, all of the first before the second in the input, gives a run ascending by key and by input position on ties. |
| `MergeSpec.PassElements` | gattrib/src/listsort.c:148-211 | A pass keeps the elements. |
| `MergeSpec.PassRuns` | gattrib/src/listsort.c:148-211 | A pass over runs of length k leaves stable ascending runs of length 2k. |
| `MergeSpec.SortFromCorrect` | gattrib/src/listsort.c:148-225 | Passes of doubling width end in one stable ascending run. |
| `MergeSpec.SortElements` | gattrib/src/listsort.c:148-225 | The passes keep the elements. |
| `MergeSpec.SortIsStable` | gattrib/src/listsort.c:135-226 | The whole sort is a stable sorting of its input. |
| `MergeSpec.AscendingUnique` | gattrib/src/listsort.c:135-226 | There is only one stable ascending arrangement, so the specification fixes the result. |
| `ListSort.StepAlong` | gattrib/src/listsort.c:159-168 | Stepping insize places along finds the second run and the length of the first. |
| `ListSort.MergeOne` | gattrib/src/listsort.c:174-207 | One turn of the merge loop moves one cell to the tail and keeps the merge invariant on the heap. |
| `ListSort.MergeRuns` | gattrib/src/listsort.c:170-207 | The merge loop relinks the cells of two runs into their merge, with prev links, leaving the rest of the list alone. |
| `ListSort.SortPass` | gattrib/src/listsort.c:148-217 | One pass relinks the whole list into the list specification's pass. |
| `ListSort.Sort` | gattrib/src/listsort.c:135-226 | In place and for every linear list: it ends, gives the same cells, stably ordered by cmp, prev the inverse of next, null at both ends. |
| `SortTransfer.CellsToTexts` | gattrib/src/s_string_list.c:378-472 | Sorting the cells sorts the texts they hold, stably by the texts' own keys. |
| `StringLists.StringList.constructor` | gattrib/src/s_string_list.c:61-71 | A new list is one cell without data, standing for no items. |
| `StringLists.StringList.AddItem` | gattrib/src/s_string_list.c:116-168 | Appends one new cell for an item that is not there yet, with pos the old count; the other cells stay the same cells with their data and pos; otherwise nothing changes. |
| `StringLists.StringList.DeleteItem` | gattrib/src/s_string_list.c:179-255 | Unlinks exactly the cell of that item, all others keeping data and pos, and leaves a null head exactly when it was the only one. |
| `StringLists.StringList.FindInList` | gattrib/src/s_string_list.c:306-333 | The index of an item, or -1 exactly when it is missing. |
| `StringLists.FindGet` | gattrib/src/s_string_list.c:306-365 | Finding the place of an item and getting the item at a place undo each other. |
| `StringLists.StringList.DataAtIndex` | gattrib/src/s_string_list.c:345-365 | The item at an index, the first one for a negative index, nothing past the end; the null end of the list is followed exactly when the index equals the length. |
| `StringLists.StringList.Labels` | gattrib/src/x_gtksheet.c:217-262 | The labels of rows and columns are the items, first to last. |
| `StringLists.StringList.SortComponents` | gattrib/src/s_string_list.c:378-408 | Sorts the items stably by natural order and numbers the cells 0, 1, 2 and on. |
| `StringLists.StringList.SortAttribs` | gattrib/src/s_string_list.c:436-472 | The same with the preferred attribute names first. |
| `SavedTexts.UsualFirst` | gattrib/src/s_string_list.c:412-424 | Device, footprint and value come before every other column, in this order. |
| `SavedTexts.VersionLast` | gattrib/src/s_string_list.c:412-424 | Symversion comes after every other column. |
| `SavedTexts.OthersNatural` | gattrib/src/s_string_list.c:412-424 | All other columns are in natural order. |
| `StringLists.SortComponentCells` | gattrib/src/s_string_list.c:378-408 | The component sort on the cells: same cells, linked, sorted, pos equal to index. |
| `StringLists.SortAttribCells` | gattrib/src/s_string_list.c:436-472 | The attribute sort on the cells: same cells, linked, sorted, pos equal to index. |
| `StringLists.Unlink` | gattrib/src/s_string_list.c:195-240 | Taking one cell out of a linked list, at the front, in the middle, at the end and when it is the only one, leaves the others linked in order. |
| `JsonExact.ItemsSound` | gattrib/src/gattrib_json.c:133-204 | Whatever the string reader passes over is a list of characters and escapes of the grammar. |
| `JsonExact.ItemsComplete` | gattrib/src/gattrib_json.c:133-204 | The string reader reads back every printed list of characters and escapes. |
| `JsonExact.TreeSound` | gattrib/src/gattrib_json.c:273-438 | Whatever the value reader accepts prints as what it consumed, is well formed and fits the depth limit. |
| `JsonExact.TreeComplete` | gattrib/src/gattrib_json.c:273-438 | The value reader reads back every well-formed printed tree that fits the depth limit. |
| `JsonExact.ReadExactly` | gattrib/src/gattrib_json.c:273-468 | A text reads as a document if and only if the document is well formed, fits in 256 levels and prints as the text; so the grammar is unambiguous. |
| `JsonStrict.StrictAccepted` | gattrib/src/gattrib_json.c:273-468 | Every text of the strict grammar of RFC 8259 sections 2 to 7 within the depth limit is accepted. |
| `UnicodeText.Utf8Reads` | gattrib/src/gattrib_json.c:102-108 | The UTF-8 of every code point reads back, by section 3 of RFC 3629, as that code point and what follows it. |
| `UnicodeText.EscapesDecode` | gattrib/src/gattrib_json.c:160-195 | Any sequence of unicode escapes means, unit by unit and pair by pair, the code points whose UTF-16 it writes. |
| `UnicodeText.EscapesRead` | gattrib/src/gattrib_json.c:133-204 | A string literal of such escapes reads as the UTF-8 of those code points, up to the first U+0000. |
| `JsonWrite.EscapeTable` | gattrib/src/gattrib_json.c:156-165 | What each escape of one letter stands for, by section 7 of RFC 8259. |
| `JsonWrite.CharacterTables` | gattrib/src/gattrib_json.c:70-130 | Exactly which characters are escapes of one letter, blanks and hexadecimal digits. |
| `JsonWrite.NumberTable` | gattrib/src/gattrib_json.c:217-263 | Exactly which characters a number run is made of. |
| `JsonWrite.WriteRead` | gattrib/src/gattrib_json.c:273-468 | Every value of at most 256 levels, written as text without blanks, is read back as that value; of fields with one key the last remains. |
| `JsonWrite.TooDeep` | gattrib/src/gattrib_json.c:373-402 | A text that opens more than 256 arrays is not accepted, whatever follows. |
| `JsonParser.Parser.SkipWs` | gattrib/src/gattrib_json.c:70-80 | Moves the cursor over blanks only, and over all of them. |
| `JsonParser.Parser.MatchLiteral` | gattrib/src/gattrib_json.c:88-98 | Consumes a literal if the text goes on with it, and nothing otherwise. |
| `JsonParser.Parser.ParseHex4` | gattrib/src/gattrib_json.c:110-130 | Four hexadecimal digits and their value, or an error recorded. |
| `JsonParser.Parser.ParseUnicode` | gattrib/src/gattrib_json.c:160-195 | One unicode escape with its surrogate lookahead; a lookahead that fails may leave an error, but only where the text fails anyway. |
| `JsonParser.Parser.ParseString` | gattrib/src/gattrib_json.c:133-204 | Succeeds exactly on the strings of the grammar with their decoded text, and then no error is recorded; fails with one. |
| `JsonParser.Parser.ParseNumber` | gattrib/src/gattrib_json.c:217-263 | A number is the longest run of number characters that the conversion accepts whole, or NaN or an infinity. |
| `JsonParser.Parser.ParseArray` | gattrib/src/gattrib_json.c:273-309 | Agrees with the reader on arrays, cursor inside the text, depth restored. |
| `JsonParser.Parser.ParseObject` | gattrib/src/gattrib_json.c:311-370 | Agrees with the reader on objects; a later duplicate key replaces an earlier one. |
| `JsonParser.Parser.ParseValue` | gattrib/src/gattrib_json.c:372-438 | Agrees with the reader on every value, ends, consumes at least one byte on success, restores depth. |
| `JsonParser.Parse` | gattrib/src/gattrib_json.c:442-468 | Succeeds exactly on the texts of the grammar, returns their meaning, and reports an error exactly when there is no tree. |
| `JsonEscape.JsonEscape` | gattrib/src/gattrib_bom.c:382-404 | The loop appends the escaped form of every byte. |
| `JsonWrite.WriterTable` | gattrib/src/gattrib_bom.c:382-404 | How each character is written: a backslash before quote and backslash, letters for newline, carriage return and tab, four digits for other control characters, all else as it is. |
| `JsonEscape.EscapeRoundTrip` | gattrib/src/gattrib_bom.c:382-404 | The string reader on a quoted escaped text yields the text and stops just past the quote. |
| `JsonEscape.QueryVariables` | gattrib/src/gattrib_bom.c:608-614 | The request variables are the three escaped values in their places. |
| `JsonEscape.VariablesPrinted` | gattrib/src/gattrib_bom.c:608-614 | The request variables are the printed form of an object with three members. |
| `JsonEscape.VariablesRoundTrip` | gattrib/src/gattrib_bom.c:608-614 | Parsing the request variables gives back part number, country and currency. |
| `JsonEscape.QueryKeys` | gattrib/src/gattrib_bom.c:612-614 | The three keys are distinct and need no escaping, as the round trip asks. |
| `QueryRoundTrip.AskAndParse` | gattrib/src/gattrib_bom.c:608-614 | Building the request variables and parsing the text gives an object of exactly those three strings, and no error. |
| `AttribText.RemainingString` | gattrib/src/s_misc.c:106-135 | The value after the first equals sign less leading spaces, or nothing. |
| `AttribText.PairParts` | gattrib/src/s_toplevel.c:679-708 | A name and value written with an equals sign read back as that name and the value less leading spaces. |
| `AttribText.ProperParts` | gattrib/src/s_toplevel.c:679-708 | On texts the library reads as an attribute, all three ways of taking them apart agree. |
| `SaveSpec.SearchCarried` | gattrib/src/s_attrib.c:89-143 | The attached attribute is found first, and the inherited one only if there is none. |
| `SaveSpec.GetIndex` | gattrib/src/s_table.c:188-206 | The index of a title, or -1 exactly when it is missing. |
| `SaveProofs.StepCarried` | gattrib/src/s_toplevel.c:751-807 | One of the four cases settles the name it is for and leaves every other name as it was. |
| `SaveProofs.PairsIndex` | gattrib/src/s_table.c:225-258 | Every pair comes from one column with a value. |
| `SaveProofs.PairsAt` | gattrib/src/s_table.c:225-258 | Every column with a value has its pair, in column order. |
| `SaveProofs.CompleteWf` | gattrib/src/s_toplevel.c:639-683 | The union of the two lists holds each name once and no reserved one. |
| `SaveProofs.CompleteHas` | gattrib/src/s_toplevel.c:639-683 | Every old attribute the row does not mention has an entry. |
| `SaveExact.RefdesAt` | gattrib/src/s_toplevel.c:737-742 | During a save only the numslots attribute can change the name the component is looked up under. |
| `SaveExact.EntryCarried` | gattrib/src/s_toplevel.c:692-812 | What the component carries in the end under the name of an entry. |
| `SaveExact.NoEntry` | gattrib/src/s_toplevel.c:639-812 | A name without an entry is neither carried nor asked for afterwards. |
| `SaveExact.SaveExactly` | gattrib/src/s_toplevel.c:612-815 | Afterwards the component carries exactly what its row says if and only if no filled column right of a numslots cell is looked up under another name and displayed differently there; refdes, net and slot are untouched. |
| `SavedTexts.SpacesSkipped` | gattrib/src/s_misc.c:106-135 | Any number of spaces in front of a text is skipped, and nothing else. |
| `SavedTexts.IndentedValue` | gattrib/src/s_misc.c:106-135 | A value is read without the spaces in front of it; spaces alone are no value. |
| `SavedTexts.IndentedCell` | gattrib/src/s_toplevel.c:692-812 | A cell of spaces and a value leaves name=value without the spaces, displayed as the cell says, wherever saving works for the row; spaces alone leave no attribute. |
| `SavedTexts.SlottedName` | gattrib/src/s_attrib.c:89-143 | A component with refdes, slot and numslots attached is looked up as refdes.slot. |
| `SavedTexts.PlainName` | gattrib/src/s_attrib.c:89-143 | Without numslots, or without a slot, it is looked up under its refdes. |
| `SavedTexts.Nameless` | gattrib/src/s_attrib.c:89-143 | It has no row name if and only if no attached or inherited text reads as a refdes. |
| `SavedTexts.ReservedNames` | gattrib/src/s_toplevel.c:655-671 | Exactly refdes, net and slot are kept out of the table. |
| `SaveTwice.SaveResult` | gattrib/src/s_toplevel.c:612-815 | What a save leaves, column by column, in all cases. |
| `SaveTwice.SaveFixed` | gattrib/src/s_toplevel.c:612-815 | Saving changes nothing, order included, if and only if the component already carries what its row says. |
| `SaveTwice.SavedRefdes` | gattrib/src/s_toplevel.c:612-815 | The row name a saved component has. |
| `SaveTwice.SaveUnlisted` | gattrib/src/s_toplevel.c:422-439 | A component whose name has no row loses every attribute that is not reserved; nothing changes exactly when it had none. |
| `SaveTwice.SaveTwiceExactly` | gattrib/src/s_toplevel.c:612-815 | Saving twice equals saving once if and only if the row of the resulting name asks for what the first save left. |
| `SaveTwice.SaveTwiceUsually` | gattrib/src/s_toplevel.c:612-815 | So it does whenever numslots does not change the row name. |
| `SaveTwice.SaveCanFail` | gattrib/src/s_toplevel.c:737-748 | A concrete row for which saving does not give the row, and saving twice is not saving once. |
| `SaveInert.RefdesStays` | gattrib/src/s_toplevel.c:737-742 | No entry takes the refdes away from a component, whatever texts are attached to it. |
| `SaveInert.SaveSame` | gattrib/src/s_toplevel.c:612-815 | On attributes of distinct names the loop over any texts is the save of the theorems above. |
| `SaveInert.SaveAround` | gattrib/src/s_toplevel.c:612-815 | Attached texts that the library does not read as attributes, of names nothing else has, stay as they are, and the attributes end up as if they were not there. |
| `SheetLoad.FromAttribsCarried` | gattrib/src/s_table.c:301-364 | After loading, a cell holds the component's attribute of that name, if it has one. |
| `SheetLoad.LoadSaveIdentity` | gattrib/src/s_table.c:272-375 | For lists of titles that cover a component: what is loaded from it and saved unedited is what it had, in text, visibility and display. |
| `SheetSave.Component.ReplaceAttrib` | gattrib/src/s_object.c:155-205 | Rewrites the first attribute of that name in place. |
| `SheetSave.Component.RemoveAttrib` | gattrib/src/s_object.c:220-262 | Removes the first attribute of that name and no other. |
| `SheetSave.Component.AddAttrib` | gattrib/src/s_object.c:78-97 | Appends an attribute unless its value is empty. |
| `SheetSave.Component.CompleteList` | gattrib/src/s_toplevel.c:639-683 | The loop builds the union of the row's pairs and the old attributes. |
| `SheetSave.Component.HandleEntry` | gattrib/src/s_toplevel.c:692-811 | One turn of the main loop is one step of the specification, on any attached texts, and never meets the missing attribute that ends the program. |
| `SheetSave.Component.Update` | gattrib/src/s_toplevel.c:612-815 | The main loop is the specification's run over all entries, on any attached texts; the refdes is never lost on the way. |
| `SheetSave.ListsName` | gattrib/src/s_attrib.c:56-76 | Whether a list of pairs mentions a name. |
| `SheetSave.SheetData.AddAttribs` | gattrib/src/s_table.c:294-370 | Reading one component's attributes changes the cells of its row and no other. |
| `SheetSave.SheetData.AddComponents` | gattrib/src/s_table.c:272-375 | After the loop every cell holds what the components put there. |
| `SheetSave.SheetData.ShowTable` | gattrib/src/x_window.c:477-491 | The view shows the values of the table, and nothing where there is none. |
| `SheetSave.SheetData.ReadView` | gattrib/src/s_table.c:674-758 | Values and titles come from the view, display settings stay; an empty text is no value. |
| `SheetSave.SheetData.CreateAttribPair` | gattrib/src/s_table.c:225-258 | The pairs of a row, or none for an unknown row. |
| `SheetSave.SheetData.SaveComponents` | gattrib/src/s_toplevel.c:384-445 | Every component ends as the specification of saving says, whatever texts are attached, the others unaffected. |
| `SheetSave.Load` | gattrib/src/s_table.c:272-375 | Loading, showing and reading back fills the sheet of the load specification. |
| `MasterLists.MasterRows` | gattrib/src/s_sheet_data.c:105-150 | The row list holds, sorted by natural order, the name of each component that has attributes attached, once. |
| `MasterLists.MasterColumns` | gattrib/src/s_sheet_data.c:165-215 | The column list holds, sorted with the usual names first, the name of each attached attribute that is not reserved, once. |
| `MasterLists.MasterTitles` | gattrib/src/s_sheet_data.c:105-215 | Sorted lists built this way are fit to be titles: nothing twice, nothing reserved, every attribute and every row name covered, and no name but those. |
| `MasterLists.LoadDesign` | gattrib/src/x_fileselect.c:121-190 | Building and sorting both lists, filling the table and reading the sheet back gives the sheet of the load specification. |
| `MasterLists.DesignIdentity` | gattrib/src/s_toplevel.c:131-162 | Saving the sheet loaded from a design changes no component: not one with a row, not one without attached attributes whose symbol brings a name along, not one without a name. |
| `MasterLists.LoadAndSave` | gattrib/src/s_toplevel.c:131-162 | The whole cycle on objects, from the components through master lists, table and sheet and back, leaves every component as it was. |
| `EditCell.EditDesign` | gattrib/src/s_toplevel.c:384-815 | Editing one cell of a loaded design, of any column but numslots, and saving: the component of that row has the new text under that name, displayed as before or, if new, visible with its value only, and all else as it was; no other component changes. |
| `BodyText.NormalizeBody` | gedai/refactor/oracle.py:139-146 | The loops compute the lines less trailing space without blank ends. |
| `GapText.NormalizeGaps` | gedai/refactor/oracle.py:139-146 | Normalising acts on the gaps between characters alone: no character changes, the first gap keeps one indentation, the last goes. |
| `MacroArgs.SplitArgs` | gedai/refactor/oracle.py:40-80 | The loop is the splitter of the specification, with the position after the closing parenthesis. |
| `MacroArgs.ArgsExactly` | gedai/refactor/oracle.py:40-80 | The splitter yields these arguments and this rest if and only if the text is a comma-joined list of balanced arguments, closed, and followed by the rest. |
| `BraceBody.Extract` | gedai/refactor/oracle.py:83-136 | The flag-driven loop is the scanner of the specification. |
| `BraceBody.ScanBalanced` | gedai/refactor/oracle.py:83-136 | From the start of code balanced outside literals and comments the scanner reaches its closing brace. |
| `BraceBody.Passed` | gedai/refactor/oracle.py:83-136 | Whatever the scanner passes over is such code. |
| `BraceBody.BodyExactly` | gedai/refactor/oracle.py:83-136 | A text gives this body and this rest if and only if the body is balanced code, then a brace, then the rest. |
| `OracleBlock.ReadBlock` | gedai/refactor/oracle.py:223-233 | One turn of parse, on a text and a position. |
| `OracleBlock.BlockRoundTrip` | gedai/refactor/oracle.py:223-237 | A printed block reads back: stripped arguments, normalised body, rest untouched. |
| `VoidCalls.SubText` | gedai/refactor/generate.py:103-114 | The substitution over text is the substitution over characters and gaps. |
| `VoidProofs.RewriteTwice` | gedai/refactor/generate.py:103-123 | The void-call rewrite is idempotent on every text. |
| `VoidProofs.NormalizeTwice` | gedai/refactor/oracle.py:139-146 | Normalising is idempotent. |
| `VoidProofs.RewriteNormal` | gedai/refactor/generate.py:103-123 | Normalising before the rewrite makes no difference after it. |
| `VoidProofs.RewriteStaysNormal` | gedai/refactor/generate.py:103-123 | The rewrite of a normal text is normal. |
| `VoidProofs.AcceptedBody` | gedai/refactor/units.py:200-226 | A reply whose body matches the oracle's is, rewritten and normalised, the oracle's body as rendered. |
| `SolidText.SolidNormalize` | gedai/refactor/oracle.py:139-146 | Normalising changes nothing but space: the other characters stay, in order. |
| `Generator.GroupSections` | gedai/refactor/generate.py:158-168 | Grouping with a dictionary and an order list is grouping by section in order of first appearance. |
| `GeneratorProofs.SectionsComplete` | gedai/refactor/generate.py:158-168 | Grouping loses no entry and repeats none. |
| `Generator.RenderSource` | gedai/refactor/generate.py:200-265 | The appended lines are those of the source specification. |
| `RowText.RowReads` | gedai/refactor/generate.py:126-155 | Cutting a rendered row at its top-level commas gives id, icon, name, label, menu label, tooltip, type, callback and pointer, each the stripped argument, marked for translation where it was translated. |
| `RowText.MacroToRow` | gedai/refactor/oracle.py:205-237 | From a printed macro of eight arguments through the oracle reader, the inventory and the row, every argument is in its place. |
| `RowText.MacroRefused` | gedai/refactor/oracle.py:223-234 | A macro with another number of arguments, or with anything but blanks between its arguments and its body, is refused. |
| `Generator.RenderHeader` | gedai/refactor/generate.py:171-197 | The appended lines are those of the header specification. |
| `GeneratorProofs.HeaderCounts` | gedai/refactor/generate.py:171-197 | The header has one extern and one declaration an entry beside those its free text holds. |
| `GeneratorProofs.HeaderNames` | gedai/refactor/validators.py:70-116 | With free text that declares nothing, the rendered header declares each entry once and names nothing else. |
| `Validators.ArityNone` | gedai/refactor/validators.py:70-116 | The arity check is content exactly when every list names each wanted cid once and nothing else. |
| `Validators.CheckBodies` | gedai/refactor/validators.py:130-151 | The loop reports the problems of each entry in order. |
| `ValidatorProofs.OwnFound` | gedai/refactor/validators.py:26-56 | With foreign callbacks and their look-alikes anywhere in the file, filtering leaves exactly the known definitions, in order, each with its body up to where that ends. |
| `ChecksAgree.BodyCheck` | gedai/refactor/validators.py:119-151 | A rendered body reads back as expected if and only if something is left of it and no line of it is a lone closing brace. |
| `ChecksAgree.BodiesExactly` | gedai/refactor/validators.py:130-151 | On a file that shows the inventory among foreign definitions, none of its free text naming one of ours, the body check is content if and only if every body renders and no line of one starts another definition. |
| `RenderedChecks.RowsContent` | gedai/refactor/validators.py:154-169 | Every row is found in the rendered file, also when foreign callbacks stand among ours. |
| `RenderedChecks.ArityExactly` | gedai/refactor/validators.py:70-116 | The arity check is content with a rendered file and header, foreign callbacks in it or not, if and only if the free text holds no row mark, no definition of one of ours and, in the header, no declaration. |
| `RenderedChecks.MixedExactly` | gedai/refactor/validators.py:59-169 | The checks together report nothing about such a file if and only if its free text is clean in that sense and every body reads back. |
| `RenderedChecks.RenderedExactly` | gedai/refactor/validators.py:59-169 | For every inventory: the checks report nothing about the rendered pair if and only if the free text is clean and every body reads back; the row check never reports anything. |
| `Units.ApplyBody` | gedai/refactor/units.py:114-140 | Regenerate, locate, replace, and write only on a difference. |
| `Units.SpliceExactly` | gedai/refactor/units.py:114-140 | In any file in which no earlier line starts a definition of that name, an accepted reply is located and changes nothing exactly when the entry splices. |
| `Units.ApplyExactly` | gedai/refactor/units.py:114-140 | On the rendered file an accepted reply to the first definition of its name is located, and leaves the file alone if and only if something is left of the body and no line after its first is a lone closing brace. |
| `Units.FreeFirst` | gedai/refactor/units.py:114-140 | Each definition is the first of its name whenever no free text names a callback of the inventory. |
| `LoneBrace.LoneBraceFails` | gedai/refactor/units.py:114-140 | A concrete inventory whose body has a lone closing brace: the body check reports it, and an accepted reply changes the file. |
| `RefactorRun.Workspace.Splice` | gedai/refactor/units.py:159-169 | The checks are made on the file on disk; if they fail the staged copy comes back. |
| `RefactorRun.Workspace.CommitUnit` | gedai/refactor/units.py:143-189 | The record and the file are the verdict of the turn: complete only with the callback located and the checks passed on disk; working, staged and committed copies agree afterwards. |
| `RefactorRun.Workspace.ProcessUnit` | gedai/refactor/__main__.py:141-182 | The unit completes if and only if the reply has the oracle's body and row, the compile step succeeded, the callback was located, and the checks report nothing about the file with the reply in it; the file changes only then; a reply that differs is noted first. |
| `RefactorRun.Workspace.TakeTurn` | gedai/refactor/__main__.py:134-187 | A late or unreachable turn ends the run and changes nothing; any other writes its records and is counted when it completes. |
| `RefactorRun.Workspace.Run` | gedai/refactor/__main__.py:109-192 | Over every run: the journal grows by exactly the records of the turns taken and the file is what they leave; the three copies agree at the end, each completing record was written over a file that passes its checks, and no action is completed twice. |
| `RefactorRun.TodoIn` | gedai/refactor/__main__.py:113-122 | The actions taken on are distinct and, when resuming, not complete. |
| `RunStory.TodoExactly` | gedai/refactor/__main__.py:113-122 | A run takes on, in order and as many as it may, the actions that are asked for and that no record keeps a resumed run from. |
| `RunStory.RunDecides` | gedai/refactor/__main__.py:134-192 | Every action dealt with before the stop has exactly one deciding record, which completes it if and only if it deserves that, by a commit if and only if the file changes. |
| `RunStory.OthersUndecided` | gedai/refactor/__main__.py:134-192 | No other action is decided. |
| `RunStory.WantedAgain` | gedai/refactor/journal.py:53-75 | After a run, an action that was dealt with is taken up by the next resumed run if and only if it did not complete and was not rejected for its output, or rejected ones are retried. |
| `RunStory.SplicingCompletes` | gedai/refactor/units.py:143-226 | With an inventory whose bodies all splice, a unit completes if and only if the reply is the oracle's body up to the rewrite and trailing space, with its row, the compile step succeeds, and the checks already pass on disk. |
| `RefactorRun.ResumeFresh` | gedai/refactor/journal.py:53-62 | A resumed run writes nothing about an action that is already complete. |
| `RefactorRun.OnceAlways` | gedai/refactor/journal.py:53-75 | After any journal, a resumed run completes nothing that was complete, and nothing twice. |
| `RefactorRun.RunSessions` | gedai/refactor/__main__.py:109-192 | Over any sequence of resumed runs no action is completed twice, and each completing record was written over a file that passes its checks. |
| `RefactorRun.SplicesNeverWrite` | gedai/refactor/units.py:114-140 | If all bodies splice and each definition is the first of its name, no accepted reply changes the regenerated file. |
| `RefactorRun.RunActions` | gedai/refactor/__main__.py:109-192 | With such an inventory no run changes the file or commits anything, whatever the model replies. |
| `Viewlogic.Converter.BeginAttach` | contrib/gmk_sym/convert_sym.c:1989-1997 | The opening brace is written once, for a pending attachment. |
| `Viewlogic.Converter.ResetAttributes` | contrib/gmk_sym/convert_sym.c:2005-2025 | Braces are closed exactly if they were opened, and every flag is cleared. |
| `Viewlogic.Converter.AttachTexts` | contrib/gmk_sym/convert_sym.c:734-878 | Attributes and labels go inside the braces of the object that takes them, or stand alone. |
| `Viewlogic.Converter.Start` | contrib/gmk_sym/convert_sym.c:1118-1124 | A pin, net, bus or component begins a new object that takes attributes. |
| `Viewlogic.Converter.HandleLabel` | contrib/gmk_sym/convert_sym.c:1338-1378 | A label gets the prefix for the object the flags stand for. |
| `Viewlogic.Converter.Handle` | contrib/gmk_sym/convert_sym.c:436-526 | Each record takes the flags and the output from one drawing to the next. |
| `Viewlogic.Converter.Convert` | contrib/gmk_sym/convert_sym.c:419-535 | For every stream converted to the end the output is the printed list of objects, each with its own attributes. |
| `Viewlogic.ConvertedWellFormed` | contrib/gmk_sym/convert_sym.c:419-535 | So every opening brace follows a P, N, U or C entry, only T entries stand before its closing brace, and the other way round. |
| `ViewlogicText.Shapes` | contrib/gmk_sym/convert_sym.c:884-1290 | Which entries the records of graphics and text add after any stream. |
| `ViewlogicText.Objects` | contrib/gmk_sym/convert_sym.c:1288-1592 | Which entry each object becomes, and that a label after it stands in its braces as netname, refdes or pinlabel. |
| `ViewlogicText.NamesDropped` | contrib/gmk_sym/convert_sym.c:262-275 | An attribute is dropped exactly if its name is LEVEL, NAME or LABEL, with a value or without. |
| `ViewlogicText.PinAttributes` | contrib/gmk_sym/convert_sym.c:735-862 | On a pin a type becomes one text and a number two; elsewhere they are attributes like others. |
| `ViewlogicText.Visibility` | contrib/gmk_sym/convert_sym.c:624-660 | Only the visibility codes 0 to 3 lead to texts: of an attached attribute to the last object, by the rules for pins right after a pin, of an unattached one alone. |
| `CsvExport.WriteRow` | gattrib/src/f_export.c:109-169 | The loop writes refdes and fields with their separators and a newline. |
| `CsvExport.Punctuation` | gattrib/src/f_export.c:113-160 | The characters that separate, quote and end. |
| `CsvExport.EscapeTable` | gattrib/src/f_export.c:124-126 | How each character of a value is written: eight by letters, the printable ones as they are, the rest in three octal digits. |
| `CsvExport.UnescapeEscape` | gattrib/src/f_export.c:124-132 | Undoing the escaping gives back every text. |
| `CsvExport.LastField` | gattrib/src/f_export.c:109-169 | The last field of a row is determined by the row. |
| `CsvExport.CellsRead` | gattrib/src/f_export.c:121-167 | Splitting the cells at unquoted commas, taking the quotes off and undoing the escaping recovers every cell. |
| `CsvExport.ReadsExactly` | gattrib/src/f_export.c:109-169 | Reading a row from its start recovers refdes and every cell if and only if the refdes, which is written without escaping or quotes, has no comma. |
| `CsvExport.CommaFails` | gattrib/src/f_export.c:109-119 | A concrete refdes with a comma: what is read is another refdes and a cell too many. |
| `CsvExport.WriteTable` | gattrib/src/f_export.c:99-169 | The loop writes the rows one after the other. |
| `CsvExport.TableExactly` | gattrib/src/f_export.c:99-169 | Splitting a table at newlines and reading each row recovers every row if and only if no refdes has a comma or a newline. |
| `CsvExport.RowsDistinct` | gattrib/src/f_export.c:109-169 | Two rows of the same width are the same text if and only if refdes and cells are the same, a missing cell read as empty, whatever the refdes holds. |
| `Overbar.Parse` | libgedacairo/edapangorenderer.c:373-446 | The pointer loop gives the letters and the marked stretches of the markup's tokens. |
| `Overbar.MeaningOrdered` | libgedacairo/edapangorenderer.c:373-446 | Output no longer than input; closed ranges ordered, disjoint, inside it and before an unclosed one. |
| `Overbar.TokensPrint` | libgedacairo/edapangorenderer.c:399-424 | Every token sequence can be written and is read back as it was. |
| `Overbar.PlainRoundTrip` | libgedacairo/edapangorenderer.c:373-446 | Escaping a plain text and parsing it gives that text and marks nothing. |
| `Overbar.BarRoundTrip` | libgedacairo/edapangorenderer.c:399-440 | Text between two delimiters is marked, exactly. |
| `RendererContexts.Renderer.ReplaceCairo` | libgedacairo/edarenderer.c:407-429 | A new Cairo context releases the old one and what depends on it, in the source's order, without touching anything released. |
| `RendererContexts.Renderer.Recreate` | libgedacairo/edarenderer.c:445-461 | Whatever is missing is made anew, for the current contexts. |
| `RendererContexts.Renderer.UpdateContexts` | libgedacairo/edarenderer.c:393-462 | Any update, also with the renderer's own contexts: layout and text renderer belong to the current contexts, nothing held has been released, and nobody else's reference count changes. |
| `RendererContexts.Renderer.Dispose` | libgedacairo/edarenderer.c:277-318 | Afterwards every object is counted exactly by the references of others: all references are returned. |
| `RendererContexts.Renderer.Drive` | libgedacairo/edarenderer.c:393-462 | Over any sequence of updates and of what callers do (create contexts, take and drop references) nothing held has been released, and layout and text renderer belong to the current contexts. |
| `RendererContexts.Lifetime` | libgedacairo/edarenderer.c:277-462 | From creation over any such sequence to disposal: in the end every reference count is what the callers hold. |
| `PageLayout.ScaleFits` | gaf/export.c:430-431 | The scaled drawing is no larger than the drawable area, and as large in one direction. |
| `PageLayout.InsideExactly` | gaf/export.c:424-441 | Every point of the drawing lands in the drawable area if and only if the margins leave it a size that is not negative. |
| `PageLayout.AlignedEnds` | gaf/export.c:420-441 | With the alignment at one end the drawing touches the margin on that side: left or right, top or bottom. |
| `PageLayout.ClampedAlignment` | gaf/export.c:433-435 | An alignment outside 0 to 1 counts as the nearer end. |
| `PageLayout.WideMargins` | gaf/export.c:424-441 | On a page narrower than its margins a corner of the drawing lies outside, however it is aligned. |
| `PageLayout.LayOut` | gaf/export.c:424-441 | The computed matrix is such a placement, for every alignment, and every point of the drawing keeps clear of the four margins of the page if and only if they fit on it. |

## Left out

- Circular lists in `listsort`: every caller uses the linear, doubly linked mode.
- Integer width in the sort: digit runs and position differences are unbounded here, while the source uses `int`
  and `atoi`; a character past the terminator is not read but recorded.
- Releasing memory: cells and strings are not freed; a deleted cell is only unlinked.
- Duplicating a string list and testing membership in one: copies of the search loop.
- JsonParser.Parse: the number conversion is a parameter that says which runs of characters it takes whole; a
  number's value is its text. A caller that passes no error location is not modelled.
- JsonEscape.JsonEscape: takes texts without a NUL, as C strings are.
- The deprecated `uref` attribute, which the source falls back to when there is no refdes.
- The components of a design are one sequence, those of all its files; pages below the top level are left out. Titles
  are sequences once the master lists are built; a missing title in a fresh cell reads as the empty text. An
  empty row or column list reads as holding nothing, while the source compares a name with the missing text of its
  only cell.
- Attribute lists in the save path are sequences of texts with display settings; positions, colours and objects that
  are not texts are not modelled.
- SaveExact.SaveExactly: asks that attached attributes have distinct names and are texts that the library reads as
  attributes; `SaveAround` reduces texts that it does not read to that case. With two attributes of one name only the
  first is looked up, and nothing is said beyond the loop itself.
- MasterLists.LoadAndSave: asks the same of the attached attributes, and that no two components have one row name: the
  source fills their row from both and saves it to both.
- Adding and deleting attribute columns, pin and net sheets, renaming.
- The fixed texts of the generated files (licence, notes, registration function) are parameters; the theorems say what
  they must not hold.
- Files in the refactor model are lists of lines that all end in a newline.
- VoidCalls.SubText: which characters outside ASCII are letters or digits is a parameter of every function that needs
  it.
- OracleBlock.ReadBlock: the section and comment lookup of the same turn is left out; it only reads what stands before.
- Comparing the model's table row is one truth value of the reply; digests, message wording, token counts and clocks
  are not modelled.
- RefactorRun.Workspace.Run: git and make do what they are asked or report failure of the compile step; a failing git
  command ends the program and is not a turn. The compile step comes before the file is written, so nothing is said
  about whether committed text compiles.
- Validators.CheckBodies: the variant without an inventory, the include-guard check and the search for retired
  constructs are not modelled.
- Viewlogic.Converter.Convert: coordinates, colours, styles and the contents of text entries other than
  the prefixes of labels and pin attributes are left out; a record
  that cannot be read ends the program in the source and has no place in a stream converted to the end.
- CsvExport.WriteRow: needs at least one attribute column, because with none the source reads past the table's rows;
  the header line is not modelled.
- Overbar.Parse: takes texts up to their only NUL. The end of a stretch that is never closed, which the source computes
  from a null pointer, is no end here.
- RendererContexts.Renderer.UpdateContexts: fonts, colours and drawing are left out; layouts and text renderers are
  taken to be known to the renderer alone.
- PageLayout.LayOut: exact numbers instead of floating point, and a drawing with a positive width and height; the
  choice of paper and orientation is a parameter.
