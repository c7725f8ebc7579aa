# A Dafny model of ccq

ccq answers questions about C projects by asking clangd over LSP and by scanning the text
itself. This project models the parts of it that carry state or a hand-written algorithm,
in Dafny 4.11, and proves what each of them is for.

* **Text edits** (`internal/cmd/edit.go`). An edit list is sorted bottom-up and applied to
  an array of lines in place. The specification is independent of that: `Edits.Render`
  substitutes all ranges at once in the flat text, as LSP 3.17 describes (section
  "TextEdit[]"). `EditEngine` holds the methods, `Edits` and `EditOrder` the theory,
  `EditTies` what happens to edits that share a start, `EditClamps` to positions past the
  end of a line, `EditOverruns` to both at once, `EditBounds` to lines past the end of the
  file.
* **Function-pointer index and queries** (`internal/fnptr/fnptr.go`). Struct layouts,
  registrations from initializer rows and assignments, three passes of field<-field
  propagation, the override table, and the two queries `Callers` and `Callees`, from the
  single item of an initializer to both queries: `InitRows`, `InitTables`, `Asking`,
  `Propagation`, `FnPtrIndex`, `FnPtrQueries`, with the byte-level scanners in `Brackets`,
  `Splitter`, `DispatchSites` and `WholeText`.
* **Graph searches** (`Impact` in `internal/cmd/run.go`, `buildNeighborhood` in
  `internal/cmd/export.go`): depth-bounded searches of an arbitrary call relation, proved
  against shortest walks (`Reach`, `Impact`, `Neighborhood`).
* **The LSP client** (`internal/lsp/client.go`): request matching as a state machine with
  any number of senders and a server that may send anything (`Requests`), framing
  (`Framing`, `Decimals`), document versions and the caches (`Documents`), index readiness
  (`Readiness`).
* **Preprocessor-blind lexers and the definition index** (`internal/csrc/csrc.go`,
  `internal/cindex/cindex.go`): `Strip`, what the lexers leave of a text as C reads it,
  `Comments`, `DefIndex`, what that means for comments in the indexed files,
  `IndexedCode`, and what an edit leaves stale, `Staleness`; and two line scanners of
  `internal/cmd/run.go` in `Definitions`.

`Text` and `Rearrangement` are shared vocabulary: lines and joined text, rearrangements of
lists.

Code that updates state is modelled as methods and classes over that state, each proved
against a specification function or predicate; the lemmas say what the specification
means. A byte is a `char`. A regular expression is a function-valued parameter that says
what the expression captures, so every result holds for any expression, within the
assumptions stated as preconditions (a capture is shorter than what it was taken from, a
name captured by `\w+` has no `|`, `.` or `>`). clangd is a relation or a source of
arbitrary messages, the disk a map from path to text, and time a number. Where Go leaves
an order open (map iteration, an unstable sort) so does the model, and the results hold
for every order.

What the code does not do is stated too, as a condition that is necessary and sufficient,
with an input that shows it:

* edits that share a start, in any form LSP allows (`EditTies.LSPExactlyWhen`);
* positions past the end of a line, for one edit (`EditClamps.ClampsExactlyWhen`), for edits
  applied in a given order (`EditClamps.ClampsAllExactlyWhen`) and for an edit list and every
  order the sort may leave it in (`EditOverruns.OverrunsMeanLSPExactlyWhen`);
* edits on lines past the end of the file, which change nothing unless a range runs
  backwards (`EditEngine.OnlyTheFileCounts`, `EditBounds.LinesGrowExactlyWhen`);
* initializer items read for another field than C has them initialize: behind an aggregate
  whose braces are elided (`InitRows.InStepExactlyWhen`, `InitRows.ItemInPlaceExactlyWhen`),
  behind a declaration of several members (`InitRows.PositionsAreMembersExactlyWhen`), and
  in table rows of a single item (`InitTables.RowFollowsCExactlyWhen`,
  `InitTables.TableFollowsCExactlyWhen`);
* block comments over several lines in a text stripped line by line
  (`WholeText.TextIsWholeExactlyWhen`);
* propagation that needs more than three passes (`Propagation.PassesCloseExactlyWhen`);
* callers lost to the fan-out cap (`FnPtrQueries.InverseExactlyWhen`);
* edges lost to a key that two edges share (`Neighborhood.NothingLostExactlyWhen`);
* server requests taken for answers (`Requests.AnswersAreResponsesExactlyWhen`);
* an index that looks ready before it is (`Readiness.EndedWrongExactlyWhen`);
* a stale definition index (`Staleness.DefinitionsFreshExactlyWhen`,
  `Staleness.NewlinesMakeStaleExactlyWhen`);
* the line a definition is said to end on, without a brace on its own line
  (`Definitions.SpansItsLineExactlyWhen`), with a body (`Definitions.ClosedAfterExactly`,
  `Definitions.EndsOnClosingLine`) and with one that is not closed
  (`Definitions.UnclosedRunsOn`).

To check everything: `dafny verify dfyconfig.toml`.

## Model

| member | source | states |
|---|---|---|
| EditOrder.DistinctStartsMeanLSP | internal/cmd/edit.go:50-100 | valid, pairwise non-overlapping edits with distinct starts, in any input order and for any outcome of the sort, turn the lines into the simultaneous substitution of all ranges in the joined text |
| EditOrder.CommutingTiesMeanLSP | internal/cmd/edit.go:50-100 | the same when edits that share a start are insertions whose texts commute |
| EditTies.LSPExactlyWhen | internal/cmd/edit.go:50-100 | for every edit list LSP allows (valid, pairwise non-overlapping, at each start any number of insertions and after them at most one replacement) the result is LSP's for every outcome of the unstable sort if and only if insertions at one position commute and no replacement swallows the text inserted at its start |
| EditTies.SurvivingTiesMeanLSP | internal/cmd/edit.go:50-100 | under that condition each single outcome of the sort turns the lines into the simultaneous substitution |
| EditTies.LSPExactlyWhenTiesCommute | internal/cmd/edit.go:59-64 | where only insertions share a start, the result is LSP's for every outcome if and only if their texts commute |
| EditTies.LatestFirstMeansLSP | internal/cmd/edit.go:58-68 | one outcome of the sort is always right: ties in the reverse of list order, for every edit list LSP allows |
| EditTies.OrdersAgreeExactlyWhen | internal/cmd/edit.go:76-100 | an insertion and a replacement at one start, applied in either order, give the same lines if and only if the replacement swallows nothing: on one line `r + (i + o)[len(o):] == i + r` for the replaced text o, across lines only an empty insertion |
| EditTies.InsertionsMerge | internal/cmd/edit.go:65-68 | insertions at one position, applied one by one, are a single insertion of their texts, last applied first |
| EditTies.PartSurvives | internal/cmd/edit.go:65-68 | if a replacement swallows nothing of all the commuting texts inserted at its start, it swallows nothing of any part of them, so the order of the sort does not matter |
| EditClamps.ClampsExactlyWhen | internal/cmd/edit.go:82-94 | a range past the end of its line is treated like the clamped one of LSP unless it lies within one line, and there only if it changes nothing |
| EditClamps.AcrossLinesExactlyWhen | internal/cmd/edit.go:87-99 | on lines already edited further down, an edit across lines never leaves more text than its clamped form, and does the same as it if and only if it ends within its line or nothing stands behind that line |
| EditClamps.WithinLineExactlyWhen | internal/cmd/edit.go:82-86 | the same for a range within one line: it must be ignored and change nothing, or insert a text that commutes with what it passes |
| EditClamps.AfterIsRest | internal/cmd/edit.go:65-68 | what stands behind a position on its line after bottom-up edits, read off the edits |
| EditClamps.NothingBehindExactlyWhen | internal/cmd/edit.go:65-68 | where only insertions start at the end of a line, nothing is left behind it if and only if all of them are empty |
| EditClamps.HarmlessMeansClamped | internal/cmd/edit.go:65-100 | a list of edits does what its clamped form does if no overrun reaches into text put behind its line |
| EditClamps.ClampsAllExactlyWhen | internal/cmd/edit.go:65-100 | for lists whose overruns span lines: the text is that of the clamped list if and only if no overrun ends on a line behind which text has been put |
| EditOverruns.OverrunsMeanLSPExactlyWhen | internal/cmd/edit.go:50-100 | for every edit list LSP allows once positions are defaulted, whose overruns span lines: the result is LSP's for every outcome of the unstable sort if and only if insertions at one position commute, no replacement that starts within its line swallows what is inserted at its start, and the edits leave no text between the end of an overrun line and its break |
| EditOverruns.OrdersDoTheSame | internal/cmd/edit.go:58-100 | where insertions commute and nothing is swallowed, any two orders the sort may leave rewrite the lines alike, overruns or not |
| EditOverruns.LatestFirstExactlyWhen | internal/cmd/edit.go:58-100 | with ties in the reverse of list order the text is LSP's if and only if nothing is left behind an overrun line |
| EditOverruns.OverrunsLose | internal/cmd/edit.go:87-99 | on lines already edited further down, bottom-up edits whose overruns span lines never leave more text than their clamped forms, and as much only if they leave the same lines |
| EditOverruns.BottomUpMustMean | internal/cmd/edit.go:58-100 | if every outcome of the sort means what LSP says, so does every bottom-up order of the clamped edits |
| EditClamps.OverrunExactlyWhen | internal/cmd/edit.go:90-94 | after an insertion at the end of a line, an edit across lines that overruns the line does what its clamped form does if and only if the insertion is empty |
| EditClamps.OverrunsCancel | internal/cmd/edit.go:82-94 | a list with an overrun within a line whose two wrong edits cancel out, so that the condition does not extend to such lists |
| EditTies.TieWithReplacement | internal/cmd/edit.go:59-64 | the witness: an insertion and a replacement at one start, and the two results that two outcomes of the sort give |
| EditClamps.ClampReachesInsertedText | internal/cmd/edit.go:90-94 | the witness: a deletion across lines whose end lies past its line swallows an insertion at that line's end |
| EditOrder.SwapVisible | internal/cmd/edit.go:59-68 | if swapping two insertions at one position leaves the rendering as it was, their texts commute |
| Edits.AppliedIsSubstitution | internal/cmd/edit.go:76-100 | one edit on a valid range, single- or multi-line, is one substitution in the joined text |
| Edits.StepKeepsAgreement | internal/cmd/edit.go:65-68 | an edit that ends at or before position p leaves everything up to its own start as in the original, and changes the joined text only in its range |
| Edits.BottomUpRenders | internal/cmd/edit.go:65-68 | applying edits in bottom-up order is the simultaneous substitution, ties taking effect in the reverse of the order of application |
| Edits.EverySortOutcomeRenders | internal/cmd/edit.go:58-68 | whatever order the sort leaves ties in, the result is the rendering of the edits in the reverse of that order |
| Edits.OffsetMonotone | internal/cmd/edit.go:59-64 | (line, character) order is the order of offsets in the joined text, and positions are equal exactly when offsets are |
| Edits.UnsignedNeverPanics | internal/cmd/edit.go:76-100 | with unsigned positions applyOne never slices out of range |
| EditEngine.ApplyOne | internal/cmd/edit.go:76-100 | in place for one line, a new array for several: a negative start line, a start or end line past the end of the file, or a column past the end of the line of a range within it leaves the lines as they were; a valid range is one substitution in the joined text |
| EditEngine.SortBottomUp | internal/cmd/edit.go:58-64 | the slice is permuted in place into descending order of start, ties in any order |
| EditEngine.ApplyToText | internal/cmd/edit.go:57-69 | one file: split, sort, apply each edit in turn to the mutating array, join |
| EditEngine.ApplyEdits | internal/cmd/edit.go:50-74 | all files in any order: which files are rewritten, that no other changes, the count, and that it succeeds exactly when every file is readable and writable; on an error, which files were done and what was counted |
| EditEngine.CountEdits | internal/cmd/edit.go:41-47 | the number of edits over all files, for any iteration order |
| EditEngine.WrittenIsMeaning | internal/cmd/edit.go:50-74 | what is written to a file whose edits have LSP's form, commuting insertions and replacements that swallow nothing is the simultaneous substitution in its old text |
| EditEngine.OnlyTheFileCounts | internal/cmd/edit.go:50-81 | where no range on lines of the file runs backwards over lines, the texts a list may write are exactly those that its edits on lines of the file may write, for every outcome of the sort |
| EditEngine.WrittenIsMeaningInFile | internal/cmd/edit.go:50-100 | so if these are well behaved the simultaneous substitution of just these is written, whatever else the list holds |
| EditEngine.NothingInFile | internal/cmd/edit.go:79-81 | a list all of whose edits start or end past the last line, or start before the first, writes the text it has read |
| EditBounds.OutsideChangesNothing | internal/cmd/edit.go:65-81 | such edits change nothing at any place among the edits applied, where no other range runs backwards |
| EditBounds.LinesGrowExactlyWhen | internal/cmd/edit.go:76-100 | the array of lines gets longer by an edit if and only if its range lies on the lines of the file and runs backwards, and then by as many lines as it runs back |
| EditBounds.OutcomeInside | internal/cmd/edit.go:58-64 | an outcome of the sort, without the edits outside the file, is an outcome of sorting the rest |
| EditBounds.OutcomeAround | internal/cmd/edit.go:58-64 | and every outcome of sorting the rest comes from an outcome of sorting the whole list |
| EditBounds.BackwardEditRevives | internal/cmd/edit.go:65-81 | the witness: behind an edit that runs backwards the file is longer, and an edit that was past its end takes effect |
| Propagation.PassesExactly | internal/fnptr/fnptr.go:249-265 | after n passes h is registered at k if and only if a chain of field<-field assignments made of at most n ascending runs carries it there |
| Propagation.ShortPathsArrive | internal/fnptr/fnptr.go:249-265 | every handler that a chain of at most n assignments carries has arrived after n passes |
| Propagation.ListsGrow | internal/fnptr/fnptr.go:253-261 | no list ever loses or reorders an entry |
| Propagation.StaysDistinct | internal/fnptr/fnptr.go:256-258 | lists without repeats stay without repeats |
| Propagation.ClosedIsLeast | internal/fnptr/fnptr.go:249-265 | a result closed under the assignments is the least fixpoint |
| Propagation.QuietPassIsLeastFixpoint | internal/fnptr/fnptr.go:262-264 | a pass that changes nothing has reached the least fixpoint, also on cycles |
| Propagation.QuietFromThenOn | internal/fnptr/fnptr.go:262-264 | stopping after such a pass loses nothing |
| Propagation.PassesCloseExactlyWhen | internal/fnptr/fnptr.go:249-265 | n passes close every table if and only if whatever the assignments connect they connect within n ascending runs |
| Propagation.AlongFlowOnePass | internal/fnptr/fnptr.go:249-265 | assignments listed along their flow need one pass |
| Propagation.ThreePassesCanFallShort | internal/fnptr/fnptr.go:249-251 | four assignments listed against their flow are not closed after three passes |
| InitRows.ParseStructFields | internal/fnptr/fnptr.go:326-357 | the fields of a struct body in order; every field's Index is its position |
| InitRows.FieldsAreWellIndexed | internal/fnptr/fnptr.go:326-357 | that invariant for any list of declarations |
| InitRows.FlatRowFollowsC | internal/fnptr/fnptr.go:421-481 | a row of scalars without array designators, none of them read for a struct, a union or an array (but strings for character arrays), registers item i for exactly the field section 6.7.9 of ISO/IEC 9899:2011 assigns it; how C sees the fields is a parameter that agrees with the layout |
| InitRows.ItemInPlaceExactlyWhen | internal/fnptr/fnptr.go:421-481 | brace elision into structs, unions and arrays included, an item with a handler is read for the fn-pointer field C has it initialize, or neither side takes it for one, if and only if: behind an elided aggregate (and no designator since) neither side takes it for one, as the scanner is always ahead of C there; elsewhere the field read holds that field first |
| InitRows.InStepExactlyWhen | internal/fnptr/fnptr.go:424-455 | the scanner goes on behind every item with the field C goes on with if and only if no item without braces leaves a part of the field it is read for to the next one |
| InitTables.TableFollowsCExactlyWhen | internal/fnptr/fnptr.go:421-442 | a table of any length of braced flat rows, laid out with blanks, line breaks, a trailing comma or `[N] =` as usual: each row registers what C has it initialize, brace elision included, if and only if no row is misplaced, and then so does the table |
| InitTables.RowFollowsCExactlyWhen | internal/fnptr/fnptr.go:434-455 | the flat row at position k registers what C has it initialize, from the first field of its array element on, if and only if it is not misplaced: a row that looks nested is misplaced by an item with a handler that the scanner takes for another fn-pointer field than C does, or only one of them for one (when, says InitRows.ItemInPlaceExactlyWhen); a single item with a handler by its designator of a fn-pointer field, or by being taken for the field at position k where C has it initialize another |
| InitTables.TableFollowsC | internal/fnptr/fnptr.go:421-442 | a table of braced flat rows with at least two items each, none of them read for an aggregate, registers every item for the field of its array element that C assigns it |
| InitTables.FormattedIsTable | internal/fnptr/fnptr.go:421-435 | rows written one to a line, indented, with blanks inside the braces and a comma behind each, are such a table |
| InitTables.TableIsRowByRow | internal/fnptr/fnptr.go:421-442 | any table is scanned row by row: a row that looks nested on its own, any other as a scalar for the field at its position |
| InitTables.TableIsItsRows | internal/fnptr/fnptr.go:434-442 | a table whose rows look nested, flat or not, registers what each row registers on its own, whatever the position in the table |
| InitTables.SingleItemRows | internal/fnptr/fnptr.go:436-440 | the witness: in `{ a }, { b }` for a struct of two hooks b is registered for the second field, where C has it initialize the first field of the second element |
| InitTables.ElidedRow | internal/fnptr/fnptr.go:424-455 | the witness: in `1,2,h` for a struct of an inner struct of two integers and two hooks f and g, 2 is registered for f and h for g, where C has h initialize f |
| InitTables.DesignatedRowsRegisterNothing | internal/fnptr/fnptr.go:436-440 | a table of single designated items, `{ .f = a }, { .f = b }`, registers nothing |
| InitTables.BracedIsClassified | internal/fnptr/fnptr.go:430-440 | a braced item, with blanks in and around its braces and an array designator or not, is a nested row if it holds a comma or a brace, else a scalar |
| Asking.RowAsksExactly | internal/fnptr/fnptr.go:421-462 | a row, with all rows nested in it, hands to addReg exactly what its single items ask for: a value at the field where the scanner stands, a designated value at its field, a nested row or a struct value what its own items ask for |
| Asking.DesignatedAsks | internal/fnptr/fnptr.go:443-449 | `.f = value`, anywhere in a row, asks for the handler of the value at f, if f is a fn-pointer field of the struct |
| Asking.PositionalAsks | internal/fnptr/fnptr.go:459-471 | behind k values without braces or designators, a value asks for its handler at the field at position k, if that is a fn-pointer |
| Asking.FlatItemAsks | internal/fnptr/fnptr.go:421-462 | an item of a flat row asks for its handler at the field that C has it initialize, if the scanner reads it for that field |
| Asking.TableItemAsks | internal/fnptr/fnptr.go:421-442 | so does an item of a row of a table that is not misplaced |
| Asking.InnerRowIsScanned | internal/fnptr/fnptr.go:443-456 | `.f = { row }` for a field whose value is a struct with a layout hands over just what the inner row does as a row of that struct |
| Asking.InnerRowFollowsC | internal/fnptr/fnptr.go:443-455 | and so registers what C has a flat inner row initialize in the inner struct, if none of its items is read for another field |
| Asking.InnerRowAsks | internal/fnptr/fnptr.go:443-455 | what the inner row asks for, the row around it asks for |
| InitRows.FieldsFollowDeclarations | internal/fnptr/fnptr.go:326-357 | a layout has one field for every declaration with a name, in order, as declared, and no other |
| InitRows.PositionsAreMembersExactlyWhen | internal/fnptr/fnptr.go:326-357 | the positions of the layout are those of C's members if and only if every declaration declares one member where a field is found in it and none where none is |
| InitRows.OneFieldTwoMembers | internal/fnptr/fnptr.go:326-357 | the witness: behind `int a, b` the layout is one position short |
| InitRows.RowsNameFnPtrFields | internal/fnptr/fnptr.go:421-471 | every row, nested or not, registers only for fn-pointer fields of the struct it names |
| InitRows.PositionOf | internal/fnptr/fnptr.go:473-480 | the first field of a name |
| InitRows.FindIsPosition | internal/fnptr/fnptr.go:359-377 | the lookups by name find that field |
| InitRows.TrimBraces | internal/fnptr/fnptr.go:435 | trimming braces makes a braced item strictly shorter, on which the recursion of scanRow rests |
| FnPtrIndex.RegistrationsExactly | internal/fnptr/fnptr.go:198-271 | after a whole build h is registered at k if and only if the table declares it there, or it is defined, the source asks for it at some key, and a chain of at most three ascending runs leads from that key to k |
| FnPtrIndex.RegistrationsAreSound | internal/fnptr/fnptr.go:238-300 | every registered key's struct is listed for its field, and every handler is defined in the project or declared for that very key in the table |
| FnPtrIndex.RegistrationsDistinct | internal/fnptr/fnptr.go:245-289 | no list of handlers has a repeat after a whole build |
| FnPtrIndex.AddRegsHas | internal/fnptr/fnptr.go:379-387 | after any requests exactly the old handlers and the requested defined functions are registered |
| FnPtrIndex.AskedIsOwned | internal/fnptr/fnptr.go:389-415 | whatever the scans ask for is a fn-pointer field of its struct |
| FnPtrIndex.RequestsExactly | internal/fnptr/fnptr.go:389-415 | the scans ask for exactly what the items of some initializer of a struct with a layout ask for (`Asking`), and for the handlers assigned to a field that one struct alone owns |
| FnPtrIndex.DesignatedRegisters | internal/fnptr/fnptr.go:198-271 | after a whole build the function of a designated item of an initializer is registered for the struct and that field, wherever the item stands |
| FnPtrIndex.PositionalRegisters | internal/fnptr/fnptr.go:198-271 | after a whole build the function that is value i of an initializer of plain values is registered for the field at position i of the struct's layout |
| FnPtrIndex.InitializerRegisters | internal/fnptr/fnptr.go:198-271 | after a whole build, every function of the project that C has an item of a flat initializer initialize for a fn-pointer field is registered for that struct and field, if the scanner reads the item for it |
| FnPtrIndex.TableRegisters | internal/fnptr/fnptr.go:198-271 | the same for the items of every row of a table that is not misplaced |
| FnPtrIndex.AssignmentRegisters | internal/fnptr/fnptr.go:403-414 | after a whole build, a function of the project that is assigned to a field is registered there if the declarations give that field to one struct only |
| FnPtrIndex.LayoutIsLastOfAll | internal/fnptr/fnptr.go:304-322 | in a build a struct's layout is that of the last declaration, of all files, that names it, and empty if none does |
| FnPtrIndex.LayoutIsLastDeclared | internal/fnptr/fnptr.go:304-321 | a struct's layout is that of the last declaration that names it, by tag or by typedef alias |
| FnPtrIndex.LayoutUntouched | internal/fnptr/fnptr.go:304-321 | no other declaration touches it |
| FnPtrIndex.LiveFlowsHas | internal/fnptr/fnptr.go:510-517 | exactly the assignments between fn-pointer fields of known structs take part in propagation |
| FnPtrIndex.LayoutsWellIndexed | internal/fnptr/fnptr.go:302-322 | every scanned layout numbers its fields by position |
| FnPtrIndex.MergedWellIndexed | internal/fnptr/fnptr.go:276-283 | merging the table keeps that |
| FnPtrIndex.MergedHas | internal/fnptr/fnptr.go:284-289 | merging adds to a key exactly the handlers the table declares for it |
| FnPtrIndex.MergedFields | internal/fnptr/fnptr.go:276-283 | merging keeps the position of every field and adds exactly the fields the table names for a struct that has none of that name, as fn-pointers |
| FnPtrIndex.MergedOwners | internal/fnptr/fnptr.go:283 | merging adds to a field's structs exactly those the table names |
| FnPtrIndex.MergedOwnersDistinct | internal/fnptr/fnptr.go:283 | merging lists no struct twice for a field |
| FnPtrIndex.LinksMean | internal/fnptr/fnptr.go:291-299 | a manual caller of a handler is listed if and only if some link of the table names the handler as target and the caller is that link's source, in file ccq.fnptr.json at line 0, with field `manual`, or `manual:` and the note if there is one |
| FnPtrIndex.Index.IndexOwners | internal/fnptr/fnptr.go:238-244 | inverting the layouts in any order lists, without repeats, exactly the structs that own each field |
| FnPtrIndex.Index.ScanStructs | internal/fnptr/fnptr.go:302-322 | the layouts after the declarations of a file, under tag and alias |
| FnPtrIndex.Index.AddRegistration | internal/fnptr/fnptr.go:379-387 | one gated, deduplicated registration |
| FnPtrIndex.Index.ScanRow | internal/fnptr/fnptr.go:421-462 | the loop over a row's pieces with its cursor, recursing into nested rows, registers what the row asks for in order |
| FnPtrIndex.Index.ScanItem | internal/fnptr/fnptr.go:434-460 | one item of a row |
| FnPtrIndex.Index.ScanRegistrations | internal/fnptr/fnptr.go:389-415 | the initializers and then the assignments of a file |
| FnPtrIndex.Index.ScanPropagations | internal/fnptr/fnptr.go:504-521 | only assignments between two fn-pointer fields of known structs are kept |
| FnPtrIndex.Index.FlowOnce | internal/fnptr/fnptr.go:253-260 | one field<-field assignment, also of a field to itself |
| FnPtrIndex.Index.Propagate | internal/fnptr/fnptr.go:251-265 | the loop with its early exit does what three full passes do |
| FnPtrIndex.Index.MergeTable | internal/fnptr/fnptr.go:276-300 | registrations and links of the table merged in order |
| FnPtrIndex.BuildFresh | internal/fnptr/fnptr.go:198-271 | from the recognised declarations, initializers and assignments of the files and the set of functions of pass A, the passes in order leave an index that RegistrationsExactly and RegistrationsAreSound speak of |
| FnPtrQueries.Callers | internal/fnptr/fnptr.go:73-116 | the loops with their seen-set, early return and cap give the synthesized callers, cut at 300, followed by the manual links |
| FnPtrQueries.Callees | internal/fnptr/fnptr.go:122-157 | without repeats, exactly the linked and dispatched handlers other than fn itself and the empty name |
| FnPtrQueries.InverseBelowCap | internal/fnptr/fnptr.go:73-157 | for different non-empty names, fn is a caller of h if and only if h is a callee of fn, as long as the sites that call h have at most 300 different (function, struct, field) |
| FnPtrQueries.CallerHasCallee | internal/fnptr/fnptr.go:73-157 | a caller of h has h among its callees if and only if h is not empty and not the caller itself, with or without the cap |
| FnPtrQueries.InverseExactlyWhen | internal/fnptr/fnptr.go:109-111 | every function that has h as callee is listed as caller if and only if no function has all its (function, struct, field) beyond the first 300 and no link |
| FnPtrQueries.OneEntryPerTriple | internal/fnptr/fnptr.go:104-112 | before the cap there is one entry for every different (function, struct, field) that calls h, in scan order |
| FnPtrQueries.CapLosesCaller | internal/fnptr/fnptr.go:109-111 | with 301 dispatching functions, f0 to f300, the last is not listed |
| FnPtrQueries.SynthesizedAreExact | internal/fnptr/fnptr.go:94-115 | at most 300 entries, no (function, struct.field) twice, each backed by a dispatch site that resolves to a key holding the handler |
| FnPtrQueries.NoTripleLost | internal/fnptr/fnptr.go:104-112 | every site that calls h has an entry with its own function, struct and field in the list before it is cut at 300 |
| FnPtrQueries.CallerStandsOnArrow | internal/fnptr/fnptr.go:97-108 | the sites being those dispatchSites finds, a synthesized caller's line is the raw line, counted from 1, of an arrow in its file to a field through which h is reached |
| FnPtrQueries.SeenKeyInjective | internal/fnptr/fnptr.go:105 | the deduplication key is injective on identifiers, whatever the struct is called |
| FnPtrQueries.CallersAreSound | internal/fnptr/fnptr.go:94-115 | after a whole build: the site's struct owns the field, and the handler is defined or declared for that struct and field, so no handler of another struct's same-named field is listed |
| FnPtrQueries.SiteIsListed | internal/fnptr/fnptr.go:73-157 | where h is registered for the field of a site and the struct it points to, h is a callee of the site's function, and, unless more than 300 different calls may reach h, the function is listed for h with that struct and field |
| FnPtrQueries.InitializedIsCalled | internal/fnptr/fnptr.go:73-271 | from a whole build to both queries: what C has an item of a flat initializer initialize for a fn-pointer field, read in place, is listed so at every site that points to that field |
| FnPtrQueries.LinkIsListed | internal/fnptr/fnptr.go:73-300 | after a whole build a link of the table makes its source a caller of each of its targets, and each target but itself and the empty name a callee of its source |
| FnPtrQueries.ResolvesConservatively | internal/fnptr/fnptr.go:585-604 | a cast to an owner decides, else a receiver type that is an owner; otherwise the site is resolved exactly if the field has one owner and no other |
| FnPtrQueries.KeysOf | internal/fnptr/fnptr.go:76-92 | the keys of a handler, for any iteration order |
| FnPtrQueries.Gathering.Look | internal/fnptr/fnptr.go:99-112 | the body of the loop over the sites, and when it reports the cap |
| FnPtrQueries.Gathering.LookAtFile | internal/fnptr/fnptr.go:97-113 | the sites of one file up to the cap |
| FnPtrQueries.Collector.Add | internal/fnptr/fnptr.go:126-131 | the closure adds a name once, never fn itself or the empty name |
| FnPtrQueries.Collector.AddLinks | internal/fnptr/fnptr.go:132-139 | the manual links from fn, for any iteration order |
| FnPtrQueries.Collector.AddSite | internal/fnptr/fnptr.go:144-153 | the handlers of one site |
| Brackets.BraceBody | internal/fnptr/fnptr.go:728-748 | the text inside the first braces at or after an index, balanced; it fails only if they are missing or never closed |
| Brackets.BraceBodyEnd | internal/fnptr/fnptr.go:705-725 | the same body, and the index just past its close |
| Brackets.BodyAtIsUnique | internal/fnptr/fnptr.go:705-748 | there is only one such body, so the two scanners agree |
| Brackets.BodyIsBalanced | internal/fnptr/fnptr.go:714-722 | what stands between matching brackets is balanced |
| Brackets.DepthIsCounts | internal/fnptr/fnptr.go:714-722 | the depth behind a text is the number of its open brackets less that of its close ones, for braces, parentheses and all three kinds |
| Brackets.BackwardIsForward | internal/fnptr/fnptr.go:560-572 | scanning backward from a close finds exactly the open whose forward match it is |
| Brackets.MatchIsUnique | internal/fnptr/fnptr.go:560-572 | an open bracket has one match and a close bracket has one |
| Brackets.ParseReceiver | internal/fnptr/fnptr.go:552-583 | the word before the arrow, or what stands between the close parenthesis and its own open one, or nothing |
| DispatchSites.DispatchSites | internal/fnptr/fnptr.go:526-547 | the arrows with a receiver, in order, each on the raw line that holds its byte; every arrow left out has none |
| WholeText.TextIsWholeExactlyWhen | internal/fnptr/fnptr.go:526-532 | the text that is scanned, stripped line by line, is the text stripped as a whole, with block comments over several lines, if and only if every line that begins inside a block comment keeps just what is behind the end of that comment |
| WholeText.CommentedCodeIsKept | internal/fnptr/fnptr.go:526-532 | in a block comment of three lines the middle one is scanned as code, whatever code it holds |
| WholeText.ArrowInComment | internal/fnptr/fnptr.go:526-532 | the witness: `p->go();` on a line of its own inside a comment |
| Splitter.Split | internal/fnptr/fnptr.go:751-770 | the scan cuts at exactly the commas at depth 0 |
| Splitter.CutsAreTheTopCommas | internal/fnptr/fnptr.go:761-765 | which are the commas with as many brackets opened as closed before them |
| Splitter.CommaCutsExactlyWhen | internal/fnptr/fnptr.go:755-766 | a comma cuts if and only if the text before it has as many `{`, `(` and `[` together as `}`, `)` and `]` |
| Splitter.JoinUndoesSplit | internal/fnptr/fnptr.go:751-770 | joining the pieces with commas gives the list back |
| Splitter.SplitUndoesJoin | internal/fnptr/fnptr.go:751-770 | splitting joined pieces that cancel and have no top-level comma gives the pieces back |
| Splitter.PiecesAreWhole | internal/fnptr/fnptr.go:751-770 | no piece has a top-level comma, and the pieces of a balanced list are balanced |
| Splitter.PiecesAreShort | internal/fnptr/fnptr.go:751-770 | no piece is longer than the list |
| Impact.Impact | internal/cmd/run.go:449-474 | the nested loops report exactly the symbols that enter at radius 1 to depth, in order |
| Impact.ReportIsShortestDistances | internal/cmd/run.go:449-474 | which are exactly those at shortest caller distance 1 to depth, each once with that distance as its hop, in nondecreasing order, never the start |
| Impact.Round | internal/cmd/run.go:454-473 | one round visits exactly the callers of the frontier and lists each new one once |
| Reach.EntersAtDistance | internal/cmd/run.go:453-474 | a symbol first found in round d is at shortest distance d, and conversely |
| Reach.BallIsByDistance | internal/cmd/run.go:453-474 | what n rounds visit is what lies within distance n, on any relation, cyclic or not |
| Reach.RoundsRanDry | internal/cmd/run.go:453 | stopping on an empty frontier loses nothing |
| Neighborhood.BuildNeighborhood | internal/cmd/export.go:70-126 | the nodes are exactly the symbols within depth of the focus; the edges have no repeats, are found at symbols at distance less than depth, and end at nodes; none is missing where no source name contains '>' |
| Neighborhood.NeighborhoodIsExact | internal/cmd/export.go:70-126 | the same of any search that made that many rounds |
| Neighborhood.Search.Meet | internal/cmd/export.go:74-85 | the closures addNode and addEdge and the visit that follows them |
| Neighborhood.Search.Look | internal/cmd/export.go:91-117 | the three loops over the neighbours of a symbol |
| Neighborhood.Search.Round | internal/cmd/export.go:88-120 | one round, over the frontier the last one left |
| Neighborhood.DeduplicatedKeeps | internal/cmd/export.go:79-85 | one edge is kept for every key and no two with the same |
| Neighborhood.KeyInjective | internal/cmd/export.go:80 | the edge key is injective where source names have no '>' |
| Neighborhood.KeyCollides | internal/cmd/export.go:80 | with a '>' in a name two edges can share a key |
| Neighborhood.NothingLostExactlyWhen | internal/cmd/export.go:79-85 | no edge is lost if and only if no two found edges share a key |
| Framing.ReadLoop | internal/lsp/client.go:114-137 | the two loops read exactly the bodies of the stream, and end at its end or by allocating a negative length |
| Framing.ReaderRecoversBodies | internal/lsp/client.go:114-137 | whatever the bodies contain, the reader recovers exactly the written ones in order, and an incomplete last frame adds nothing (section "Header Part" of the LSP 3.17 Base Protocol) |
| Framing.PartialFrameYieldsNothing | internal/lsp/client.go:119-137 | a frame cut anywhere yields no body |
| Framing.HeaderIsRead | internal/lsp/client.go:118-130 | reading a header the client itself has written announces the body's length and stops at the body |
| Framing.AnyMessageIsRead | internal/lsp/client.go:114-137 | the reader takes every message of the Base Protocol whole, with any other header fields before and after its length field, whose name may be in any case; a length of zero is passed over and a negative one ends in a panic |
| Framing.FramesAreStream | internal/lsp/client.go:180-182 | what is written is one message of the Base Protocol after the other: `Content-Length: `, the digits of the length, CR LF, CR LF, and that many bytes |
| Framing.ScanDecimal | internal/lsp/client.go:128 | parsing a printed length gives it back |
| Decimals.ValueOfDecimal | internal/lsp/client.go:181 | the digits printed for a number denote it |
| Requests.OwnReplyOnly | internal/lsp/client.go:154-193 | over every run a caller only receives a value from a message with its own id (section 5 of JSON-RPC 2.0) |
| Requests.IdsAnsweredOnce | internal/lsp/client.go:154-180 | over every run ids are never reused and no id is answered twice |
| Requests.ReaderNeverBlocks | internal/lsp/client.go:158-164 | over every run the reader's channel send never blocks |
| Requests.NoAnswerLost | internal/lsp/client.go:154-193 | every id is in exactly one place, pending, with the reader or put, and a waiting call whose id was put can take its answer |
| Requests.ReplyGetsThrough | internal/lsp/client.go:154-193 | after every run, when a message arrives under the id of a call that still waits, the reader can hand it over and the call returns just that message, and no other call changes |
| Requests.RunKeepsInv | internal/lsp/client.go:154-193 | the invariant behind these holds after every interleaving of senders, timeouts and server messages |
| Requests.EveryRunReadsBack | internal/lsp/client.go:168-183 | however the senders interleave, a reader of the bytes recovers their messages in lock order |
| Requests.EveryRunWritesMessages | internal/lsp/client.go:168-183 | however the senders interleave, the bytes written are one message of the Base Protocol after the other, with the sent bodies in lock order |
| Requests.HeldWasReceived | internal/lsp/client.go:154-165 | every value with the reader, in a channel or with a caller was received |
| Requests.AnswersAreResponsesExactlyWhen | internal/lsp/client.go:138-157 | a server's own request is taken for an answer if and only if one arrived under a pending id |
| Requests.RequestTakenForAnswer | internal/lsp/client.go:138-193 | the witness: a server request numbered 1 becomes the answer of the first call |
| Requests.Client.SendRequest | internal/lsp/client.go:169-183 | the critical section of a request: the next id, its channel, and one whole message of the Base Protocol behind what was written before |
| Requests.Client.SendNotification | internal/lsp/client.go:169-183 | the critical section of a notification: one whole message, and no id |
| Requests.Client.ClaimPending | internal/lsp/client.go:154-157 | the critical section of the reader |
| Documents.LogIsWellVersioned | internal/lsp/client.go:307-347 | over every run of Open and Reload a file's log is one didOpen with version 1 and then didChange 2, 3, 4, ... |
| Documents.LogGrowsExactly | internal/lsp/client.go:307-347 | after every run, what a call adds to the log of a file, told by that log alone: nothing for another file, an unreadable one or a second Open; else the disk text, as a didOpen if nothing was sent and as the next didChange if something was |
| Documents.Client.OpenFile | internal/lsp/client.go:307-327 | Open on the client's maps and log, unreadable files included |
| Documents.Client.ReloadFile | internal/lsp/client.go:333-347 | Reload on the same |
| Documents.SyncAfterEdit | internal/cmd/run.go:432-437 | the last text sent for every edited readable file is its disk text, other files' logs are untouched, and the fn-pointer cache is empty |
| Documents.ApplyAndSync | internal/cmd/run.go:572-579 | after a successful apply and sync the server knows the disk text of every edited file and the next fn-pointer index is a fresh scan; after a failed one nothing is synced, and of the files it was right about the server is wrong about exactly those rewritten ones whose text changed and that it had been told; the definition cache is left as it was |
| Documents.Cache.Build | internal/fnptr/fnptr.go:187-196 | a cached index is served for the root it was built for, otherwise a fresh scan is |
| Staleness.DefinitionsFreshExactlyWhen | internal/cindex/cindex.go:64-73 | a definition cache that was right before the files changed answers a name as a fresh scan does if and only if it is empty, of another root, or the name is first recognised on the same lines of the same files with the same kinds as before |
| Staleness.ListedByLine | internal/cindex/cindex.go:75-149 | the list under a name is, file by file and line by line, the definition first recognised there |
| Staleness.NewlinesMakeStaleExactlyWhen | internal/cindex/cindex.go:64-149 | after n newlines are inserted at the start of line k of a file, what it defines below is listed n lines further down and all else as before; the cached answer is stale if and only if n > 0 and it lists a definition of that file below line k |
| Staleness.ScannedWithLine | internal/cindex/cindex.go:92-99 | an empty line in the raw text is an empty line at the same place of the scanned lines, also inside a block comment |
| Staleness.FreshWhereCodeIsKept | internal/cindex/cindex.go:90-149 | files of the same paths that are scanned alike, line by line, have the same index |
| IndexedCode.FreshWhereCommentsDiffer | internal/cindex/cindex.go:90-149 | files that differ only in the texts of their comments, each with as many newlines as before, or in the insides of literals have the same index |
| Staleness.StaleMacro | internal/cindex/cindex.go:64-113 | the witness: a macro on line 1, moved to line 2 by a newline, is still answered as on line 1 |
| Readiness.Tracker.TrackProgress | internal/lsp/client.go:215-237 | the flags follow the log of notifications; neither is reset |
| Readiness.FlagsMean | internal/lsp/client.go:227-236 | began if and only if an index progress has begun; ended if and only if some progress has ended after that |
| Readiness.EndedImpliesBegan | internal/lsp/client.go:232-235 | ended implies began |
| Readiness.FlagsStay | internal/lsp/client.go:227-236 | neither flag is ever reset |
| Readiness.WaitIndex | internal/lsp/client.go:242-257 | when the poll loop returns and why, for any behaviour of clock and server |
| Readiness.WaitIsSound | internal/lsp/client.go:242-257 | before its deadline it returns only after an index progress has begun and that or another has ended, or while none has begun and the baseline has passed; at most max / 200 ms polls, rounded up |
| Readiness.EndedWrongExactlyWhen | internal/lsp/client.go:215-237 | `ended` differs from "an index progress, told by its token, has ended" if and only if the end of another progress has arrived after an index begin and no index progress has ended |
| Readiness.OtherEndCounts | internal/lsp/client.go:232-235 | while an index progress runs, the end of any other token makes the index look ready |
| Readiness.UnrelatedEndCounts | internal/lsp/client.go:232-235 | the witness: a file parsed during the indexing |
| Strip.StripComments | internal/csrc/csrc.go:91-121 | the index-driven loops compute the three-state lexer (code, line comment, block comment) |
| Strip.NoCommentLeft | internal/csrc/csrc.go:91-121 | the output has no comment opener |
| Strip.UnchangedExactlyWhen | internal/csrc/csrc.go:91-121 | a text is left as it is if and only if it has no comment opener |
| Strip.StripCommentsIdempotent | internal/csrc/csrc.go:91-121 | stripping twice is stripping once |
| Strip.SurvivorsKeepTheirLine | internal/csrc/csrc.go:89-121 | every surviving byte has as many newlines before it in the output as in the input, also behind an unterminated comment |
| Comments.LeavesTheCode | internal/csrc/csrc.go:91-121 | a text cut into bytes of code and comments, as C cuts it, is stripped to exactly that code and the line breaks inside its block comments |
| Comments.EveryTextIsCut | internal/csrc/csrc.go:91-121 | every text can be cut so |
| Comments.BlockCommentGoes | internal/csrc/csrc.go:94-112 | behind code without an opener and without a slash at its end, a block comment goes but for its newlines, and what follows it is stripped on its own |
| Comments.LineCommentGoes | internal/csrc/csrc.go:113-118 | so does a line comment, up to its newline |
| Comments.KeepsTheCode | internal/csrc/csrc.go:54-87 | a line cut into code, literals, literals left open and comments, as C cuts it, is stripped to exactly the code and the quotes |
| Comments.EveryLineIsCut | internal/csrc/csrc.go:54-87 | every line can be cut so |
| Strip.LineCountKept | internal/csrc/csrc.go:89-121 | the number of lines is kept |
| Strip.InsertedNewlineSurvives | internal/csrc/csrc.go:89-121 | a newline inserted where a line begins appears at the beginning of the same line of the output, which is otherwise the same |
| Strip.StripCodeLine | internal/csrc/csrc.go:54-87 | the loops compute the lexer of one line |
| Strip.StrippedLineIsNeutral | internal/csrc/csrc.go:54-87 | the output has no comment opener and only empty literals, the last of which may be unclosed |
| Strip.LineUnchangedExactlyWhen | internal/csrc/csrc.go:54-87 | a line is left as it is if and only if it is of that form |
| Strip.StripCodeLineIdempotent | internal/csrc/csrc.go:54-87 | stripping a line twice is stripping it once |
| Strip.CodeOfNewlineFree | internal/csrc/csrc.go:54-87 | no newline is introduced |
| Strip.DispatchLineIsRawLine | internal/fnptr/fnptr.go:528-540 | the newline count before a byte of the joined stripped lines is the index of the raw line that byte survives from, at that column |
| DefIndex.IndexIsExact | internal/cindex/cindex.go:75-149 | a name lists, once per file and line, exactly the lines of the raw files on which a definition of it is recognised, and those of kind func stand where the stripped text before has as many braces closed as opened |
| DefIndex.RecognisedExactly | internal/cindex/cindex.go:103-146 | what is recognised on a line, without the loop's variables: a define; a typedef completed on the line, or closing one that began earlier and was not closed since; an aggregate; a function at net brace depth 0 with its brace on the line or first on the next line that is not blank |
| IndexedCode.ScannedIsCode | internal/cindex/cindex.go:92-99 | line k of what is scanned is the code, and the quotes, of line k of the text without its comments |
| IndexedCode.NothingInComment | internal/cindex/cindex.go:92-146 | a line that lies wholly inside a block comment, closed or not, is scanned as an empty line, and nothing is recognised on it |
| IndexedCode.NothingListedInComment | internal/cindex/cindex.go:75-149 | so no definition is listed there |
| IndexedCode.CommentedLine | internal/cindex/cindex.go:92-146 | the simplest case: between a line `/*` and a line `*/`, whatever code the line holds |
| DefIndex.BuildFresh | internal/cindex/cindex.go:75-149 | the loops over files and lines hand `add` exactly that trace |
| DefIndex.ScanLine | internal/cindex/cindex.go:103-146 | one line: depth, pending typedef and what is added, in order |
| DefIndex.Index.Add | internal/cindex/cindex.go:78-88 | the closure keeps the map and the seen-set in step with what was added |
| DefIndex.NextNonEmptyStartsBrace | internal/cindex/cindex.go:153-162 | the first line at or after an index that is not blank begins with a brace |
| Text.TrimSpaceIs | internal/cindex/cindex.go:153-162 | trimming takes blanks, tabs, line ends, vertical tabs and form feeds off both ends and leaves what is between |
| DefIndex.ListedOnce | internal/cindex/cindex.go:82-86 | no two entries of a name share file and line |
| DefIndex.AddedIsListed | internal/cindex/cindex.go:78-88 | nothing added under a usable name is lost |
| DefIndex.ListedExactlyWhen | internal/cindex/cindex.go:46-88 | something is listed under a name if and only if the name was added and is neither empty nor one of the fifteen keywords |
| DefIndex.KeyInjective | internal/cindex/cindex.go:82 | the deduplication key is injective, whatever the path contains |
| DefIndex.DepthIsNet | internal/cindex/cindex.go:101-106 | the depth before a line is the net brace count of the lines before it |
| Definitions.NameColumn | internal/cmd/run.go:156-172 | the first whole-word occurrence or -1; only for an empty name, on a line without a free place, does the search run out of the line |
| Definitions.TextDefEndLine | internal/cmd/run.go:282-300 | the first line of the window of 80 on which a brace has opened and none stays open; without one the end of the window if a brace has opened, else the start line |
| Definitions.SpansItsLineExactlyWhen | internal/cmd/run.go:278-303 | a definition whose line has no open brace is said to span just that line if and only if no brace opens in the window behind it |
| Definitions.MacroRunsOn | internal/cmd/run.go:278-303 | the witness: a macro in front of a function is said to end with the function |
| Definitions.ClosedAfterExactly | internal/cmd/run.go:286-295 | the scan may end on a line if and only if the first brace has opened by then and no more braces are open behind it than were closed in front of it |
| Definitions.EndsOnClosingLine | internal/cmd/run.go:282-303 | where the first body is closed on line m of the window, the scan ends on m if and only if it does not stop inside the body, as it can only where braces were closed in front of it, and what follows the close on that line leaves open no more than were closed in front, or m is the last line of a full window |
| Definitions.UnclosedRunsOn | internal/cmd/run.go:282-303 | a first brace that stays open to the end of the window makes the end line 79 lines below the start, also past the end of the file; in a window of fewer than 80 lines nothing else does |
| Definitions.TypedefRunsOn | internal/cmd/run.go:282-303 | the witness: on `} T;` in front of a function the scan stops inside the function |
| Definitions.EndsTooLate | internal/cmd/run.go:286-295 | the witness: on `{}{` the first body ends, the scan goes on to the next line |

## Left out

- Regular expressions: each is a parameter; what the expressions of `fnptr.go` and `cindex.go` match is not modelled.
- JSON encoding and decoding, process spawning, sockets, file walking, git, the clock: parameters, as described above. A message that does not decode is not seen by the reader.
- The JSON path of `applyOrPreview`, which syncs although the apply may have failed: the model follows the text paths of `Rename` and `applyOrPreview`.
- The algorithm of `sort.Slice`: only its contract is relied on, that of an unstable sort.
- EditEngine.ApplyEdits: gives every file its own copy of its edit list, so that sorting does not show in the caller's map; a failing write leaves the file as it was, although a real one may write a part.
- Edits.Applied: positions count bytes, as the code does; UTF-16 code units of LSP are not modelled.
- Text.TrimSpace: trims the ASCII white space; the further Unicode white space of Go's function is not modelled.
- InitRows.FlatRowFollowsC: scalars only; InitTables adds tables of such rows. The code trims all braces at the ends of a nested row at once, so a row that itself begins or ends with a brace can lose braces of its parts; such rows, values that are expressions of a struct type or macros for several values, and two constraint violations of C, a designator of an unknown field (which resets the cursor to 0) and an array designator in a struct's row, are outside the comparison with C. All rows are covered by Asking.RowAsksExactly, RowsNameFnPtrFields and the termination of the recursion; struct values with designators by Asking.InnerRowFollowsC as far as the inner row is flat.
- EditOverruns.OverrunsMeanLSPExactlyWhen: for lists whose overruns span lines, as EditClamps.ClampsAllExactlyWhen; with an overrun within a line two wrong edits can cancel out (OverrunsCancel), so for such lists the condition is stated as sufficient (HarmlessMeansClamped) and as exact edit by edit. Positions on lines past the end of the file, which the code ignores, are not compared with LSP.
- EditEngine.OnlyTheFileCounts: for lists in which no range on lines of the file runs backwards over lines, as LSP demands of a range; BackwardEditRevives shows that it fails otherwise.
- IndexedCode.ScannedIsCode: comments and literals are those of the code's own lexers, in which a comment opener inside a string literal of the whole text counts as one.
- WholeText.TextIsWholeExactlyWhen: the text stripped as a whole ends literals and line comments with their line; a backslash at the end of a line, which in C joins it with the next, is not followed.
- Staleness.DefinitionsFreshExactlyWhen: the files are the same before and after, as edits neither create nor remove files.
- The 400-line backward scans of `recvType` and `enclosingFunc`: regular-expression matching; the type of a receiver and the enclosing function are taken as given per site.
- FnPtrIndex.BuildFresh: starts from recognised declarations, initializers and assignments; pass A (typedefs and function definitions) is regular-expression matching and gives the set of defined functions.
- String literals in `StripComments`: as in the code, a comment opener inside one counts as one.
- The text and JSON forms of the `Impact` report: here it is a list of (name, hop).
- OpenAll, OpenFiles and the tree walk around them: filters that call Open.
- buildFullGraph and the HTML, SQL and JSON writers: presentation.
- internal/daemon, internal/cache, internal/gitdiff, internal/config, internal/compdb, internal/mcp, internal/tsindex, cmd/ccq and the validation of the override table: plumbing, filters and routing that would add only easy members.
