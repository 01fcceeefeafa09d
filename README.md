# rm-pdf-tools page-action engine in Dafny

rm-pdf-tools edits reMarkable tablet documents (a zip holding a PDF, a
`.content` JSON record, a `.pagedata` file with one line per page, and one
annotation file per annotated page under `<uuid>/`). The user writes a
comma-separated list of page actions such as `-3,2a5,1b1`:

- `-N` deletes page `N`;
- `XaY` inserts `X` blank pages after page `Y`;
- `XbY` inserts `X` blank pages before page `Y`.

Each action's anchor is its page number. The program rejects a list in
which two actions share an anchor. The engines sort the actions by anchor
and apply them from the highest anchor down, so earlier page numbers stay
valid. The same actions drive four variants of one transform:

- the page-id list of `.content`;
- the lines of `.pagedata`;
- the renaming of annotation files by page index;
- the PDF itself.

The model covers every variant except the PDF. It also covers the
bookkeeping of merging several documents into one.

The modules follow the Go packages:

- `Actions`: the action datatype.
- `Parser`: `FromString` and `checkActions`.
- `ActionOrder`: `Sort`, modelled as an in-place insertion sort on an
  `array<Action>`, with `SortByPage` as its specification function.
- `SliceEngine`: `runSlice`, generic over the item type, with the uuid
  factory as a parameter `gen: nat -> T` (call `k` yields `gen(k)`).
- `IndexRemap`: `RunLines`, `getIdxFromFileName` (in `FileNames`) and the
  rename/drop rule of `RunFile`.
- `PageFiles`: `RunContent` and `RunPagedata`.
- `Documents`: the pagedata read/write pair.
- `Merge`: `mergeSlices` and `MergeFiles`.
- `Legacy`: `runActionsContent`.
- `GoStrings`: the Go library calls the code relies on (`strings.Split`,
  `strings.Join`, `strings.ReplaceAll`, `strconv.Atoi`, `strconv.Itoa`).

Go strings are byte sequences, and `len` and slicing count bytes. A Dafny
`string` here stands for those bytes, one `char` per byte (codes 0 to 255).
A non-ASCII character such as `é` is therefore the `char`s of its UTF-8
bytes, and `name[:len(name)-3]` or `raw[:len(raw)-1]` drop bytes, as in Go.
`FileNames.MultiByteExtensionIndex` and `Documents.MultiBytePagedata` show
this on two such inputs. No operation of the core decodes UTF-8.

A Go `panic` is the `Panic(cause)` case of `Result`. `cause` is one of:

- `BadInteger` (a failed `Atoi`);
- `DuplicateAnchor` (from `checkActions`);
- `IndexOutOfRange` (a slice bound or index outside its range);
- `LengthOutOfRange` (a negative `make` length).

The engines' loops become methods with invariants. Each is proved equal to
a specification function (`Apply`, `RunLinesResult`, `ContentAfter`,
`PagedataAfter`, `Concat`, `Merged`). The properties are proved about those
functions.

The central theorem is `Agreement.KeptPagesAgree`. It takes actions with:

- distinct anchors;
- non-negative counts;
- indices in range;
- no anchor strictly inside a delete's page range.

For such actions, `runSlice` never panics. Every page that `RunLines`
keeps sits at its `NewIdx` in `runSlice`'s output. Every other output
position holds the value of one of the run's own factory calls. So `.content`, `.pagedata` and the annotation
names stay consistent.

Without the last condition the theorem is false, as
`Agreement.CoveredAnchorBreaksAgreement` shows. The parser only produces
single-page deletes, which can never cover an anchor
(`Parser.ParsedActionsShape`), so every list the parser accepts is covered.

`cmdparse.go` and `run.go` are older copies of the same logic in package
`main`. They are modelled once, by the members of the newer code:

- `ActionsFromString` and its `checkActions` are the same code as
  `FromString` and `checkActions`;
- `_runActionsSlice`, `runActionsLines` and `runActionsPagedata` are the
  same as `runSlice`, `RunLines` and `RunPagedata`, apart from logging.

`runActionsContent` really differs: it overwrites every page id with a
fresh uuid before the transform (`run.go:177-180`). It is modelled on its
own in `Legacy`.

## Model

| member | source | states |
|---|---|---|
| `Actions.SameAnchorCollides` | actions/types.go:9-24 | a delete's and an insert's anchor is the page number whatever the count and side, so a delete and an insert on one page are never distinct |
| `Actions.SinglePageDeletesAvoidAnchors` | actions/util.go:15-20 | deletes of one page, the only deletes the parser builds, cover no other anchor |
| `ActionOrder.Sort` | actions/actions.go:19-26 | the array ends ascending by anchor and is a permutation of what it was; with distinct anchors it stays distinct and equals `SortByPage` of the input, so the unstable sort's order does not matter |
| `ActionOrder.SinkLast` | actions/actions.go:19-26 | one insertion pass extends the ascending prefix by one element and keeps the multiset |
| `ActionOrder.SwapNeighbours` | actions/actions.go:19-26 | exchanges two neighbours, leaves the rest and the multiset unchanged |
| `ActionOrder.SinkStep` | actions/actions.go:19-26 | swapping the moving element with its larger lower neighbour keeps the pass invariant one place lower |
| `ActionOrder.SinkDone` | actions/actions.go:19-26 | a pass that stopped leaves the prefix ascending |
| `ActionOrder.SortByPage` | actions/actions.go:19-26 | the reference order: ascending and a permutation of the input |
| `ActionOrder.SortedPermutationUnique` | actions/actions.go:19-26 | two ascending permutations of one list with distinct anchors are equal |
| `ActionOrder.SortedIsSortByPage` | actions/actions.go:19-26 | any ascending rearrangement of a list with distinct anchors is its `SortByPage`, so sorting a second time changes nothing |
| `ActionOrder.PermutationKeepsShape` | actions/actions.go:19-26 | reordering keeps distinct anchors, non-negative counts, deletes avoiding anchors, and membership |
| `ActionOrder.PermutationKeepsCounts` | actions/actions.go:19-26 | reordering keeps non-negative counts |
| `ActionOrder.AtMostOnce` | actions/util.go:54-63 | with distinct anchors no action occurs twice |
| `ActionOrder.DistinctMembers` | actions/util.go:54-63 | two different members of a list with distinct anchors have different anchors |
| `ActionOrder.DeltaConcat` | actions/actions.go:253-263 | the page-count change of a concatenation is the sum of the parts' changes |
| `ActionOrder.DeltaPermutation` | actions/actions.go:253-263 | the page-count change does not depend on the action order |
| `ActionOrder.ResortFacts` | actions/util.go:65-66 | counting on the sorted list and letting `runSlice` sort again sees the same change, and the final order is `SortByPage` |
| `ActionOrder.InsertByPageSorted` | actions/actions.go:19-26 | inserting into an ascending list keeps it ascending |
| `GoStrings.Split` | actions/util.go:12 | at least one piece, two once the separator occurs, no piece holds the separator, and the first piece is a prefix of the input |
| `GoStrings.JoinSplit` | actions/actions.go:235-240 | joining the pieces of a split gives back the string |
| `GoStrings.SplitJoin` | actions/actions.go:235-240 | splitting a join gives back the pieces when none holds the separator and there is at least one |
| `GoStrings.SplitCount` | actions/actions.go:235 | the number of pieces is one more than the number of separators |
| `GoStrings.SplitAfterPiece` | actions/util.go:23 | a separator-free front piece comes out first and the rest splits on its own |
| `GoStrings.SplitNoSep` | actions/util.go:23 | a string without the separator is one piece |
| `GoStrings.AtoiItoa` | actions/util.go:16 | `Atoi` reads back every 64-bit value `Itoa` prints |
| `GoStrings.AtoiNoMinus` | actions/util.go:128 | text that does not start with `-` never reads as a negative number |
| `GoStrings.DigitsOfNat` | actions/actions.go:107 | the decimal digits of `n` have the value `n` |
| `GoStrings.ItoaChars` | actions/actions.go:107 | `Itoa` prints at least one character, all digits except a leading minus for a negative value |
| `GoStrings.ReplaceAllAbsent` | actions/actions.go:107 | a name without the pattern is unchanged by `ReplaceAll` |
| `GoStrings.ReplaceAllPrefix` | actions/actions.go:107 | a pattern at the front is replaced and the rest is processed the same way |
| `GoStrings.ReplaceAllNoStart` | actions/actions.go:107 | text none of whose characters can start the pattern is copied unchanged |
| `GoStrings.ReplaceOnce` | actions/actions.go:107 | one occurrence followed by text that cannot start another is replaced |
| `GoStrings.ReplaceTwice` | actions/actions.go:107 | both occurrences around pattern-free text are replaced |
| `GoStrings.CharAbsent` | actions/actions.go:107 | a one-character pattern occurs only where that character does |
| `Parser.FromString` | actions/util.go:9-52 | the token loop and the final check return exactly `ParseActions(s)`: tokens kept in order, unrecognised ones dropped, the first bad number panicking with `BadInteger`, a repeated anchor with `DuplicateAnchor`; also `cmdparse.go:30-73` |
| `Parser.CheckActions` | actions/util.go:54-63 | accepts exactly the lists with distinct anchors, in both directions; also `cmdparse.go:75-84` |
| `Parser.NextToken` | actions/util.go:14-48 | one more token either panics the whole parse with its own cause, is dropped, or appends its action |
| `Parser.PrefixPanic` | actions/util.go:14-48 | once a prefix of the tokens panics, the whole list panics with that cause |
| `Parser.ParseTokensAppend` | actions/util.go:14-48 | parsing two token lists one after the other concatenates their actions |
| `Parser.TokenShape` | actions/util.go:15-46 | a parsed delete removes one page and a parsed insert has a non-negative count |
| `Parser.TokensShape` | actions/util.go:14-48 | the same for every action of a token list |
| `Parser.ParsedActionsShape` | actions/util.go:9-52 | every accepted list has distinct anchors, non-negative counts and deletes covering no anchor, so the agreement theorem applies to it |
| `Parser.EmptyStringNoActions` | actions/util.go:12-47 | the empty string yields the empty list (its one empty token is dropped) |
| `Parser.ConflictRejected` | actions/util.go:54-63 | `-2,1a2` panics with `DuplicateAnchor` |
| `Parser.ParseRendered` | actions/util.go:15-46 | the token written for a parser-shaped action parses back to that action |
| `Parser.ParseRenderedDelete` | actions/util.go:15-20 | `-N` parses to a one-page delete of page `N` |
| `Parser.ParseRenderedInsert` | actions/util.go:21-46 | `XaY` and `XbY` parse to an insert of `X` pages after or before page `Y` |
| `Parser.SplitInsertToken` | actions/util.go:23-36 | a written insert token splits at its letter into the two numbers |
| `Parser.ParseRenderedAll` | actions/util.go:14-48 | a list of written tokens parses to the actions they were written from |
| `Parser.RenderedNoComma` | actions/util.go:12 | no written token holds a comma, so the tokens survive the split |
| `Parser.ParseRenderRoundTrip` | actions/util.go:9-52 | writing a parser-shaped list as comma-separated tokens and parsing it gives the list back |
| `FileNames.IndexNonNegative` | actions/util.go:124-142 | an index read from a name is never negative |
| `FileNames.DashNameIndex` | actions/util.go:125-132 | `<i>-<rest>` yields `i` |
| `FileNames.ExtensionNameIndex` | actions/util.go:133-141 | `<i><ext>` with a three-byte extension without `-` yields `i` |
| `FileNames.MultiByteExtensionIndex` | actions/util.go:135 | the bytes of `5.é` yield index 5: the last three bytes are dropped, not three characters |
| `SliceEngine.RunSlice` | actions/util.go:65-106 | sorts the caller's array in place, then returns exactly `Apply` on the sorted list, panicking where Go does: on a slice bound, or in `make` for an insert below page 0 or before page 0; also `run.go:200-248` |
| `SliceEngine.RunStep` | actions/util.go:69-101 | one loop iteration computes `Step`: the delete splice, or the insert splice with its count of factory calls; `make` of a negative length (util.go:78, :83) panics with `LengthOutOfRange`, a bad slice bound with `IndexOutOfRange` |
| `SliceEngine.PeelStep` | actions/util.go:68-103 | the descending traversal from `i` is the step at `i` after the traversal from `i + 1`, with the calls of the later actions counted first |
| `SliceEngine.PanicPropagates` | actions/util.go:68-103 | a panic at one step ends the whole run with that panic |
| `SliceEngine.Fresh` | actions/util.go:92-95 | the `n` values of consecutive factory calls from a given call, in call order |
| `SliceEngine.LengthLaw` | actions/util.go:65-106 | on success the output length is the input length plus inserted pages minus deleted pages |
| `SliceEngine.DeletePlacement` | actions/util.go:71-73 | a delete succeeds exactly when its range lies in the list, and removes exactly that range, keeping everything else in order; otherwise it panics on the slice bounds |
| `SliceEngine.InsertAfterPlacement` | actions/util.go:74-100 | an insert-after succeeds exactly when `0 <= pageNo <= len`, and places its new items right after page `pageNo` with everything else in order; below page 0 it panics in `make`, past the end on the slice bounds |
| `SliceEngine.InsertBeforePlacement` | actions/util.go:74-100 | an insert-before succeeds exactly when `1 <= pageNo <= len` (the after-shape is built first), and places its new items right before page `pageNo`; before page 0 or below it panics in `make`, past the end on the slice bounds |
| `SliceEngine.Provenance` | actions/util.go:65-106 | every output item is an input item or one of the factory's values |
| `SliceEngine.StepProvenance` | actions/util.go:69-101 | one step outputs only items it was given and the values of the calls it makes |
| `SliceEngine.MapSeq` | actions/util.go:108-122 | mapping a function over a list, position by position, as the `interface{}` conversions do |
| `SliceEngine.MapSeqPointwise` | actions/util.go:108-122 | a list holding `f` of each item position by position is the mapped list |
| `SliceEngine.DeleteNatural` | actions/util.go:71-73 | a delete does not look at the items: it commutes with mapping them |
| `SliceEngine.InsertNatural` | actions/util.go:74-100 | an insert commutes with mapping the items when the factories are related by the same map |
| `SliceEngine.StepNatural` | actions/util.go:69-101 | the same for either kind of step |
| `SliceEngine.ApplyNatural` | actions/util.go:65-106 | `runSlice` is generic: it succeeds on the mapped list exactly when on the list, giving the mapped result |
| `IndexRemap.RunLines` | actions/actions.go:186-229 | sorts the caller's array, then returns exactly `RunLinesResult`: one entry per file name, each the remap of the index the name encodes, or the first bad name's panic; also `run.go:70-119` |
| `IndexRemap.IdentityEntries` | actions/actions.go:189-193 | the first loop builds `OriginalIdx = NewIdx = idx`, not deleted, for every name, or panics at the first name without an index |
| `IndexRemap.RemapAll` | actions/actions.go:198-224 | the loop over the map, in any iteration order, rewrites every entry by the action's step and adds or drops no key |
| `IndexRemap.StepOne` | actions/actions.go:200-223 | visiting one key steps its entry whether or not the Go branch writes it back |
| `IndexRemap.RemapClosedForm` | actions/actions.go:195-226 | the original index never changes; an entry is deleted exactly when some delete covers it; its new index is its index plus each action's shift judged against the original index alone |
| `IndexRemap.InsertsNeverDelete` | actions/actions.go:212-224 | a list of inserts never marks anything deleted |
| `IndexRemap.FirstBadIndex` | actions/actions.go:190-193 | there is no bad name exactly when every name yields an index |
| `IndexRemap.FirstBadIndexCause` | actions/actions.go:190-193 | the reported panic is that of a name in the list |
| `IndexRemap.FirstBadIndexAt` | actions/actions.go:190-193 | the first bad name past a prefix of good names decides the panic |
| `IndexRemap.ExtendParsed` | actions/actions.go:190-193 | a prefix of good names extended by a good name stays good |
| `IndexRemap.MergeRelabel` | actions/merge.go:68-72 | `RunLines` with the single `Insert{off, 1, false}` moves every index up by `off` and deletes none |
| `IndexRemap.RenameAnnotations` | actions/actions.go:96-128 | the annotation half of `RunFile`: either `RunLines`' panic, or exactly the names `Written` gives |
| `IndexRemap.WriteSurvivors` | actions/actions.go:98-128 | the loop writes, in input order, every name not marked deleted, under `uuidNew/` with its new name |
| `IndexRemap.WrittenExactly` | actions/actions.go:98-128 | a name is written exactly when some input name survives and renames to it, both directions |
| `IndexRemap.WrittenIncludes` | actions/actions.go:103-107 | a surviving name is written under its new name |
| `IndexRemap.AnnotationSurvives` | actions/actions.go:97-107 | an annotation is marked deleted exactly when a delete covers its page, and is written when none does |
| `IndexRemap.RenamePrefix` | actions/actions.go:107 | when the old index's text occurs only at the front, the rename rewrites exactly that prefix |
| `IndexRemap.RenameRewritesEveryOccurrence` | actions/actions.go:107 | every occurrence of the old index's text is rewritten: `1-v1.json` moving to 3 becomes `3-v3.json` |
| `Agreement.KeptPagesAgree` | actions/util.go:65-106 | for accepted actions in any order, `runSlice` succeeds, every page `RunLines` (actions/actions.go:186-229) keeps is at its `NewIdx`, and every other position holds the value of one of the run's own `Calls(s)` factory calls |
| `Agreement.SortedKeptPagesAgree` | actions/util.go:65-106 | the same for a sorted list: kept page `i` is at output position `NewIdx` |
| `Agreement.SortedOutputAgrees` | actions/util.go:65-106 | every output position holds the kept page whose `NewIdx` it is, or the value of one of the run's own factory calls |
| `Agreement.SlotAgreement` | actions/util.go:65-106 | on tagged slots: no panic, kept pages at their `NewIdx`, every original slot left is kept at its `NewIdx`, and `Deleted` holds exactly when the page is gone |
| `Agreement.TracksAll` | actions/util.go:68-103 | the descending traversal of an accepted sorted list never panics and keeps the tracking invariant |
| `Agreement.DeleteTracks` | actions/util.go:71-73 | a delete below every later anchor succeeds and keeps the invariant |
| `Agreement.InsertTracks` | actions/util.go:74-100 | an insert below every later anchor succeeds and keeps the invariant |
| `Agreement.DeleteSlots` | actions/util.go:71-73 | after such a delete every original slot left is where the remap says |
| `Agreement.DeletePages` | actions/util.go:71-73 | after such a delete every page the remap keeps is at its new index |
| `Agreement.InsertSlot` | actions/util.go:74-100 | after such an insert every original slot is where the remap says |
| `Agreement.InsertPage` | actions/util.go:74-100 | after such an insert every page the remap keeps is at its new index |
| `Agreement.ShiftedPage` | actions/util.go:74-100 | the index arithmetic of an insert against the remap's shift |
| `Agreement.KeptPosition` | actions/actions.go:195-226 | under the invariant, a kept page below the lowest anchor has not moved and one above has not moved below it |
| `Agreement.TracksFacts` | actions/actions.go:195-226 | below the lowest anchor the remap is the identity |
| `Agreement.RemapCons` | actions/actions.go:195-226 | one more lower action steps the remap once more, last |
| `Agreement.SpliceIndex` | actions/util.go:98-99 | where each old item lands in a list with new items spliced in |
| `Agreement.TailAccepted` | actions/util.go:68 | the actions above the lowest one are still accepted and sorted, and the lowest anchor is strictly below the next |
| `Agreement.SortedAccepted` | actions/util.go:66 | sorting an accepted list keeps it accepted |
| `Agreement.ApplyAsFill` | actions/util.go:65-106 | `runSlice` on the items is `runSlice` on tagged slots with each slot filled in |
| `Agreement.OneOutput` | actions/util.go:65-106 | a filled slot is a kept page at its `NewIdx` or the value of one of the run's factory calls |
| `Agreement.NewSlotsBounded` | actions/util.go:92-95 | every new slot of a run is one of that run's `Calls(s)` factory calls |
| `Agreement.Originals` | actions/util.go:65 | the tagged input list: slot `i` is original page `i` |
| `Agreement.CoveredAnchorBreaksAgreement` | actions/util.go:65-106 | deleting pages 1-2 of three while inserting before page 2: `runSlice` keeps original page 2, which `RunLines` marks deleted |
| `Agreement.CounterexampleShape` | actions/util.go:54-63 | the counterexample meets every condition but the last |
| `Agreement.CounterexampleRun` | actions/util.go:65-106 | `runSlice` on it removes the new blank page and keeps original page 2 |
| `Agreement.CounterexampleRemap` | actions/actions.go:198-210 | `RunLines` marks original page 2 of it deleted |
| `Agreement.CounterexampleSorted` | actions/actions.go:19-26 | its actions are already in page order |
| `Documents.ParseShape` | document/util.go:20-24 | reading panics exactly on an empty file; otherwise there is one line more than newlines before the last byte, and no line holds a newline |
| `Documents.MultiBytePagedata` | document/util.go:23 | the bytes of `aé` read as the single line `a` followed by the byte 0xC3: only the last byte is dropped |
| `Documents.ParseSerialize` | document/document.go:194-195 | writing then reading gives back at least one newline-free line |
| `Documents.SerializeParse` | document/util.go:20-24 | reading then writing replaces the last byte by a newline: the file comes back exactly when it ends in one |
| `Documents.EmptyPagedata` | document/document.go:195 | no lines are written as a lone newline, which reads back as one empty line |
| `Documents.ParsedLineCount` | document/util.go:20-24 | a file ending in a newline reads as one line per newline |
| `PageFiles.CountPages` | actions/actions.go:253-263 | the count loop gives the old count plus inserted minus deleted pages |
| `PageFiles.SortAndCount` | actions/actions.go:245-263 | sorts in place, then counts on the sorted list |
| `PageFiles.RunContent` | actions/actions.go:244-287 | sorts the caller's array, then returns exactly `ContentAfter`: the new count, `runSlice` over the page ids with fresh uuids for new pages, other fields kept |
| `PageFiles.ContentNoActions` | actions/actions.go:244-287 | with no actions the record comes back unchanged |
| `PageFiles.ContentStaysConsistent` | actions/actions.go:265-280 | a record whose count matches its pages still does afterwards; the count moves by the net change and the other fields are untouched |
| `PageFiles.ContentAgrees` | actions/actions.go:271-280 | for accepted actions, every kept page keeps its id at its `RunLines` index and every other page has the id of one of the run's uuid calls |
| `PageFiles.RunPagedata` | actions/actions.go:232-241 | sorts the caller's array, then returns exactly `PagedataAfter`: split at newlines, `runSlice` with `"Blank"` for new lines, joined again; also `run.go:121-144` |
| `PageFiles.PagedataNoActions` | actions/actions.go:232-241 | with no actions the pagedata comes back unchanged |
| `PageFiles.LinesHaveNoNewline` | actions/actions.go:235-238 | no transformed line holds a newline |
| `PageFiles.PagedataLines` | actions/actions.go:235-240 | the written file splits back into exactly the transformed lines, whose number is the old one plus the net change |
| `PageFiles.PagedataKeepsFinalNewline` | actions/actions.go:232-241 | a file ending in a newline still does after accepted actions, unless every page is deleted, when the result is `""` |
| `PageFiles.FinalNewline` | actions/actions.go:235-240 | the same for any pieces whose last one is empty |
| `PageFiles.LastPieceKept` | actions/util.go:65-106 | the piece after the last page is never deleted and ends up last |
| `PageFiles.LastIndexShift` | actions/actions.go:195-226 | an index at or past the last page moves by the full net change |
| `PageFiles.TerminatedPieces` | actions/actions.go:235 | a file ending in a newline splits into its lines plus an empty last piece |
| `PageFiles.JoinEmptyLast` | actions/actions.go:240 | joining lines whose last one is empty ends in a newline unless that is the only line |
| `Legacy.RunActionsContent` | run.go:146-198 | sorts the caller's array, then returns exactly `LegacyContentAfter`: ids from the first factory calls, new pages from the calls after them |
| `Legacy.OverwriteIds` | run.go:177-180 | every page id becomes the value of the factory call with its position |
| `Legacy.EveryIdIsFresh` | run.go:177-188 | every page id in the result is a fresh uuid and no original id survives |
| `Legacy.LegacyReplacesIds` | run.go:177-180 | with no actions, `RunContent` keeps the record while the legacy engine still replaces every id |
| `Legacy.LegacyIsContentOnFreshIds` | run.go:161-191 | otherwise the legacy engine is `RunContent` run on a record of fresh ids, with the same page count |
| `Legacy.LegacyUnfold` | run.go:173-191 | the method's pieces assemble into `LegacyContentAfter` |
| `Merge.MergeSlices` | actions/merge.go:114-120 | the result is the slices' concatenation |
| `Merge.ConcatAppend` | actions/merge.go:114-120 | concatenation distributes over joining lists of slices |
| `Merge.ConcatLength` | actions/merge.go:114-120 | the result holds every item: its length is the total |
| `Merge.ConcatPosition` | actions/merge.go:114-120 | item `j` of slice `d` sits after all items of the slices before it |
| `Merge.ConcatNils` | actions/merge.go:37 | nil slices add nothing |
| `Merge.ConcatPadded` | actions/merge.go:37-41 | padding the list of slices with nils changes nothing |
| `Merge.Nils` | actions/merge.go:37 | what `make` fills a slice of slices with |
| `Merge.Collect` | actions/merge.go:37-41 | `make` of a negative size panics; a size below the number of documents panics at the first index past it; otherwise the documents' slices padded with nils |
| `Merge.PagesOf` | actions/merge.go:38-40 | each document's page ids, in order |
| `Merge.PagedataOf` | actions/merge.go:44-46 | each document's pagedata lines, in order |
| `Merge.Relabel` | actions/merge.go:62-72 | the names `RunLines` is given are those of the map; it succeeds exactly when every name parses, moving each index up by `off` |
| `Merge.ListKeys` | actions/merge.go:63-66 | the listed names are exactly the map's keys |
| `Merge.StoreAll` | actions/merge.go:74-78 | in any iteration order, every file is stored under its renamed name and every other key keeps its old value |
| `Merge.StoreOne` | actions/merge.go:74-78 | storing one more file keeps that description |
| `Merge.StoreKey` | actions/merge.go:77 | one entry after a store: renamed from a stored file, or unchanged |
| `Merge.StoreKeys` | actions/merge.go:77 | the keys after a store gain exactly the new name |
| `Merge.StoredNothing` | actions/merge.go:60 | before any store the map is the one given |
| `Merge.NamesInMember` | actions/merge.go:76 | a stored file contributes its new name |
| `Merge.NamesInAdd` | actions/merge.go:76 | adding a file adds its new name |
| `Merge.FromFileGrows` | actions/merge.go:74-78 | a file stored earlier is still a witness later |
| `Merge.RenameDocFiles` | actions/merge.go:62-78 | one document: succeeds exactly when its names parse, reports a bad name's panic, and stores each file under its new name |
| `Merge.OffsetStep` | actions/merge.go:80 | the rolling count before document `d + 1` is that before `d` plus `d`'s pages |
| `Merge.ExtendMerged` | actions/merge.go:61-81 | storing document `d`'s files over the merged map of the documents before it gives the map of the first `d + 1` |
| `Merge.MergeRmFiles` | actions/merge.go:59-81 | the annotation map holds every renamed name of every document; on a clash the last document writing it wins |
| `Merge.NameSets` | actions/merge.go:59-81 | each document's renamed annotation names |
| `Merge.Owner` | actions/merge.go:59-81 | the last document producing a key, or none |
| `Merge.OwnerIsLast` | actions/merge.go:59-81 | a key is merged exactly when some document produces it, and then the last one that does owns it |
| `Merge.MergeDocuments` | actions/merge.go:17-84 | panics on no documents, on a negative or too-small slice size, or on a bad name; otherwise the merge has the first document's fields, the total count, the concatenated pages and pagedata, and the merged annotations |
| `Merge.MergeFiles` | actions/merge.go:17-84 | as written: succeeds exactly when there is a document, the page total is at least the number of documents, and every name parses |
| `Merge.MergeFilesCorrected` | actions/merge.go:17-84 | with one slot per document: succeeds exactly when there is a document and every name parses |
| `Merge.EmptyFirstDocumentRejected` | actions/merge.go:37-45 | a 0-page document followed by a 1-page one panics as written and merges when sized by documents |
| `Merge.LengthsArePageCounts` | actions/merge.go:31-35 | for consistent records the page lists add up to the total count |
| `Merge.MergedPagePosition` | actions/merge.go:31-41 | the merged record is consistent, and page `j` of document `d` is merged page `Offset(d) + j` |
| `Merge.MergedAnnotationName` | actions/merge.go:68-78 | annotation `<i>-<rest>` of document `d` is stored as `<Offset(d) + i>-<rest>`, the position its page lands at |

## Left out

- `RunPdf`, `runActionsPdf` and `mergePdfs`: they call the pdfcpu library, whose page operations are not part of this model; the PDF branch of `RunFile` is left out with them.
- `RunFile`'s zip handling (opening, copying, renaming top-level files by uuid) and `WriteToFile`'s zip output: I/O. Only the annotation rename/drop loop and the pagedata format are modelled.
- JSON decoding and encoding of `.content`: the record is `pageCount`, `pages` and an opaque map of the other fields; a JSON error is not modelled.
- `FromZipFilePdf`, `FromZipReaderPdf`, `ToPdfDoc` and `getPdfDocsFromFiles`: zip I/O; a merge starts from documents already read.
- uuid generation: the factory is a parameter `gen`, call `k` giving `gen(k)`; `RunFile`'s and `MergeFiles`' new document uuid is a parameter.
- Logging (`fmt.Println`, including of every document in `MergeFiles`): no effect on results.
- `cloud/` and `main.go`: command-line and network front ends.
- Go slice aliasing: `runSlice` is modelled on values; the copies the Go code makes (util.go:77-87) exist to avoid aliasing, so values are what it computes.
- int64 overflow of the page arithmetic (`NewIdx`, page counts, the rolling sum): integers are unbounded; `Atoi` does reject text outside the 64-bit range.
- Negative counts: the engines require `NonNegativeCounts`. The parser never builds a negative count, and a merge's insert counts pages; a negative insert count in Go would make `make` or the loop behave differently.
- SliceEngine.RunSlice: the order in which Go's unstable `sort.Slice` leaves actions with equal anchors is not modelled; with distinct anchors (all the parser accepts) the order is forced and is `SortByPage`.
- The panic message of `checkActions` (its `%i` verb is a formatting defect only) and every other panic message: only the cause is modelled.

## Findings

| source | as written | input that shows it | evidently intended | confidence | as-written member | corrected member |
|---|---|---|---|---|---|---|
| actions/merge.go:37 | `allPages` and `allPagedata` (line 43) have `totalPageCount` slots, but are indexed by document | two documents, the first with 0 pages and the second with 1: one slot, and storing the second document's slice is out of range | `len(pdfDocs)` slots, one per document | not executed | `Merge.MergeFiles`, `Merge.EmptyFirstDocumentRejected` | `Merge.MergeFilesCorrected` |
