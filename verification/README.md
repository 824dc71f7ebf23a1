# Verified model of the MNCS language service's core algorithms

This project models, in Dafny, the parts of the language service where a fast, stateful or incremental algorithm
has to agree with a simple one, and proves that it does: on every input, in every run, or exactly where it does
not. Texts are sequences of Unicode scalars; where the service works on bytes, so does the model, through the
UTF-8 encoding of section 3 of RFC 3629. Columns count UTF-16 units (section 2.1 of RFC 2781), as in the
"Position" section of LSP 3.17.

The groups, each with its files:

- **Coordinates** (`Utf8`, `CoordinateKernel`, `Positions`, `SourceLines`, `LineIndexing`, `Coords`, `PositionLaws`,
  `Encodings`, `PositionMeaning`, `RefusedLookups`): the line table, the chunks, their packed checkpoints, the windows
  and their caches, against a plain left-to-right scan. The kernel's two functions are written out from their source.
  The scalar decoder they call is not part of this model: it is taken to decode well-formed text, and what it does
  with a scalar cut off at the end of its view is left open: `CutTail` is an arbitrary function of the bytes that are
  left, which refuses them or takes them as a scalar of one or two units. All coordinate results hold for every such
  function, and say exactly when an answer is refused. `Encodings` has a strict UTF-8 decoder and a UTF-16 encoder and
  decoder of its own; `PositionMeaning` says with them what a position means, without any scan, and `RefusedLookups`
  when a lookup is refused, without any index.
- **Text edits** (`Edits`, `EditMeaning`): ranged edits and full replacements over those coordinates.
- **Formatter** (`Format`, `FormatText`, `FormatLines`, `FormatLaws`, `FormatTwice`, `FormatKeeps`,
  `RangeFormatting`, `FormatPlaces`, `FormatDepths`): the line state machine on every text, not only on ASCII. `None`
  stands for the panic of a slice inside a character. `FormatPlaces` describes the result without the state machine,
  by the code outside comments and its brackets.
- **Workspace index** (`Ordered`, `Buckets`, `WorkspaceEntries`, `WorkspaceGlobals`, `WorkspaceScans`,
  `OccurrenceRanges`, `WorkspaceAnswers`, `WorkspaceIndexes`): entries, the eight global maps kept in place, lookups
  against a scan of the documents and against the documents' own symbols and references.
- **Event stream** (`Events`, `EventRuns`): the bounded hub, and runs of producer, consumer, checkpoint, restart from
  it and restart into a fresh stream.
- **Document store** (`Directories`, `Documents`, `DocumentStores`, `DocumentRuns`, `DocumentCycles`): open, change,
  save, close, load, refresh, discovery by directory walk, reconcile and module scan, with the module directory and the
  two counters. `DocumentCycles` says what whole cycles of operations answer.
- **Capsule** (`CapsuleKernel`, `Capsule`, `CapsuleMerge`): the ordering kernel, the check of its result, and the
  chunk-wise selection of the best findings. The shared numeric sort the kernel imports is not part of this model;
  `SortUp` has its contract.
- **TextMate subset** (`Grammars`, `Tokenizers`, `TokenizerLaws`, `TokenizerScopes`, `TokenizerDocuments`): group
  flattening and the tokenization engine over an arbitrary regex oracle. `TokenizerScopes` says which rule is taken,
  which regions are open and which scopes a token has from the rules alone, without the highlighter's stack.
- **Completion** (`Completions`): the batched collector.

`Outcomes` holds the optional values and fallible answers used throughout.

## Where the code and its documentation differ

The model follows the code. Each difference is proved with a concrete input and an exact condition.

- Formatting twice is not always formatting once: `FormatTwice.Idempotent` gives the exact condition,
  `FormatKeeps.HiddenClose` and `FormatKeeps.LoneReturn` two texts that fail it, `FormatTwice.Settles` shows that a
  third pass never changes anything, and `FormatKeeps.NotAscii` shows the panic on a character outside ASCII.
- An edit of a range names its span twice. The byte spans always amount to formatting the lines of the range, and only
  them (`RangeFormatting.ByteEditsExact`, `RangeFormatting.WholeRangeBytes`). The lines and columns do so exactly when
  no line of the range that is to be changed ends in a return and a newline (`RangeFormatting.RangeRebuilt`,
  `RangeFormatting.WholeRange`): such a line keeps its old return beside the new one (`RangeFormatting.TornLine`).
- A ranged edit behind a full replacement in one notification is dropped (`DocumentRuns.ShortcutLoses`), which changes
  nothing exactly when the edits behind the replacement change nothing (`DocumentRuns.ShortcutExact`).
- `occurrences_for_declaration` answers by key first, not by URI: the answer is in URI order exactly when no two uses it
  finds have their documents and their spellings in opposite orders (`OccurrenceRanges.UriOrderExactly`,
  `OccurrenceRanges.NotUriOrder`). It finds every use exactly when none is spelt past its upper key
  (`OccurrenceRanges.RangeScan`, `OccurrenceRanges.SpeltPastLast`).
- `lookup_function` gives the first function of a name in each document: all of them exactly when no document has two
  (`WorkspaceScans.FunctionsExactly`, `WorkspaceScans.RepeatedFunction`,
  `WorkspaceIndexes.WorkspaceIndex.LookupFunction`).
- A consumer that is past the checkpoint a service restarts from can be served again without noticing the loss: the
  restart is safe exactly when the checkpoint is another stream's or the consumer is not past it
  (`EventRuns.RestartSafe`), and every consumer can get past it in three steps (`EventRuns.OvertakenRestart`).
- The end match of a region is said to carry the rule's name. A region with a content name and no name of its own puts
  the content name there, which its begin match does not carry: the two agree exactly when the rule has a name or the
  region no content name (`TokenizerDocuments.EndCarriesName`, `TokenizerDocuments.CommentScopes`).
- A newline at the end of a text opens one more, empty line, though the comment on the line table says it does not
  (`SourceLines.FinalNewline`, `SourceLines.FinalNewlineExample`).
- A lookup on a long line is refused when a scalar straddles the end of a kernel view and the decoder refuses what is
  left of it (`Coords.PositionMap.PositionOf`, `PositionLaws.RefusedExample`, `RefusedLookups.PositionRefusedMeans`).

## Model

| member | source | states |
|---|---|---|
| CoordinateKernel.PackLossless | crates/service-core/src/coords.rs:76-79 | packing a checkpoint into 32 bits and unpacking it gives units and byte back, within the bounds a chunk keeps |
| CoordinateKernel.PackWindowLossless | crates/service-core/src/coords.rs:81-84 | the same for a window entry in 16 bits |
| CoordinateKernel.PositionChunk | mncs/coordinate_map.mncs:52-110 | the chunk consumes the highest scalar boundary at or below its target, with the units before it; checkpoint k is the scalar start at or below byte 64k; invalid exactly when the last scalar is cut off and the decoder refuses its bytes |
| CoordinateKernel.CoordinateWindowFor | mncs/coordinate_map.mncs:114-158 | one entry per byte: the scalar start at or below it and the units before it |
| CoordinateKernel.NativePositionChunk | crates/service-core/src/native_coords.rs:281-321 | the host's checks on a chunk never reject what the kernel returns for a well-formed view, apart from a refused cut scalar |
| CoordinateKernel.NativeCoordinateWindow | crates/service-core/src/native_coords.rs:323-341 | the same for windows |
| Positions.ReferencePositionIs | crates/service-core/src/coords.rs:374-394 | the plain scan over scalars is the line number, the units since the line start and the snapped byte of the encoded text, for every offset |
| Positions.ReferenceOffsetIs | crates/service-core/src/coords.rs:395-417 | the plain walk to a line and column is the first scalar boundary of the clamped line with at least that many units, or the line's content end |
| SourceLines.NextStartOf | crates/service-core/src/coords.rs:87-102 | neighbouring entries of the line table are the two ends of one line, the last one reaching the end of the text |
| SourceLines.FinalNewline | crates/service-core/src/coords.rs:87-102 | the table has one line more than there are lines with a byte in them, an empty one at the end of the text, exactly when the text ends in a newline |
| SourceLines.FinalNewlineExample | crates/service-core/src/coords.rs:95-97 | the comment's own example has two table entries, 0 and 4 |
| SourceLines.LineEndIs | crates/service-core/src/coords.rs:329-344 | `line_end_exclusive` is the end of the line's content, without its line end |
| LineIndexing.Progress | crates/service-core/src/coords.rs:212-259 | every chunk takes at least one byte of what is left of the line |
| LineIndexing.ByteLookup | crates/service-core/src/coords.rs:141-150 | the checkpoint a byte falls under opens a window that covers the byte |
| LineIndexing.ColumnLookup | crates/service-core/src/coords.rs:177-182 | the last checkpoint with at most the wanted units is where the column's window starts |
| LineIndexing.WindowColumn | crates/service-core/src/coords.rs:183-189 | the first window entry with enough units is the first scalar boundary of the line with enough units: the two nested searches lose nothing |
| LineIndexing.ByteChunk | crates/service-core/src/coords.rs:308-318 | the chunk found for a byte is the one that contains it |
| LineIndexing.ColumnChunk | crates/service-core/src/coords.rs:320-327 | the chunk found for a column is the one that contains it |
| Coords.BuildChunks | crates/service-core/src/coords.rs:212-259 | the chunks of a line tile it in order, each with its checkpoints; refused exactly when some chunk's view is cut inside a scalar and the decoder refuses what is left of it |
| Coords.BuildWindow | crates/service-core/src/coords.rs:261-306 | the window of a checkpoint, written down for ASCII or taken from the kernel, has the exact entry of every byte |
| Coords.LineIndex.Window | crates/service-core/src/coords.rs:261-306 | a cached window is the built one, and building one keeps every cached window exact |
| Coords.LineIndex.AtByte | crates/service-core/src/coords.rs:139-157 | the scalar start and units of a byte of a line, whatever is cached; the window entry read is in range |
| Coords.LineIndex.AtColumn | crates/service-core/src/coords.rs:174-190 | the first boundary of a line with at least the wanted units, whatever is cached |
| Coords.PositionMap.constructor | crates/service-core/src/coords.rs:87-102 | the line table built byte by byte is the text's |
| Coords.PositionMap.BuildLineIndex | crates/service-core/src/coords.rs:212-259 | the index of a line holds its chunks and its units |
| Coords.PositionMap.LineIndexFor | crates/service-core/src/coords.rs:192-210 | a cached line index is the built one, and the cache stays exact |
| Coords.PositionMap.PositionOf | crates/service-core/src/coords.rs:116-158 | for every text, offset and cache state the answer is the plain scan's, whose meaning `PositionMeaning.PositionMeans` states; it is refused exactly when the predicate of the line's views says so |
| Coords.PositionMap.OffsetOf | crates/service-core/src/coords.rs:166-190 | for every text, line, column and cache state the answer is the plain walk's, whose meaning `PositionMeaning.OffsetMeans` states; likewise refused |
| Coords.PositionMap.RangeOf | crates/service-core/src/coords.rs:346-357 | a span is answered by the plain scan's positions of its two ends, an end before the start counting as the start; refused exactly when one of them is |
| PositionLaws.PositionMonotone | crates/service-core/src/coords.rs:116-158 | a later byte never gets an earlier position |
| PositionLaws.RoundTrip | crates/service-core/src/coords.rs:116-190 | going to a position and back gives the scalar start at or below the byte exactly when the byte is not past its line's content |
| PositionLaws.AbsorbingAnswers | crates/service-core/src/native_coords.rs:281-341 | with a decoder that takes every cut scalar no chunk or window is ever refused |
| PositionLaws.AsciiAnswers | crates/service-core/src/coords.rs:224-236 | on ASCII lines no chunk is ever refused |
| PositionLaws.RefusedExample | crates/service-core/src/coords.rs:237-250 | a text for whose first byte the answer is refused exactly when the decoder refuses the first two bytes of one four-byte scalar |
| Encodings.DecodesEncoded | crates/service-core/src/coords.rs:374-417 | decoding the UTF-8 bytes of a text, strictly as section 3 of RFC 3629 asks, gives the text back |
| Encodings.EncodeInjective | crates/service-core/src/edits.rs:36-59 | texts with the same bytes are the same |
| Encodings.OrderIsBytes | crates/service-core/src/workspace_index.rs:305-319 | the order of texts is the order of their UTF-8 bytes, which the ordered collections go by |
| Encodings.DecodesUtf16 | crates/service-core/src/coords.rs:385-413 | one unit below 0x10000, else a high and a low surrogate computed from the value; decoding the units gives the text back |
| PositionMeaning.PositionMeans | crates/service-core/src/coords.rs:116-158 | for every text and byte: the line is the number of newlines before the snapped scalar, the character the length of the UTF-16 encoding of the scalars before it on its line, the byte the length of the UTF-8 encoding of all before it |
| PositionMeaning.OffsetMeans | crates/service-core/src/coords.rs:166-190 | for every text, line and column: the first place of the line, or the last line, with at least that many units of UTF-16 before it, or the end of the line's content, as a number of UTF-8 bytes |
| PositionMeaning.EuroAndClef | crates/service-core/src/coords.rs:374-417 | "€x" and "𝄞x": one unit for the first character of one, two for that of the other, and back |
| RefusedLookups.ChunksCut | crates/service-core/src/coords.rs:212-259 | the chunks end at the last scalar boundary within 1020 bytes each; building them is refused exactly when a chunk that is not ASCII, read three bytes further, ends inside a scalar the decoder refuses there |
| RefusedLookups.PositionRefusedMeans | crates/service-core/src/coords.rs:116-158 | a position is refused exactly when a chunk of its line is, or when the 70 bytes from the byte's last checkpoint, every 64 bytes of its chunk, end inside a scalar the decoder refuses there |
| RefusedLookups.OffsetRefusedMeans | crates/service-core/src/coords.rs:166-190 | an offset likewise, by the last checkpoint of its chunk with at most that many units before it |
| Edits.ApplyOne | crates/service-core/src/edits.rs:44-59 | the bytes after one change are the encoding of the text with the span between two scalar boundaries replaced |
| Edits.ApplyChanges | crates/service-core/src/edits.rs:36-42 | the same for a list of changes, one after the other |
| Edits.KeepsOutside | crates/service-core/src/edits.rs:44-59 | both ends of an edit are scalar boundaries in order, and everything outside them is kept |
| Edits.SwapsEnds | crates/service-core/src/edits.rs:50-52 | a reversed range means the same edit |
| Edits.EditsCompose | crates/service-core/src/edits.rs:36-42 | applying two lists after each other is applying their concatenation |
| Edits.AddressableIs | crates/service-core/src/edits.rs:45-49 | the position of a scalar that is not the newline of a return-newline pair leads back to that scalar |
| Edits.Undo | crates/service-core/src/edits.rs:36-59 | replacing what an edit put in by what it took out gives the text back, when both ends can be addressed |
| EditMeaning.EditMeans | crates/service-core/src/edits.rs:44-59 | the places a range names, by newlines and UTF-16 units, whichever comes first: what stands between them is replaced and all else stays |
| EditMeaning.OneByOne | crates/service-core/src/edits.rs:36-42 | each change is made to the text the ones before it left |
| EditMeaning.ChangesMean | crates/service-core/src/document.rs:731-756 | a notification comes to the text of its last full replacement, or to its edits when it has none |
| Format.ScanLine | crates/service-core/src/format.rs:238-294 | the byte-wise scan gives leading closes, net opens and comment state of the line, and panics exactly when it meets a character outside ASCII before a line comment |
| Format.IndentLines | crates/service-core/src/format.rs:153-177 | every line is placed by what the trimmed lines before it opened |
| Format.SqueezeLines | crates/service-core/src/format.rs:178-198 | blank runs collapse to one line and none is left at either end |
| Format.SqueezedIndented | crates/service-core/src/format.rs:153-198 | indenting and squeezing commute, so blank lines never change a line's place |
| Format.FormatText | crates/service-core/src/format.rs:139-206 | the loop's result is the canonical lines of the text with the line end the text used, or the panic of one of its lines; what those lines are, `FormatPlaces.FormatIs` states |
| FormatText.SplitLay | crates/service-core/src/format.rs:144-151 | splitting a laid-out text gives its lines back |
| FormatText.ExpandLay | crates/service-core/src/format.rs:199-206 | turning newlines into return-newlines adds a return to every line |
| FormatText.LayInjective | crates/service-core/src/format.rs:199-206 | different lines make different texts |
| FormatLines.ContentScan | crates/service-core/src/format.rs:238-294 | what a line opens and closes depends only on its content; its margin matters only for leading closes |
| FormatLines.PlacedAgain | crates/service-core/src/format.rs:156-177 | placing a placed line again moves it exactly when its margin hid a leading close |
| FormatLines.ScanTail | crates/service-core/src/format.rs:238-294 | whitespace behind a line changes neither its depth nor its comment state |
| FormatLaws.IndentedAgain | crates/service-core/src/format.rs:153-177 | indenting indented lines again changes nothing exactly when no margin hides a close |
| FormatLaws.SqueezedScannable | crates/service-core/src/format.rs:178-198 | squeezing introduces no panic |
| FormatLaws.ReturnAgain | crates/service-core/src/format.rs:143-151 | a line that ends in a return comes back from the second pass exactly when it is tight and in place |
| FormatTwice.Idempotent | crates/service-core/src/format.rs:1-12 | formatting the result never panics, and changes nothing exactly when the text has no hidden close and no return that only formatting turns into a line end, or all its lines end tightly in one |
| FormatTwice.Settles | crates/service-core/src/format.rs:136-139 | for every text a third pass gives what the second gave |
| FormatTwice.FormattedSettled | crates/service-core/src/format.rs:136-139 | every formatted text meets the condition |
| FormatKeeps.KeepsContents | crates/service-core/src/format.rs:1-7 | the sequence of trimmed, non-blank lines is kept |
| FormatKeeps.FormattedShape | crates/service-core/src/format.rs:136-138 | no adjacent blank lines, none at either end, no trailing blanks, margins of whole levels of spaces, every line ended by the line end of the text |
| FormatKeeps.PlainIdempotent | crates/service-core/src/format.rs:343-357 | on ASCII texts whose only whitespace is space, tab, newline and return-newline the formatter answers and is idempotent |
| FormatKeeps.NotAscii | crates/service-core/src/format.rs:244-257 | a text on which the scan panics |
| FormatKeeps.HiddenClose | crates/service-core/src/format.rs:238-294 | a text whose second formatting differs: a form feed before a close bracket |
| FormatKeeps.LoneReturn | crates/service-core/src/format.rs:143-151 | a text whose second formatting differs: a lone return at its end |
| FormatPlaces.CutIsLines | crates/service-core/src/format.rs:144-151 | the lines are what stands between newlines, each without a return at its end |
| FormatPlaces.ScanFinds | crates/service-core/src/format.rs:238-294 | whatever state a line is entered in, the scan counts `{` and `[` against `}` and `]` in the code outside comments, and finds whether a close leads that code |
| FormatPlaces.StateIs | crates/service-core/src/format.rs:153-177 | the depth before a line is the balance of brackets in the code of the lines before it, measured from its lowest point |
| FormatPlaces.PlacedIs | crates/service-core/src/format.rs:156-177 | a line stands four spaces in for each level, one level less when it leads with a close and one more when its first word, but for colons behind it, is one of the nine clause words |
| FormatPlaces.SqueezeIs | crates/service-core/src/format.rs:178-198 | one pass that puts a single blank line between blocks gives what the three loops give |
| FormatPlaces.FormatIs | crates/service-core/src/format.rs:136-206 | for every text the formatter answers for, its whole result, from the text's lines, code and brackets alone |
| FormatPlaces.PanicsExactly | crates/service-core/src/format.rs:238-294 | it panics exactly when some line has a character outside ASCII before a line comment |
| FormatDepths.MatchedDepth | crates/service-core/src/format.rs:262-268 | in a text whose brackets match pair by pair the depth of a line is the number of brackets open at its start, and at the end it is zero |
| FormatDepths.MatchedPlaces | crates/service-core/src/format.rs:156-177 | such a text has every line four spaces in for each bracket open at its start, less four when it leads with a close, plus four when it is a clause |
| FormatDepths.SquaresKeepDepth | crates/service-core/src/format.rs:262-268 | a pair of square brackets inside a brace leaves the next line's depth as it was |
| RangeFormatting.RangeFormat | crates/service-core/src/format.rs:63-133 | already formatted, unsupported, or exactly the whole-line edits of the touched lines, each with its lines, columns and bytes; refused exactly when formatting panics or a touched line's lookup is refused |
| RangeFormatting.LineEdits | crates/service-core/src/format.rs:102-117 | the loop's edits name each touched line from column zero to its units, and from its first byte to its last |
| RangeFormatting.LineRange | crates/service-core/src/format.rs:109-115 | a line's start and end bytes have that line, column zero and the line's units, and those same bytes, as positions, also past a return |
| RangeFormatting.EditHere | crates/service-core/src/format.rs:109-116 | a whole-line edit replaces what positions can address of the line and keeps everything else |
| RangeFormatting.EditsPatch | crates/service-core/src/format.rs:36-40 | applying a range's edits one after the other by line and column patches exactly the touched lines, a return before the newline staying |
| RangeFormatting.SplicesFrom | crates/service-core/src/format.rs:102-117 | from every line on the byte spans lie in order, and replacing them gives the remaining lines with those of the range formatted |
| RangeFormatting.ByteEditsExact | crates/service-core/src/format.rs:36-40 | for every text and range with equal line counts, replacing the byte spans in the text's bytes gives exactly the text with the range's lines formatted |
| RangeFormatting.WholeRangeBytes | crates/service-core/src/format.rs:36-40 | so the byte edits of the whole document rebuild the formatted text, whatever its line ends |
| RangeFormatting.RangeRebuilt | crates/service-core/src/format.rs:36-40 | the line and column edits of any range give that text exactly when no line of the range that is to be changed ends in a return and a newline |
| RangeFormatting.WholeRange | crates/service-core/src/format.rs:36-40 | the line and column edits of the whole document rebuild the formatted text exactly when no line to be changed ends in a return and a newline |
| RangeFormatting.WholeRangePlain | crates/service-core/src/format.rs:59-62 | so they do for every text without return-newlines |
| RangeFormatting.OutsideStays | crates/service-core/src/format.rs:59-62 | lines outside the range stay character for character |
| RangeFormatting.TornLine | crates/service-core/src/format.rs:102-117 | a text whose line and column edits leave two returns, and whose byte edits leave one |
| Ordered.AscendingOnly | crates/service-core/src/workspace_index.rs:305-319 | the in-order enumeration of an ordered set is the only strictly sorted one |
| Ordered.InOrder | crates/service-core/src/workspace_index.rs:457-462 | iterating an ordered set gives its elements once, ascending |
| WorkspaceEntries.Build | crates/service-core/src/workspace_index.rs:135-262 | one pass over symbols and references gives, per key, the ascending list of its indexes, or its first index, and the exported names |
| WorkspaceEntries.BuildOccurrences | crates/service-core/src/workspace_index.rs:158-186 | the same for references |
| Buckets.RemoveFromBucket | crates/service-core/src/workspace_index.rs:567-574 | removing a contribution gives the inverted map of the others, without an empty bucket |
| Buckets.InsertIntoBucket | crates/service-core/src/workspace_index.rs:340-344 | adding a contribution gives the inverted map of all of them |
| Buckets.GroupDrop | crates/service-core/src/workspace_index.rs:397-406 | taking a document's values out of a bucket, and the bucket out when empty, is rebuilding without them |
| WorkspaceGlobals.InsertListed | crates/service-core/src/workspace_index.rs:346-357 | the loop over an entry's list map adds exactly its sites |
| WorkspaceGlobals.RemoveListed | crates/service-core/src/workspace_index.rs:397-416 | the loop takes exactly its sites out |
| WorkspaceGlobals.RebuildAdd | crates/service-core/src/workspace_index.rs:337-388 | rebuilding with one more entry is adding its contributions to all eight maps |
| WorkspaceGlobals.RebuildDrop | crates/service-core/src/workspace_index.rs:390-448 | rebuilding without an entry is taking exactly its contributions out |
| WorkspaceIndexes.WorkspaceIndex.Publish | crates/service-core/src/workspace_index.rs:337-388 | the entry replaces the document's old one and all eight maps are the rebuilt ones |
| WorkspaceIndexes.WorkspaceIndex.Remove | crates/service-core/src/workspace_index.rs:390-448 | the entry is gone and all eight maps are the rebuilt ones |
| WorkspaceIndexes.WorkspaceIndex.LookupIdentity | crates/service-core/src/workspace_index.rs:450-454 | the first claim that a scan of all symbols of all documents in URI order meets: the symbol with that identity before all others with it, or none when there is none |
| WorkspaceIndexes.WorkspaceIndex.LookupDeclarations | crates/service-core/src/workspace_index.rs:456-462 | exactly the scan's declarations with that key: every symbol that has it, by URI and then by index |
| WorkspaceIndexes.WorkspaceIndex.LookupOccurrences | crates/service-core/src/workspace_index.rs:464-481 | exactly the scan's uses with that key, by URI and then by index, each with its reference's range and enclosing function |
| WorkspaceIndexes.WorkspaceIndex.OccurrencesForDeclaration | crates/service-core/src/workspace_index.rs:483-520 | every bucket of the key range, in key order: exactly the references of that span and kind not spelt past the last spelling, each with its range and enclosing function |
| WorkspaceIndexes.WorkspaceIndex.LookupFunction | crates/service-core/src/workspace_index.rs:522-528 | the first function of that name in each document, in URI order; every function of that name exactly when no document has two |
| WorkspaceIndexes.WorkspaceIndex.LookupType | crates/service-core/src/workspace_index.rs:530-536 | exactly the scan's types of that name: every finite type and every record type, by URI and then by index |
| WorkspaceIndexes.WorkspaceIndex.ExportersOf | crates/service-core/src/workspace_index.rs:538-545 | exactly the modules and documents with a top-level function, finite type or record type of that name, once each, by module and then URI |
| WorkspaceIndexes.WorkspaceIndex.ImportersOf | crates/service-core/src/workspace_index.rs:547-554 | exactly the documents with an edge to the document, once each, by URI |
| WorkspaceIndexes.WorkspaceIndex.ExternalDepUris | crates/service-core/src/workspace_index.rs:561-564 | exactly the documents that depend on files outside the store, by URI |
| WorkspaceAnswers.KeysCompare | crates/service-core/src/workspace_index.rs:52-60 | keys compare by span start, end, line and column, then by kind in the order of their declaration, then by spelling, a missing one first |
| WorkspaceAnswers.PastLastIs | crates/service-core/src/workspace_index.rs:500-508 | a spelling lies past the range exactly when it starts with the last character and is longer |
| WorkspaceIndexes.Run | crates/service-core/src/workspace_index.rs:302-304 | after any sequence of publishes and removes the maps are those rebuilt from the documents that are left |
| WorkspaceIndexes.RunsAgree | crates/service-core/src/workspace_index.rs:302-304 | two runs whose last operation on every document is the same end with the same entries and the same eight maps |
| WorkspaceIndexes.PublishesCommute | crates/service-core/src/workspace_index.rs:337-448 | publishing two documents in either order ends with equal entries and equal maps |
| WorkspaceIndexes.PublishUndone | crates/service-core/src/workspace_index.rs:337-448 | publishing a new document and removing it leaves entries and maps as they were |
| WorkspaceScans.FirstClaim | crates/service-core/src/workspace_index.rs:450-454 | the least site of an identity's bucket is the head of the scan over every claim |
| WorkspaceScans.PartScan | crates/service-core/src/workspace_index.rs:302-319 | enumerating a bucket in order is scanning all documents in URI order for its key |
| WorkspaceScans.FunctionsExactly | crates/service-core/src/workspace_index.rs:522-528 | scanning for the first function of a name per document finds all of them exactly when no document has two |
| WorkspaceScans.RepeatedFunction | crates/service-core/src/workspace_index.rs:522-528 | two documents, one with a repeated function name, whose second function is not among the answers |
| OccurrenceRanges.KeyOrder | crates/service-core/src/workspace_index.rs:52-60 | the derived order of occurrence keys is total, a missing spelling first |
| OccurrenceRanges.RangeHolds | crates/service-core/src/workspace_index.rs:490-509 | the range holds exactly the declaration's keys but for spellings past the last one |
| OccurrenceRanges.RangeScan | crates/service-core/src/workspace_index.rs:483-520 | the range scan finds, as a multiset, what a linear filter over all documents finds, exactly when no use is spelt past the last spelling |
| OccurrenceRanges.SpeltPastLast | crates/service-core/src/workspace_index.rs:500-508 | a use that is left out |
| OccurrenceRanges.UriOrderExactly | crates/service-core/src/workspace_index.rs:483-520 | the answer is in order of documents and indexes exactly when no two uses it finds are ordered oppositely by site and by key, and in URI order exactly when no two in different documents are |
| OccurrenceRanges.NotUriOrder | crates/service-core/src/workspace_index.rs:483-485 | two documents whose uses come out in the opposite of URI order |
| Events.EventHub.Push | crates/service-core/src/events.rs:225-238 | the event gets the next cursor and the hub's stream, the oldest one goes when the window is full, and the window stays consecutive and bounded |
| Events.EventHub.PollFor | crates/service-core/src/events.rs:290-368 | the page of the window's later events, or a reset: asked for exactly for another stream, a nonzero cursor without one, a cursor ahead, or a later event no longer there; every event is of the stream asked for |
| Events.EventHub.RestoreCheckpoint | crates/service-core/src/events.rs:182-216 | the window is taken exactly when it is consecutive, of the stream, bounded, and ends at the high-water mark; the mark is taken anyway |
| Events.EventHub.RestoreStream | crates/service-core/src/events.rs:169-176 | only a hub without events takes another stream |
| Events.EventHub.LatestCursorForUri | crates/service-core/src/events.rs:265-284 | the greatest retained cursor about the document, or zero |
| Events.CheckWindow | crates/service-core/src/events.rs:193-206 | the pairwise checks accept exactly the consecutive windows |
| EventRuns.ResetExactly | crates/service-core/src/events.rs:312-326 | for a matching stream a reset is asked for exactly when the cursor is ahead or a later event is no longer retained |
| EventRuns.PageLaw | crates/service-core/src/events.rs:290-368 | for every request: the events of a page are of the stream asked for; another stream, or a nonzero cursor that names none, gets a reset, no events and the limitation that says so, and cursor zero without a stream does not |
| EventRuns.FirstPoll | crates/service-core/src/events.rs:308-313 | a first poll without a stream is answered like one that names it |
| EventRuns.PushConserves | crates/service-core/src/events.rs:225-238 | retained and discarded events add up, and only a full window discards |
| EventRuns.ForeignPoll | crates/service-core/src/events.rs:311-326 | a consumer of another stream takes nothing and is asked to reset |
| EventRuns.PageIs | crates/service-core/src/events.rs:327-337 | a page that is no reset holds the next events of the stream's history, as many as asked for |
| EventRuns.EveryRun | crates/service-core/src/events.rs:130-136 | in every interleaving of pushes, polls, checkpoints, restarts from them and restarts into fresh streams the consumer holds only events of its own stream, and every one since its start, once and in order, until a reset or a restart from a checkpoint it is past |
| EventRuns.CatchesUp | crates/service-core/src/events.rs:327-337 | while the hub serves its stream, polling on reaches the high-water mark or a reset |
| EventRuns.RestartSafe | crates/service-core/src/events.rs:318-326 | a restart is safe for every continuation exactly when the checkpoint is of another stream or the consumer is not past it |
| EventRuns.OvertakenRestart | crates/service-core/src/events.rs:318-326 | from every start, saving a checkpoint, pushing one event, polling it and restarting is not safe |
| DocumentStores.DocumentStore.NoteModuleChange | crates/service-core/src/document.rs:204-225 | the directory is again the inverse of the documents' effective modules |
| DocumentStores.DocumentStore.EnsureDocument | crates/service-core/src/document.rs:667-682 | a known document is left alone, a new one is content-free |
| DocumentStores.DocumentStore.DidOpen | crates/service-core/src/document.rs:686-719 | the buffer's text becomes the document with that version, its path stays, its disk state goes, and it gets a new generation; a text of more than four mebibytes is refused and changes nothing |
| DocumentStores.DocumentStore.DidChangeIncremental | crates/service-core/src/document.rs:731-756 | the document holds the last full replacement or the edits of its text, other documents stay, and too long or refused results are reported |
| DocumentStores.DocumentStore.DidSave | crates/service-core/src/document.rs:762-794 | what is on disk afterwards, and when generation and version move |
| DocumentStores.DocumentStore.DidClose | crates/service-core/src/document.rs:798-828 | the buffer is gone, and the document too when no file stands behind it |
| DocumentStores.DocumentStore.EnsureLoaded | crates/service-core/src/document.rs:834-898 | unknown sources are registered, content-free documents take their file's text, everything else stays |
| DocumentStores.DocumentStore.Content | crates/service-core/src/document.rs:902-915 | the buffer's text, or the disk's, after loading |
| DocumentStores.DocumentStore.LoadNewDisk | crates/service-core/src/document.rs:500-550 | a generation is given out exactly when a content-free document's file could be taken |
| DocumentStores.DocumentStore.ScanModulesFor | crates/service-core/src/document.rs:248-283 | every content-free document is loaded, and the answer is the least that declares the module |
| DocumentStores.DocumentStore.ModuleUri | crates/service-core/src/document.rs:229-243 | the least document declaring the module, after loading the content-free ones only when none did |
| DocumentStores.DocumentStore.RefreshDiskWith | crates/service-core/src/document.rs:567-664 | each closed document follows its file, and exactly the updates and removals are reported, each with its own generation, in name order |
| DocumentStores.DocumentStore.Discover | crates/service-core/src/document.rs:417-483 | refused exactly without a workspace root that is a directory; otherwise the walk registers only sources below the roots, all of them when it stays under the limit, keeps every known document, and reports the names found, or the new ones, sorted |
| DocumentStores.DocumentStore.VisitDirectory | crates/service-core/src/document.rs:445-477 | links are passed over, hidden, target and node_modules directories skipped, and below the limit every source and directory of the listing is registered or left for later |
| Documents.WalkedExactly | crates/service-core/src/document.rs:417-483 | after any walk old documents are unchanged and each new one stands for a source below the roots and holds no text; the names answered are those of sources, all new ones among them; below 5000 names every source is known |
| Directories.SourcesBelow | crates/service-core/src/document.rs:440-477 | a file is looked for exactly when readable directories, none of them hidden, "target" or "node_modules", lead from a root down to it and its name ends in ".mncs" |
| DocumentStores.DocumentStore.ReconcileCheckpoint | crates/service-core/src/document.rs:331-411 | refused exactly when discovery is; otherwise, after the walk, each closed document takes its file's text, and exactly those that differ from the checkpoint are reported, each with its own generation |
| DocumentStores.DocumentStore.RestoreGenerationAtLeast | crates/service-core/src/document.rs:94-105 | the generation never goes back |
| DocumentRuns.Run | crates/service-core/src/document.rs:109-137 | over any run, with the file system changing between operations, the directory stays the inverse of the effective modules, the counters never go back, an equal content version means unchanged documents, and what is open and unsaved stays so until it is saved or closed |
| DocumentCycles.OpenCloseRead | crates/service-core/src/document.rs:686-828 | after an open and any run that neither saves nor closes the document, a close answers nothing, keeps only the path, and the next read answers the file as it is then |
| DocumentCycles.OpenSaveCloseRead | crates/service-core/src/document.rs:762-915 | with a save before the close, the close and the next read answer the buffer's text, whatever the file holds |
| DocumentCycles.OpenSaveOther | crates/service-core/src/document.rs:762-828 | a save with a text of its own leaves the buffer as it is and is what the close answers |
| DocumentCycles.SaveTwice | crates/service-core/src/document.rs:762-794 | saving the same text again spends no generation |
| DocumentCycles.FirstRead | crates/service-core/src/document.rs:834-915 | the first read of an unknown name answers its file's text exactly when the name stands for a file ending in ".mncs" whose text can be taken |
| DocumentCycles.LoadNewRead | crates/service-core/src/document.rs:500-550 | a newly loaded document gets the next generation and answers what its file held then |
| DocumentCycles.RefreshMeans | crates/service-core/src/document.rs:567-664 | what a refresh leaves of one document, by its file and whether it is open, loaded and allowed to go |
| DocumentCycles.RefreshReports | crates/service-core/src/document.rs:567-664 | reported are exactly the closed documents whose text changed or that went |
| DocumentCycles.ReconcileMeans | crates/service-core/src/document.rs:331-411 | what a reconcile leaves of one document, and when it is reported |
| DocumentCycles.LeastDeclares | crates/service-core/src/document.rs:229-283 | no known document declares the module, or the answer does and none before it does |
| DocumentRuns.ShortcutExact | crates/service-core/src/document.rs:737-744 | taking the last full replacement alone equals applying the whole list exactly when the ranged edits behind it change nothing |
| DocumentRuns.ShortcutLoses | crates/service-core/src/document.rs:737-744 | a list whose last edit is lost |
| CapsuleKernel.OrderCapsuleWindow | mncs/semantic_capsule.mncs:94-150 | sorting two halves and merging them orders the window by severity, kind and position; valid exactly when every rank is |
| CapsuleKernel.SelectCapsule | mncs/semantic_capsule.mncs:189-238 | a finding is admitted exactly when fewer than 20 are, and it is actionable with fewer than 16 of those or watch with fewer than 8; admitted and dropped add up, no budget is exceeded, and the selection is complete |
| CapsuleKernel.RelevanceIs | mncs/semantic_capsule.mncs:157-187 | the relevance of every rank, as a table of kinds and severities |
| Capsule.CheckOrdering | crates/service-core/src/ambient.rs:720-734 | whatever the kernel returned, the seen-bitmap loop accepts exactly the permutations of the window's positions |
| Capsule.ExecuteCapsuleOrder | crates/service-core/src/ambient.rs:616-735 | refused exactly for more than 64 findings or an invalid rank; otherwise every position once, by severity descending, kind ascending, then position |
| Capsule.SortByKey | crates/service-core/src/ambient.rs:1179-1179 | key order, equal keys in their old order, the same multiset of rows |
| Capsule.PickedMultiset | crates/service-core/src/ambient.rs:1209-1214 | picking by an order that names every position once loses nothing and doubles nothing |
| CapsuleMerge.ReorderBy | crates/service-core/src/ambient.rs:1194-1214 | with a kernel that may return anything, one reordering keeps the findings as a multiset or is refused, refused exactly when the answer is no permutation |
| CapsuleMerge.MergeChunk | crates/service-core/src/ambient.rs:1177-1215 | sorting by key and reordering by the kernel gives the rows by severity, kind, key and place, the same multiset of rows |
| CapsuleMerge.SameHead | crates/service-core/src/ambient.rs:1209-1215 | leaving out rows that have enough smaller kept ones does not change the head |
| CapsuleMerge.MergeExact | crates/service-core/src/ambient.rs:1177-1215 | merging a chunk into the envelope gives the envelope of the longer list |
| CapsuleMerge.MergeCandidates | crates/service-core/src/ambient.rs:1170-1223 | for any candidates the envelope ends as the first 32 of one stable sort by severity, kind and key: in that order, before all that are left out; kept and truncated add up, and it is refused exactly for an invalid rank |
| Grammars.FlattenList | crates/static-syntax/src/grammar.rs:266-290 | on every repository the recursion ends with the depth-first expansion and the stack as it was, or with an error |
| Grammars.FlattenedParts | crates/static-syntax/src/grammar.rs:266-290 | a list is expanded part by part, in order, and fails when a part does |
| Grammars.FlattenedOne | crates/static-syntax/src/grammar.rs:273-286 | a rule stands for itself, a group for its members, a group met before or an unknown name for failure |
| Grammars.FailsExactly | crates/static-syntax/src/grammar.rs:266-290 | it fails exactly when a name reachable through groups does not resolve or is a group met before on the way |
| Grammars.NoGroupLeft | crates/static-syntax/src/grammar.rs:201-216 | no group is left and every name resolves |
| Grammars.SameChoice | crates/static-syntax/src/grammar.rs:259-265 | dissolving groups keeps the ordered first choice, whatever the rules match |
| Grammars.Load | crates/static-syntax/src/grammar.rs:183-240 | a grammar is refused exactly when a list of it has such a dead end; otherwise every list names rules that are there, and of a rule nothing changes but a region's list |
| Tokenizers.StepProgress | crates/static-syntax/src/tokenizer.rs:139-162 | a step never goes back, ends between characters, and one that takes nothing closes a region |
| Tokenizers.Highlighter.TryRegionEnd | crates/static-syntax/src/tokenizer.rs:179-211 | the region's end is taken when it matches: pending run flushed, tokens out, region closed |
| Tokenizers.Highlighter.TryRules | crates/static-syntax/src/tokenizer.rs:214-281 | the first rule in order that takes something is taken |
| Tokenizers.Highlighter.TokenizeLine | crates/static-syntax/src/tokenizer.rs:139-162 | it ends for every grammar and oracle, with the tokens and open regions of the steps over the line; what those are, `TokenizerScopes.LineMeans` states from the rules |
| TokenizerLaws.LexedTiles | crates/static-syntax/src/tokenizer.rs:139-162 | the steps tile the line in order, cut only between characters, each entered with the regions the one before left open |
| TokenizerLaws.TokensExactly | crates/static-syntax/src/tokenizer.rs:165-175 | a token is out exactly when it is a match's or a longest run of held characters inside a region, with the scopes of the regions open over it |
| TokenizerLaws.LineLaw | crates/static-syntax/src/tokenizer.rs:139-175 | for every grammar, oracle and line the pieces tile the line and its tokens are exactly the matches' and the runs' |
| TokenizerLaws.GroupsDissolve | crates/static-syntax/src/tokenizer.rs:214-281 | searching a flattened list finds the rule that entering the groups would find |
| TokenizerLaws.Tokenize | crates/static-syntax/src/tokenizer.rs:106-112 | each line starts with the regions the lines before it left open |
| TokenizerScopes.StepIsLawful | crates/static-syntax/src/tokenizer.rs:139-281 | a step ends the innermost region when its end matches; else takes the first rule of that region's list, or of the roots, that matches some bytes, a region only while fewer than 10000 are open; else holds exactly one character |
| TokenizerScopes.LineMeans | crates/static-syntax/src/tokenizer.rs:60-175 | from the regions open before it, the steps of a line are lawful and its tokens, in order, are what they say: a run inside regions has each region's name and then content name, outermost first; a match its name, and its captures' names, over that; an end match over the outer regions only |
| TokenizerScopes.OpenRegions | crates/static-syntax/src/tokenizer.rs:177-281 | the open regions are those whose beginning step no end since has closed, in the order of those steps |
| TokenizerDocuments.RegionsCarryOn | crates/static-syntax/src/tokenizer.rs:106-112 | so they are at every step of every line, counting the steps of all lines before it |
| TokenizerDocuments.TokenizeMeans | crates/static-syntax/src/tokenizer.rs:106-112 | every line of a document is tokenized as `TokenizerScopes.LineMeans` says, from the regions the lines before it left open, whatever the highlighter did before |
| TokenizerDocuments.SplitLines | crates/static-syntax/src/tokenizer.rs:336-350 | the lines, none with a newline in it, are the text cut at its newlines, a newline at its end opening no further line |
| TokenizerDocuments.TokenizeText | crates/static-syntax/src/tokenizer.rs:106-112 | the same from the text |
| TokenizerDocuments.EndCarriesName | crates/static-syntax/src/tokenizer.rs:129-131 | an end match carries what a match of the rule carries exactly when the rule has a name or the region no content name |
| TokenizerDocuments.CommentScopes | crates/static-syntax/src/tokenizer.rs:177-211 | the three tokens of a block comment with a content name, with and without a name of its own |
| Completions.CompletionCollector.Consider | crates/service-core/src/render.rs:522-531 | batching keeps the items those of the candidates flushed so far |
| Completions.CompletionCollector.FlushPrefixBatch | crates/service-core/src/render.rs:533-561 | with an absent, wrongly sized or correct mask the batch leaves exactly its candidates with the prefix |
| Completions.CompletionCollector.Finish | crates/service-core/src/render.rs:569-580 | filtered, deduplicated, and, when asked, sorted by label and cut |
| Completions.DeduplicatedIs | crates/service-core/src/render.rs:563-567 | deduplication keeps exactly the first candidate of every label |
| Completions.KeptInOrder | crates/service-core/src/render.rs:522-567 | with or without a filter and with or without repeated labels, what is kept stands in the order it came in, and is exactly what passes |
| Completions.SortedIs | crates/service-core/src/render.rs:573-576 | the sorted list ascends by label and holds the same candidates |
| Completions.Complete | crates/service-core/src/render.rs:494-580 | any stream ends as the first 200 of the label-sorted, deduplicated candidates with the prefix: labels strictly ascending, each the first candidate of its label, and all left out behind all that are there |

## Left out

- Coords.PositionMap.PositionOf: does not model the casts of lines and columns to 32 bits, which differ only on texts beyond four gigabytes.
- Coords.PositionMap.OffsetOf: likewise without the casts.
- Events.EventHub.Push: cursors are unbounded, so the saturating addition at the top of 64 bits is not modelled.
- DocumentStores.DocumentStore.RefreshDiskWith: the file system is fixed during one operation and the owner's answer before a removal does not touch the store.
- DocumentStores.DocumentStore.Discover: the tree it walks is finite and fixed during the walk; a listing error in the middle of a directory counts as a skipped entry.
- Capsule.SortByKey: the standard library's stable sort is modelled by the order it promises, not by its steps.
- Tokenizers.Highlighter.TokenizeLine: regexes are an oracle that answers at the position asked for; regex syntax and its rejected constructs are not modelled.
- The scalar decoder and the numeric sort the kernels import, and the backend that executes kernels, are not part of this model.
- The summaries, spans and lower-cased names an index entry keeps beside its keys, and the check whether an entry is still current.
- Locks, shared ownership of texts and indexes, and the change callback: every operation is one atomic step.
- Source identities and declared modules are arbitrary functions of name and text; hashing and parsing are not modelled.
- EventRuns.EveryRun: a fresh stream is taken to have an identity the consumer's stream does not have, as a process and start time make it.
- The parsing and validation of grammar files.
- What completion offers and what hover, rename, actions and tokens project from the compiler's facts.
- Query scheduling, snapshot reuse and workspace repair; sockets, protocols and the editor extension.
