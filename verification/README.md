# dindexer: a verified model

dindexer keeps a database of files on removable media. This project models the computations at its
core in Dafny and proves what they are for:

* **Edit distance** (`EditScripts`, `EditDistance`, `DamerauLevenshtein`, `Utf8`). The table that
  suggests a command for a misspelt one. Edit scripts insert, delete, replace and swap neighbouring
  characters; a recurrence over transpositions of any crossing pair is proved to be the cost of the
  cheapest script (both directions), and the table, filled in place in 32-bit arithmetic from UTF-8 text,
  to be that recurrence. Costs for which this holds are characterised exactly.
* **Directory trees in a flat sorted vector** (`Paths`, `FlatTree`, `Listing`, `SortedListing`). Iterators
  that walk the children of a directory by skipping forward, the recursive walks on them, the order of the
  records and the scan that inserts each at its place.
* **Hashing of a set** (`TigerCore`, `TigerWords`, `TigerHash`, `TigerKnownAnswers`, `TigerVariants`, `Hashing`,
  `DirectoryBlob`). Tiger with one and two lanes, streaming, fixed sizes and the salted form, all equal to "pad, then
  fold the blocks", with its operations pinned bit by bit and by known answers; on top of it the walk that hashes a
  tree of directories, and what is hashed byte by byte. The S-boxes are a parameter.
* **Decimal numbers in base ten thousand** (`Decimals`, `Numerics`, `NumericText`, `NumericGrammar`,
  `NumericPrinting`, `NumericWire`). Reading, stripping, rounding with carry and printing, with values as real numbers;
  which texts are numbers; and what is left of a number that is sent in fields of sixteen bits.
* **Dates as day numbers** (`JulianDay`). Two formulas of divisions, inverse to each other on the calendar.
* **Globs as regular expressions** (`GlobAst`, `RegexText`, `GlobRendering`, `GlobParser`, `GlobPrinting`, `GlobMeaning`).
  The grammar and its inverse, the rendering, a reader for the regular expressions that are written, what both match,
  and what globs find by their text.
* **Type specifiers** (`Specs`, `SpecTexts`). Parsing a format, compiling it under a name, and replaying it; what stands in
  a statement.
* **Entry paths** (`EntryPaths`). Pieces with escapes pushed on a stack of items.

Code that changes state is modelled by methods with loops, arrays and classes, each proved against a
specification function; the properties are proved about those functions. Lists of the program that are
reassigned (`std::vector`, growing arrays) are sequences held in fields.

## Where code and comments differ

* The comment at `src/main/damerau_levenshtein.c:50-55` asks only that two swaps cost no less than a delete
  and an insert. That is not enough: the reads clamped at lines 249-254 take a cell of row or column 0 where the
  cost for an empty prefix is meant. The table is right for all texts if and only if neither an insert nor a
  delete costs more than a swap and a replacement (or a delete and an insert, if that is less) costs no more than
  a swap. The only caller, with all costs 1, is within that.
* `tiger_2_last_chunk` (`src/machinery/tiger.c:744-792`) ignores the real lengths it is given and stores the length
  of the last chunk; the padded message is right exactly if the length, modulo two to the 61, is less than 64.
* `pqt_put_date` accepts year 0, the 31st of every month and any year before Christ; what is read back is the date that
  was stored exactly if the year counts from 1, the day exists and is not before the first of March 4801 BC.
* `pqt_get_numeric` reads the weight of a number without its sign (`lib/libpqtypes-1.5.1/src/numerics.c:290`). A number
  between zero and one that has been sent has a negative weight; it is read as a very large one, for which the buffer is too
  small. So exactly nothing and numbers of at least one come back, if they have room; `0.5` does not.
* A brace list of single characters is parsed as a class (`lib/glob2regex/src/glob_ast.cpp:81-85`), in which a dash may make a
  range. It denotes what the same text denotes as an alternation exactly if no comma is one of its characters and the ranges
  hold its characters and no others.
* Dashes of a class are not escaped (`lib/glob2regex/src/render_ast.cpp:60`). A dash right behind a range and not at the end, as
  in `[a-b-c]`, and a range in the wrong order are errors in a regular expression of PostgreSQL. A converted glob is a regular
  expression exactly if none of its classes has either.
* A type without a put routine uses the base of the first type registered on the connection, not its own
  (`lib/libpqtypes-1.5.1/src/spec.c:334-337`). That is right exactly if both bases are the same, or neither identifies a type
  that can be put.
* `date2j` rounds towards zero: before March of 4801 BC its numbers are one too large, except in leap years
  (`lib/libpqtypes-1.5.1/src/datetime.c:1012-1015`).
* `utf8_strlen` counts by lead bytes only, so that malformed text can make it stay at a byte or leap over the end
  (`src/main/utf8_ops.c:50-57`). Exactly which strings it counts, and when the count is the number of characters read, is proved.

## Model

| member | source | states |
|---|---|---|
| EditScripts.TurnsThenTurns | src/main/damerau_levenshtein.c:32-60 | Two edit scripts one after the other make a script; their costs add up. |
| EditDistance.LastIndexIsLast | src/main/damerau_levenshtein.c:84-103 | The character map keeps the last position of a character, no later one holds it. |
| EditDistance.DistAfterGaps | src/main/damerau_levenshtein.c:255-257 | The distance grows by no more than the deletes and inserts of a gap. |
| EditDistance.DistAfterCross | src/main/damerau_levenshtein.c:237-260 | Transposing any earlier crossing pair, not only the last one, never beats the recurrence: taking the last one loses nothing. |
| EditDistance.DistUncrossed | src/main/damerau_levenshtein.c:237-260 | Keeping one match of a crossing pair and dropping the other costs at most a delete and an insert beyond the gaps. |
| EditDistance.OptimalEnd | src/main/damerau_levenshtein.c:206-268 | The recurrence is reached by one of its four ends, so that it is a minimum and not just a bound. |
| EditDistance.DeleteIsPaid | src/main/damerau_levenshtein.c:41-42 | Deleting a character anywhere changes the distance to a fixed target by at most its cost. |
| EditDistance.InsertIsPaid | src/main/damerau_levenshtein.c:41 | The same for inserting one. |
| EditDistance.ReplaceIsPaid | src/main/damerau_levenshtein.c:42 | The same for replacing one. |
| EditDistance.SwapIsPaid | src/main/damerau_levenshtein.c:43-47 | The same for swapping two neighbours, given that two swaps cost no less than a delete and an insert. |
| EditDistance.NoScriptIsCheaper | src/main/damerau_levenshtein.c:50-55 | No edit script that turns one text into the other costs less than the recurrence says. |
| EditDistance.CheapestScript | src/main/damerau_levenshtein.c:32-60 | There is an edit script of just that cost. |
| EditDistance.DistIsEditDistance | src/main/damerau_levenshtein.c:32-60 | The recurrence is the edit distance: attained by a script and undercut by none. |
| EditDistance.EditDistanceIsUnique | src/main/damerau_levenshtein.c:32-60 | A text pair has one edit distance. |
| DamerauLevenshtein.ClampedRowIsHarmless | src/main/damerau_levenshtein.c:249-257 | For supported costs the read clamped to the first row makes no minimum smaller. |
| DamerauLevenshtein.ClampedColumnIsHarmless | src/main/damerau_levenshtein.c:249-257 | The same for the first column. |
| DamerauLevenshtein.CellIsDist | src/main/damerau_levenshtein.c:196-271 | For supported costs every cell of the table is the distance of two prefixes. |
| DamerauLevenshtein.CheapSwapAgainstInsert | src/main/damerau_levenshtein.c:249-257 | A swap cheaper than an insert: for the strings `ab` and `aba` the result is too small. |
| DamerauLevenshtein.CheapSwapAgainstDelete | src/main/damerau_levenshtein.c:249-257 | A swap cheaper than a delete: for `aba` and `ab` the result is too small. |
| DamerauLevenshtein.CheapSwapAgainstReplace | src/main/damerau_levenshtein.c:249-257 | A swap cheaper than a replacement: for `ab` and `xba` the result is too large. |
| DamerauLevenshtein.TableIsEditDistanceExactlyWhen | src/main/damerau_levenshtein.c:173-276 | For all encoded texts the result is their edit distance if and only if the costs are supported. |
| DamerauLevenshtein.CellBound | src/main/damerau_levenshtein.c:196-268 | A bound on the cells from which it follows that no sum leaves the range of `int`. |
| DamerauLevenshtein.LastIndicesStep | src/main/damerau_levenshtein.c:84-103 | The map keeps the last index of every character of the prefix when one more is entered. |
| DamerauLevenshtein.InnerCost | src/main/damerau_levenshtein.c:237-268 | One inner cell, with the running index of the last match in the row, is what the table holds there. |
| DamerauLevenshtein.FirstColumn | src/main/damerau_levenshtein.c:204-213 | The loop over the source fills the cells of the first target character. |
| DamerauLevenshtein.FirstRow | src/main/damerau_levenshtein.c:217-226 | The loop over the target fills the cells of the first source character. |
| DamerauLevenshtein.FillTable | src/main/damerau_levenshtein.c:228-271 | The nested loops fill all other cells, leaving those already there. |
| DamerauLevenshtein.DamerauLevenshteinWithSize | src/main/damerau_levenshtein.c:130-277 | For texts and their lengths the result is the table's last cell, or -1 for costs it refuses; for supported costs it is the edit distance. No index or sum goes out of range. |
| DamerauLevenshtein.DamerauLevenshtein | src/main/damerau_levenshtein.c:105-124 | For two encoded strings and supported costs the result is the edit distance of their texts; it depends on what is counted in other strings. |
| Utf8.Advance | src/main/utf8_ops.c:62-89 | Reads one character and moves the position on, also over malformed bytes. |
| Utf8.StepReadsEncoded | src/main/utf8_ops.c:62-89 | At an encoded character it returns that character and stops behind its last byte. |
| Utf8.DecodeEncodeAll | src/main/utf8_ops.c:62-89 | Repeated, it returns the characters that were encoded and stops at the end. |
| Utf8.Strlen | src/main/utf8_ops.c:36-60 | For any string the characters counted by lead bytes, or None where the loop stays at a byte or leaps over the end. |
| Utf8.CountedExactlyWhen | src/main/utf8_ops.c:36-60 | Counting ends in the string exactly if it is made of lead bytes and as many bytes as each announces, and counts these units. |
| Utf8.CountIsCallsExactlyWhen | src/main/utf8_ops.c:36-89 | The count is never more than the calls of `utf8_advance` to the end, and equal to them exactly if every byte announced is a continuation byte. |
| Utf8.EncodedAreCounted | src/main/utf8_ops.c:36-60 | Encoded characters are counted right. |
| Utf8.SkipAscii | src/main/utf8_ops.c:41-44 | The inner loop passes over single-byte characters, each of which counts one, up to the first other byte. |
| Paths.SplitPath | src/machinery/pathname.cpp:69-84 | The atoms are what stands between runs of slashes. |
| Paths.SplitOfPathText | src/machinery/pathname.cpp:69-112 | Splitting the text of a path gives its atoms back. |
| Paths.CountGrouped | src/machinery/pathname.cpp:59-67 | Counts runs of slashes. |
| Paths.ReservesExactly | src/machinery/pathname.cpp:120-126 | The number of atoms reserved is the number `split_path` produces. |
| Paths.CalcJoinSize | src/machinery/pathname.cpp:40-57 | The size computed is the length of the joined text. |
| Paths.GetJointAtoms | src/machinery/pathname.cpp:86-112 | Joins the atoms with single slashes, without the last ones if asked. |
| Paths.PathName.constructor | src/machinery/pathname.cpp:115-132 | A path holds the atoms of its text and whether it is absolute. |
| Paths.PathName.Dirname | src/machinery/pathname.cpp:198-203 | The text without the last atom. |
| Paths.PathName.Join | src/machinery/pathname.cpp:150-161 | Appends the atoms of another text and nothing else changes. |
| Paths.PathName.PopRight | src/machinery/pathname.cpp:257-260 | Takes the last atom away. |
| Paths.PathName.Equals | src/machinery/pathname.cpp:276-288 | Paths are equal if their atoms are; being absolute does not matter. |
| Paths.Basename | src/machinery/pathname.cpp:210-219 | The atom that completes the parent's atoms to those of the path; nothing for a path without atoms. |
| Paths.DirnameThenBasename | src/machinery/pathname.cpp:198-219 | Directory name, slash and base name split into the atoms of the path again, and make its text; no slash is in the base name. |
| Paths.CommonAtoms | src/machinery/pathname.cpp:168-179 | The number of leading atoms two paths share. |
| Paths.MakeRelativePath | src/machinery/pathname.cpp:163-192 | One `..` for each atom of the base beyond the common ones, then the rest of the other path. |
| Paths.RelativePathLeadsToTarget | src/machinery/pathname.cpp:163-192 | Followed from the base, the relative path leads to the other path exactly if that has no `..` beyond the common atoms. |
| Paths.RelativeTextIsSuffix | src/machinery/scantask/dirtree.cpp:34-41 | Under a root that is an ancestor, a normalised path ends in the text of its relative path. |
| Paths.CalcRelPathOffs | src/machinery/scantask/dirtree.cpp:34-41 | The offset is where that text begins. |
| FlatTree.AncestorIsListed | include/dindexer-machinery/set_listing_helpers.hpp:44-55 | Every record has each of its ancestors before it in the list, as a directory. |
| FlatTree.ChildrenAreAll | src/machinery/set_listing.cpp:94-115 | The positions iterated over are exactly those of the children. |
| FlatTree.ChildrenAscend | src/machinery/set_listing.cpp:159-168 | They are visited in list order, each once. |
| FlatTree.FlattenMembers | include/dindexer-machinery/set_listing_helpers.hpp:44-55 | The walk below a directory visits a record exactly if it is a child or lies below one. |
| FlatTree.SubtreeMembers | include/dindexer-machinery/set_listing_helpers.hpp:44-55 | What follows a directory in the walk is everything below it and nothing else. |
| FlatTree.FlattenOnce | include/dindexer-machinery/set_listing_helpers.hpp:44-55 | No record is visited twice. |
| FlatTree.FlattenIsEverything | src/machinery/guess_content_type.cpp:133-136 | From the root the walk visits every other record; its length is the size of the list less one. |
| FlatTree.SubtreeFollows | include/dindexer-machinery/set_listing_helpers.hpp:44-55 | Each directory in the walk is followed at once by its whole subtree. |
| Listing.DirIterator.constructor | src/machinery/set_listing.cpp:94-115 | The new iterator stands at the first child, with all children of the directory to come. |
| Listing.DirIterator.SkipToChildren | src/machinery/set_listing.cpp:107-114 | The loop passes over records that are no children and stops at the first that is. |
| Listing.DirIterator.Increment | src/machinery/set_listing.cpp:159-168 | One child is done, the others are to come. |
| Listing.DirIterator.SkipOthers | src/machinery/set_listing.cpp:160-167 | The loop passes over records of the same level that belong elsewhere. |
| Listing.DirIterator.AtEnd | src/machinery/set_listing.cpp:194-203 | At the end no child is left, for this walk or for one into subdirectories. |
| Listing.DirIterator.Equal | src/machinery/set_listing.cpp:178-187 | Iterators are equal at the same place, and all those past the end. |
| Listing.SetListingView.FromIterator | src/machinery/set_listing.cpp:307-316 | The view of the directory an iterator stands at. |
| Listing.SetListingView.OfRange | src/machinery/set_listing.cpp:319-328 | The view of the directory a range starts with. |
| Listing.SetListingView.Begin | src/machinery/set_listing.cpp:355-362 | Iterates over the children of the view's directory, from the first on. |
| Listing.SetListingView.End | src/machinery/set_listing.cpp:365-372 | An iterator past the end, so that a walk of an empty directory ends at once. |
| Listing.FlattenedListing | include/dindexer-machinery/set_listing_helpers.hpp:44-55 | Appends everything below the view in preorder; the recursion ends. |
| Listing.CountListingItemsRecursive | include/dindexer-machinery/set_listing_helpers.hpp:94-103 | Counts everything below the view. |
| Listing.CountListingItems | include/dindexer-machinery/set_listing_helpers.hpp:82-92 | Counts the children. |
| Listing.FirstFile | include/dindexer-machinery/set_listing.hpp:162-170 | The first child that is no directory, or the end. |
| Listing.WalkFromRootIsEverything | src/machinery/guess_content_type.cpp:133-161 | For every well-formed list the walk from the root holds each other record once, every directory followed by its subtree; the count asserted is the size less one. |
| SortedListing.LessIsStrictTotalOrder | src/machinery/set_listing.cpp:44-61 | The order of the records is a strict total order: level, directories first, path. |
| SortedListing.TextBeforeExactlyWhen | src/machinery/set_listing.cpp:44-61 | Paths are ordered by the first place where they differ; a path that goes on comes behind one that ends there. |
| SortedListing.SortedIsUnique | src/machinery/set_listing.cpp:281-283 | Records can be sorted in one way only. |
| SortedListing.LowerBound | src/machinery/set_listing.cpp:285-289 | Finds the place before which all records are smaller and from which on none is. |
| SortedListing.PathList.AddPath | src/machinery/scantask/dirtree.cpp:43-74 | Inserts a record at its place with the offset of its relative path; the list stays sorted and gains just this record. |
| SortedListing.DirTree.OnDataCreate | src/machinery/scantask/dirtree.cpp:88-106 | The list after a scan holds just what was found, sorted; if that is a file tree, the list is well formed. |
| SortedListing.OrderOfVisitsIsIrrelevant | src/machinery/scantask/dirtree.cpp:88-106 | The list does not depend on the order in which the files were found. |
| SortedListing.ScanIsWellFormed | src/machinery/scantask/dirtree.cpp:43-74 | A scanned file tree has its root first, levels that count atoms, every parent listed as a directory, and directories before files on each level. |
| SortedListing.ChildrenInOrder | include/dindexer-machinery/set_listing.hpp:162-180 | The children of a directory are visited directories first, then by path. |
| TigerCore.ScaleIsBijective | src/machinery/tiger.c:314-319 | Multiplying by 5, 7 or 9 modulo two to the 64 can be undone. |
| TigerCore.RoundIsBijective | src/machinery/tiger.c:314-319 | For any S-boxes and any key word a round can be undone. |
| TigerCore.PassesAreBijective | src/machinery/tiger.c:351-367 | So can the three passes: for a fixed block they permute the states. |
| TigerCore.ScheduleIsBijective | src/machinery/tiger.c:332-349 | The key schedule permutes the blocks of eight words. |
| TigerCore.BytesRoundTrip | src/machinery/tiger.c:351-359 | Reading and writing a word as bytes, least first, are inverse. |
| TigerCore.TRound | src/machinery/tiger.c:314-319 | The registers after a round. |
| TigerCore.PassRegisters | src/machinery/tiger.c:321-330 | Eight rounds with the registers changing places. |
| TigerCore.KeySchedule | src/machinery/tiger.c:332-349 | The sixteen assignments in order; `TigerWords` and `TigerKnownAnswers` say what their operations are. |
| TigerCore.TigerBlock | src/machinery/tiger.c:351-371 | One block is compressed into the state. |
| TigerCore.TigerBlockSse2 | src/machinery/tiger.c:560-587 | The two-lane form compresses two blocks independently of each other. |
| TigerHash.FoldAppend | src/machinery/tiger.c:637-662 | Compressing the blocks of two texts one after the other is compressing those of both together. |
| TigerHash.HashInTwoSteps | src/machinery/tiger.c:702-708 | Whole blocks first and the padded rest later give the same hash. |
| TigerHash.TigerChunk | src/machinery/tiger.c:637-662 | Compresses the whole blocks of a text. |
| TigerHash.LastBlocks | src/machinery/tiger.c:664-700 | Rest, pad byte, zeros and length fill one block or two. |
| TigerHash.TigerLastChunk | src/machinery/tiger.c:664-700 | Pads what is left of a text behind whole blocks by the real length and compresses it. |
| TigerHash.Tiger | src/machinery/tiger.c:702-708 | The hash of a text is the fold over its padded blocks. |
| TigerHash.TigerSse2Chunk | src/machinery/tiger.c:809-831 | Both lanes compress the whole blocks of their own text. |
| TigerHash.TigerSse2LastChunk | src/machinery/tiger.c:832-855 | Both lanes pad what is left by their own real length. |
| TigerHash.TigerSse2 | src/machinery/tiger.c:857-869 | Two texts of one length hash as each would alone. |
| TigerCore.TigerBlock2 | src/machinery/tiger.c:430-464 | The two-lane form without SSE2 compresses two blocks independently, too. |
| TigerHash.Tiger2LastChunk | src/machinery/tiger.c:744-792 | Both lanes pad what is left by the length of the last chunk, whatever the real lengths. |
| TigerHash.Tiger2 | src/machinery/tiger.c:794-807 | Without SSE2 a text is hashed as padded by the length of its rest; for less than 64 bytes that is its hash. |
| TigerHash.RestLengthIsRightExactlyWhen | src/machinery/tiger.c:744-792 | That padded message is the right one exactly if the length of the text, modulo two to the 61, is less than 64. |
| TigerHash.TigerFile | src/machinery/tiger.cpp:63-141 | For any sizes of file and buffer: with SSE2 the file hash is that of the content and the directory hash that of the old one, filled up to 64 bytes, followed by the content; without, they are those of the messages padded by the length of the rest; after a read error the directory hash is untouched. |
| TigerHash.PortableIsRightExactlyWhen | src/machinery/tiger.cpp:112-133 | Without SSE2 what is hashed for a file is the right padded message exactly if its length, modulo two to the 61, is below 64; for the directory, exactly if that length with 64 more is. |
| TigerHash.FeedBoth | src/machinery/tiger.cpp:99-110 | Each full buffer goes into both hashes. |
| TigerVariants.Tiger49 | src/machinery/tiger.c:877-915 | The form for 48 bytes is the hash of those bytes behind 0x01. |
| TigerVariants.Tiger1025 | src/machinery/tiger.c:917-978 | The form for 1024 bytes is the hash of those bytes behind 0x00. |
| TigerVariants.TigerP1 | src/machinery/tiger.c:1187-1261 | After the first stage the state holds all whole blocks of password and salt, and the rest is kept. |
| TigerVariants.TigerP2 | src/machinery/tiger.c:1263-1347 | The second stage completes the hash of password, salt and second salt. |
| TigerVariants.SaltedTiger | src/machinery/tiger.c:1187-1347 | Both together are the hash, with pad byte 0x01, of the three texts in a row, for all lengths. |
| TigerWords.BitOfShiftLeft | src/machinery/tiger.c:336-342 | Bit k of the word shifted left is 0 for k below 19, and else the complement of bit k - 19. |
| TigerWords.BitOfShiftRight | src/machinery/tiger.c:339-345 | Bit k of the word shifted right is 0 from k = 41 on, and before that the complement of bit k + 23. |
| TigerWords.BitOfXorWord | src/machinery/tiger.c:334-348 | Exclusive or goes bit by bit. |
| TigerWords.SameBitsSameNumber | src/machinery/tiger.c:332-349 | Words with the same bits are the same, so that these laws say what the operations are. |
| TigerWords.LoadedBytes | src/machinery/tiger.c:351-359 | A word is read from memory with its lowest byte first. |
| TigerWords.BytesOfWord | src/machinery/tiger.c:313-319 | The byte a round looks up is that byte of the register. |
| TigerWords.XorOfWords | src/machinery/tiger.c:313-319 | Exclusive or of words is that of their bytes, as Dafny's bit vectors compute it. |
| TigerKnownAnswers.KnownSchedule | src/machinery/tiger.c:332-349 | What the key schedule makes of the eight words of a block, once and again, as numbers. |
| TigerKnownAnswers.KnownBlock | src/machinery/tiger.c:351-371 | The state one block is compressed to, as numbers, for S-boxes that tell tables and bytes apart: rounds, multipliers, exchange of registers and the three words fed forward. |
| TigerKnownAnswers.KnownHash | src/machinery/tiger.c:664-708 | The hash of a text of 55 bytes, as numbers: initial state, pad byte, length in bits and order of the bytes. |
| Hashing.HashFile | src/machinery/scantask/hashing.cpp:98-118 | One file of a directory: its own hash, its part in that of the directory, counters, and what a read error does. |
| Hashing.HashOneChild | src/machinery/scantask/hashing.cpp:68-84 | One child in the first pass: a directory is hashed with all below it, and its hash and name go into the blob; a file gives its name. |
| Hashing.HashSubdirectories | src/machinery/scantask/hashing.cpp:63-84 | The first pass hashes all subdirectories, touches nothing else, and builds the blob. |
| Hashing.HashFiles | src/machinery/scantask/hashing.cpp:94-127 | The second pass takes the files into the hash of the directory one after the other. |
| Hashing.SubtreeIsHashed | src/machinery/scantask/hashing.cpp:60-134 | Subdirectories, files and the directory itself make up its subtree. |
| Hashing.DirectoryEntry | src/machinery/scantask/hashing.cpp:60-134 | What both passes compute is the recursive hash of the directory. |
| Hashing.HashDir | src/machinery/scantask/hashing.cpp:60-134 | Every record of the subtree and no other is hashed as the recursive definition on trees says; it fails exactly if a file cannot be read and errors count; the file counter grows by the number of files. |
| Hashing.OnDataFill | src/machinery/scantask/hashing.cpp:156-192 | A whole set, a single file or nothing: every record is hashed, or a read error is reported. |
| DirectoryBlob.NameIsItsBytes | src/machinery/scantask/hashing.cpp:54-58 | The bytes of a name are its characters, so different names have different bytes. |
| DirectoryBlob.HashInBytes | src/machinery/scantask/hashing.cpp:47-52 | The first 24 bytes of the share of a subdirectory hold the three words of its hash, each with its lowest byte first. |
| DirectoryBlob.BlobByPositions | src/machinery/scantask/hashing.cpp:63-84 | The blob of a directory is as long as the shares of its entries together; where the share of an entry begins stand, for a subdirectory, its hash and then the characters of its name, and for a file just these. |
| DirectoryBlob.BlobOfFiles | src/machinery/scantask/hashing.cpp:79-83 | Without subdirectories the blob is the characters of the names in order. |
| DirectoryBlob.RenamedFileIsSeen | src/machinery/scantask/hashing.cpp:79-84 | Renaming one file of a directory changes what is hashed. |
| Decimals.NumberIsUnique | lib/libpqtypes-1.5.1/src/numerics.c:606-611 | Digits of the same number, as many of them, are the same. |
| Decimals.LeadingDigitIsUnique | lib/libpqtypes-1.5.1/src/numerics.c:669-697 | Without leading zeros there is one way to write a number. |
| Decimals.TensAdds | lib/libpqtypes-1.5.1/src/numerics.c:55-63 | Powers of ten, also below one, multiply by adding exponents. |
| Numerics.MagnitudeIsNumber | lib/libpqtypes-1.5.1/src/numerics.c:55-63 | The sum of the weighted digits is the number they make, scaled. |
| Numerics.CutBetween | lib/libpqtypes-1.5.1/src/numerics.c:364-365 | Cutting between digits, the first one cut off decides the rounding. |
| Numerics.CutInside | lib/libpqtypes-1.5.1/src/numerics.c:366-385 | Cutting through a digit, its own decimal digits decide. |
| Numerics.CutAway | lib/libpqtypes-1.5.1/src/numerics.c:343-352 | A number that lies wholly behind the place rounded to rounds to nothing. |
| Numerics.NearestIsUnique | lib/libpqtypes-1.5.1/src/numerics.c:321-327 | There is one nearest multiple, halves going up. |
| Numerics.NumericVar.StripVar | lib/libpqtypes-1.5.1/src/numerics.c:419-446 | Leading and trailing zeros go, the value stays, and zero has a positive sign and weight 0. |
| Numerics.NumericVar.PropagateCarry | lib/libpqtypes-1.5.1/src/numerics.c:388-402 | However long the chain of carries, the digits make the sum; the spare cell is used only if the number gets longer. |
| Numerics.NumericVar.RoundDigitAt | lib/libpqtypes-1.5.1/src/numerics.c:373-385 | One digit is rounded to its leading decimal digits, with a carry if it overflows. |
| Numerics.NumericVar.RoundVar | lib/libpqtypes-1.5.1/src/numerics.c:328-412 | The value becomes the nearest multiple of the unit asked for, halves away from zero, in place, given a zero cell in front or no need for one. |
| Numerics.RoomToCarry | lib/libpqtypes-1.5.1/src/numerics.c:388-409 | When no further digit is needed: the condition under which no cell before the first is touched. |
| NumericText.CollectDigits | lib/libpqtypes-1.5.1/src/numerics.c:506-541 | The loop finds the digits before and behind the point, with four zeros before and three behind them. |
| NumericText.PackDigits | lib/libpqtypes-1.5.1/src/numerics.c:606-611 | Taking digits four by four makes the same number; only cells that were written are read. |
| NumericText.Align | lib/libpqtypes-1.5.1/src/numerics.c:590-595 | Weight and offset put the point between two digits of the base; the offset is 0 to 3. |
| NumericText.PackedValue | lib/libpqtypes-1.5.1/src/numerics.c:590-616 | The value of the packed digits is that of the decimal ones. |
| NumericText.Str2Num | lib/libpqtypes-1.5.1/src/numerics.c:454-624 | Reads exactly the texts of the grammar; the variable has the value the text denotes, for every number of digits, place of the point and exponent, and the scale of its digits. |
| NumericGrammar.StrtolReads | lib/libpqtypes-1.5.1/src/numerics.c:549-556 | An exponent is read past spaces, with its sign, in base ten, up to the first character that is no digit. |
| NumericGrammar.NumeralReads | lib/libpqtypes-1.5.1/src/numerics.c:475-588 | A text made of spaces, a sign, digits with a point, an exponent and spaces is read as the number these say, and is an error if the exponent is beyond a thousand. |
| NumericGrammar.NumeralExactlyWhen | lib/libpqtypes-1.5.1/src/numerics.c:475-588 | No other text is read as a number: both directions. |
| NumericGrammar.ExponentMovesPoint | lib/libpqtypes-1.5.1/src/numerics.c:545-573 | For every text without an exponent that is a number, putting `e` or `E` and digits behind it, with a plus sign or none, multiplies its value by ten to that power, and with a minus sign divides; the digits behind the point become fewer or more accordingly, but not fewer than none. |
| NumericGrammar.ExponentTooLarge | lib/libpqtypes-1.5.1/src/numerics.c:560-568 | An exponent beyond a thousand is an error. |
| NumericPrinting.PutGroup | lib/libpqtypes-1.5.1/src/numerics.c:669-697 | A group before the point prints its number, the first one without leading zeros. |
| NumericPrinting.PutFraction | lib/libpqtypes-1.5.1/src/numerics.c:707-729 | Behind the point just the digits asked for, the number of all groups being printed first. |
| NumericPrinting.PrintedText | lib/libpqtypes-1.5.1/src/numerics.c:662-729 | The digits given up at the end are zeros: the text prints the rounded number. |
| NumericPrinting.Num2Str | lib/libpqtypes-1.5.1/src/numerics.c:627-739 | Prints the nearest number with that many digits; fails exactly if the buffer is not longer than the bound, and writes within it. |
| NumericPrinting.NumeralIsRead | lib/libpqtypes-1.5.1/src/numerics.c:454-624 | What is printed reads back as just those digits. |
| NumericPrinting.NumeralIsUnique | lib/libpqtypes-1.5.1/src/numerics.c:662-729 | There is one way to write a number with so many digits behind the point. |
| NumericPrinting.MultipleHasRoom | lib/libpqtypes-1.5.1/src/numerics.c:641-644 | Rounding a number to its own scale needs no spare cell. |
| NumericPrinting.RoomIsPrintRoom | lib/libpqtypes-1.5.1/src/numerics.c:652-660 | The room asked for before the point follows from the first significant digit of the text that was read. |
| NumericPrinting.ReadThenPrint | lib/libpqtypes-1.5.1/src/numerics.c:454-739 | A text is read exactly if it is a number, and the number printed exactly if the buffer is longer than its digits ask for; the value stays. Every canonical text is read and comes back as it was, given that room. |
| NumericWire.PutNumeric | lib/libpqtypes-1.5.1/src/numerics.c:226-262 | The fields of the number read, in sixteen bits each, and its digits. |
| NumericWire.GetNumeric | lib/libpqtypes-1.5.1/src/numerics.c:269-317 | A number received, its weight read without a sign, is printed exactly if there is room for that weight; then its digits are printed. |
| NumericWire.DigitsWithin | lib/libpqtypes-1.5.1/src/numerics.c:419-446 | A stripped number keeps no more digits than its scale has. |
| NumericWire.NoRoom | lib/libpqtypes-1.5.1/src/numerics.c:290 | A negative weight that fits into sixteen bits is read as one too large for the buffer. |
| NumericWire.PutThenGet | lib/libpqtypes-1.5.1/src/numerics.c:226-317 | A text comes back, with its value, exactly if it is a number that is zero or at least one and its digits have room in the buffer of 4096 characters; a canonical text comes back as it was, under the same condition. |
| NumericWire.HalfDoesNotComeBack | lib/libpqtypes-1.5.1/src/numerics.c:290 | The canonical text `0.5` does not, though there would be room for it. |
| JulianDay.NextDayCountsOne | lib/libpqtypes-1.5.1/src/datetime.c:995-1018 | From each day of the calendar to the next the number grows by one. |
| JulianDay.EpochsAreCounted | lib/libpqtypes-1.5.1/src/datetime.c:69-70 | The two epochs have the numbers the program gives them; day 0 is 24 November 4714 BC. |
| JulianDay.NumberIsOfOneDay | lib/libpqtypes-1.5.1/src/datetime.c:995-1018 | No two days of the calendar have the same number. |
| JulianDay.Date2j | lib/libpqtypes-1.5.1/src/datetime.c:995-1018 | For any date the formula of divisions gives the day number, and one more before March of 4801 BC except in leap years; no step overflows. |
| JulianDay.CenturyFound | lib/libpqtypes-1.5.1/src/datetime.c:1028-1031 | The first two divisions find the 400 years and the century in them. |
| JulianDay.YearFound | lib/libpqtypes-1.5.1/src/datetime.c:1032-1037 | The next find the year and the day in it, counted from March. |
| JulianDay.MonthFound | lib/libpqtypes-1.5.1/src/datetime.c:1039-1041 | The last find month and day. |
| JulianDay.J2date | lib/libpqtypes-1.5.1/src/datetime.c:1020-1043 | For every number from that of the first of March 4801 BC on the result is a day of the calendar with that number, in wrapping unsigned arithmetic; for those before it is some later year. |
| JulianDay.PutDate | lib/libpqtypes-1.5.1/src/datetime.c:246-259 | Stores what `date2j` gives counted from 2000, or refuses a date. |
| JulianDay.Bin2Pgdate | lib/libpqtypes-1.5.1/src/datetime.c:1056-1075 | Fills in a day of the calendar with that number, its era, its day of the year (one less where `date2j` rounds) and of the week; for numbers before the first day, only that the year is later. |
| JulianDay.WeekdaysFollow | lib/libpqtypes-1.5.1/src/datetime.c:1064 | The day of the week is 0 to 6 for days from 0 on, 6 for 1 January 2000, and from each day to the next it is the next; for days before 0 it is negative. |
| JulianDay.StoreThenRead | lib/libpqtypes-1.5.1/src/datetime.c:246-281 | For every date that is accepted, era, year, month and day come back as stored exactly if the year counts from 1, the day exists and its number is at least -32044. |
| GlobRendering.RangesAreClass | lib/glob2regex/src/render_ast.cpp:60 | The ranges of a rendered class hold the characters of the glob's class. |
| GlobRendering.IsTranslated | lib/glob2regex/src/render_ast.cpp:51-63 | The translated expression matches exactly what the glob denotes. |
| GlobRendering.LexExpression | lib/glob2regex/src/render_ast.cpp:52-62 | Escaped characters read back as themselves, everywhere in the rendered text. |
| GlobRendering.ReadCharacters | lib/glob2regex/src/render_ast.cpp:60 | A rendered class reads back as its ranges exactly if it is sound: no dash stands right behind a range unless it is last, and the ranges are in order. |
| GlobRendering.ReadExpression | lib/glob2regex/src/render_ast.cpp:59-63 | Rendered parts read back as what they translate to, whatever follows, exactly if their classes are sound. |
| GlobRendering.ReadAlternatives | lib/glob2regex/src/render_ast.cpp:61 | The branches of a rendered alternation read back one by one, exactly if all are sound. |
| GlobRendering.RenderingKeepsMeaning | lib/glob2regex/src/render_ast.cpp:67-75 | The rendered text is a regular expression if and only if all classes are sound; then it has the case option asked for and finds exactly the strings ending in something the glob denotes. |
| GlobParser.ExpressionIsParsed | lib/glob2regex/src/glob_ast.cpp:79-91 | The parser makes no empty class or literal and no alternation without branches. |
| GlobParser.ConvertKeepsMeaning | lib/glob2regex/src/glob2regex.cpp:27-30 | A glob that parses is converted to a regular expression if and only if its classes are sound; then this finds exactly the strings that end in something its expression denotes. |
| GlobParser.EscapedGlobIsLiteral | lib/glob2regex/src/glob_ast.cpp:86-87 | Escaped text parses as one literal, whatever its characters. |
| GlobParser.EscapedGlobFindsText | lib/glob2regex/src/glob2regex.cpp:27-30 | Its regular expression finds just the strings that end in the text. |
| GlobParser.ListIsClass | lib/glob2regex/src/glob_ast.cpp:82-85 | A list of single characters with commas between them is parsed as the class of these characters. |
| GlobParser.ClassIsList | lib/glob2regex/src/glob_ast.cpp:82-85 | No other text is parsed so. |
| GlobParser.ListIsAlternation | lib/glob2regex/src/glob_ast.cpp:80-81 | The rule for alternations takes any list without special characters as a choice between what stands between the commas. |
| GlobParser.LetterListIsChoiceExactlyWhen | lib/glob2regex/src/glob_ast.cpp:79-85 | For every list of single characters, what the glob is parsed as denotes the same as what the rule for alternations makes of it, if and only if no comma is one of the characters and the ranges in the list hold its characters and no others. |
| GlobParser.NoDashNoRange | lib/glob2regex/src/glob_ast.cpp:82-85 | Without a dash between others that is so. |
| GlobParser.DashMakesRange | lib/glob2regex/src/glob_ast.cpp:81-85 | For `{a,-,c}` it is not: the class takes `b` and not the dash. |
| GlobParser.DashMayBeHarmless | lib/glob2regex/src/glob_ast.cpp:81-85 | For `{a,-,b,-}` it is, in spite of the dash inside. |
| GlobParser.ListFindsChoiceExactlyWhen | lib/glob2regex/src/glob2regex.cpp:27-30 | What such a list is converted to finds exactly the strings ending in one of the choices if and only if, besides, the class is sound. |
| GlobParser.DashBehindRangeIsNoRegex | lib/glob2regex/src/render_ast.cpp:60 | `[a-b-c]` and `{a,-,b,-,c}` are parsed and converted to what is no regular expression, though the ranges of the list are listed. |
| GlobPrinting.ListExactlyWhen | lib/glob2regex/src/glob_ast.cpp:79-85 | Branches written with commas between them are taken by the rule for lists of single characters exactly if they are such a list, a comma being a character, too. |
| GlobPrinting.ExpressionIsRead | lib/glob2regex/src/glob_ast.cpp:78-91 | An expression written as a glob is read back as it is, at any depth of braces, up to where no part can begin. |
| GlobPrinting.WrittenIsParsed | lib/glob2regex/src/glob_ast.cpp:95-120 | So the whole text of an expression parses as that expression. |
| GlobPrinting.ReadIsWritable | lib/glob2regex/src/glob_ast.cpp:78-91 | Whatever the parser reads, of any text, can be written: literals are as long as possible, classes and choices are told apart, no star stands before a star. |
| GlobPrinting.WritableExactlyWhen | lib/glob2regex/src/glob_ast.cpp:78-91 | The parser makes exactly these expressions: both directions. |
| GlobPrinting.WrittenAgain | lib/glob2regex/src/glob_ast.cpp:95-120 | Every glob that parses can be written again from its expression; that parses the same and is converted to the same regular expression. |
| GlobPrinting.StrayIsError | lib/glob2regex/src/glob_ast.cpp:95-120 | Behind any expression a closing brace or bracket, a plus, a space, or a backslash before a character without a meaning is a syntax error at its place. |
| GlobMeaning.StarFinds | lib/glob2regex/src/glob_ast.cpp:88-91 | Between two texts, `*` finds what has no slash in it: the strings ending in the first text, anything without a slash, and the second. |
| GlobMeaning.StarsFind | lib/glob2regex/src/glob_ast.cpp:88-91 | `**` finds anything. |
| GlobMeaning.QuestionMarkFinds | lib/glob2regex/src/glob_ast.cpp:88-91 | `?` finds one character other than a slash. |
| GlobMeaning.ClassFinds | lib/glob2regex/src/glob_ast.cpp:82-84 | `[...]` finds one character of the class and `[!...]` one that is not of it, if the class is sound; else nothing. |
| GlobMeaning.ListedClassFinds | lib/glob2regex/src/glob_ast.cpp:82-84 | Without a dash inside these are the characters listed, or those that are not. |
| GlobMeaning.RangeFinds | lib/glob2regex/src/glob_ast.cpp:82-84 | `[a-z]` finds one character from the one to the other, and nothing if they are in the wrong order. |
| GlobMeaning.ChoiceFinds | lib/glob2regex/src/glob_ast.cpp:79-81 | `{l,r}` finds one or the other. |
| GlobMeaning.OrdinaryText | lib/glob2regex/src/glob_ast.cpp:77-87 | Text without any of `{}[]*\+?` and space stands for itself. |
| Specs.SkipQuotes | lib/libpqtypes-1.5.1/src/spec.c:629-658 | Finds the end of a quoted section, minding backslashes. |
| Specs.ParseId | lib/libpqtypes-1.5.1/src/spec.c:516-593 | Reads an identifier, quoted or not, with what is written behind it. |
| Specs.TypeReadExactlyWhen | lib/libpqtypes-1.5.1/src/spec.c:474-593 | A type is read from a text exactly if its name stands there: quoted or not, with a mark or not, behind the name of a schema or not, as far as the place where reading ends, folded to lower case if not quoted. |
| Specs.Parse | lib/libpqtypes-1.5.1/src/spec.c:256-366 | One step over a format: what it skips or which handler it finds, and what it adds to the statement. |
| Specs.PiecesMakeFormat | lib/libpqtypes-1.5.1/src/spec.c:256-366 | Copied text and parameters make up the format, in order and without loss. |
| Specs.PiecesJoined | lib/libpqtypes-1.5.1/src/spec.c:256-366 | Statements and parameters of two stretches join; placeholders are numbered on. |
| Specs.StatementParsesAlike | lib/libpqtypes-1.5.1/src/spec.c:303-315 | What parses without a statement parses the same way with one. |
| Specs.TypeData.CompileFormat | lib/libpqtypes-1.5.1/src/spec.c:147-194 | The loop compiles every parameter's handler and flags and rewrites the statement with placeholders counted from 1, other text verbatim; it fails exactly if the format does not parse or the statement outgrows its buffer. |
| Specs.TypeData.SpecPrepare | lib/libpqtypes-1.5.1/src/spec.c:38-231 | Adds the compiled format under a free name, removes a name, or fails leaving everything as it was. |
| Specs.TypeData.GetSpec | lib/libpqtypes-1.5.1/src/spec.c:453-462 | Finds a specifier by name. |
| Specs.TypeData.RemoveSpec | lib/libpqtypes-1.5.1/src/spec.c:86-106 | Takes the first specifier of a name off the list. |
| Specs.ReplayIsParsing | lib/libpqtypes-1.5.1/src/param.c:263-299 | The identifiers of a compiled format lead to the handlers parsing found, also after more types have been registered. |
| Specs.PreparedIsParsed | lib/libpqtypes-1.5.1/src/param.c:263-299 | A call by name puts its parameters with the same handlers and flags in the same order as a call by format; removing the name undoes preparing it. |
| Specs.ReplaySpec | lib/libpqtypes-1.5.1/src/param.c:263-299 | The loop over a compiled specifier. |
| Specs.ParseParameters | lib/libpqtypes-1.5.1/src/param.c:282-318 | The loop over a format. |
| Specs.PutFormat | lib/libpqtypes-1.5.1/src/param.c:251-299 | What a call puts its parameters with. |
| Specs.PointersOfBuiltIn | lib/libpqtypes-1.5.1/src/handler.c:21-115 | Of the built-in types exactly those said to support pointers allow them. |
| Specs.PointerToStrOnly | lib/libpqtypes-1.5.1/src/handler.c:625-647 | With the built-in types `%str*` is parsed as a pointer to a `str`, while `%null*` is an error and `%null` is none. |
| Specs.FallbackIsOwnBaseExactlyWhen | lib/libpqtypes-1.5.1/src/spec.c:334-349 | A type without a put routine gets that of its own base exactly if this is also the base of the type registered first, or neither base identifies a type that can be put. |
| Specs.SecondSubclassPutsWrong | lib/libpqtypes-1.5.1/src/spec.c:334-349 | An example where it does not. |
| SpecTexts.DecimalSaysNumber | lib/libpqtypes-1.5.1/src/spec.c:326-331 | The numeral of a placeholder consists of digits without a leading zero and says its number in base ten. |
| SpecTexts.StatementTexts | lib/libpqtypes-1.5.1/src/spec.c:256-366 | A statement is the copied texts in order and, at the k-th parameter, a dollar sign and a numeral that says k. |
| SpecTexts.SamePlaceholder | lib/libpqtypes-1.5.1/src/spec.c:326-331 | There is one such text for a number. |
| SpecTexts.StatementOfFormat | lib/libpqtypes-1.5.1/src/spec.c:147-194 | For every format that parses, the pieces make it up, and its statement is the only text made so. |
| SpecTexts.FoundExactlyWhen | lib/libpqtypes-1.5.1/src/handler.c:507-537 | A type found by name is the first registered one that fits, or if there is none the first built-in one; without a schema any schema fits. |
| SpecTexts.LowerByPositions | lib/libpqtypes-1.5.1/src/spec.c:509-511 | Upper-case letters of an unquoted name become lower-case ones, all else stays. |
| SpecTexts.NameCharacters | lib/libpqtypes-1.5.1/src/spec.c:516-560 | Letters, digits, underscore and quote by their codes, and the longest name. |
| SpecTexts.SpecNameStarts | lib/libpqtypes-1.5.1/src/spec.c:71-76 | What the name of a prepared specifier begins with. |
| SpecTexts.PointersOfOthers | lib/libpqtypes-1.5.1/src/handler.c:625-646 | Types of other schemas may be put by pointer whatever their names. |
| EntryPaths.EntryPath.PushPiece | src/navigate/entrypath.cpp:76-113 | Pushes the items of a piece, following `..` and dropping `.`; no item on the stack is ever empty, `.` or `..`. |
| EntryPaths.EntryPath.ToString | src/navigate/entrypath.cpp:114-119 | The items joined by slashes behind a slash. |
| EntryPaths.ItemsOfJoined | src/navigate/entrypath.cpp:65-69 | The items of two pieces with a slash between them are those of one and the other. |
| EntryPaths.CompleteExactlyWhen | src/navigate/entrypath.cpp:65-69 | A piece is taken whole exactly if the backslashes at its end make pairs. |
| EntryPaths.PushedOneByOne | src/navigate/entrypath.cpp:76-113 | Then pushing a relative piece behind it is pushing both with a slash between. |
| EntryPaths.ItemsAreNoLonger | src/navigate/entrypath.cpp:65-69 | Reading never makes more of a text than is in it, and less if there is a backslash. |
| EntryPaths.ReadAgainExactlyWhen | src/navigate/entrypath.cpp:114-119 | The text of a stack leads back to it exactly if no item contains a slash or a backslash. |
| EntryPaths.AnyItemCanBePushed | src/navigate/entrypath.cpp:67-68 | Any name can be pushed as one item by escaping it. |
| EntryPaths.DotsBehindPiece | src/navigate/entrypath.cpp:99-112 | Behind any piece that is taken whole, `..` takes off the last item of the stack, if there is one, and `.` does nothing. |
| EntryPaths.PieceOfItems | src/navigate/entrypath.cpp:94-112 | A relative piece of items pushes these, followed by `..` all but the last, and behind a slash it starts over. |
| EntryPaths.HexEscape | src/navigate/entrypath.cpp:68-69 | `\xHH` stands for the character with that code. |

## Left out

- Database, Redis and PostgreSQL calls, plugins, command lines, disc detection, the file tree walk itself: foreign code; what a walk finds is a parameter of `OnDataCreate`.
- DamerauLevenshteinWithSize: costs are natural numbers and lengths those of the texts, as the caller passes them; failed allocation is not modelled, and the hash map is a finite map.
- Listing.DirIterator.constructor: the level offset is 0, which the assertions at `src/machinery/set_listing.cpp:102-103` force; an iterator into a vector is a position in it.
- Listing.SetListingView.OfRange: a view of an empty range has no base path, and its iterators fail the assertion at `src/machinery/set_listing.cpp:100`; it is not modelled.
- SortedListing.LowerBound: the binary search stands for the one of the standard library; `std::sort` itself is not modelled, only that its result is determined.
- SortedListing.PathList.AddPath: levels and offsets are not cut to 16 bits; times and symbolic links are left out.
- Hashing.HashDir: reading is given by a function from paths to contents and how much of them can be read; a file that cannot be opened, the callback and file sizes over 64 bits are left out.
- TigerCore.TigerBlock: the S-boxes are arbitrary functions; big-endian branches are left out.
- The fixed-size forms of `tiger_2`: easy.
- Conversion of hashes to and from hexadecimal text: easy.
- Numerics.NumericVar.RoundVar: NaN has no sign value here.
- NumericWire.PutThenGet: a number whose fields do not fit into sixteen bits is another one when it is read; that is not followed, only that it is too long for the buffer. Byte order and the server's own checks are left out.
- NumericWire.GetNumeric: numbers with digits behind their scale are left out, for which rounding might need a cell that is not there; `PutNumeric` sends none.
- NumericText.Str2Num: integers are unbounded where the source relies on texts shorter than two gigabytes; `strtol` is not cut off at the range of `long`, which only matters beyond the exponents accepted.
- JulianDay.Date2j: dates for which a sum leaves the range of `int`.
- JulianDay.Bin2Pgdate: for numbers before the first of March 4801 BC the derived fields `jday`, `yday` and `wday`, whose sums may leave the range of `int`.
- Floating-point time, intervals and time zones of `datetime.c`.
- GlobParser.ConvertKeepsMeaning: case folding is not modelled, only that the option is set.
- RegexText.ReadPattern: reads only the notation that globs are written in.
- Specs.SkipQuotes: a format that ends in a backslash inside quotes counts as unterminated; the source reads past its end.
- Specs.PutFormat: calls that keep a statement buffer of their own are not modelled; failed allocation is not, nor the put routines themselves.
- EntryPaths.EntryPath.PushPiece: characters are not bytes; `file_path`, `level` and the group number only read the stack.
- `make_filerecord_tree`, `chunked_run`, the cache of `ListDirContent`: small or not right for all inputs.
- Plain getters, enum maps, tags.
