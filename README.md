# RT-11 volume directory engine, modelled in Dafny

This project models the directory engine of `rt11dir.cpp`. The program manipulates RT-11 disk images. An image is a flat run of 512-byte blocks. The home block (block 1) names the first directory block. The directory is a chain of two-block segments of 512 words each, linked through word 1 of each segment header. Each segment holds a five-word header and then a list of entry slots. A slot is 7 words plus the volume's extra words. The list ends at a slot whose status has the end-of-segment bit, at a zero status word, or where the next slot would pass word 512.

The model covers:

- `words.dfy`: words, status bits, the segment header, the entry width, and the positions of a segment's entry slots.
- `rad50.dfy`: the RAD50 three-character codec and the 6.3 file-name codec.
- `names.dfy`: normalisation of host names, and RT-11 wildcard matching (`*` and `?`).
- `fsmatch.dfy`: the two-pointer glob matcher for host file names.
- `dates.dfy`: RT-11 date words (era, month, day, year-in-era), formatting as `dd-Mmm-yy`, and parsing of `dd-MMM-yy` strings.
- `directory.dfy`: the volume, the home block, segment reads and writes, entry decoding, start blocks, and the chain walk of `readDirectory` with its loop and range guards.
- `allocation.dfy`: the first-fit search, the no-replace test, and the in-place update of the chosen segment. The update writes the permanent entry, shifts the rest up, and adds an empty remainder entry and the end-of-segment slot.
- `split.dfy`: `splitDirectorySegment`. It walks the chain, picks a free segment number and the split point, builds the old and new halves, and updates the highest-segment word of segment 1.
- `copy.dfy`: one attempt of `copySingleToRt11` on a volume value.

The program's loops that change state are modelled as Dafny methods with loops: the segment scans, the chain walks, the shift, the split's copy loops and the first-fit search. The directory buffers the program updates in place are arrays. Each method is proved equal to a specification function, and the program's promises are proved about those functions as lemmas.

Three places where the code does something other than what a reader of its comments or of the reader function might expect:

- The comment at rt11dir.cpp:920 asks for at least one entry in the new segment, and lines 921-923 move a split point that falls on the last entry back to the middle entry. For a segment of one entry the middle is entry 0, so the old segment is left with no entry (`Split.SplitPoint`).
- The old segment is written at rt11dir.cpp:946-947 with its link already naming the new segment, and the new segment's blocks are read only at 986-987. A failed read there leaves the old segment written and linked to a segment that was never written (`Split.PartialWrite`).
- The split refuses a segment count of 0 or above 31 (rt11dir.cpp:810-811), while the reader clamps such a count to 1 (rt11dir.cpp:478-479). Both behaviours are kept (`Directory.ClampSegments`, `Split.SplitChainIsReaders`).

## Model

| member | source | states |
|---|---|---|
| Words.ParseSegmentHeader | rt11dir.cpp:446-454 | The parsed header is exactly the first five words of the segment, in order. |
| Words.ParseHeaderRoundTrip | rt11dir.cpp:446-454 | The header parse reads words 0 to 4 as segment count, link, highest segment, extra bytes and data start. Parse and layout are inverse both ways. |
| Words.EntryWords | rt11dir.cpp:524-525 | A slot is 7 words plus half the extra bytes: at least 7, exactly 7 when there are fewer than 2 extra bytes. |
| Words.EntryPositions | rt11dir.cpp:527-541 | Every listed slot starts at or after word 5, fits below word 512, and is neither end-marked nor zero. The first is at the scan start. The slot after the last ends the list. |
| Words.PositionStep | rt11dir.cpp:570 | Consecutive slots are exactly one entry width apart. |
| Words.PositionIsLinear | rt11dir.cpp:527-570 | The j-th slot lies at word start + j times the entry width. |
| Words.PositionsDependOnStatus | rt11dir.cpp:530-541 | The slot list depends only on the status words at the slots and the one that ends the list. |
| Rad50.Rad50Index | rt11dir.cpp:86-92 | The index of the upper-cased character in the 40-symbol table, or 0 (space) for a character not in it. Always below 40. |
| Rad50.EncodeRad50 | rt11dir.cpp:94-102 | The packed word of three padded characters is below 64000 = 40^3. |
| Rad50.DecodeRad50 | rt11dir.cpp:104-115 | The decoded text has at most three characters and no space. |
| Rad50.DecodeEncode | rt11dir.cpp:94-115 | Decoding an encoded group gives the group padded to three characters, upper-cased, with unknown characters turned to spaces, and spaces dropped. |
| Rad50.Rad50RoundTrip | rt11dir.cpp:94-115 | For three table symbols, decode after encode gives them back without spaces. |
| Rad50.UnknownIsSpace | rt11dir.cpp:86-92 | A character outside the table encodes as a space. |
| Rad50.GroupRoundTrip | rt11dir.cpp:94-115 | Any group of up to three name characters survives encode then decode unchanged. |
| Rad50.SplitAtDot | rt11dir.cpp:133-141 | The name part holds no dot. With no dot the whole name is the base. Otherwise the name is base, dot and extension. |
| Rad50.EncodeFileName | rt11dir.cpp:128-154 | The three name words are valid RAD50 words (below 64000). |
| Rad50.DecodeFileName | rt11dir.cpp:117-126 | The decoded name has at most 10 characters and no space, and at most 6 when the extension word decodes to nothing. |
| Rad50.FileNameRoundTrip | rt11dir.cpp:117-154 | A base of up to 6 and an extension of up to 3 name characters survive encodeFileName then decodeFileName. |
| Names.NormalizeRt11Name | rt11dir.cpp:159-178 | Normalisation fails exactly when the name part before the first dot is empty. |
| Names.NormalizeGivesNormal | rt11dir.cpp:159-178 | A normalised name has no lower-case letter. Its parts are the upper-cased base cut to 6 and extension cut to 3. |
| Names.NormalizeFixesNormal | rt11dir.cpp:159-178 | A name already in normal form is returned unchanged. |
| Names.NormalizeIdempotent | rt11dir.cpp:159-178 | Normalising twice is the same as normalising once. |
| Names.MatchComponent | rt11dir.cpp:194-217 | An empty pattern or `*` matches anything. Any other match is at least as long as the pattern without its star. A match of a pattern without a star has the pattern's length and its characters wherever the pattern has no `?`. |
| Names.MatchComponentReflexive | rt11dir.cpp:194-217 | Every value matches itself as a pattern. |
| Names.MatchComponentFixed | rt11dir.cpp:197-205 | A non-empty pattern without '*' matches exactly the values of its length that agree with it wherever it does not hold '?'. |
| Names.MatchComponentLiteral | rt11dir.cpp:197-205 | A non-empty pattern without wildcards matches exactly the equal value. |
| Names.MatchComponentStarSplits | rt11dir.cpp:207-216 | A match against a pattern with a star means the value starts with the text before the star and ends with the text after it. |
| Names.MatchComponentStarAccepts | rt11dir.cpp:207-216 | Conversely, any text put in place of the star matches. |
| Names.MatchRt11Pattern | rt11dir.cpp:219-242 | For a pattern without a star, a match has a name part of the pattern's name length and an extension of the pattern's extension length, wherever the pattern part is not empty. |
| Names.PatternWithoutDot | rt11dir.cpp:219-242 | A pattern without a dot constrains only the name part (its extension pattern is empty and matches all). |
| Names.StarPatternsMatchAll | rt11dir.cpp:194-195 | `*.*` and `*` match every RT-11 name. |
| Names.MatchRt11Reflexive | rt11dir.cpp:219-242 | Every name matches itself. |
| Names.MatchRt11Literal | rt11dir.cpp:219-242 | A wildcard-free pattern with a name and an extension matches exactly the equal name. |
| FsMatch.MatchFsName | rt11dir.cpp:736-762 | For names without `*`, the backtracking matcher agrees with the recursive glob definition: `*` for any run, `?` for one character, letters compared case-insensitively. |
| FsMatch.LiteralPattern | rt11dir.cpp:736-762 | A pattern without wildcards matches exactly the names of equal length that are equal up to case. |
| Dates.DateFieldsOf | rt11dir.cpp:250-253 | The four fields of a date word lie in their bit widths: era < 4, month < 16, day < 32, year-in-era < 32. |
| Dates.FieldsOfPack | rt11dir.cpp:250-253 | Unpacking the packed fields gives them back. |
| Dates.EraSplit | rt11dir.cpp:362-367 | For years 1972..2099, era < 4 and year-in-era < 32, with 1972 + year-in-era + 32 times era equal to the year. |
| Dates.EncodeRt11Date | rt11dir.cpp:358-375 | An invalid date encodes as 0. A valid date encodes, as written, to the word the intended encoder gives for the first of the same month. |
| Dates.EncodeAsWrittenFields | rt11dir.cpp:358-375 | The encoder returns 0 exactly for invalid dates. Otherwise the word decodes to the same year and month and to day 1, because of the logical and. |
| Dates.EncodeAsWrittenLosesDay | rt11dir.cpp:372 | 15 Jan 1997 and 1 Jan 1997 encode to the same word, whose day field is not 15. |
| Dates.EncodeCorrectedRoundTrip | rt11dir.cpp:358-375 | With the day masked as intended, the word is 0 exactly for invalid dates and otherwise decodes to the same year, month and day. |
| Dates.FormatRt11Date | rt11dir.cpp:247-270 | The formatted date is nine characters or the blank date. |
| Dates.FormatCorrected | rt11dir.cpp:247-270 | A valid date formats as two-digit day, month name and two-digit year, separated by dashes. |
| Dates.MonthNumber | rt11dir.cpp:328-335 | The month number is 0 for a text that is no month key. Otherwise it is the 1-based index of that key. |
| Dates.MonthNameKey | rt11dir.cpp:257-260 | Upper-casing the formatter's month name gives the parser's key for the same month. |
| Dates.StoiTwoDigits | rt11dir.cpp:317 | Two digits read as their decimal value. |
| Dates.StoiFieldBounds | rt11dir.cpp:317-339 | A two-character field that reads as a number lies in -9..99. |
| Dates.CenturyOfTwoDigits | rt11dir.cpp:341-346 | For years 1972..2071 the two-digit year maps back to the year. |
| Dates.ParseDateString | rt11dir.cpp:305-355 | The parser follows the parse definition, and every date it accepts is valid. |
| Dates.ParsedDatesEncode | rt11dir.cpp:305-375 | Every accepted date is valid and encodes to a non-zero word. |
| Dates.FormatParseRoundTrip | rt11dir.cpp:247-355 | For valid dates up to 2071, parsing the formatted corrected word gives the date back. |
| Dates.FormatAsWrittenShowsFirst | rt11dir.cpp:358-375 | Parsing the formatted word of the encoder as written gives day 1 of the same month and year. |
| Directory.FirstDirectoryBlock | rt11dir.cpp:380-394 | Fails exactly when the home block cannot be read. Word 234 of the home block is used, with 0 meaning block 6, so the result is at least 1. |
| Directory.ReadSegment | rt11dir.cpp:66-73 | A segment read succeeds exactly when both of its blocks exist. It returns their 512 words, or the first missing block. |
| Directory.WriteSegment | rt11dir.cpp:75-81 | After a write, the segment reads back as written and every other block is unchanged. |
| Directory.ClampSegments | rt11dir.cpp:478-479 | The reader's segment count is the header's when in 1..31 and 1 otherwise. |
| Directory.DecodeAtPositions | rt11dir.cpp:527-571 | One entry is decoded per listed slot, in order. Each carries the slot's status bits, name words, length, date, segment and word index. |
| Directory.DecodeStartBlocks | rt11dir.cpp:557-569 | Each decoded entry starts where the previous one ended: at the low 16 bits of data start plus the running length total. |
| Directory.StartAt | rt11dir.cpp:557-559 | The j-th entry starts at the low 16 bits of data start plus the lengths of all entries before it. |
| Directory.WalkStep | rt11dir.cpp:491-575 | A readable unvisited segment contributes its entries and number, and the walk goes on at its link with the running total advanced. |
| Directory.WalkStops | rt11dir.cpp:491-512 | A zero link ends the walk. So do a link outside 1..count, a segment already visited, and a segment past the image. |
| Directory.WalkChainInRange | rt11dir.cpp:493-512 | Every segment the walk lists is in 1..count, was not visited before, and lies inside the image. |
| Directory.WalkChainDistinct | rt11dir.cpp:499-504 | No segment is listed twice, so the walk ends on any image. |
| Directory.WalkChainLinked | rt11dir.cpp:491-575 | The chain starts at the first segment, and each listed segment is followed by its link. |
| Directory.WalkStopReason | rt11dir.cpp:491-575 | The stop reason names the link that ended the walk: zero, outside the count, already visited, or beyond the image. |
| Directory.WalkStartBlocks | rt11dir.cpp:482-569 | Start blocks run on across segments: one running total over the whole chain. |
| Directory.WalkEntriesDecoded | rt11dir.cpp:527-571 | Every listed entry sits at one of its segment's slots and was decoded from the words there. Its segment is in the chain. |
| Directory.DirectoryOfShape | rt11dir.cpp:456-576 | Reading fails exactly when the home block or the first segment is unreadable. Otherwise the chain starts at 1, stays in the clamped count, and the start blocks run from the data start. |
| Directory.ScanSegment | rt11dir.cpp:527-571 | The scan of one segment returns the decoded entries and the running total advanced by their lengths. |
| Directory.ReadDirectory | rt11dir.cpp:456-576 | The reader returns the directory listing of the volume. |
| Directory.FollowChain | rt11dir.cpp:484-575 | The loop over segments, with its visited flags, computes the chain walk from segment 1. |
| Allocation.BlocksNeeded | rt11dir.cpp:1070-1071 | The block count is the size rounded up to whole blocks, and at least 1. |
| Allocation.FindFirstFit | rt11dir.cpp:1073-1082 | The search loop returns what the first-fit definition gives. |
| Allocation.FirstFit | rt11dir.cpp:1073-1082 | The first empty (not permanent, not tentative) entry long enough, with no such entry before it, or none when no entry fits. |
| Allocation.IEquals | rt11dir.cpp:639-647 | Two names compare equal exactly when they have the same length and equal characters up to case. |
| Allocation.HasPermanentNamed | rt11dir.cpp:1054-1062 | True exactly when some permanent entry has the name, up to case. |
| Allocation.FindEndOfSegment | rt11dir.cpp:1135-1149 | The scan returns the end of the entry list: the end-marked or zero slot, or where the slots run out. |
| Allocation.PutEntryWords | rt11dir.cpp:1175-1181 | The seven words are written at the slot and nothing else changes. |
| Allocation.ShiftUp | rt11dir.cpp:1187-1192 | The backward loop moves the words up by one slot width. No word is read after it is overwritten. |
| Allocation.PutEndOfSegment | rt11dir.cpp:1206-1210 | The slot is cleared and end-marked, and nothing else changes. |
| Allocation.ApplyUpdateAsWritten | rt11dir.cpp:1175-1211 | The in-place update computes the update as written, with the end slot at the chosen slot plus two widths. |
| Allocation.ApplyUpdateCorrected | rt11dir.cpp:1175-1211 | The in-place update computes the corrected update, with the end slot after the shifted entries. |
| Allocation.NoRemainder | rt11dir.cpp:1175-1183 | With no blocks left over, only the permanent entry is written. |
| Allocation.AsWrittenSlots | rt11dir.cpp:1183-1210 | After the update as written, the list holds only the entries before the chosen one, then the new permanent and empty entries. |
| Allocation.AsWrittenLosesEntries | rt11dir.cpp:1183-1210 | When entries follow the chosen one, the update as written drops them. |
| Allocation.ShiftOverrunExample | rt11dir.cpp:1153-1163 | On a full segment with no end mark, the written pre-check lets the update through while the shifted list passes word 512. The intended pre-check asks for a split. |
| Allocation.UpdateKeepsEntries | rt11dir.cpp:1175-1211 | The corrected update keeps every entry. An exact fit replaces the chosen entry. Otherwise the empty remainder is inserted after it and the rest follow in order. |
| Allocation.UpdateKeepsHeader | rt11dir.cpp:1175-1211 | The update leaves the five header words and the slot width as they were. |
| Allocation.InsertedLengthTotal | rt11dir.cpp:1179-1199 | Splitting the chosen area into the new file and the remainder keeps the block total of the segment. |
| Allocation.ReplacedLengthTotal | rt11dir.cpp:1179 | An exact fit keeps the block total too. |
| Copy.DateFor | rt11dir.cpp:1173 | The entry date is the date given, or the system date when none is given. |
| Copy.ChosenSlot | rt11dir.cpp:1106-1122 | The chosen entry's segment lies inside the image, and its word index is one of that segment's slots. |
| Copy.UpdateChosenOutcome | rt11dir.cpp:1122-1163 | The update refuses exactly when the slot is shorter than needed. It asks for a split exactly when blocks are left over and the list has no room for one more slot and its end. |
| Copy.UpdateChosenSlots | rt11dir.cpp:1122-1211 | A completed update keeps the header. It replaces the entry, or inserts the remainder after it, and keeps the segment's block total. |
| Copy.UpdatedSlotsTotal | rt11dir.cpp:1179-1199 | The replaced or split list has the block total of the original. |
| Copy.CopyOnceRefusals | rt11dir.cpp:1038-1082 | Each refusal holds exactly when its check is the first to fail: bad name, empty image, unreadable directory, no-replace skip, no space. |
| Copy.AllocateAtOutcome | rt11dir.cpp:1084-1163 | For a usable entry, the range error holds exactly when the area starts at 0 or runs past the image. A split is asked for its own segment exactly when the list cannot grow. |
| Copy.AllocateAtCopies | rt11dir.cpp:1106-1223 | A completed copy rewrites only the chosen segment, and that segment is updated as the update promises. |
| Copy.AsWrittenAgreesAtEnd | rt11dir.cpp:1122-1211 | When the chosen slot is the last before the end of the list, the update as written gives the same outcome and words as the corrected one. |
| Copy.AsWrittenChosenSlots | rt11dir.cpp:1122-1211 | A completed update as written puts the permanent entry in the chosen slot. With nothing left over the other entries are kept; otherwise the list is the entries before it, the permanent entry and the empty entry. |
| Copy.AsWrittenOverrunExample | rt11dir.cpp:1135-1163 | On a full segment with no end mark, the update as written reaches the shift past the buffer, where the corrected one asks for a split. |
| Copy.UpdateSegmentAsWritten | rt11dir.cpp:1122-1211 | The update of the 512-word buffer with the room test on the chosen slot and the end slot after the empty entry computes the update as written. |
| Copy.UpdateSegment | rt11dir.cpp:1122-1211 | The update of the 512-word buffer with the room test on the end of the list and the end slot after the shifted entries computes the corrected update. |
| Copy.CopySingleToRt11 | rt11dir.cpp:1029-1229 | One copy attempt computes the copy definition. |
| Copy.PlaceFile | rt11dir.cpp:1054-1082 | The no-replace test and first-fit search compute the placement definition. |
| Copy.AllocateInPlace | rt11dir.cpp:1084-1223 | The range test and segment update compute the allocation definition. |
| Split.MovableFrom | rt11dir.cpp:902-909 | The indices of the permanent or tentative entries, all of them, in increasing order. |
| Split.SplitPoint | rt11dir.cpp:911-923 | The middle movable entry unless it is the last entry. In that case, or when none is movable, the middle entry. Always one of the entries. |
| Split.OldSegmentWords | rt11dir.cpp:930-934 | The old segment is the segment with the split slot end-marked and the link set to the new segment. Every other word is kept. |
| Split.NewSegmentWords | rt11dir.cpp:951-982 | The new segment keeps the header with the old link. The entries from the split point are moved to word 5 and followed by an end mark, with zeros beyond. |
| Split.OldSegmentSlots | rt11dir.cpp:925-934 | The old segment lists exactly the entries before the split point. |
| Split.NewSegmentSlots | rt11dir.cpp:951-982 | The new segment lists exactly the entries from the split point on. |
| Split.SplitKeepsEntries | rt11dir.cpp:925-982 | The old half's entries followed by the new half's are the original entries. Both keep the slot width, and the block total is unchanged. |
| Split.ChainUsed | rt11dir.cpp:815-840 | The chain walk marks segments in 1..count that lie inside the image, including the start. It fails only on a loop or an unreadable segment. |
| Split.ChainMatchesReader | rt11dir.cpp:815-840 | The split's chain is the set of segments the directory reader lists. |
| Split.FirstUnused | rt11dir.cpp:849-859 | The smallest segment number not in the chain, or none when all are used. |
| Split.SplitChain | rt11dir.cpp:796-840 | A successful start has segment 1 read, a count in 1..31 and a chain containing 1 with all its segments inside the image. |
| Split.SplitChainIsReaders | rt11dir.cpp:810-840 | On success the reader succeeds with the same chain. The count is refused exactly when it is 0 or above 31. |
| Split.SplitPlan | rt11dir.cpp:844-923 | A plan fits the volume, keeps the chain and targets the segment asked for. |
| Split.SplitPlanChecks | rt11dir.cpp:844-923 | Not-in-chain, directory-full and empty-segment each hold exactly when theirs is the first check to fail. The new segment is the smallest unused number, at least 2. |
| Split.WriteSegments | rt11dir.cpp:936-999 | The writes succeed exactly when the new segment lies inside the image, and return its number. |
| Split.NewHighest | rt11dir.cpp:1003-1004 | The highest segment in use becomes the larger of the recorded value and the new segment. |
| Split.WordTwoKeepsEntries | rt11dir.cpp:1006-1007 | Setting the highest-segment word keeps a segment's link, width and entries. |
| Split.SplitOutcomeDone | rt11dir.cpp:791-1021 | A completed split leaves the old half (entries before the point, linked to the new segment) and the new half (the rest, with the old link). Segment 1's word 2 becomes the larger of the recorded value and the new segment. When another segment is split, segment 1 is rewritten only if that word changes and otherwise keeps every word as read. No other block changes. |
| Split.SplitOutcomeErrors | rt11dir.cpp:797-999 | A failed check leaves the volume unchanged. A new segment outside the image gives the result of the segment writes. |
| Split.PartialWrite | rt11dir.cpp:946-987 | When the new segment's blocks cannot be read, the old half is already written and linked to it, and no other block has changed. |
| Split.LinkIsInChain | rt11dir.cpp:815-840 | Segment 1's link, when in range, is in the chain. |
| Split.SplitAsWritten | rt11dir.cpp:791-1024 | The split as written keeps the image size, and succeeds only when the chain walk and the plan succeed. |
| Split.AsWrittenAgrees | rt11dir.cpp:1001-1021 | The split as written returns the same result as the corrected one, and leaves the same volume unless segment 1 is split. |
| Split.StaleWriteUndoesSplit | rt11dir.cpp:1006-1020 | Splitting segment 1 as written, with a new segment above the recorded highest, rewrites segment 1 (at rt11dir.cpp:1006-1020) from its copy read before the split (at rt11dir.cpp:797-808). Segment 1 keeps its old link, which is never the new segment, and all its entries, the moved ones included. |
| Split.StaleWrite | rt11dir.cpp:1006-1020 | The write of segment 1 as written stores the stale copy with only word 2 changed. |
| Split.MarkChain | rt11dir.cpp:815-840 | The loop with the used flags computes the chain walk from segment 1. |
| Split.FindUnused | rt11dir.cpp:849-855 | The loop finds the smallest unused segment number. |
| Split.CollectEntries | rt11dir.cpp:876-894 | The loop collects exactly the segment's slot positions. |
| Split.CollectMovable | rt11dir.cpp:902-909 | The loop collects exactly the movable entry indices. |
| Split.ChooseSplitPoint | rt11dir.cpp:911-923 | The split point chosen is the one the definition gives. |
| Split.BuildOldSegment | rt11dir.cpp:930-934 | The buffer built holds the old segment's words. |
| Split.BuildNewSegment | rt11dir.cpp:951-982 | The copy loop builds the new segment's words. |
| Split.CheckChain | rt11dir.cpp:796-840 | The checks on segment 1 and the chain compute the chain definition. |
| Split.MakePlan | rt11dir.cpp:844-923 | The remaining checks compute the plan definition. |
| Split.WriteHalves | rt11dir.cpp:925-999 | The two segment writes compute the write definition. |
| Split.SplitDirectorySegment | rt11dir.cpp:791-1024 | The whole split computes the corrected split outcome. |

## Left out

- Byte packing of words into blocks, and file and stream handling (open, seek, short reads) are not modelled. A volume is a sequence of whole blocks of 16-bit words. A block read fails exactly when the block is past the end.
- The image size in bytes is not modelled: a volume of no whole block is refused as an empty image. The program refuses only a zero-byte image; a shorter-than-one-block image then fails reading the directory.
- The writes of the file's data blocks (rt11dir.cpp:1093-1104) are left out. The chosen segment is re-read as it was listed, which differs only when the empty area overlaps the home block or the directory blocks: the home block is read again for the first directory block (rt11dir.cpp:1106), and the range check refuses only start block 0.
- Host filesystem work is left out: existence checks, reading the source file (its size is a parameter), `expandWindowsWildcard` and listing host directories.
- `copyFromRt11`'s data transfer, `showDirectory`, `checkBadBlockTable`, `printHelp` and `main` are not part of this model. Console output and warnings are left out too.
- `encodeRt11DateFromSystem` is left out: the clock is I/O, and its date word is the parameter `systemDate` of the copy.
- The program's recursive retry after a split is not modelled. One copy attempt returns `SplitNeeded(seg)`, and the split is a separate operation.
- Dates.Stoi: reads leading spaces, a sign and digits. Overflow and the exception of `std::stoi` on longer inputs are not modelled, since the fields read are two characters long.
- FsMatch.MatchFsName: the contract covers names without `*`. For a name holding `*` the backtracking matcher is not proved against the glob definition.
- Allocation.ApplyUpdateAsWritten: requires the shifted list to stay inside the 512-word buffer. The out-of-bounds write of the program when it does not is exhibited by `Allocation.ShiftOverrunExample`, not executed by the method.
- Copy.CopySingleToRt11: uses the corrected pre-check and update, not the written ones; see Findings.
- Copy.AllocateInPlace: performs the range test as written, then the corrected update of `Copy.UpdateSegment`. The update as written is `Copy.UpdateSegmentAsWritten`, which is not wired into the copy because its shift can run past the buffer.
- Copy.UpdateSegment: applies the room test on the end of the list and the end slot after the shifted entries, not the program's test on the chosen slot and end slot after the empty entry; `Copy.UpdateSegmentAsWritten` models those.
- Names.NormalizeRt11Name, Rad50.EncodeFileName: host names are taken as sequences of single-byte characters. The program cuts and encodes the bytes of its strings, so a name with characters above 127 (several bytes each in UTF-8) is cut and encoded differently; such names are not modelled.
- Split.SplitDirectorySegment: computes the corrected split, with segment 1's highest-segment word set on segment 1 as left by the split; the split as written is `Split.SplitAsWritten`.
- Rad50.DecodeRad50: for a word from 64000 on, '?' stands in for the byte read past the 40-character table (rt11dir.cpp:104-106).

## Findings

| source | as written | input that shows it | evidently intended | confidence | as-written member | corrected member |
|---|---|---|---|---|---|---|
| rt11dir.cpp:372 | the day field is `(day && 0x1F) << 5`, a logical and, so every day encodes as 1 | 15 Jan 1997 encodes to the same word as 1 Jan 1997 | `(day & 0x1F) << 5`, so the day is kept | high, not executed | Dates.EncodeAsWrittenLosesDay | Dates.EncodeCorrectedRoundTrip |
| rt11dir.cpp:1204-1210 | the end-of-segment slot goes right after the new empty entry, on top of the first shifted entry | any update with blocks left over where an entry follows the chosen one | the end slot after the shifted entries, so no entry is lost | high, not executed | Allocation.AsWrittenLosesEntries | Allocation.UpdateKeepsEntries |
| rt11dir.cpp:1153-1163 | the room check looks only at the chosen slot plus two widths, not at the end of the list | a full segment with 7-word slots and no end mark, taking part of the first empty area: the list ends at word 509 and the shift writes words 512 to 515 | split when the end of the list plus two widths passes word 512 | high, not executed | Allocation.ShiftOverrunExample | Copy.UpdateChosenOutcome |
| rt11dir.cpp:1006-1020 | segment 1 is rewritten from the copy read before the split | splitting segment 1 when the new segment is above the recorded highest: segment 1 gets back its old link, not the new segment, and all its entries, the moved ones included | set word 2 on segment 1 as the split left it | high, not executed | Split.StaleWriteUndoesSplit | Split.SplitOutcomeDone |
| rt11dir.cpp:104-106 | `RAD50_TABLE[w / 1600]` reads past the 40-entry table | any name word from 64000 on, such as 0xFFFF | decode only indices below 40 | high, not executed | Rad50.DecodeIndexOverrun | Rad50.DecodeInTable |
