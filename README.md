# rwprocmem in Dafny

rwprocmem is a Linux command-line tool that reads and writes another process's memory. It works like a small Cheat Engine. The user:

- picks a target process id;
- scans the target's readable memory regions for a value (an integer of a given width or a text string) under a comparison operator;
- narrows the saved address set with follow-up scans, or undoes the last narrowing;
- writes a value to every saved address;
- "freezes" addresses, so that a background worker keeps rewriting a stored byte pattern to them.

This project models the logic at the core of the tool and proves what that logic promises. Each module follows one source file or one pair of header and implementation.

- `Common`: bytes, the three exception classes the code throws (`runtime_error`, `invalid_argument`, `out_of_range`) as `Result`/`Outcome`, the `fmt` hexadecimal and decimal text, and `std::stoul(s, nullptr, 16)`.
- `MemoryStructs`: `MemRegion`, `MemRegionPerms`, `MemAddress`.
- `ComparisonType`, `DataType`: the operator and type-name parsers.
- `Utils`: `SplitString` and `JoinVectorOfStrings`.
- `MemoryAccess`: the `process_vm_readv` / `process_vm_writev` wrappers and the errno-to-message table. The two system calls are oracle parameters whose only promise is the kernel's: never more bytes than asked for.
- `MemoryFuncs`: the typed comparison of two little-endian integers of width 1, 2, 4 or 8; the sliding-window search over regions; the re-check of a saved address list; the older `memcmp` search that lets a read failure propagate.
- `MemoryScanner`: the scan state machine (current and previous sets, undo flag, started flag), as a class.
- `MemoryFreezer`: the frozen-address list, the enabled-entry counter, the running flag, the worker's position and message queue, as a class. The worker's loop body is one step.
- `Process`: the pid check and the per-line parsing of `/proc/<pid>/maps` (given as lines).
- `CommandProcessor`: the quote-aware tokenizer and the command dispatch.
- `Conversions`, `ScanCommand`, `FreezeCommand`: the argument routing of the `scan` and `freeze` commands that drives the scanner and the freezer.

Each imperative loop of the source is a method proved against a specification function. The properties the source promises are proved about those functions as lemmas: soundness, completeness and order of the searches; the subsequence property of the narrowing scan; round trips of the parsers and of split/join; and the counter bookkeeping of the freezer.

Where the code and its help text disagree, the model follows the code. The `freeze` help text says that added addresses start disabled. `AddAddress` creates them enabled, and so does `MemoryFreezer.MemoryFreezer.AddAddress`.

`EnableAllAddresses` adds the number of previously disabled entries to the counter (src/MemoryFreezer.cpp:87-99). The relation "counter equals the number of enabled entries" therefore holds afterwards if and only if it held before.

`src/Utils.cpp` repeats `GetErrorMessage`, the read and write wrappers and the equality `FindDataInMemory` of `src/MemoryFuncs.cpp`, word for word (src/Utils.cpp:82-223). One definition models both copies.

## Model

| member | source | states |
|---|---|---|
| Common.StringBytes | src/cmds/FreezeCommand.cpp:25-29 | a text of one-byte characters has as many bytes as characters, each the code of its character, in order |
| Common.StringBytesInjective | src/cmds/FreezeCommand.cpp:25-29 | two texts give the same bytes iff they are the same text |
| Common.StoulHex | src/Process.cpp:37-48 | a hexadecimal parse that succeeds yields a value below 2^64 |
| Common.StoulHexString | src/cmds/ScanCommand.cpp:80-83 | the address text printed with "{:x}" parses back with stoul base 16 to the same address |
| ComparisonType.ParseComparisonType | src/ComparisonType.cpp:30-33 | any rejected text throws invalid_argument "Invalid scan type." |
| ComparisonType.ParseKeyword | src/ComparisonType.cpp:6-29 | each of "==", "!=", ">", "<", ">=", "<=" parses to its own operator |
| ComparisonType.ParseOnlyKeywords | src/ComparisonType.cpp:6-33 | a parse succeeds iff the whole text is one of the six keywords, and then the operator's keyword is that text (so "=" is rejected and ">=" is never Greater) |
| ComparisonType.ParseIsInjective | src/ComparisonType.cpp:6-29 | distinct accepted texts give distinct operators |
| DataType.ParseDataType | src/DataType.cpp:4-68 | every rejection throws runtime_error |
| DataType.ParseTypeName | src/DataType.cpp:6-63 | each of the eleven type names parses to its own type |
| DataType.ParseOnlyTypeNames | src/DataType.cpp:4-68 | an accepted text is exactly the type's name; a rejected text starting with 'i' gives "Invalid signed type.", one starting with 'u' gives "Invalid unsigned type.", anything else and the empty text give "Invalid type." |
| Conversions.IntKindOf | src/cmds/ScanCommand.cpp:134-149 | each integer type tag selects the integer kind whose signedness and bit width its name spells |
| Utils.SplitString | src/Utils.cpp:15-31 | the tokens are the maximal delimiter-free runs of the input, in order, with empty pieces dropped |
| Utils.SplitTokensAreClean | src/Utils.cpp:15-31 | no token is empty and no token contains the delimiter |
| Utils.SplitConcat | src/Utils.cpp:22-28 | the tokens concatenated give the input with every delimiter removed |
| Utils.SplitJoin | src/Utils.cpp:167-181 | joining non-empty, delimiter-free pieces and splitting again gives the pieces back |
| Utils.JoinVectorOfStrings | src/Utils.cpp:167-181 | the result is the elements from the start index on, with the join character between consecutive elements and none after the last ("" when the start index is the length) |
| Utils.JoinLength | src/Utils.cpp:167-181 | the joined length is the pieces' total length plus one separator per adjacent pair |
| MemoryAccess.ErrorMessagesDistinct | src/MemoryFuncs.cpp:8-38 | EFAULT, EINVAL, ENOMEM, EPERM and ESRCH map to five distinct messages, none of them the fallback; every other code maps to "Unknown error." |
| MemoryAccess.ReadProcessMemory | src/MemoryFuncs.cpp:43-70 | the read fails iff the transfer count is negative, with the message mapped from errno; otherwise it returns exactly the bytes transferred, at most the requested length, and a short read is no error |
| MemoryAccess.WriteToProcessMemory | src/MemoryFuncs.cpp:72-91 | the write fails iff the count is negative, with the mapped message; otherwise it returns the count, between 0 and the data length |
| MemoryFuncs.Encode | include/MemoryFuncs.h:48-49 | a value's stored representation has exactly the width of its type |
| MemoryFuncs.ValueInRange | include/MemoryFuncs.h:48-49 | the value read from memory lies in the range of its type |
| MemoryFuncs.ValueOfEncode | include/MemoryFuncs.h:48-49 | reading back what was stored gives the same value |
| MemoryFuncs.EncodeOfValue | include/MemoryFuncs.h:48-49 | storing the value read from a width-sized buffer gives the same bytes |
| MemoryFuncs.LittleEndianInjective | include/MemoryFuncs.h:48-49 | buffers of the same length that decode to the same number are equal |
| MemoryFuncs.CompareAgainstEncoded | include/MemoryFuncs.h:50-68 | for each of the six operators, comparing memory against the stored needle is the matching relation between the memory value (lhs) and the needle value (rhs) |
| MemoryFuncs.CompareEqualIffSameBytes | include/MemoryFuncs.h:50-54 | two values compare equal iff their first width bytes are the same |
| MemoryFuncs.CompareDataDuality | include/MemoryFuncs.h:50-68 | "!=", ">=" and "<=" are the negations of "==", "<" and ">", and lhs > rhs is rhs < lhs |
| MemoryFuncs.RegionHitsSpec | include/MemoryFuncs.h:112-128 | the hits of one region are exactly the offsets where a full window fits and compares true, as start + offset, in increasing order, each carrying its region |
| MemoryFuncs.NoHitsPastEnd | include/MemoryFuncs.h:114-118 | stopping once fewer than dataSize bytes remain loses no hit |
| MemoryFuncs.FindDataInBuffer | include/MemoryFuncs.h:110-128 | the inner loop over one region's bytes yields exactly that region's hits |
| MemoryFuncs.FindDataInRegions | include/MemoryFuncs.h:75-131 | the region search yields the regions' hits concatenated in input order |
| MemoryFuncs.SkippedRegion | include/MemoryFuncs.h:84-101 | an unreadable region, or one whose read throws, contributes nothing, and the regions after it are still searched |
| MemoryFuncs.SearchRegionsAppend | include/MemoryFuncs.h:82-129 | the search of two region lists one after the other is the concatenation of their searches |
| MemoryFuncs.SearchRegionsSound | include/MemoryFuncs.h:112-126 | every reported address is start + i of a readable region among the inputs whose read succeeded, with a full window at i that compares true, and it carries that region |
| MemoryFuncs.SearchRegionsComplete | include/MemoryFuncs.h:112-128 | every offset of a readable region where the comparison holds is reported, at one-byte steps and with no alignment |
| MemoryFuncs.FilterIsSubsequence | include/MemoryFuncs.h:141-175 | the re-check returns an order-preserving subsequence of its input, with entries unaltered, and never grows |
| MemoryFuncs.FilterMembership | include/MemoryFuncs.h:143-174 | an address is kept iff it was in the input, its region is readable, its re-read succeeds and the comparison holds |
| MemoryFuncs.FindDataInAddresses | include/MemoryFuncs.h:134-177 | the address-list loop yields exactly the filtered list |
| MemoryFuncs.SearchOrThrowAgrees | src/MemoryFuncs.cpp:96-133 | the equality search either throws the first readable region's read error, or returns the same hits as the byte-equality region search |
| MemoryFuncs.SearchOrThrowStops | src/MemoryFuncs.cpp:102-133 | once a region read throws, later regions do not change the outcome |
| MemoryFuncs.FindBytesInRegions | src/MemoryFuncs.cpp:96-133 | the equality loop with memcmp computes that search result |
| MemoryScanner.MemoryScanner.constructor | src/MemoryScanner.cpp:6-10 | a new scanner has both flags false and both sets empty |
| MemoryScanner.MemoryScanner.Clear | src/MemoryScanner.cpp:15-22 | Clear empties both sets and resets both flags, keeping the pid |
| MemoryScanner.MemoryScanner.Undo | src/MemoryScanner.cpp:24-39 | with an empty previous set it throws "Nothing to undo." and changes nothing; with the undo flag set it throws and changes nothing; otherwise the current set becomes the previous set, which is kept, and the undo flag is set |
| MemoryScanner.MemoryScanner.SetPid | src/MemoryScanner.cpp:41-45 | SetPid records the pid and has exactly the effect of Clear |
| MemoryScanner.MemoryScanner.NewScan | include/MemoryScanner.h:41-57 | when a scan already started it throws and changes nothing; otherwise the current set becomes the region search result, started is set, undo is cleared, and its size is returned |
| MemoryScanner.MemoryScanner.NextScan | include/MemoryScanner.h:60-73 | the current set becomes its own re-check, a subsequence no larger than before; the old current set becomes the previous set; undo is cleared, started is untouched, and the new size is returned |
| MemoryFreezer.EnabledCountRemove | src/MemoryFreezer.cpp:31-45 | deleting an entry lowers the number of enabled entries by one exactly when that entry was enabled |
| MemoryFreezer.EnabledCountUpdate | src/MemoryFreezer.cpp:53-85 | setting one entry's flag changes the number of enabled entries by the change of that flag |
| MemoryFreezer.EnabledCountAllFlagged | src/MemoryFreezer.cpp:87-108 | when every flag is set the number enabled is the length; when none is, it is 0 |
| MemoryFreezer.MemoryFreezer.constructor | src/MemoryFreezer.cpp:10-15 | a new freezer has no entries, a counter of 0, no worker and pid 0 |
| MemoryFreezer.MemoryFreezer.StartThreadLoopIfNeeded | src/MemoryFreezer.cpp:127-137 | a worker is started (its position reset) only when none runs and the counter is positive; otherwise nothing changes, so a second call does nothing |
| MemoryFreezer.MemoryFreezer.AddAddress | src/MemoryFreezer.cpp:19-29 | one enabled entry is appended after the unchanged old entries, the counter grows by one, and the worker is started if needed |
| MemoryFreezer.MemoryFreezer.RemoveAddress | src/MemoryFreezer.cpp:31-45 | an index beyond the size throws "Index out of bounds." and changes nothing; otherwise exactly that entry is deleted, the others keep their order, and the counter always drops by one, so an exact counter stays exact iff the entry was enabled |
| MemoryFreezer.MemoryFreezer.RemoveAllAddresses | src/MemoryFreezer.cpp:47-51 | the list is emptied and the counter is 0 |
| MemoryFreezer.MemoryFreezer.EnableAddress | src/MemoryFreezer.cpp:53-69 | beyond the size it throws and changes nothing; otherwise only that entry's flag is set, the counter grows by one unconditionally (an exact counter stays exact iff the entry was disabled), and the worker is started if needed |
| MemoryFreezer.MemoryFreezer.DisableAddress | src/MemoryFreezer.cpp:71-85 | beyond the size it throws and changes nothing; otherwise only that entry's flag is cleared and the counter drops by one unconditionally (an exact counter stays exact iff the entry was enabled) |
| MemoryFreezer.MemoryFreezer.EnableAllAddresses | src/MemoryFreezer.cpp:87-99 | every entry ends enabled and otherwise unchanged, the counter grows by exactly the number previously disabled, and the counter relation holds afterwards iff it held before |
| MemoryFreezer.MemoryFreezer.DisableAllAddresses | src/MemoryFreezer.cpp:101-108 | every entry ends disabled and otherwise unchanged, and the counter is 0, which restores the counter relation |
| MemoryFreezer.MemoryFreezer.SetPid | src/MemoryFreezer.cpp:120-125 | the pid is recorded, the list is emptied and the counter is 0 |
| MemoryFreezer.MemoryFreezer.WorkerStep | src/MemoryFreezer.cpp:141-188 | with a counter of at most 0 the worker stops and clears the running flag; otherwise it wraps to the first entry at the end, writes only an enabled entry, moves to the entry after it, and on a short write or a failure disables only that entry (without touching the counter) and appends exactly one message |
| Process.Process.constructor | src/Process.cpp:10-13 | a new process handle has pid 0 |
| Process.Process.SetProcessPid | src/Process.cpp:23-35 | a pid is accepted iff it is positive and not the tool's own; otherwise invalid_argument is thrown and the pid is unchanged |
| Process.SetMemoryRangeBoundaries | src/Process.cpp:37-48 | the range text is kept; start and end are the hexadecimal values of the parts before and after '-'; the parse fails iff one part fails, with the first part's error if it fails and the second's otherwise, always invalid_argument or out_of_range |
| Process.SetMemoryRegionPerms | src/Process.cpp:50-76 | read, write, execute and shared are set iff characters 0 to 3 are 'r', 'w', 'x' and 's'; the text is kept verbatim and nothing else changes |
| Process.PermsRoundTrip | src/Process.cpp:50-76 | the permission text of any flag set parses back to those flags |
| Process.RangeRoundTrip | src/Process.cpp:37-48 | the text "start-end" in hexadecimal parses back to that start and end |
| Process.ParseMapsLineText | src/Process.cpp:100-118 | a parsed line keeps its range and permission fields verbatim, and its flags follow the permission field |
| Process.ParseMapsLineBounds | src/Process.cpp:111-115 | a parsed line's start and end are the hexadecimal values of the two parts of its range, and its length is end - start modulo 2^64, so start + length = end when start <= end |
| Process.PathNameSplits | src/Process.cpp:120-132 | the path name is the tokens after the fifth, rejoined with single spaces, or "unknown" when there are none |
| Process.ParseMapsLinePath | src/Process.cpp:120-132 | a parsed line's path name is built from its own tokens in that way |
| Process.ParseMapsLinesOk | src/Process.cpp:98-134 | the whole file parses iff every line parses |
| Process.ParseMapsLinesValues | src/Process.cpp:98-134 | each line yields exactly one region, and the region order follows the line order |
| Process.ParseMapsLinesErr | src/Process.cpp:98-134 | a failed parse reports the error of the first line that fails, and every earlier line parses |
| Process.ParseMapsLinesStops | src/Process.cpp:98-134 | once a prefix of lines fails, the later lines do not change the outcome |
| Process.ParseRegionLine | src/Process.cpp:100-133 | the loop body parses one line into its region, or the error of its range |
| Process.GetMemoryRegions | src/Process.cpp:83-136 | the loop over the lines computes the parse of the whole file |
| CommandProcessor.TokenizeCommand | src/CommandProcessor.cpp:42-73 | the loop computes the tokens of the input: the quote-delimited segments, outer ones split on spaces and inner ones kept whole if non-empty, in input order |
| CommandProcessor.TokenizeClean | src/CommandProcessor.cpp:50-65 | no token is empty and no token contains '"' |
| CommandProcessor.TokenizeUnquoted | src/CommandProcessor.cpp:52-70 | a line with no quote is split on spaces |
| CommandProcessor.TokenizeQuoted | src/CommandProcessor.cpp:52-70 | quoted text between unquoted parts becomes one token with its spaces kept, and the parts around it are split on spaces, in order |
| CommandProcessor.ProcessCommand | src/CommandProcessor.cpp:75-113 | the line is tokenized by the loop and takes the effect the dispatch rules give for its tokens |
| CommandProcessor.DispatchRules | src/CommandProcessor.cpp:80-112 | a line does nothing iff it has no tokens or is "exit"; "help" shows help; a name in the seven-entry table whose command returns yields Ran, and Ran happens only that way; a thrown exception is reported as "name: what" and not propagated; any other name is reported as not found |
| ScanCommand.CallScanner | src/cmds/ScanCommand.cpp:10-24 | once a scan has started it runs the next scan; otherwise it runs a new scan on freshly parsed regions, or fails with the parse error and changes nothing |
| ScanCommand.ScanRequest | src/cmds/ScanCommand.cpp:26-42 | a successful request is a valid search query |
| ScanCommand.ScanRequestMeaning | src/cmds/ScanCommand.cpp:122-149 | a bad operator, fewer than 4 arguments, a bad type or a bad value give their errors in that order; an integer needle has the type's width and reads back as the parsed value; a string needle is args[3..] joined by spaces, with its length as the size |
| ScanCommand.ListSavedAddresses | src/cmds/ScanCommand.cpp:44-54 | listing fails with "No memory addresses to list." iff the current set is empty |
| ScanCommand.WriteTallyBound | src/cmds/ScanCommand.cpp:71-96 | the success count is at most the number of writable saved addresses, which is at most the number of saved addresses |
| ScanCommand.WriteTallyAllWritten | src/cmds/ScanCommand.cpp:71-96 | when no write throws, the count is the number of writable saved addresses |
| ScanCommand.WriteTallyErr | src/cmds/ScanCommand.cpp:84-94 | the loop propagates an exception iff some writable address's write throws an exception other than runtime_error, and it propagates that one |
| ScanCommand.WriteTallyStops | src/cmds/ScanCommand.cpp:84-94 | once a write propagates an exception, the later addresses do not change the outcome |
| ScanCommand.WriteToSavedAddresses | src/cmds/ScanCommand.cpp:56-97 | fewer than 4 arguments give "Missing arguments."; otherwise the loop computes the tally over the saved addresses, skipping non-writable ones and swallowing runtime_error |
| ScanCommand.ScanMain | src/cmds/ScanCommand.cpp:99-151 | fewer than 2 arguments give "Missing keyword argument."; clear, undo, list and write route to their actions; any other keyword is a scan request, whose errors are reported and on success drives the scanner |
| FreezeCommand.DataToByteVector | src/cmds/FreezeCommand.cpp:8-29 | an integer value gives exactly its type's width of bytes, which read back as the parsed value; a parse error propagates; a string gives its bytes in order |
| FreezeCommand.DataToByteVectorInjective | src/cmds/FreezeCommand.cpp:8-23 | two texts of one integer type give equal bytes iff they parse to equal values |
| FreezeCommand.AddRequestMeaning | src/cmds/FreezeCommand.cpp:124-154 | a successful entry is enabled, lives at the parsed address in the region found for it, keeps the type and data texts, and holds the bytes of the data under the parsed type |
| FreezeCommand.FreezeMain | src/cmds/FreezeCommand.cpp:54-159 | fewer than 2 arguments give "Missing keyword argument."; list changes nothing; remove, enable and disable need 3 arguments and route "all" to the All variant, otherwise a parsed index, each with the new list, counter, running flag and worker position its freezer operation gives; add needs 5 arguments and appends the requested entry, counts it and starts the worker if needed; the message queue never changes; any other keyword gives "Invalid keyword." |

## Left out

- Common.StringBytes: a character stands for one byte of a `std::string`. Only texts whose characters are all below 256 are modelled (`IsByteString`, required through `ScanModelled`, `AddModelled` and `FreezeCommand.DataToByteVector`). Multi-byte encodings such as UTF-8 are not modelled.
- Floating point: `float` and `double` scans, comparisons and encodings are not modelled. `ScanCommand.ScanMain` and `FreezeCommand.FreezeMain` require that no such type is named (`ScanModelled`, `AddModelled`).
- `CompareData<std::string>` has no body in the source. Text is modelled only with the `memcmp` byte equality of the older search, so a text scan is modelled only with "==" (`ScanModelled`).
- The system calls `process_vm_readv` and `process_vm_writev`, errno, `getpid` and the contents of `/proc/<pid>/maps` are parameters: oracles, the tool's own pid, and the file's lines.
- `std::stoul`: only the leading hexadecimal digits are read. Leading white space, a sign and a "0x" prefix are not modelled.
- The number conversion behind the value and index arguments (`StrToNumber`) has no body in the source. It is an oracle that returns values in the target type's range. `FindRegionOfAddress` is also an oracle. `PrintMemoryAddresses`, `ListFrozenMemoryAddresses`, `MessageQueuePop` and `GetMessageQueueSize` print or have no body, and are not modelled.
- The `write` command is an oracle from argument list to outcome. `ScanCommand.WriteToSavedAddresses` only builds its arguments.
- The help text, every `fmt::print` output and warning, the partial read and write warnings, and the error lines printed by the saved-address write loop are not modelled. The messages the worker queues are modelled.
- Threads: `std::thread`, `detach` and the unused mutex are not modelled. The worker's loop body is one method, `MemoryFreezer.MemoryFreezer.WorkerStep`, and there are no interleavings.
- The worker's list iterator is an index. Erasing the entry under it, or clearing the list, is undefined in the source. The model puts the index back in range.
- `MemoryFreezer.MemoryFreezer.RemoveAddress`, `EnableAddress`, `DisableAddress` and `FreezeCommand.FreezeMain`: the index equal to the list size passes the source's `>` guard and then touches one past the end, which is undefined. These members require an index different from the size.
- `MemoryFreezer.MemoryFreezer.WorkerStep` requires a non-empty list whenever the counter is positive. The source dereferences the first element of an empty list otherwise.
- `MemoryFuncs.FindDataInAddresses` and `MemoryScanner.MemoryScanner.NextScan` require that no saved address re-reads fewer bytes than the query's data size; `ScanCommand.ScanMain` requires the same only when the arguments form a scan request, and only at that request's data size. The source compares past the end of the short buffer in that case.
- `Process.ParseMapsLine` and the members built on it require a line with at least two tokens, whose range token splits on '-' into at least two pieces and whose permission token has at least three characters. The source reads `tokens[0]`, `tokens[1]`, the two range pieces and permission characters 0 to 3 without checks. Character 3 of a three-character token is its terminating '\0', and anything shorter is undefined (src/Process.cpp:37-48, 50-76, 112-118). Lines with two to five tokens are modelled and get the path name "unknown".
- `MemoryScanner.MemoryScanner.NextScan`: the source's promise that a failing re-check leaves the previous set alone is vacuous. Its address search catches every read failure, so nothing throws.
- `&data[0]` applied to empty data and the wrap-around of `start + i` past 2^64 are not modelled. A region's length is kept modulo 2^64; its conversion to `long` is not modelled.
- The `int` success counter of the saved-address write loop is unbounded (no overflow). The freezer's counter is unbounded too.
- `ProcessCommand` runs commands through a stateless oracle. The commands' effects on the shared process, scanner and freezer are modelled only for `scan` and `freeze`.
- The snapshot's compile-level inconsistencies follow the header declarations: `WriteToProcessMemory` returns the count; the entry's field is the type text.
- The `Process(pid)` constructor and the uninitialised pid field of the scanner are not modelled.
