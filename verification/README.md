# Verified model of the pcap MCP server's core

This project models the parts of the server that decide what a caller gets to see, and proves what they guarantee:

- **Artifact inventory.** `list_pcap_artifacts` walks several directory trees under a scan budget, a page limit and a
  hash-byte budget, and hands out a cursor. Modules `InventoryWalk` (one walk), `InventoryPaging` (runs told by keys),
  `InventoryCall` (one call), `InventoryCursor` and `JsonText` (the token), `InventoryRuns` (runs of a client that sends
  tokens back), `ArtifactHash`, `ArtifactNames`, with `ByteStrings` and `RelPaths` for byte order and joined paths.
- **Wire symptoms.** Packets are grouped into flows and run through four detectors. Modules `Packets`, `FlowGrouping`,
  `Evidence`, `HandshakeReset`, `FlowDetectors`, `MonitorProbes`, `Diagnosis`, with `Sorting`.
- **Bounded extraction.** The chunked ASCII scanner, the Zeek log parser, the redaction of secrets, and the summaries
  made of the records. Modules `AsciiScan`, `Redaction`, `ZeekLogs`, `Signals`, with `GoText`.
- **Containment and slots.** The three directory tests, the workspace checks built on them, and the analyzer
  semaphore. Modules `GoPaths`, `Containment`, `WorkspaceConfig`, `SlotLimiter`.

Code that updates variables in loops or fields of objects is written as methods and classes (`Inventory`, `Scanner`,
`Workspace`, `Limiter`), each proved equal to a function; the theorems are about these functions.

`dafny verify dfyconfig.toml` checks everything; the properties hold on every input unless the last column says otherwise.

## What the proofs show to be false

In seven places the code does less than its documentation or its evident purpose says. The code is modelled as it is;
each time there is a concrete input and the exact condition under which the code does what is expected.

- **Paging can lose files.** `docs/PCAP_SERVER_CONTRACT.md:203-217` presents the cursor as a position in a
  deterministic lexical order. The walk visits each directory's names in byte order, but the cursor test compares whole
  joined paths, and `.` sorts below `/`: after `a/x.pcap`, the sibling file `a.pcap` is never scanned
  (`DotSiblingIsLost`). Following the cursors covers any tree, for all page limits and scan budgets, if and only if every
  key's cursor is taken back and still lets through exactly what comes after that key (`CompleteIff`). Where all names are
  valid UTF-8, that is: no non-empty directory has a sibling named like it followed by a byte below the slash, no name
  holds a backslash, and no token exceeds 2048 bytes (`CoversIffSafe`).
- **Cursors can be refused or rewritten.** After a name with a backslash the server rejects its own cursor, and the files
  that follow are out of reach (`BackslashEndsRun`). JSON rewrites bytes that are not valid UTF-8: the cursor then names
  another key, so that the same file is scanned again for ever (`InvalidByteLoops`) or a file is skipped
  (`InvalidByteSkips`). A cursor comes back as it was exactly under the condition of `CursorAcceptedIff`. No run scans
  a key twice where no cursor leads back (`PagesAscend`), which holds where names are valid UTF-8 (`PagesNeverRepeat`);
  with page limits of any size, also above the ten that the server accepts, only there (`PagesNeverRepeatIff`).
- **A listing error can be lost.** A directory that cannot be listed is called back twice for the same key. When a page
  ends between the two, the error is never counted (`ListingErrorIsLost`); it is lost in a run exactly when every page
  that scans the directory ends at it (`ErrorLostIff`). The error of a root that is missing or cannot be listed is lost
  in every run (`RootErrorNeverSeen`). Errors survive all page limits and budgets, besides everything else, only where
  there are none (`ErrorsSurviveIff`).
- **The reset detector looks at the wrong stretch.** `docs/TOOL_REFERENCE.md:392-395` promises a reset "before
  application bytes in either direction". The code counts the bytes later than the ACK's millisecond and not later than
  the RST's: data on the ACK itself is not counted (`DataOnAckIsMissed`), nor is data in the ACK's millisecond
  (`DataInAckTickIsMissed`), while data after the RST in its millisecond is, so that a report is missing
  (`DataAfterRSTHidesReport`). The exact condition is in `WindowMeetsIntentIff`, and in `StrictTimesSuffice` for distinct
  times.
- **The response to a TLS hello may come before it.** A banner that the server sends in the hello's millisecond, ahead of
  it, is reported as the response (`BannerIsNoResponse`); the response follows the hello exactly if the server has sent
  nothing like that (`ResponseFollowsIff`).
- **The mark on redacted requests is lost.** `internal/pcap/signals_test.go:93-98` expects a request whose URI was
  redacted to be marked. It is, for the records made there (`MarkedIff`), but the parser has redacted every value before:
  the mark of a parsed row is right exactly if its URI shows no secret (`MarkLostIff`, `TokenMarkIsLost`).
- **A directory can resolve differently once it exists.** The comment at `internal/config/config.go:279-291` promises
  the same string before and after its creation. A symbolic link that leads nowhere resolves to its own place, and to
  its target after the target has been created (`DanglingLinkMoves`); creating a directory changes no resolution exactly
  if no link that led nowhere leads to it (`ResolveStableIff`).

## Modelling choices

- A Go string is a Dafny string with one character per byte, so that comparison is Go's byte order.
- A directory tree is an inductive listing; a run of calls sees an unchanged tree. Files are given with how their reads
  are cut and whether one fails, so that hashing is proved for every chunking; the digest is represented by the bytes
  fed to it.
- Base64 and JSON are a codec that brings a cursor back with every byte that is not part of valid UTF-8 rewritten to
  U+FFFD, as Go's encoder does; the rewriting itself is `JsonText.Coerce`. Symbolic links and file kinds are given by a
  file-system function; what `filepath.Abs` and integer parsing yield are parameters.
- `float64` comparisons: the reset ratio `rst/total < 0.9` is `10 * rst < 9 * total`, and times are integer
  milliseconds. Sizes and counts are unbounded, except that the sum of a connection's two byte counts wraps at 64 bits.
- Map iteration yields keys in an arbitrary order; the theorems hold for every order.
- Go's `sort` package is the insertion sort `Sorting.Sort`, a stable sort; for strict weak orders without ties the
  result of any sort is the same (`Sorting.SortUnique`).

## Model

| member | source | states |
|---|---|---|
| InventoryWalk.SkipEntryExact | internal/pcap/artifact_inventory.go:281-296 | the byte comparison of joined paths decides exactly as the component-wise order does: count what is later, pass through a directory on the way to the cursor, skip the rest |
| InventoryWalk.PruningExact | internal/pcap/artifact_inventory.go:164-201 | for every sorted tree and every cursor path, in the tree or not, the pruned walk counts exactly the visits that are later than the cursor, in order |
| InventoryPaging.PendingExact | internal/pcap/artifact_inventory.go:156-201 | over all roots, a call with a cursor counts exactly the visits after the cursor's key |
| InventoryPaging.AllOrdered | internal/pcap/artifact_inventory.go:156-189 | an unbounded scan visits keys in strictly increasing walk order; only the listing error of a directory repeats its key |
| InventoryPaging.NeverRepeatsIff | internal/pcap/artifact_inventory.go:164-296 | for any reading of cursors: no run repeats a key, for all page limits and scan budgets, if and only if no cursor leads back to its key or one before it |
| InventoryPaging.FollowProgress | internal/pcap/artifact_inventory.go:164-296 | progress: where no cursor leads back, each further call leaves strictly fewer visits after the last key |
| InventoryPaging.LostForGood | internal/pcap/artifact_inventory.go:191-296 | a key that the next call's cursor hides is on no later page of the run, whatever the limits and the budget, also where names are rewritten |
| InventoryPaging.CoversIff | internal/pcap/artifact_inventory.go:164-296 | for any reading that keeps the root and rewrites names one by one: the run ends without an error and scans the keys of the unbounded scan in its order, for all page limits the server accepts and all scan budgets, if and only if every key's cursor is read as meaning exactly what comes after that key |
| InventoryPaging.SafeIffLater | internal/pcap/artifact_inventory.go:281-296 | a cursor that comes back unchanged lets through exactly what comes after its key, for all keys of a tree, if and only if no non-empty directory has a sibling named like it followed by a byte below the slash |
| InventoryPaging.ErrorOnPageIff | internal/pcap/artifact_inventory.go:189-212 | in any run: a page has the listing error of a directory if and only if it has the directory and does not end there |
| InventoryRuns.ListArtifacts | internal/pcap/artifact_inventory.go:134-268 | one call from token to response: it refuses, or answers with status, next cursor, artifacts and skip counts of its page, and the hash bytes used are the bytes it read |
| InventoryRuns.CallsFollow | internal/pcap/artifact_inventory.go:134-268 | a client that sends tokens back goes, page by page, through the run over keys in which each cursor means what the server reads from its own token |
| InventoryRuns.PagesAscend | internal/pcap/artifact_inventory.go:164-268 | where no cursor leads back: whatever a later call scans is strictly later in walk order than everything before it, it belongs to the tree, and the run ends after at most one call more than there are visits |
| InventoryRuns.PagesNeverRepeatIff | internal/pcap/artifact_inventory.go:164-268 | over page limits of any size from one up, no key is scanned twice in any run, if and only if no key's cursor that is taken back lets through that key or one before it, once its names are rewritten |
| InventoryRuns.PagesNeverRepeat | internal/pcap/artifact_inventory.go:164-268 | with names that are valid UTF-8, and for all page limits and budgets, no key is scanned twice and the run ends |
| InventoryRuns.CompleteIff | internal/pcap/artifact_inventory.go:134-296 | following the cursors covers any tree, same keys in the same order and without an error, for all page limits from one to ten and all scan budgets, if and only if every key's cursor is taken back (no backslash or NUL byte, at most 2048 bytes) and, with its names rewritten to valid UTF-8, still compares before exactly the keys that come after it |
| InventoryRuns.CoversIffSafe | internal/pcap/artifact_inventory.go:134-296 | with names that are valid UTF-8 that is: no non-empty directory has a sibling named like it followed by a byte below the slash, no name holds a backslash or NUL byte, and no token has more than 2048 bytes |
| InventoryRuns.ErrorsSurviveIff | internal/pcap/artifact_inventory.go:182-248 | the calls make exactly the callbacks of the unbounded scan, listing errors of directories and roots included, for all page limits and budgets, if and only if the condition of `CompleteIff` holds and neither a root nor a directory below one fails to be listed |
| InventoryRuns.RootErrorNeverSeen | internal/pcap/artifact_inventory.go:182-186 | the error of a root that is missing or cannot be listed is in no page of any run |
| InventoryRuns.ErrorLostIff | internal/pcap/artifact_inventory.go:189-212 | in every run the error of a directory below a root is lost if and only if every page that scans the directory ends at it |
| InventoryRuns.DotSiblingIsLost | internal/pcap/artifact_inventory.go:281-296 | counterexample: with budget two, `a.pcap` beside directory `a` holding `x.pcap` is never scanned |
| InventoryRuns.BackslashEndsRun | internal/pcap/artifact_inventory.go:499-502 | counterexample: after a file `a\b.pcap` the next call is refused, and `z.pcap` is never scanned |
| InventoryRuns.InvalidByteLoops | internal/pcap/artifact_inventory.go:460-466 | counterexample: after a file named by byte FF and `.pcap` every call scans the same file again, for ever |
| InventoryRuns.InvalidByteSkips | internal/pcap/artifact_inventory.go:460-466 | counterexample: after a file named by byte 80 and `.pcap` the file `é.pcap` is never scanned |
| InventoryRuns.ListingErrorIsLost | internal/pcap/artifact_inventory.go:189-212 | counterexample: the error callback of an unreadable directory is dropped when a page ends between the directory's two callbacks |
| InventoryCall.ProcessIsPage | internal/pcap/artifact_inventory.go:200-268 | the state updates of a call are those of a page: number scanned, last key, number of artifacts and scan status |
| InventoryCall.ProcessAccounts | internal/pcap/artifact_inventory.go:203-248 | nothing scanned is lost from the response and nothing is added: the artifacts are the resolved paths of the page's artifacts in scan order, and each skip reason counts exactly the visits skipped for it |
| InventoryCall.EntryForBudget | internal/pcap/artifact_inventory.go:307-353 | a computed entry was hashed over the whole file and the budget paid exactly its size; a reliable file without computed hash costs nothing; `hash_unavailable` only when opening or reading failed |
| InventoryCall.HashBudgetConserved | internal/pcap/artifact_inventory.go:151-254 | over any sequence of visits and any read chunking the budget loses exactly the bytes that hashing read, failed reads included, never goes below zero and pays for all computed bytes; with reliable files it pays exactly the sizes of the computed entries |
| InventoryCall.Inventory.constructor | internal/pcap/artifact_inventory.go:151-162 | a call starts with the full hash budget and nothing scanned |
| InventoryCall.Inventory.StopIfNeeded | internal/pcap/artifact_inventory.go:298-305 | stops exactly at the scan budget and then marks the response truncated |
| InventoryCall.Inventory.EntryForPath | internal/pcap/artifact_inventory.go:307-353 | updates the budget through the field and returns the entry, skip or omission of the specification |
| InventoryCall.Inventory.OnVisit | internal/pcap/artifact_inventory.go:200-248 | the callback after the cursor test has exactly the specified effect on all counters, the response and the budget |
| InventoryCall.Inventory.Walk | internal/pcap/artifact_inventory.go:169-249 | the recursive walk handles exactly the counted visits in order and stops where the callback stops it |
| InventoryCall.Inventory.OnDirectory | internal/pcap/artifact_inventory.go:203-220 | a directory calls back once, and again with the error when it cannot be listed |
| InventoryCall.Inventory.ScanRoot | internal/pcap/artifact_inventory.go:164-172 | roots before the cursor's are left out; any other root handles its counted visits |
| InventoryCall.Inventory.List | internal/pcap/artifact_inventory.go:164-254 | a whole call handles the pending visits of all roots from the cursor's on, and reports as hash bytes used what the budget lost |
| ArtifactNames.ExtExact | internal/pcap/artifact_inventory.go:403-410 | the extension tested is the text from the last dot of the last component on, and empty without one |
| ArtifactHash.HashFile | internal/pcap/artifact_inventory.go:355-401 | the read loop with its last-byte probe returns the outcome and byte count of the specification |
| ArtifactHash.HashFromSound | internal/pcap/artifact_inventory.go:364-400 | never more bytes than budget or file; a hash is over the whole file; a budget stop means the budget is used up and the file is longer; unavailable only after a failed read |
| ArtifactHash.HashChunkingIrrelevant | internal/pcap/artifact_inventory.go:364-400 | without read failures the cuts do not matter: hashed if and only if the file fits the budget |
| InventoryCursor.CursorAcceptedIff | internal/pcap/artifact_inventory.go:460-512 | the server takes back the cursor of a key and decodes the same key, if and only if no name on it holds a backslash or NUL byte, its path is valid UTF-8, and the token has at most 2048 bytes |
| InventoryCursor.CursorReadAs | internal/pcap/artifact_inventory.go:460-512 | for every key: its cursor is refused as too long or as an invalid path, or is accepted as the key with every name rewritten to valid UTF-8 |
| JsonText.CoerceFixed | internal/pcap/artifact_inventory.go:460-466 | exactly the texts that are valid UTF-8 come back from JSON as they were |
| JsonText.CoercedIsValid | internal/pcap/artifact_inventory.go:460-466 | what comes back is always valid UTF-8 |
| JsonText.CoerceJoin | internal/pcap/artifact_inventory.go:460-466 | rewriting a joined path is rewriting every name on it |
| InventoryCursor.AcceptedIsCanonical | internal/pcap/artifact_inventory.go:468-512 | any accepted token, also a forged one, names a configured root and a canonical relative path, and the call it starts scans exactly what is later |
| Packets.FlowKeyExact | internal/pcap/diagnose.go:670-684 | with dash-free addresses and positive ports two packets of one protocol share a key if and only if their unordered endpoint pairs are equal |
| Packets.SameConversationSameKey | internal/pcap/diagnose.go:670-684 | both directions always share a key, whatever the addresses |
| Packets.DashedAddressesCollide | internal/pcap/diagnose.go:670-677 | why the key's exactness asks for addresses without a dash: on arbitrary text two different endpoint pairs can give one key; addresses that tshark prints have none |
| FlowGrouping.GroupByKey | internal/pcap/diagnose.go:638-645 | the map holds, under each key that occurs, the eligible packets of that key in input order |
| FlowGrouping.SortedKeys | internal/pcap/diagnose.go:647-651 | whatever order the map yields, the keys come out sorted |
| FlowGrouping.ComputeFlowGroups | internal/pcap/diagnose.go:637-668 | the loops compute the specified groups |
| FlowGrouping.GroupsConserve | internal/pcap/diagnose.go:637-668 | the groups together hold every eligible packet, as often as it occurs, and nothing else |
| FlowGrouping.GroupsSeparate | internal/pcap/diagnose.go:637-684 | groups are in (time, number) order, and two well-formed eligible packets share a group if and only if they are of one conversation |
| FlowGrouping.InferredDirection | internal/pcap/diagnose.go:686-709 | the direction is that of the earliest initial SYN, and only without one that of the first packet |
| FlowGrouping.GroupDirections | internal/pcap/diagnose.go:686-741 | every packet of a group runs with or against the inferred flow, never 0 |
| FlowGrouping.GroupsOrderIndependent | internal/pcap/diagnose.go:637-668 | with distinct frame numbers, permuting the input leaves all groups unchanged |
| Evidence.UniqueIntsInPlace | internal/pcap/diagnose.go:1058-1072 | the in-place deduplication, which overwrites the slice it reads, leaves the specified prefix |
| Evidence.UniqueIntsExact | internal/pcap/diagnose.go:1058-1072 | the result is strictly increasing and has exactly the input's values |
| Evidence.PacketNumbersExact | internal/pcap/diagnose.go:1048-1056 | evidence numbers are strictly increasing and exactly the positive frame numbers of the packets |
| Evidence.WindowExact | internal/pcap/diagnose.go:1028-1056 | the window is exactly the packets between the anchors by time; the fallback to the first anchor is taken exactly when the second is earlier; all numbers belong to packets of the flow |
| Evidence.ExtremesExact | internal/pcap/diagnose.go:1074-1098 | first and last offset are attained and bound all times |
| HandshakeReset.MatchHandshake | internal/pcap/diagnose.go:807-822 | the one-pass matcher finds for each role the leftmost packet after the previous role's |
| HandshakeReset.MatcherComplete | internal/pcap/diagnose.go:807-825 | it succeeds if and only if some index-increasing SYN, SYN-ACK, ACK, RST exists, and no such choice has any packet earlier |
| HandshakeReset.CountBytes | internal/pcap/diagnose.go:827-840 | the two byte sums over the time window |
| HandshakeReset.DiagnoseReset | internal/pcap/diagnose.go:806-863 | the extractor returns the specified symptom or nothing |
| HandshakeReset.ResetReportedIff | internal/pcap/diagnose.go:806-843 | with non-negative lengths: reported if and only if the four roles exist and no client bytes and no non-RST server bytes lie later than the ACK's millisecond and not later than the RST's |
| HandshakeReset.ResetEvidence | internal/pcap/diagnose.go:844-862 | the evidence numbers are increasing, positive, of this flow, and include those of all four packets |
| HandshakeReset.WindowMeetsIntentIff | internal/pcap/diagnose.go:827-843 | from whichever packet up to the one after the ACK one asks: the time window answers "no data before the RST" if and only if data comes before the RST in a later millisecond than the ACK, or data not later than the ACK, on the ACK itself included, is there exactly when data follows the RST in its millisecond |
| HandshakeReset.StrictTimesSuffice | internal/pcap/diagnose.go:827-843 | with strictly increasing times around ACK and RST the answer is right if and only if data lies between the two, or none comes before that or on the ACK |
| HandshakeReset.DataInAckTickIsMissed | internal/pcap/diagnose.go:827-843 | counterexample: five client bytes in the ACK's millisecond, and the flow is still reported as without data |
| HandshakeReset.DataOnAckIsMissed | internal/pcap/diagnose.go:827-843 | counterexample with distinct times: five bytes on the ACK itself, and the flow is still reported as without data |
| HandshakeReset.DataAfterRSTHidesReport | internal/pcap/diagnose.go:827-843 | counterexample: no data at all before the RST, but data after the RST in its millisecond, and the flow is not reported |
| FlowDetectors.DiagnoseTLS | internal/pcap/diagnose.go:743-804 | the two passes return the specified symptom or nothing |
| FlowDetectors.TLSReportedIff | internal/pcap/diagnose.go:743-804 | reported if and only if there is a client hello and no server hello; hello and response are the earliest of their kind, the response kind is as documented, and the window contains both anchors and never falls back |
| FlowDetectors.ResponseFollowsIff | internal/pcap/diagnose.go:762-783 | in a sorted flow the reported response is the server's first answer after the hello if and only if the server has sent nothing before the hello in its millisecond; if it has, what is reported comes before the hello |
| FlowDetectors.PlacesExact | internal/pcap/diagnose.go:747-783 | these places are those of the hello and the response that the detector takes |
| FlowDetectors.BannerIsNoResponse | internal/pcap/diagnose.go:762-783 | counterexample: a banner ahead of the hello in its millisecond is reported as `other_plaintext`, and nothing answered |
| FlowDetectors.DiagnosePath | internal/pcap/diagnose.go:946-1017 | the extractor returns the specified symptom or nothing |
| FlowDetectors.PathReportedIff | internal/pcap/diagnose.go:946-1001 | reported if and only if the first client SYN names its interface and either no SYN-ACK came back or one came back on another named interface |
| FlowDetectors.PathEvidence | internal/pcap/diagnose.go:986-1014 | the evidence runs from the SYN to the SYN-ACK on the other interface, and is the SYN alone exactly when that SYN-ACK carries the earlier time |
| FlowDetectors.FlowInterfacesExact | internal/pcap/diagnose.go:1203-1216 | the interfaces observed are every label that occurs, each once, sorted |
| MonitorProbes.CollectProbes | internal/pcap/diagnose.go:875-909 | the map of mutable entries holds under each key the aggregate of exactly its flows |
| MonitorProbes.DiagnoseProbes | internal/pcap/diagnose.go:911-944 | the reported symptoms are those of the keys in the order in which the map yields them |
| MonitorProbes.ProbeStatistics | internal/pcap/diagnose.go:874-944 | a key is reported if and only if it has at least three in-scope flows with an initial SYN, all client payloads are at most 256, at least nine tenths are reset and the median gap is at most 30 s; count, resets, cadence, first and last start and the evidence numbers are exactly those of these flows |
| MonitorProbes.MedianIsMedian | internal/pcap/diagnose.go:1146-1161 | the cadence is a true median of the gaps: at least half are not above and at least half not below it |
| MonitorProbes.MedianPermuted | internal/pcap/diagnose.go:1146-1161 | the order in which starts arrive does not matter |
| MonitorProbes.ComputeMedian | internal/pcap/diagnose.go:1146-1161 | the loop over sorted starts computes that median |
| MonitorProbes.ProbeKeyExact | internal/pcap/diagnose.go:884-890 | flows of one protocol share a probe key if and only if source, destination and destination port agree (dash-free sources, positive ports) |
| MonitorProbes.MonitorStatistics | internal/pcap/diagnose.go:874-944 | the same told by hosts: for a source, destination and destination port there is a report if and only if the in-scope flows with an initial SYN between them meet those conditions, and all its statistics are theirs |
| Diagnosis.DiagnoseSymptoms | internal/pcap/diagnose.go:568-635 | the whole run returns the specified report and findings for some order of map iteration |
| Diagnosis.LowerCut | internal/pcap/diagnose.go:612-630 | confidence is lowered in place exactly for symptoms whose evidence holds a cut packet |
| Diagnosis.ReportExact | internal/pcap/diagnose.go:612-635 | the report is sorted by detector and first offset, ties in detection order; it is the raw symptoms with nothing changed but the confidence, which is low exactly for evidence with a cut packet |
| Diagnosis.FilterCommutes | internal/pcap/diagnose.go:568-635 | a run with an enabled set gives exactly the symptoms and gating findings of an all-enabled run that belong to it, for any packets and although each run iterates its map in its own order: equal position by position, except that monitor symptoms with equal first offset may change places |
| Diagnosis.ReportOrderIndependent | internal/pcap/diagnose.go:568-635 | with distinct frame numbers, permuting the packets and the map iteration keeps the findings and the symptoms; only monitor symptoms with equal first offset may change places |
| AsciiScan.RunsExact | internal/pcap/analyzer.go:1021-1058 | the runs are exactly the maximal printable stretches of the file, ascending and disjoint, with exact offset, length and first 4096 bytes |
| AsciiScan.ScanExact | internal/pcap/analyzer.go:957-1054 | entries are the first qualifying runs in order; bytes returned is the sum of the texts and within the limit, like the count; a text is cut only at the end and only by the byte limit; not truncated means every qualifying run is there in full, truncated means a limit is reached; redacted is reported for every changed text |
| AsciiScan.ExtractStrings | internal/pcap/analyzer.go:957-1054 | for every chunking the result is the report of the concatenated bytes, or an error exactly when reading fails before a limit stops the scan |
| AsciiScan.Scanner.FlushCurrent | internal/pcap/analyzer.go:983-1019 | ends the current run with the specified effect on the report |
| AsciiScan.Scanner.Take | internal/pcap/analyzer.go:1023-1038 | after each byte the scanner's fields describe exactly the bytes seen so far |
| Redaction.ReplaceExact | internal/pcap/analyzer.go:1060-1068 | exactly the values of the leftmost non-overlapping matches are replaced, every place where the pattern matches lies inside one of them, and all other text is kept |
| Redaction.RedactionLeavesNoValue | internal/pcap/analyzer.go:1060-1076 | after the three ordered passes every match of any pattern, wherever it starts, has the mark as its value |
| Redaction.RedactUnchangedIff | internal/pcap/analyzer.go:1066-1076 | a text is returned as it is and reported as not redacted if and only if no value is left to see in it |
| Redaction.RedactIdempotent | internal/pcap/analyzer.go:1066-1076 | redacting twice is redacting once, and the second pass reports nothing |
| ZeekLogs.ParseLines | internal/pcap/analyzer.go:877-923 | the line loop computes the specified log |
| ZeekLogs.ParsedRecordCount | internal/pcap/analyzer.go:877-923 | any readable file gives one record per row line up to a positive limit, and is marked truncated if and only if there are more |
| ZeekLogs.PrintParse | internal/pcap/analyzer.go:870-950 | printing a table and parsing the text gives back name, columns, types and the first rows up to the limit with every value redacted, and truncated if and only if there were more |
| Signals.ComputeConnections | internal/pcap/signals.go:146-174 | the append loop, stable sort and cap compute the specified summary |
| Signals.TopExact | internal/pcap/signals.go:170-173 | the summary is the stable 25-prefix by descending total bytes: nothing lost, no dropped record beats a kept one, ties keep input order across the cut |
| Signals.CountResetSignal | internal/pcap/signals.go:119-123 | the signal is the number of reset-like connections |
| Signals.BuildTCPHealth | internal/pcap/analyzer.go:441-465 | the section is missing exactly without resets; otherwise its count is the length of its list, which is the reset-like connections in order, and originator plus responder resets do not exceed it |
| Signals.TrimKeepsRedacted | internal/pcap/signals.go:325-333 | trimming a fully redacted value leaves it fully redacted |
| Signals.ParsedRequestNeverRedacted | internal/pcap/signals.go:197-223 | for every record the parser builds, the second redaction changes nothing and `Redacted` is false |
| Signals.ParsedValuesRedacted | internal/pcap/analyzer.go:904-917 | no value of any record of any parsed log shows a secret |
| Signals.SummaryRequestsUnmarked | internal/pcap/signals.go:203-215 | no request of a parsed log is marked as redacted and no URI shows a secret |
| Signals.MarkedIff | internal/pcap/signals.go:203-215 | for any record the request is marked as redacted if and only if its URI shows a secret |
| Signals.MarkLostIff | internal/pcap/signals.go:203-215 | the mark of a parsed row is what the row as written would get, if and only if its URI shows no secret |
| Signals.TokenMarkIsLost | internal/pcap/signals.go:203-215 | counterexample: a row with `token=x` as its URI, which as written would be marked and as parsed is not |
| Containment.ContainmentAgrees | internal/pcap/tls_decryption.go:144-155 | on clean absolute paths the test for key logs, `pathContains` and one step of `underAny` all hold if and only if the outer components are a proper prefix of the inner ones |
| Containment.UnderAny | internal/pcap/server.go:598-606 | the allowlist loop accepts a path if and only if it lies strictly under some listed directory |
| Containment.ContainmentIsStrictOrder | internal/config/config.go:341-358 | being under a directory is irreflexive, asymmetric and transitive |
| Containment.DottedNameIsInside | internal/config/config.go:341-358 | a name that merely starts with two dots counts as inside |
| WorkspaceConfig.ResolveOptionalDir | internal/config/config.go:292-337 | the loop up to the nearest existing ancestor returns the specified resolution |
| WorkspaceConfig.ResolveStableIff | internal/config/config.go:279-337 | creating a directory changes no resolution if and only if no symbolic link that led nowhere leads to it: wherever it comes to exist, it is the path's own name in its own parent |
| WorkspaceConfig.NamedEntryLeadsThere | internal/config/config.go:292-337 | a missing entry of an existing directory, in whatever way that one is reached, resolves to the place where it will be created |
| WorkspaceConfig.DanglingLinkMoves | internal/config/config.go:279-337 | counterexample: a symbolic link that leads nowhere resolves to its own place, and to its target once that exists |
| WorkspaceConfig.Workspace.Normalize | internal/config/config.go:177-254 | it succeeds if and only if every directory, after defaults, resolves and the resolved ones lie as they must; they are then the resolved ones, and on failure nothing changes |
| WorkspaceConfig.ResolvedClean | internal/config/config.go:177-212 | resolved directories are clean and absolute, and with a root the pcap, output and tmp directories are always set |
| WorkspaceConfig.DefaultUnderRoot | internal/config/config.go:179-193 | a default is the named directory directly under the root |
| WorkspaceConfig.CheckPlaces | internal/config/config.go:213-251 | the checks pass if and only if these relations hold between the component lists |
| WorkspaceConfig.NormalizeDirs | internal/config/config.go:80-108 | the allowlist is duplicate-free and exactly the resolved entries and the pcap directory; it fails exactly on nothing configured, an empty entry or an unresolved one |
| SlotLimiter.AlwaysConsistent | internal/pcap/server.go:61-84 | over all interleavings, slots in use equal the calls between acquire and release and never exceed the capacity |
| SlotLimiter.LimiterGuarantees | internal/pcap/server.go:69-84 | in every reachable state a call is refused as busy if and only if all slots are held, a release never waits, and without running calls all slots are free |
| SlotLimiter.Limiter.Acquire | internal/pcap/server.go:73-80 | takes the acquire step of the transition system and reports whether a slot was taken |
| SlotLimiter.Limiter.Release | internal/pcap/server.go:82-84 | takes the release step; a held slot can always be taken out |
| SlotLimiter.Handle | internal/pcap/server.go:194-199 | a call is served exactly if it is valid and a slot is free, and when it returns the slots are as before |

## Left out

- Cancellation and deadlines of a request, and files or directories that change during or between calls.
- InventoryRuns.PagesNeverRepeatIff: ranges over all page limits from one up, while the server accepts up to ten; that no cursor leading back suffices holds for those too; that it is needed may take a longer page, because a key that shorter pages never end at starts no call.
- The default of the page limit and its refusal outside one to ten, the `skips` list sorted by reason, content types and modification times of inventory entries.
- SHA-256 itself: `Computed` carries the bytes that were hashed.
- Base64 and JSON: the codec is a parameter, and theorems that need it assume that a token is not empty, has no NUL byte, and brings the cursor back with bytes outside valid UTF-8 rewritten.
- HashChunkingIrrelevant: says nothing about files whose reads fail, where the bytes already read are charged although no hash is reported; how many these are depends on the reads, and `HashBudgetConserved` counts them.
- Redaction.RedactionLeavesNoValue: is about ASCII text, because case folding of other characters by the regular-expression engine is not modelled; the three patterns are modelled directly instead of through an engine.
- GoText: trimming and letter case are those of ASCII, and an empty separator takes text apart by bytes.
- ZeekLogs.PrintParse: covers the separators that have an escape (tab, space, comma); a file with a line of a megabyte or more is an error, other read errors are left out.
- AsciiScan: opening the file is left out; the size of the read buffer does not matter because every chunking is covered.
- MonitorProbes.ProbeKeyExact: needs a source address without a dash and positive ports, as decoded packets have them.
- Parsing tshark's fields into packets, including the rounding of seconds to milliseconds, and the validation of scopes and codes.
- Narratives, limitation texts, logging, registration of tools, command lines, subprocesses and their error texts.
- DNS, TLS, notice and weird-event summaries, the order of HTTP requests by status, the F5 profile: each is settled by one function.
- Numeric ranges and defaults of the configuration, and command-line overrides.
- Workspace.Normalize: file kinds and symbolic links are a function of the path that does not change during the call; only Unix paths are modelled.
- WorkspaceConfig.ResolveStableIff: is about one directory created, in which there is nothing yet; `mkdir -p` is several such steps.
- SlotLimiter: steps of calls are atomic, as operations on a channel are; fairness is not claimed.
