# The text, byte and layering kernel of `common/`, verified

A Dafny model of the header-only functions of `common/` on which the launcher, the packer and the
sandbox agree, and proofs of what they rely on. Functions that loop, fill a buffer or update an
object are methods and classes here, each proved against a specification function; the theorems
are about these functions. `dafny verify dfyconfig.toml` checks the project.

| part | modules | main theorems |
|---|---|---|
| command lines | `CommandLine`, `CommandLineRoundTrip` | `CommandLineRoundTripsExactly` |
| checksums | `Bitwise`, `Crc32`, `Crc32Properties` | `BurstDetected`, `ChecksumIsRemainder` |
| frames and the session around them | `Bytes`, `RpcCodec`, `RpcSession` | `InvalidExactly`, `MessagesArrive`, `EndsExactly` |
| the isolation table | `Sequences`, `WideText`, `ViewPath`, `IsolationTable`, `IsolationLookup`, `IsolationLayers` | `LookupDecides`, `LookupFailsExactly`, `LastEntryOfLongestKeyDecides`, `AnswersFollowPolicy` |
| native paths | `DosNtPath`, `DosNtPathProperties`, `DosNtPathAnswers` | `DevicePathIsOnItsDrive`, `VolumeAnswer`, `OrderMattersExactly`, `AnswerIsFixedExactly`, `GlobalRootAgreesExactly` |
| environment variables | `TextSplit`, `EnvironmentChain`, `EnvironmentTable` | `ApplyFiles`, `InvisibleExactly`, `ValueIsJoinedParts`, `SearchPathIsReadBack` |
| isolation files | `IsolationDocument`, `DocumentItems`, `FilesystemDocument`, `EnvironmentDocument` | `DocumentRoundTrip`, `DocumentReadExactly`, `ParsedRoundTrip` |
| names, trailers, identifiers | `LogFileName`, `LogFileNameProperties`, `ExecutablePayload`, `SandboxId`, `SandboxIdProperties` | `NamesSortByTime`, `AnswersExactly`, `SpellingsExactly` |

What stands for what:

- A wide text is a `string`. Its characters are Unicode scalar values, where the program has
  16 bit units; no function looks at more than equality, order and ASCII classes of a character.
- `towlower` and `towupper` are unknown functions (`CaseFold`, `CaseRaise`): they map ASCII
  as ASCII does, map no other character to an ASCII one, and mapping twice is mapping once.
- A word of 32 or 64 bits is a number below the power of two, with the wrap-around written out
  where there is one (`ToInt32`); exclusive or is defined on the binary digits.
- `CommandLineToArgvW` is written from the remarks of its documentation at Microsoft, with a
  parameter for the three readings of a quote directly behind a closing quote, on which the
  implementations differ.
- The system is a value: `Machine` holds the answers to the drive, device, volume and directory
  queries, which stand still during one mapping; `File` a file that may fail to be measured, opened
  or read; `Generator` the numbers a generator draws after it is seeded with one word of the random
  device, any numbers in the range of the distribution. `std::sort` leaves any order with the longest
  path first, so the mapping is a relation, and the theorems hold for each of its answers.
- The names of environment variables are compared by an unknown upper case text (`NameKey`).
- A JSON document is a value. What a `from_json` throws is the code its reader turns it into.
- The map of the table, ordered by the comparison without case, is a map keyed by the folded path.
  `PathLessIsStrictWeakOrder` justifies it.

Where the code and its comments, or the code and what one would expect, part:

- `BuildCommandLine` is no inverse for every program name: a quote, a plain name with a control
  character, and a name that needs quotes and ends in a backslash are not read back
  (`QuoteInProgramIsLost`, `TrailingBackslashIsDoubled`).
- `Parse` reports an entry whose path holds `..` among the unmapped ones too, not only entries whose
  layer is missing (`EscapingIsReported`; exactly which is `UnmappedEntryExactly`). A layer whose
  folder holds `..` puts its entries on the root of the view (`ViewPathComponents`), and a lookup of
  such a path answers for the root (`OutsideIsTheRoot`).
- `\??\GLOBALROOT\Device\Mup\...` reaches the drive table although the bare path is rejected
  (`GlobalRootHidesNamespace`).
- Two drives that name one device may map a path to either letter (`TwinsMapEitherWay`; exactly when is
  `OrderMattersExactly`).
- An answer below `\SystemRoot` keeps the case of the drive letter the system reports, so mapping it
  once more may change that letter (`LoaderPathMoves`; exactly when is `AnswerIsFixedExactly`).
- `Sequence` with offset zero lists the empty prefix of a path that starts with the delimiter.
- A layer that prepends or appends an empty value writes a separator next to nothing, which the
  comment warns of for empty values below a layer only (`StraySeparator`, `EmptyElementExactly`).
- One seed word cannot reach all identifiers with the fields of a random UUID
  (`SomeUuidIsNeverGenerated`).
- A trailer of an empty payload is written without complaint and read as inconsistent.
- A year above 9999 loses its high digits in the name of a log file (`LongYearIsCut`).

## Model

| member | source | states |
|---|---|---|
| `CommandLine.NeedsNoQuotes` | common/BuildCommandLine.hpp:20-24 | an argument is printed plain exactly when it is not empty and holds no space, tab or quote |
| `CommandLine.QuoteArgument` | common/BuildCommandLine.hpp:18-58 | the loop over runs of backslashes prints the recursive escaped form |
| `CommandLine.BuildCommandLine` | common/BuildCommandLine.hpp:68-77 | the append loop prints the program and the arguments, one space between them |
| `CommandLineRoundTrip.CommandLineRoundTripsExactly` | common/BuildCommandLine.hpp:68-77 | `CommandLineToArgvW` returns the program and all arguments if and only if the program name is one its own rule can express (no quote, no control character, no trailing backslash behind an opening quote) and no text holds a null character; for every reading of a doubled quote |
| `CommandLineRoundTrip.ArgumentsRoundTrip` | common/BuildCommandLine.hpp:71-75 | every argument list is read back, whatever its arguments hold, for each of the three readings of a doubled quote |
| `CommandLineRoundTrip.ParseProgramExactly` | common/BuildCommandLine.hpp:70 | the rule of the program name reads the quoted name back if and only if the name survives it |
| `CommandLineRoundTrip.ParseEscaped` | common/BuildCommandLine.hpp:26-57 | from any run of backslashes on, the escaped text read inside quotes gives the argument and stops behind the closing quote |
| `CommandLineRoundTrip.EscapedWithoutQuote` | common/BuildCommandLine.hpp:37-55 | without a quote in it, the escaped form is the text itself exactly when the text does not end in a backslash |
| `CommandLineRoundTrip.PrintedNulFree` | common/BuildCommandLine.hpp:68-77 | the command line holds a null character exactly when the program or an argument does |
| `CommandLineRoundTrip.ArgvIsNulFree` | common/BuildCommandLine.hpp:14 | the parser returns no argument with a null character, which is the other half of the round trip |
| `CommandLineRoundTrip.PrintedArgumentsInjective` | common/BuildCommandLine.hpp:71-75 | different argument lists have different command lines |
| `CommandLineRoundTrip.QuotedLength` | common/BuildCommandLine.hpp:18-58 | a quoted argument is no shorter than the argument and at most twice as long, next to two quotes |
| `CommandLineRoundTrip.QuoteInProgramIsLost` | common/BuildCommandLine.hpp:70 | a program name with a quote in it is not read back |
| `CommandLineRoundTrip.TrailingBackslashIsDoubled` | common/BuildCommandLine.hpp:37-41 | neither is one with a space in it and a backslash at its end |
| `CommandLineRoundTrip.PlainExactly` | common/BuildCommandLine.hpp:20-24 | an argument is printed as it stands if and only if it is not empty and holds no space, tab or quote |
| `CommandLineRoundTrip.QuotedExactly` | common/BuildCommandLine.hpp:26-57 | any other argument is its escaped form between two quotes |
| `CommandLineRoundTrip.EscapedRun` | common/BuildCommandLine.hpp:29-54 | a run of backslashes is doubled at the end and in front of a quote, which gets one more, and stays as it is in front of any other character |
| `CommandLineRoundTrip.PrintedIsJoined` | common/BuildCommandLine.hpp:70-75 | the command line is the printed texts joined with single spaces |
| `Crc32.MakeCrc32Table` | common/CRC32.hpp:17-30 | entry i of the filled array is i after eight ticks of the bit-serial register |
| `Crc32.Update` | common/CRC32.hpp:51-60 | the table driven loop computes the bit-serial checksum: the register starts from the complement of the value given, and the answer is the complement of the register; of a null pointer too when the size is zero |
| `Crc32.ChecksumComplements` | common/CRC32.hpp:53-59 | the checksum is `0xFFFFFFFF` minus the register that took in the message from `0xFFFFFFFF` minus the initial value |
| `Crc32.TableStepIsBitSerial` | common/CRC32.hpp:57 | one table lookup takes in the eight bits of a byte, lowest first |
| `Crc32.FeedWord` | common/CRC32.hpp:22-26 | taking in n bits one by one is adding the word first and ticking n times |
| `Crc32.StepsLinear` | common/CRC32.hpp:23-26 | the ticks are linear over exclusive or |
| `Crc32Properties.ChecksumIncremental` | common/CRC32.hpp:47-51 | the checksum of a block behind the checksum of the blocks before it is the checksum of all of them |
| `Crc32Properties.ChecksumIgnoresBlocks` | common/CRC32.hpp:47-51 | any way of cutting a message into blocks gives the checksum of the message |
| `Crc32Properties.StepInjective` | common/CRC32.hpp:25 | no two register contents tick to the same one |
| `Crc32Properties.FeedBitsInjective` | common/CRC32.hpp:55-58 | bits that follow never make up for a difference in the register |
| `Crc32Properties.BurstDetected` | common/CRC32.hpp:51-60 | messages of one length that differ only within 32 consecutive bits, at any bit offset, share a checksum if and only if they are equal |
| `Crc32Properties.FourByteBurstDetected` | common/CRC32.hpp:51-60 | the same for a change inside four consecutive bytes |
| `Crc32Properties.ReflectedGenerator` | common/CRC32.hpp:25 | 0xEDB88320, read with its coefficients reflected, is the generator 0x104C11DB7 of section 3.2.9 of IEEE Std 802.3 without its highest power |
| `Crc32Properties.TickDivides` | common/CRC32.hpp:25 | one tick multiplies by the variable and takes off the generator when the power 32 shows up |
| `Crc32Properties.RegisterDivides` | common/CRC32.hpp:53-58 | the dividend is a multiple of the generator plus the content of the register |
| `Crc32Properties.RemainderUnique` | common/CRC32.hpp:51-60 | a polynomial has at most one remainder below the power 32 |
| `Crc32Properties.ChecksumIsRemainder` | common/CRC32.hpp:51-60 | a word is the remainder of the message polynomial, behind the complemented initial value, divided by the generator if and only if it is the complemented checksum |
| `RpcCodec.MakeFrameHeader` | common/RpcCodec.hpp:136-147 | a header exists exactly for the lengths within the limit, and its two fields read back as the magic and the length |
| `RpcCodec.HeaderBytes` | common/RpcCodec.hpp:136-147 | a header is the bytes `3A 58 4F 42` and the length with the lowest byte first, up to 64 MiB; a longer payload is refused as too large |
| `RpcCodec.ByteVector.RemoveFront` | common/RpcCodec.hpp:123-125 | moving the tail to the front in place keeps it byte for byte |
| `RpcCodec.ByteVector.Append` | common/details/RemoteSessionDetail.hpp:231-234 | growing the buffer keeps the old bytes in front of the new ones |
| `RpcCodec.ByteVector.TryDecodeFrame` | common/RpcCodec.hpp:90-128 | the answer and the bytes left in the buffer are those of the decoding of its contents; a refusal and an incomplete frame leave it as it was |
| `RpcCodec.DecodedExactly` | common/RpcCodec.hpp:97-127 | a payload is decoded if and only if the buffer is its frame, header included, followed by what is left |
| `RpcCodec.StartsFrameExactly` | common/RpcCodec.hpp:97-108 | the headers the decoder lets through are exactly the ones `MakeFrameHeader` makes |
| `RpcCodec.IncompleteExactly` | common/RpcCodec.hpp:92-118 | more data is asked for exactly while fewer than eight bytes are there or the bytes are the proper beginning of a frame, and then the buffer is shorter than 8 bytes and 64 MiB |
| `RpcCodec.InvalidExactly` | common/RpcCodec.hpp:100-108 | a buffer is refused exactly when it is long enough to tell and neither begins with a frame nor begins one |
| `RpcCodec.InvalidCodes` | common/RpcCodec.hpp:100-108 | a buffer of eight bytes is refused for its magic if and only if it does not begin with `3A 58 4F 42`, and as too large if and only if it does and the length is above 64 MiB |
| `RpcCodec.DecodePrefixStable` | common/RpcCodec.hpp:90-128 | what arrives later changes no verdict of success or failure |
| `RpcSession.Receiver.OnRead` | common/details/RemoteSessionDetail.hpp:252-282 | the loop reports the payloads draining the buffer yields, leaves what draining leaves, and ends the connection on the code of the first frame it cannot take |
| `RpcSession.Receiver.OnReadCompleted` | common/details/RemoteSessionDetail.hpp:209-237 | a read with bytes appends and drains them; a read without bytes ends the connection as closed by the peer and a broken one with its error, both leaving payloads and buffer; an ended connection reads nothing |
| `RpcSession.Sender.QueueWrite` | common/details/RemoteSessionDetail.hpp:542-562 | the queue gains header and payload, or nothing and the code for a payload above the limit |
| `RpcSession.DrainSplits` | common/details/RemoteSessionDetail.hpp:252-282 | draining neither invents nor drops a byte: the reported frames and the pending bytes are the buffer, and the pending bytes explain why it stopped |
| `RpcSession.DrainedExactly` | common/details/RemoteSessionDetail.hpp:252-282 | payloads are reported with the connection kept if and only if the buffer is their frames followed by an incomplete one |
| `RpcSession.DrainInTwo` | common/details/RemoteSessionDetail.hpp:231-237 | draining early and again later is draining once |
| `RpcSession.DrainStopped` | common/details/RemoteSessionDetail.hpp:265-271 | behind a refused frame nothing that arrives changes what was reported |
| `RpcSession.ChunksDoNotMatter` | common/details/RemoteSessionDetail.hpp:209-282 | the messages, the ending and the pending bytes depend on the stream alone, not on the reads that delivered it |
| `RpcSession.WireHoldsFrames` | common/details/RemoteSessionDetail.hpp:542-553 | the bytes of the queue are the frames of the accepted messages |
| `RpcSession.MessagesArrive` | common/details/RemoteSessionDetail.hpp:209-282 | for every list of messages and every cutting of the queued bytes into reads, the receiver reports exactly the accepted messages in order, keeps serving, and its buffer is empty |
| `RpcSession.EndsExactly` | common/details/RemoteSessionDetail.hpp:209-282 | after any sequence of completed reads, a connection has ended for a reason if and only if the first read that ends it does so for that reason: an empty read, an error, or a frame that is refused; without one it serves on, and holds what draining all bytes leaves |
| `RpcSession.EndedAt` | common/details/RemoteSessionDetail.hpp:209-282 | behind the read that ends the connection nothing changes the payloads and the pending bytes, which are those of the bytes delivered up to it |
| `WideText.PathsEqual` | common/details/FilesystemIsolationTableDetail.hpp:34-49 | the loop finds two paths equal exactly when they are equal after case folding |
| `WideText.PathCompare` | common/details/FilesystemIsolationTableDetail.hpp:57-70 | the loop decides the dictionary order of the folded paths |
| `WideText.PathLessIsStrictWeakOrder` | common/details/FilesystemIsolationTableDetail.hpp:177-180 | the comparison of the map is a strict weak order, and its equivalence is equality without case |
| `WideText.BeforeExactly` | common/details/FilesystemIsolationTableDetail.hpp:57-70 | a text is before another if and only if it is smaller at the first difference or is its proper beginning |
| `WideText.FoldsLetters` | common/details/FilesystemIsolationTableDetail.hpp:43 | of ASCII the folding changes the letters `A` to `Z` alone, by 32 |
| `WideText.RaisesLetters` | common/details/MappingAsDosNtPathDetail.hpp:81-82 | the other mapping changes the letters `a` to `z` alone, by 32 |
| `ViewPath.SplitIsolationPath` | common/details/FilesystemIsolationTableDetail.hpp:83-120 | the flush loop yields the pieces between separators without empty ones and `.`, and refuses exactly the paths with a `..` piece |
| `ViewPath.NormalizeViewPath` | common/details/FilesystemIsolationTableDetail.hpp:326-346 | the normal form is the components, each behind a backslash; empty for a refused path |
| `ViewPath.ComponentsExactly` | common/details/FilesystemIsolationTableDetail.hpp:83-120 | a path is refused if and only if one of its pieces is `..`; otherwise its components are its pieces that are not empty and not `.`, in order and each as often as it stands there |
| `ViewPath.NamesAreComponents` | common/details/FilesystemIsolationTableDetail.hpp:83-120 | names other than the dot names, each behind either separator, are the components of the written path, and with backslashes its normal form |
| `ViewPath.ComponentsOfJoined` | common/details/FilesystemIsolationTableDetail.hpp:326-346 | the normal form of components has just these components |
| `ViewPath.JoinedInjective` | common/details/FilesystemIsolationTableDetail.hpp:339-345 | different components have different normal forms |
| `ViewPath.NormalizedTwice` | common/details/FilesystemIsolationTableDetail.hpp:326-346 | normalizing is idempotent |
| `ViewPath.NormalizedFolded` | common/details/FilesystemIsolationTableDetail.hpp:326-346 | normalizing and case folding commute |
| `ViewPath.EitherSlash` | common/details/FilesystemIsolationTableDetail.hpp:103 | the slashes are one separator |
| `ViewPath.DoubledSeparator` | common/details/FilesystemIsolationTableDetail.hpp:93-96 | a doubled separator is one |
| `ViewPath.CurrentDirectory` | common/details/FilesystemIsolationTableDetail.hpp:93-96 | a `.` component is dropped |
| `ViewPath.TrailingSeparator` | common/details/FilesystemIsolationTableDetail.hpp:114-117 | a trailing separator is dropped |
| `ViewPath.SeparatorExactly` | common/details/PathTextDetail.hpp:137-155 | a position is reported if and only if it is the first colon of the last component and not the colon of a drive |
| `ViewPath.StreamSplits` | common/details/PathTextDetail.hpp:164-183 | a path is its entry, or its entry, a colon and its stream; the entry names no stream itself |
| `IsolationLookup.StreamOfLast` | common/details/PathTextDetail.hpp:137-183 | the entry of a stream depends on the last component alone: it is cut at its first colon unless the component is a drive |
| `IsolationTable.IsolationVirtualPathToView` | common/details/FilesystemIsolationTableDetail.hpp:138-169 | the nested loops compute the view path of a virtual path, or the code of a path without one |
| `IsolationTable.Table.constructor` | common/FilesystemIsolationTable.hpp:234-238 | a new table lists nothing |
| `IsolationTable.Table.Parse` | common/details/FilesystemIsolationTableDetail.hpp:183-257 | the table becomes the old one overwritten by the entries of the document, and the answer lists the skipped entries; when the call fails the table is the old one |
| `IsolationTable.Table.Apply` | common/details/FilesystemIsolationTableDetail.hpp:251-254 | the collected entries replace the ones of their keys and no other |
| `IsolationTable.Table.Lookup` | common/details/FilesystemIsolationTableDetail.hpp:272-323 | the loop answers as the upward walk over the normal form, and the walk ends because every probe is shorter |
| `IsolationLookup.LookupDecides` | common/details/FilesystemIsolationTableDetail.hpp:272-323 | the answer is the entry of the longest listed key that covers the path: the folded form of some of its first components, of these with the stream of the last one removed, or the root |
| `IsolationLookup.LookupFailsExactly` | common/details/FilesystemIsolationTableDetail.hpp:301-322 | the lookup fails if and only if no listed key covers the path, and then with the code of an unlisted path |
| `IsolationLookup.SomeKeyDecides` | common/details/FilesystemIsolationTableDetail.hpp:272-323 | when some key covers a path, a longest one exists |
| `IsolationLookup.DecidesUnique` | common/details/FilesystemIsolationTableDetail.hpp:272-323 | only one listed key decides a path |
| `IsolationLookup.NextOfLast` | common/details/FilesystemIsolationTableDetail.hpp:306-319 | from a component that names a stream the walk goes to the file that holds it, from any other to the folder above |
| `IsolationLookup.CoversIsProbe` | common/details/FilesystemIsolationTableDetail.hpp:289-320 | the probes of the walk are exactly the keys that may cover the path |
| `IsolationLookup.ProbesDescend` | common/details/FilesystemIsolationTableDetail.hpp:306-319 | the probes get strictly shorter, from the whole path on |
| `IsolationLookup.WalkIsFirstHit` | common/details/FilesystemIsolationTableDetail.hpp:289-323 | the walk answers with the first probe that is listed |
| `IsolationLookup.LookupIgnoresSpelling` | common/details/FilesystemIsolationTableDetail.hpp:289 | paths with the same components without case have the same answer |
| `IsolationLookup.CaseIsSpelling` | common/details/FilesystemIsolationTableDetail.hpp:34-49 | paths that are equal without case are spellings of one path |
| `IsolationLayers.ViewPathComponents` | common/details/FilesystemIsolationTableDetail.hpp:151-166 | an entry lies below the folder of the layer its first component names; a layer whose folder holds `..` puts it on the root |
| `IsolationLayers.ViewPathFails` | common/details/FilesystemIsolationTableDetail.hpp:141-168 | a virtual path has no view path for a `..` or for a first component that is the key of no layer, each with its code |
| `IsolationLayers.FirstLayerMaps` | common/details/FilesystemIsolationTableDetail.hpp:152-157 | the first layer with the key, without case, maps it |
| `IsolationLayers.UnmappedExactly` | common/details/FilesystemIsolationTableDetail.hpp:152-168 | a key is unmapped exactly when no layer has it |
| `IsolationLayers.CollectSucceeds` | common/details/FilesystemIsolationTableDetail.hpp:202-214 | an accepted document is refused after all exactly when the text of one of its entries has no wide form |
| `IsolationLayers.RefusedListsNothing` | common/details/FilesystemIsolationTableDetail.hpp:193-214 | a file is refused if and only if it is no document or a text in it has no wide form, and then it lists nothing |
| `IsolationLayers.LastEntryWins` | common/details/FilesystemIsolationTableDetail.hpp:237-241 | of the entries of one document with one key the last one is stored |
| `IsolationLayers.OnlyNamedKeys` | common/details/FilesystemIsolationTableDetail.hpp:202-242 | a document sets no key its entries do not name |
| `IsolationLayers.UnmappedReported` | common/details/FilesystemIsolationTableDetail.hpp:224-235 | the report is, in the order of the document, the virtual paths that hold `..` or whose first component is the key of no layer |
| `IsolationLayers.UnmappedEntryExactly` | common/details/FilesystemIsolationTableDetail.hpp:146-168 | an entry has no key if and only if its path holds `..`, or has a first component that no layer has for a key |
| `IsolationLayers.EscapingIsReported` | common/details/FilesystemIsolationTableDetail.hpp:224-235 | a path with `..` is reported although its layer is mapped |
| `IsolationLayers.OutsideIsTheRoot` | common/details/FilesystemIsolationTableDetail.hpp:326-332 | the lookup of a path with `..` answers for the root entry, and fails without one |
| `IsolationLayers.RootIsMapped` | common/details/FilesystemIsolationTableDetail.hpp:146-149 | an entry without a path is never skipped; its key is the root |
| `IsolationLayers.LastLayerWins` | common/details/FilesystemIsolationTableDetail.hpp:244-254 | after any sequence of files, a key carries the entry of the last file that lists it |
| `IsolationLayers.OnlyListedKeys` | common/details/FilesystemIsolationTableDetail.hpp:244-254 | a key is in the table if and only if some accepted file lists it |
| `IsolationLayers.UncoveredIsUnchanged` | common/details/FilesystemIsolationTableDetail.hpp:244-254 | a file that lists nothing that covers a path leaves the lookup of the path unchanged |
| `IsolationLayers.TablesAreSound` | common/details/FilesystemIsolationTableDetail.hpp:183-257 | in every table, each entry has a mode its kind may hold and is stored under the key of its own normal path |
| `IsolationLayers.AnswersFollowPolicy` | common/FilesystemIsolationPolicy.hpp:57-135 | whatever files a run reads, `Merge` and `WriteCopy` come from a folder, and from a file come only modes under which nothing is written to the host and which hide the host exactly when they hide the lower layers |
| `IsolationLayers.HostWritesAreVisible` | common/FilesystemIsolationPolicy.hpp:57-135 | of the policy alone: a modification reaches the host only where the host, the lower layers and the entry are visible |
| `IsolationLayers.PolicyExactly` | common/FilesystemIsolationPolicy.hpp:57-135 | which pairs of a mode and a kind hide the host, which modes hide the lower layers and the entry, and which modes write to the host |
| `IsolationLayers.LastEntryOfLongestKeyDecides` | common/details/FilesystemIsolationTableDetail.hpp:183-323 | from the files to the answer: the longest key any file lists for a path, the last file that lists it and its last entry for it decide the lookup |
| `IsolationLayers.EntryDecidesItsPath` | common/details/FilesystemIsolationTableDetail.hpp:289-299 | the lookup of the path of a stored entry answers with that entry |
| `IsolationLayers.HiddenFolderHidesBelow` | common/FilesystemIsolationPolicy.hpp:57-65 | a folder that hides the host hides it for every path below, unless a longer key covers the path |
| `DosNtPath.StartsWithIgnoreCase` | common/details/MappingAsDosNtPathDetail.hpp:54-72 | the loop decides the prefix relation of the folded texts |
| `DosNtPath.IsRejectedNamespace` | common/details/MappingAsDosNtPathDetail.hpp:95-106 | the loop finds a path rejected exactly when it starts with one of the seven namespaces |
| `DosNtPath.TrimTrailingSeparators` | common/details/MappingAsDosNtPathDetail.hpp:203-211 | the loop trims to the form without trailing separators, keeping one character |
| `DosNtPath.MapVolumeGuidPath` | common/details/MappingAsDosNtPathDetail.hpp:226-310 | a volume path is rebased on the first mount point that is the root of a local drive, or refused |
| `DosNtPath.MapSystemRootPath` | common/details/MappingAsDosNtPathDetail.hpp:324-368 | a path of the Windows directory is rebased on it, or refused when it is on no local drive |
| `DosNtPath.QueryVolume` | common/details/MappingAsDosNtPathDetail.hpp:441-471 | a logical drive contributes its upper case letter and trimmed target exactly when it is local and its target is a device |
| `DosNtPath.BuildDriveDeviceMappings` | common/details/MappingAsDosNtPathDetail.hpp:424-479 | the table is a permutation of the contributed volumes, longest device path first |
| `DosNtPath.MapDevicePath` | common/details/MappingAsDosNtPathDetail.hpp:489-519 | the answer is the rebasing on the first carrier of a drive table the sort may leave |
| `DosNtPath.MapGlobalRootPath` | common/details/MappingAsDosNtPathDetail.hpp:532-551 | the path behind the global root is mapped as a device path, and nothing else is |
| `DosNtPath.MappingAsDosNtPath` | common/details/MappingAsDosNtPathDetail.hpp:565-621 | the dispatcher answers as the mapping over a drive table the sort may leave |
| `DosNtPathProperties.PathPrefixIsComponents` | common/details/MappingAsDosNtPathDetail.hpp:177-192 | a prefix is accepted if and only if its pieces between backslashes are the first pieces of the path, without case |
| `DosNtPathProperties.DevicePicksLongest` | common/details/MappingAsDosNtPathDetail.hpp:489-519 | the answer is on a volume with the longest device path that is a component prefix, and there is none exactly when no device path is one |
| `DosNtPathProperties.EveryLongestIsPossible` | common/details/MappingAsDosNtPathDetail.hpp:474-476 | each of the longest volumes is the answer of some order the sort may leave |
| `DosNtPathProperties.OrderMattersExactly` | common/details/MappingAsDosNtPathDetail.hpp:474-519 | the answer is independent of the order of the drives if and only if all longest volumes of the path have one letter |
| `DosNtPathProperties.DistinctDevicesHaveOneLongest` | common/details/MappingAsDosNtPathDetail.hpp:474-519 | where no two drives name one device, without case, a path has one longest volume |
| `DosNtPathProperties.DistinctDevicesHaveOneAnswer` | common/details/MappingAsDosNtPathDetail.hpp:565-621 | on such a machine the dispatcher has one answer for every path, whatever order the drives are sorted in |
| `DosNtPathProperties.TableHoldsLocalDrives` | common/details/MappingAsDosNtPathDetail.hpp:446-471 | every volume of a table is on a local drive, under its upper case letter, and is a device |
| `DosNtPathProperties.AnswersHaveViewForm` | common/details/MappingAsDosNtPathDetail.hpp:565-621 | every answer is `\??\X:\` and more, with X a local drive |
| `DosNtPathProperties.ViewFormMapsToItself` | common/details/MappingAsDosNtPathDetail.hpp:583-597 | a path of that form is mapped to itself with its drive letter in upper case |
| `DosNtPathProperties.MappingSettles` | common/details/MappingAsDosNtPathDetail.hpp:565-621 | mapping an answer again succeeds and changes at most the case of the drive letter, and a third mapping changes nothing |
| `DosNtPathProperties.AnswerIsFixedExactly` | common/details/MappingAsDosNtPathDetail.hpp:324-368 | an answer is mapped to itself if and only if it was not asked for below `\SystemRoot` on a machine that spells the drive of the Windows directory in lower case |
| `DosNtPathProperties.LoaderPathMoves` | common/details/MappingAsDosNtPathDetail.hpp:343-367 | with the Windows directory `c:\Windows` an answer is mapped to another path |
| `DosNtPathProperties.GlobalRootAgreesExactly` | common/details/MappingAsDosNtPathDetail.hpp:532-551 | a device path below `GLOBALROOT` maps as the bare device path if and only if the bare path is in no rejected namespace |
| `DosNtPathProperties.GlobalRootHidesNamespace` | common/details/MappingAsDosNtPathDetail.hpp:578-612 | a path of the network redirector is outside the view, while the same path below `GLOBALROOT` is looked up as a device |
| `DosNtPathProperties.TwinsMapEitherWay` | common/details/MappingAsDosNtPathDetail.hpp:474-476 | on a machine with two drives for one volume, one path has two possible answers |
| `DosNtPathAnswers.VolumeExactly` | common/details/MappingAsDosNtPathDetail.hpp:441-471 | a listed root contributes a letter and a device if and only if it names the letter, the letter is a removable, fixed, optical or ram drive, and the target of its own name without trailing backslashes is the device, below `\Device\` |
| `DosNtPathAnswers.DriveTableExactly` | common/details/MappingAsDosNtPathDetail.hpp:424-479 | a pair is in a drive table if and only if some listed root contributes it |
| `DosNtPathAnswers.TrimmedExactly` | common/details/MappingAsDosNtPathDetail.hpp:203-211 | the trimmed text is the one beginning of the text without backslashes at its end behind which there are only backslashes |
| `DosNtPathAnswers.DevicePathIsOnItsDrive` | common/details/MappingAsDosNtPathDetail.hpp:489-519 | a path on the device of a drive has the one answer `\??\X:` and its remainder, unless it is in a namespace of other machines or another drive has as long a device that carries it |
| `DosNtPathAnswers.GlobalRootPathIsOnItsDrive` | common/details/MappingAsDosNtPathDetail.hpp:532-551 | the same below `GLOBALROOT`, where no namespace is refused |
| `DosNtPathAnswers.UnknownDeviceExactly` | common/details/MappingAsDosNtPathDetail.hpp:489-519 | a device path is unknown if and only if no local drive is on a device that carries it |
| `DosNtPathAnswers.RejectedExactly` | common/details/MappingAsDosNtPathDetail.hpp:35-39 | the rejected namespaces are the seven of the table |
| `DosNtPathAnswers.AbsoluteAnswer` | common/details/MappingAsDosNtPathDetail.hpp:583-597 | an absolute path is answered with its drive letter in upper case, or refused when the drive is not local |
| `DosNtPathAnswers.VolumeAnswer` | common/details/MappingAsDosNtPathDetail.hpp:226-310 | a volume path is answered with the first mount point of the volume that is the root of a local drive and the remainder; the volume is asked for in its Win32 form, in the spelling of the path |
| `DosNtPathAnswers.VolumeUnmounted` | common/details/MappingAsDosNtPathDetail.hpp:258-299 | it is refused when the volume has no such mount point |
| `DosNtPathAnswers.VolumeMalformed` | common/details/MappingAsDosNtPathDetail.hpp:238-248 | it is refused when no backslash follows the brace that closes the name |
| `DosNtPathAnswers.SystemRootAnswer` | common/details/MappingAsDosNtPathDetail.hpp:324-368 | a path below `\SystemRoot` is answered with the Windows directory without trailing backslashes and the remainder, or refused when there is none or it is on no local drive |
| `DosNtPathAnswers.OutsideViewExactly` | common/details/MappingAsDosNtPathDetail.hpp:567-620 | a path is outside the view if and only if it is relative, in a rejected namespace or of no known form, and empty if and only if it is |
| `EnvironmentChain.OnlyLayersFromLastResetMatter` | common/details/EnvironmentIsolationDetail.hpp:311-319 | nothing below a layer that is `Full` or `Replace` has a say, neither the host nor a layer |
| `EnvironmentChain.InvisibleExactly` | common/details/EnvironmentIsolationDetail.hpp:320-325 | the variable is missing if and only if the host lacks it and every layer is `WriteCopy` and `Host` |
| `EnvironmentChain.ValueIsJoinedParts` | common/details/EnvironmentIsolationDetail.hpp:307-341 | where the layers that join use one text, the value is the prepended values, the base and the appended values joined with it, empty values included; there are no parts exactly when it is missing or empty |
| `EnvironmentChain.EmptyElementExactly` | common/details/EnvironmentIsolationDetail.hpp:326-337 | a part is empty if and only if a layer joins an empty value to a value below it |
| `EnvironmentChain.StraySeparator` | common/details/EnvironmentIsolationDetail.hpp:326-331 | an empty value below a layer adds no separator, the empty value of a layer does |
| `EnvironmentChain.SplittingRecoversParts` | common/details/EnvironmentIsolationDetail.hpp:326-337 | splitting the value on that text recovers the parts in order if and only if they are separable by it |
| `EnvironmentChain.SearchPathIsReadBack` | common/details/EnvironmentIsolationDetail.hpp:326-337 | for a separator of one character, splitting the value gives the elements of the parts, one part after the other; parts without the separator are read back as they were |
| `EnvironmentTable.Table.constructor` | sandbox/environment/Table.cpp:32 | a new table is empty |
| `EnvironmentTable.Table.Find` | sandbox/environment/Table.cpp:51-61 | the loop finds the first variable of a name, without case |
| `EnvironmentTable.Table.Get` | sandbox/environment/Table.cpp:74-91 | the value of the first variable of the name; an empty name has none |
| `EnvironmentTable.Table.Set` | sandbox/environment/Table.cpp:93-110 | the value is held for every spelling of the name and nothing changes for another name; the variable keeps its position, and a new one stands behind the others |
| `EnvironmentTable.StoredHolds` | sandbox/environment/Table.cpp:93-110 | a stored value is read by every spelling of its name, and every other name holds what it held |
| `EnvironmentTable.StoredKeepsOrder` | sandbox/environment/Table.cpp:93-110 | storing keeps the variables in their order |
| `EnvironmentTable.Table.Delete` | sandbox/environment/Table.cpp:112-129 | the first variable of a listed name goes, the others keep their order; a name that is not listed changes nothing |
| `EnvironmentTable.Table.ApplyLayer` | sandbox/environment/Isolation.cpp:72-99 | every name is composed from what the table held for it and from the rows of its own, whatever the other rows are; a last row that is `Full` or `Replace` leaves its expanded value; the order of the variables is kept |
| `EnvironmentTable.LayersAreRows` | sandbox/environment/Isolation.cpp:74-89 | the layers of a name are its rows in order, each with the expanded value and the modes and merge text of the row |
| `EnvironmentTable.LastResetDecides` | sandbox/environment/Isolation.cpp:79-97 | a last row that is `Full` or `Replace` decides its name alone, with its value expanded |
| `EnvironmentTable.Table.ApplyFiles` | sandbox/environment/Isolation.cpp:282-313 | the files of a run compose every name like the rows of all of them in order; a row of the last file that is the last of its name there and is `Full` or `Replace` leaves its expanded value |
| `EnvironmentTable.RowsAppend` | sandbox/environment/Isolation.cpp:282-313 | the rows of one more file stand behind those of the files before |
| `EnvironmentTable.LastFileDecides` | sandbox/environment/Isolation.cpp:282-313 | such a row of the last file decides its name, whatever the files before it say |
| `TextSplit.SplitKeepingEmpty` | common/details/PathTextDetail.hpp:39-62 | the loop over the hits yields the recursive splitting |
| `TextSplit.JoinedSplit` | common/details/PathTextDetail.hpp:39-62 | the parts, joined again, are the text |
| `TextSplit.SplitJoinedExactly` | common/details/PathTextDetail.hpp:39-62 | joined parts split into themselves if and only if the delimiter is first found behind each of them and not in the last one |
| `TextSplit.SplitSum` | common/details/PathTextDetail.hpp:39-62 | a separator between two texts separates their elements |
| `TextSplit.OneCharacterSeparates` | common/details/PathTextDetail.hpp:39-62 | a one-character delimiter separates parts that do not hold it |
| `TextSplit.Sequence` | common/details/PathTextDetail.hpp:111-128 | the loop lists the prefixes at the hits, and the path itself when asked to |
| `TextSplit.PrefixesExactly` | common/details/PathTextDetail.hpp:117-121 | a prefix is listed if and only if the delimiter stands behind it at or behind the offset |
| `TextSplit.PrefixesAscend` | common/details/PathTextDetail.hpp:117-121 | each prefix is listed once, the shorter ones first |
| `TextSplit.PrefixesJoinParts` | common/details/PathTextDetail.hpp:39-128 | for a one-character delimiter the prefixes and the path are the parts of the splitting joined one more at a time |
| `IsolationDocument.NormalizeToken` | common/details/FilesystemIsolationDetail.hpp:45-59 | the loop lowers ASCII letters and, for modes, turns spaces and dashes into underscores |
| `IsolationDocument.NormalizedExactly` | common/details/FilesystemIsolationDetail.hpp:45-76 | a normalized token equals a name if and only if the token spells it |
| `IsolationDocument.TextExactly` | common/IsolationDocument.hpp:105-118 | a text is read if and only if the object holds it under the key |
| `IsolationDocument.FlagExactly` | common/IsolationDocument.hpp:129-142 | a flag is read if and only if the object holds it under the key |
| `IsolationDocument.IntExactly` | common/IsolationDocument.hpp:153-166 | a number is read if and only if the object holds an integer with the same lowest 32 bits under the key |
| `IsolationDocument.ListExactly` | common/IsolationDocument.hpp:180-193 | a list is read if and only if the object holds it under the key, or the list is optional, empty and not held |
| `IsolationDocument.ToInt32` | common/IsolationDocument.hpp:153-166 | the number read differs from the number of the document by a multiple of 2^32 and fits 32 bits |
| `FilesystemDocument.ParseIsolationToken` | common/details/FilesystemIsolationDetail.hpp:43-79 | a mode is answered if and only if the token spells one of its names, letter by letter in either case, a space or a dash for an underscore |
| `FilesystemDocument.ParseEntryKindToken` | common/details/FilesystemIsolationDetail.hpp:95-119 | a kind is answered if and only if the token spells one of its names, letter by letter in either case |
| `FilesystemDocument.WriteDocument` | common/details/FilesystemIsolationDetail.hpp:190-201 | the written document is the specified JSON value |
| `FilesystemDocument.OneIsolation` | common/details/FilesystemIsolationDetail.hpp:61-76 | no token names two modes |
| `FilesystemDocument.OneEntryKind` | common/details/FilesystemIsolationDetail.hpp:109-116 | no token names two kinds |
| `FilesystemDocument.ReadEntry` | common/details/FilesystemIsolationDetail.hpp:141-187 | an entry is answered if and only if it is valid and the members of the object spell it |
| `FilesystemDocument.EntryReadExactly` | common/details/FilesystemIsolationDetail.hpp:141-187 | the function the list of entries is read with is the reader |
| `FilesystemDocument.ValidExactly` | common/details/FilesystemIsolationDetail.hpp:122-183 | a folder may have any mode, a file has a path and is full or a whiteout |
| `FilesystemDocument.Words` | common/details/FilesystemIsolationDetail.hpp:26-119 | the words of the modes and kinds |
| `FilesystemDocument.Spellings` | common/details/FilesystemIsolationDetail.hpp:61-116 | some spellings that are accepted |
| `FilesystemDocument.DocumentReadExactly` | common/details/FilesystemIsolationDetail.hpp:204-222 | a document is read if and only if the object holds its version and a list that spells its entries, or no list and it has none |
| `FilesystemDocument.ParsedExactly` | common/details/FilesystemIsolationDetail.hpp:225-259 | a file is accepted if and only if its version is one and a document is read from it; any other whole number has a code of its own |
| `FilesystemDocument.ReadDocument` | common/details/FilesystemIsolationDetail.hpp:204-222 | a document is read or refused as specified; a missing list is empty |
| `FilesystemDocument.ParseDocument` | common/details/FilesystemIsolationDetail.hpp:225-259 | the version is checked before the members, with its own code |
| `FilesystemDocument.TokensRoundTrip` | common/details/FilesystemIsolationDetail.hpp:26-119 | the parsers of the tokens undo their printers |
| `FilesystemDocument.DocumentRoundTrip` | common/details/FilesystemIsolationDetail.hpp:132-222 | a written document is read back as it was if and only if every entry is valid, and refused otherwise |
| `FilesystemDocument.ParsedRoundTrip` | common/details/FilesystemIsolationDetail.hpp:225-259 | an accepted document has the version and valid entries, and written again it is accepted as equal |
| `DocumentItems.WriteItems` | common/details/FilesystemIsolationDetail.hpp:195-199 | the loop writes the entries in order |
| `DocumentItems.ReadItems` | common/details/FilesystemIsolationDetail.hpp:218-221 | the loop reads the entries in order and refuses the list on the first one it refuses |
| `DocumentItems.ItemsReadExactly` | common/details/FilesystemIsolationDetail.hpp:218-221 | entries are answered if and only if there is one for each item, read from it |
| `DocumentItems.ItemsRoundTrip` | common/details/FilesystemIsolationDetail.hpp:195-221 | a written list is read back if and only if every entry is valid |
| `EnvironmentDocument.ParseIsolationToken` | common/details/EnvironmentIsolationDetail.hpp:214-242 | a mode is answered if and only if the token spells one of its names, letter by letter in either case, a space or a dash for an underscore |
| `EnvironmentDocument.ParseMergeModeToken` | common/details/EnvironmentIsolationDetail.hpp:262-298 | a merge mode is answered if and only if the token spells its name |
| `EnvironmentDocument.OneIsolation` | common/details/EnvironmentIsolationDetail.hpp:232-239 | no token names two modes |
| `EnvironmentDocument.OneMergeMode` | common/details/EnvironmentIsolationDetail.hpp:280-295 | no token names two merge modes |
| `EnvironmentDocument.ReadEntry` | common/details/EnvironmentIsolationDetail.hpp:355-375 | an entry is answered if and only if it is valid and the members of the object spell it |
| `EnvironmentDocument.EntryReadExactly` | common/details/EnvironmentIsolationDetail.hpp:355-375 | the function the list of entries is read with is the reader |
| `EnvironmentDocument.ReadStateEntry` | common/details/EnvironmentIsolationDetail.hpp:419-433 | a state entry is answered if and only if it has a name and the members of the object spell it |
| `EnvironmentDocument.StateEntryReadExactly` | common/details/EnvironmentIsolationDetail.hpp:419-433 | the function the list of entries is read with is the reader |
| `EnvironmentDocument.ReadersReadSpelled` | common/details/EnvironmentIsolationDetail.hpp:355-433 | the readers answer the entries an object spells, with a name that is not empty and, for the isolation file, has no equals sign |
| `EnvironmentDocument.Spellings` | common/details/EnvironmentIsolationDetail.hpp:216-239 | some spellings that are accepted |
| `EnvironmentDocument.Words` | common/details/EnvironmentIsolationDetail.hpp:201-298 | the words of the modes |
| `EnvironmentDocument.DocumentReadExactly` | common/details/EnvironmentIsolationDetail.hpp:392-465 | a document is read if and only if the object holds its version and a list that spells its entries |
| `EnvironmentDocument.ParsedExactly` | common/details/EnvironmentIsolationDetail.hpp:468-521 | a file is accepted if and only if its version is one and a document is read from it; any other whole number has a code of its own |
| `EnvironmentDocument.WriteDocument` | common/details/EnvironmentIsolationDetail.hpp:378-389 | the written document is the specified JSON value |
| `EnvironmentDocument.ReadDocument` | common/details/EnvironmentIsolationDetail.hpp:392-407 | a document is read or refused as specified; a missing list refuses it |
| `EnvironmentDocument.ParseDocument` | common/details/EnvironmentIsolationDetail.hpp:468-497 | the version is checked before the members, with its own code |
| `EnvironmentDocument.TokensRoundTrip` | common/details/EnvironmentIsolationDetail.hpp:201-298 | the parsers of the tokens undo their printers |
| `EnvironmentDocument.IsolationDocumentRoundTrip` | common/details/EnvironmentIsolationDetail.hpp:344-407 | a written isolation file is read back as it was if and only if every name is not empty and holds no equals sign |
| `EnvironmentDocument.StateDocumentRoundTrip` | common/details/EnvironmentIsolationDetail.hpp:410-465 | a written state file is read back as it was if and only if every name is not empty |
| `EnvironmentDocument.ParsedRoundTrip` | common/details/EnvironmentIsolationDetail.hpp:468-497 | an accepted isolation file, written again, is accepted as equal |
| `EnvironmentDocument.ParsedStateRoundTrip` | common/details/EnvironmentIsolationDetail.hpp:500-521 | an accepted state file, written again, is accepted as equal |
| `LogFileName.AppendPaddedNumber` | common/LogFileName.hpp:43-54 | the digit loop over the buffer appends the last digits of the number, leading zeros included |
| `LogFileName.EndsWithProgramExtension` | common/LogFileName.hpp:64-87 | the loop accepts exactly the names longer than four characters that end in `.exe` in any case |
| `LogFileName.LogFileNameOf` | common/LogFileName.hpp:110-146 | the appended text is the stem, the stamp and the process id |
| `LogFileNameProperties.NameIsRead` | common/LogFileName.hpp:129-143 | stem and process id are read back from every name, and of the time what its digits have room for |
| `LogFileNameProperties.TimeIsRecoveredExactly` | common/LogFileName.hpp:129-138 | the time is read back if and only if the year is below 10000 and the other fields below 100 |
| `LogFileNameProperties.NamesAgreeExactly` | common/LogFileName.hpp:95-99 | two names are equal if and only if stem, process id and the kept digits of the time are |
| `LogFileNameProperties.NamesSortByTime` | common/LogFileName.hpp:131-138 | for one stem, the names of different times sort by time, whatever the process ids |
| `LogFileNameProperties.LongYearIsCut` | common/LogFileName.hpp:131 | the years 12026 and 2026 give one name |
| `LogFileNameProperties.StemExactly` | common/LogFileName.hpp:113-127 | the stem is the text behind the last separator of either kind without one `.exe`, or `process` |
| `LogFileNameProperties.ExtensionExactly` | common/LogFileName.hpp:64-87 | a name ends like a program if and only if something stands in front of `.exe` in any case |
| `LogFileNameProperties.NoLeadingZero` | common/LogFileName.hpp:140 | the process id is printed without leading zeros |
| `LogFileNameProperties.OneName` | common/LogFileName.hpp:110-146 | the name of one log file in full |
| `LogFileNameProperties.StemIsAName` | common/LogFileName.hpp:113-127 | the stem is not empty and holds no separator |
| `ExecutablePayload.BuildTrailer` | common/ExecutablePayload.hpp:63-74 | the filled array is the five fields, little endian |
| `ExecutablePayload.ReadTrailer` | common/ExecutablePayload.hpp:93-146 | the checks answer as specified, for files that cannot be measured, opened or read too |
| `ExecutablePayload.TrailerExactly` | common/ExecutablePayload.hpp:131-134 | 32 bytes are the trailer of a location if and only if their fields say so |
| `ExecutablePayload.ReadExactly` | common/ExecutablePayload.hpp:136-145 | a location is answered if and only if it is not empty, lies in the file and the file is the bytes up to it, the payload and its trailer |
| `ExecutablePayload.ReadPacked` | common/ExecutablePayload.hpp:63-146 | what is packed is read back where it was put; an empty payload is inconsistent |
| `ExecutablePayload.AnswersExactly` | common/ExecutablePayload.hpp:93-146 | a file is plain if and only if it does not end with the magic, has a payload if and only if it is some image, payload and trailer, and is inconsistent otherwise |
| `ExecutablePayload.TrailerBytes` | common/ExecutablePayload.hpp:63-74 | the fields with the lowest byte first, version one, zero, and the letters `APPBOXSF` |
| `ExecutablePayload.UnreadableExactly` | common/ExecutablePayload.hpp:96-120 | which files are unreadable, and that a file below 32 bytes is a plain program whether it can be read or not |
| `SandboxId.IsHyphenPosition` | common/SandboxId.hpp:106-116 | the loop over the table decides the four positions |
| `SandboxId.FormatDigits` | common/SandboxId.hpp:127-146 | the loop stores the digits in the 8-4-4-4-12 layout |
| `SandboxId.IsValidSandboxId` | common/SandboxId.hpp:163-188 | the loop accepts exactly the layout with lower case digits |
| `SandboxId.NormalizeSandboxId` | common/SandboxId.hpp:206-240 | the loop over either spelling answers the layout of the lowered digits, or refuses everything but 32 digits and the layout |
| `SandboxId.GenerateSandboxId` | common/SandboxId.hpp:252-273 | the loop and the two updates store the digits drawn from the seeded generator with the version and the variant |
| `SandboxId.SandboxPipeName` | common/SandboxId.hpp:288-298 | the name is the prefix and the identifier, for canonical identifiers only |
| `SandboxIdProperties.DigitsOfFormatted` | common/SandboxId.hpp:127-146 | the digits of a formatted identifier are the digits it was made of |
| `SandboxIdProperties.NormalizedIsCanonical` | common/SandboxId.hpp:206-240 | an answer is canonical and a fixed point |
| `SandboxIdProperties.CanonicalExactly` | common/SandboxId.hpp:163-240 | a text is canonical if and only if it is its own normal form |
| `SandboxIdProperties.SpellingsAgreeExactly` | common/SandboxId.hpp:206-240 | two spellings have one normal form if and only if their digits agree without case |
| `SandboxIdProperties.SpellingsExactly` | common/SandboxId.hpp:206-240 | a text normalizes to an identifier if and only if, lowered, it is the identifier or its bare digits |
| `SandboxIdProperties.GeneratedIsRandomUuid` | common/SandboxId.hpp:252-273 | every generated identifier is canonical, with the version and variant of section 4.4 of RFC 4122 |
| `SandboxIdProperties.FreeDrawsReachEveryUuid` | common/SandboxId.hpp:261-270 | the digits and the variant would reach every such identifier if all draws were free of each other |
| `SandboxIdProperties.SomeUuidIsNeverGenerated` | common/SandboxId.hpp:258-270 | with one word of the device for a seed they are not: whatever the generator, some such identifier is generated from no seed |
| `SandboxIdProperties.GeneratedAgreeExactly` | common/SandboxId.hpp:261-270 | two runs generate one identifier if and only if the thirty free digits and the two free bits of the variant agree |
| `SandboxIdProperties.PipesAgreeExactly` | common/SandboxId.hpp:288-298 | two spellings lead to one pipe name if and only if their digits agree without case |
| `SandboxIdProperties.PipeNameIsRead` | common/SandboxId.hpp:295-297 | the identifier is read back from the pipe name |
| `SandboxIdProperties.PipeNameExactly` | common/SandboxId.hpp:288-298 | the name is `\\.\pipe\appbox_` and the identifier if the identifier is its own normal form, and any other text is refused |
| `SandboxIdProperties.RefusedExactly` | common/SandboxId.hpp:206-240 | a text is refused if and only if it is neither 32 digits nor digits in the layout, of either case |

## Left out

- Threads, the `ended` flag raced by several of them, overlapped handles, timeouts and the writing side behind the send queue of a session: the model is the byte stream and the single reading thread.
- `ParseRpcResponse`: a table of branches with only easy claims.
- `DirName` of the path text: its comment and its code disagree for short paths, and nothing here rests on it.
- `LayerKeyOf`, `Empty`, `Count` and `IsPathVariableName`: one-line answers.
- The expansion of `%APPBOX:<NAME>%` in the value of a variable is any function; the run-time modifications and the block of the environment are not part of this model.
- The text parser of the JSON library, the conversion from UTF-8 and the failures of allocation: a text is its JSON value or none, the conversion is any function that may fail.
- The growing buffers and retries of the Win32 queries: a query has an answer or none.
- The order in which the launcher lists the files of a run: the theorems hold for every order.
- The resolver, the registry and network domains, the PE and zip readers, the known folders, process creation, hooks and the user interface: other modules.
- `ErrorCode` holds the codes the modelled functions report, without their numbers.
- RpcSession.Receiver.OnReadCompleted: ends before the next write is started and the next read is posted, so a failure to post it is not modelled; nor is the message a reason is reported with.
- EnvironmentTable.Table.Get: the comparison that falls back to the text itself for ill-formed names, because `CompareStringOrdinal` is not part of this model.
- EnvironmentChain.ValueIsJoinedParts: is about layers that join with one text, the case the parts can be split in again; `EnvironmentTable.Table.ApplyLayer` holds for layers with any texts.
- SandboxId.GenerateSandboxId: which numbers `std::mt19937` draws from a seed.
- FilesystemDocument.ReadDocument: the loop over the entries and the assembly of a document are written once for the three documents, with the reader of an entry as a parameter, where the program repeats the loop.
- EnvironmentDocument.ReadDocument: as above; the position of a refused entry in the text of the error is not modelled.
- LogFileName.AppendPaddedNumber: takes any number, where the program has 32 bits; up to ten digits, the size of the buffer.
- RpcCodec.ByteVector.Append: models the growth of a `std::vector` with one policy of its own; the capacity is no part of a contract.
