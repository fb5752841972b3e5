# Verified model of the BACnet integration layer for Zephyr

This Dafny project models the parts of the Zephyr BACnet integration layer that
hold state, interleave with other threads, parse or count, and proves what they
promise. `dafny verify dfyconfig.toml` checks all of it.

- **File transfer shell commands.** `FileWorld` has the File objects, the file
  contents and the snapshot a transfer takes under the task lock.
  `Interleaving` is a system of one command and any other threads that change
  the world while they hold the lock; it reduces every run to an atomic fold
  over the worlds the command sampled. `FileExport`, `FileDump` and `FileDecode`
  are the three commands as programs for that system, and `FileShell` is the
  imperative code (lock, heap, console, loops), proved to compute those programs
  on every path. `Crc32` proves the running register equal to the long division
  of IEEE 802.3 clause 3.2.9, `Json` pairs the string printer with a reader of
  RFC 8259, `ExportDocument`, `ExportedFile` and `DecodeDocument` read back what
  export and decode print (`DecodeText` is the text of a decode), `FileImport` parses and writes chunk entries, and `Records` has
  the checked and the unchecked pass over self-delimiting items. `Chunks`,
  `Numerals` and `JsonContext` (reading a piece of JSON in its surroundings) are
  shared.
- **Persistent property store.** `StorageKey` encodes and decodes names,
  `Storage` is the layer over a tree of names whose writes may fail, `Settings`
  is the store and replay of WriteProperty requests, and `Replay` says exactly
  when every write comes back.
- **Address wait.** `AddressWait` is the wait for an IPv4 address with a binary
  semaphore, one slot read at a time, among address changes and events.
- **Task lock.** `TaskLock` is a recursive mutex over a clock that is stored and
  copied in two steps, and the clock command under it.
- **Reboot timer.** `Reinit` is the ReinitializeDevice task over a counter that
  starts again.
- **Property printing.** `PropertyPrint` has the quoting rule and the printing loop,
  `PropertyRead` what a JSON reader makes of the printed text.

## Where the code does less than one might expect

- Every write with data, of every history, comes back exactly if and only if the
  store and the settings handler have the same base name, no stored key's path
  lies below that name, a decoded component holds ten digits, `ULONG_MAX` is above
  32 bits, and the value buffer holds the longest write
  (`Replay.ReturnsEverythingIff`). A key that does not decode is never restored;
  `Replay.ReplaysEverythingIff` is the same law for the restorable writes only. None
  of the conditions goes without saying:
  - The default names differ, `.bacnet` and `bacnet`, and a restore finds no stored
    key (`Replay.DefaultNamesRestoreNothing`).
  - When some key's path lies below the name, decoding takes the path's first
    fields for the name: a base `8` makes `8/1/1/1` come back as `1/1/1`. `StorageKey.TailLiesBelow` says which names these are.
  - The handler reads a value into a buffer of `SETTINGS_MAX_VAL_LEN` bytes and then
    passes on the stored length, up to `MAX_APDU`. With the default sizes, 256 and
    1476, a longer value comes back with whatever lies behind the buffer
    (`Replay.OneByteTooMany`); copying from there is undefined in C. For one
    history the replay is exact if and only if every latest value fits
    (`Settings.ReplaysExactlyIffLatestFit`).
- Encoding cuts a long name without an error. Names identify keys exactly when
  the base leaves 39 characters (`StorageKey.NamesIdentifyKeys`); the store is
  modelled under that condition.
- Decoding refuses a field that is longer than the component buffer or equal to
  `ULONG_MAX` (`StorageKey.KeyRoundTrip` is an equivalence). Components after
  the fourth are ignored (`StorageKey.AnyFieldsDecode`). With Zephyr's depth limit of 8, no field of nine or more
  digits comes back.
- Property printing does not escape texts. What is printed for a text is JSON exactly
  when the text is a keyword, a number without leading zero that starts and ends
  with a digit, itself one string, or to be quoted and the body of a string
  (`PropertyRead.ShowReads`). So `007`, `.`, `5.` and `-` and hexadecimal dumps
  such as `00` are printed bare and are no JSON, and two values `"a","b"` make an
  array of four (`PropertyRead.BareButNoValue`, `PropertyRead.TwoValuesMakeFour`).
  A list is no complete array when a later value does not decode, has no length or
  has no text (`PropertyRead.ListReadsBack`).
- The reboot timer reads a 32-bit counter as `unsigned long`. The delay is kept in
  every run exactly when both have the same width
  (`Reinit.NeverEarlyIffSameWidth`).
- A clock pair read without the lock can be torn; all reads are whole exactly when
  every thread locks (`TaskLock.WholeIffEveryoneLocks`).

## Model

| member | source | states |
|---|---|---|
| FileWorld.ReadIsFromTheCapturedFile | zephyr/subsys/bacnet_shell/bacnet_shell_file.c:240-331 | a locked read succeeds exactly when the captured object is present with stream access under the captured pathname and within the offset limit, and then returns that file's bytes; a failed one says which |
| FileWorld.CaptureOutcome | zephyr/subsys/bacnet_shell/bacnet_shell_file.c:193-238 | which object a capture takes, the error of each failing check in order, and which of its texts is the name, the type and the pathname |
| FileWorld.SliceBytes | zephyr/subsys/bacnet_shell/bacnet_shell_file.c:313-331 | a read returns as many of the requested bytes as the file still has, each from its place |
| FileWorld.OverlayBytes | zephyr/subsys/bacnet_shell/bacnet_shell_file.c:378-384 | a write puts its bytes at its offset and keeps every other, with zeros in a gap |
| FileWorld.WriteTouchesOneFile | zephyr/subsys/bacnet_shell/bacnet_shell_file.c:378-384 | what the backend takes of a write goes into the object's own file and nothing else changes |
| Interleaving.RunReduces | zephyr/subsys/bacnet_shell/bacnet_shell_file.c:313-331 | in every run among other lock holders, mutual exclusion holds and the command's state is the atomic fold over the worlds it sampled |
| Interleaving.SeenUnderLock | zephyr/subsys/bacnet_shell/bacnet_shell_file.c:313-331 | every world a command sampled was the shared world while the command held the lock, in the order it sampled them |
| Interleaving.PassesAreBounded | zephyr/subsys/bacnet_shell/bacnet_shell_file.c:1074-1098 | a command whose passes lower a rank makes boundedly many, whatever other threads do |
| Chunks.TilesOfOneFile | zephyr/subsys/bacnet_shell/bacnet_shell_file.c:1073-1098 | chunks that tile and are slices of one file concatenate to the file's bytes from where they start |
| FileExport.FoldKeepsInv | zephyr/subsys/bacnet_shell/bacnet_shell_file.c:1035-1105 | over any sampled worlds the chunks tile a prefix of the captured size, each read from the captured object, and status 0 means all of it |
| FileExport.FoldKeepsCrc | zephyr/subsys/bacnet_shell/bacnet_shell_file.c:1072-1090 | the running register has been fed exactly the bytes copied |
| FileExport.ExportTilesUnderInterference | zephyr/subsys/bacnet_shell/bacnet_shell_file.c:240-331 | in every interleaving with threads that delete, rename or rewrite files, the chunks tile a prefix of the captured size, each was read under the lock from the captured object, and 0 means the whole size |
| FileExport.ExportRefinesSnapshot | zephyr/subsys/bacnet_shell/bacnet_shell_file.c:1072-1100 | while the file is not written from its capture on, what is copied is its beginning with that beginning's IEEE CRC-32; 0 means the whole file |
| FileExport.FoldRefinesSnapshot | zephyr/subsys/bacnet_shell/bacnet_shell_file.c:1072-1100 | the same for any sampled worlds that hold the file unchanged |
| ExportedFile.ExportPrintsTheFile | zephyr/subsys/bacnet_shell/bacnet_shell_file.c:1035-1105 | in every run with the file unwritten from its capture on, an export that stops with 0 has printed one JSON text whose un-hexed data is the file and whose CRC is the file's |
| ExportedFile.ExportDescribesItsObject | zephyr/subsys/bacnet_shell/bacnet_shell_file.c:1060-1071 | whatever worlds were sampled, the text of a finished export reads as the instance, name, type, size and read-only flag that the object had in the first |
| ExportedFile.ExportDescribesItsObjectInRun | zephyr/subsys/bacnet_shell/bacnet_shell_file.c:1060-1071 | the same in every run, where the first world is one the command held the lock over |
| ExportedFile.UndisturbedExportIsPrinted | zephyr/subsys/bacnet_shell/bacnet_shell_file.c:1035-1105 | an undisturbed export that has read often enough has printed one JSON text with the object's own fields, its bytes and their CRC |
| ExportedFile.ReplyReads | zephyr/subsys/bacnet_shell/bacnet_shell_file.c:388-394 | the reply to an import reads as its instance, offset and length |
| FileExport.ExportTerminates | zephyr/subsys/bacnet_shell/bacnet_shell_file.c:1074-1098 | an export makes a bounded number of passes in every run |
| FileExport.PassOutcome | zephyr/subsys/bacnet_shell/bacnet_shell_file.c:1074-1098 | what one pass makes of the world it finds: an error for a named reason, or the next chunk whole, the last one with 0 |
| FileExport.StopsExactly | zephyr/subsys/bacnet_shell/bacnet_shell_file.c:1075-1084 | an export stops with an error if and only if some pass found the object gone, past the limit, or (EIO) a file that ends inside the chunk |
| FileExport.RefusedExactly | zephyr/subsys/bacnet_shell/bacnet_shell_file.c:1049-1057 | an export is refused exactly when its capture fails, with that error |
| FileExport.ExportProgress | zephyr/subsys/bacnet_shell/bacnet_shell_file.c:1074-1104 | over sampled worlds that hold the object unwritten, n chunks are copied after n reads, and 0 comes with the last |
| FileExport.UndisturbedExportSucceeds | zephyr/subsys/bacnet_shell/bacnet_shell_file.c:1035-1105 | in every run in which the object stays and is not written, an export never fails, and has stopped with 0 and the whole file once it has read often enough |
| Crc32.FeedDivides | zephyr/subsys/bacnet_shell/bacnet_shell_file.c:1085 | shifting bits into the register is polynomial long division, for every register and bit string |
| Crc32.UpdateSplits | zephyr/subsys/bacnet_shell/bacnet_shell_file.c:1085 | updating with two chunks is updating with their concatenation |
| Crc32.UpdateIsIeee | zephyr/subsys/bacnet_shell/bacnet_shell_file.c:1072-1100 | the register, started at 0, is the CRC-32 of IEEE 802.3 clause 3.2.9 |
| Crc32.ReceiverChecks | zephyr/subsys/bacnet_shell/bacnet_shell_file.c:1072-1100 | any file followed by its CRC leaves one and the same remainder |
| Crc32.GeneratorPowers | zephyr/subsys/bacnet_shell/bacnet_shell_file.c:1085 | the generator has the powers of IEEE 802.3 and no others |
| Crc32.LowestBitFirst | zephyr/subsys/bacnet_shell/bacnet_shell_file.c:1085 | each byte is fed with its lowest bit first |
| Crc32.NumberBits | zephyr/subsys/bacnet_shell/bacnet_shell_file.c:1100 | the printed number has the register's bits |
| Crc32.NumberInjective | zephyr/subsys/bacnet_shell/bacnet_shell_file.c:1100 | the printed number determines the register |
| Json.JsonStringData | zephyr/subsys/bacnet_shell/bacnet_shell_file.c:738-778 | the byte-by-byte printer prints the quoted, escaped string |
| Json.ReadEscaped | zephyr/subsys/bacnet_shell/bacnet_shell_file.c:738-778 | a reader of RFC 8259 section 7 escapes undoes the printer for every byte string |
| Json.EscapedBodyIsSafe | zephyr/subsys/bacnet_shell/bacnet_shell_file.c:738-778 | the body has no control byte and no bare quote |
| Json.ReadQuoted | zephyr/subsys/bacnet_shell/bacnet_shell_file.c:738-783 | a printed string reads back as its bytes wherever it stands in a JSON text |
| ExportDocument.ReadLine | zephyr/subsys/bacnet_shell/bacnet_shell_file.c:1093-1096 | a printed chunk entry reads back as its instance, offset and hex data |
| ExportDocument.ReadDocument | zephyr/subsys/bacnet_shell/bacnet_shell_file.c:1060-1101 | a finished export is one JSON text with the captured metadata, one entry a chunk and the CRC; so commas stand exactly between entries |
| ExportDocument.OutputAppends | zephyr/subsys/bacnet_shell/bacnet_shell_file.c:1060-1104 | header, entries and footer printed in turn are the text of the export's state |
| Numerals.DecRoundTrip | zephyr/subsys/bacnet_shell/bacnet_shell_file.c:84-108 | a printed decimal is canonical and reads back as its number |
| Numerals.HexRoundTrip | zephyr/subsys/bacnet_shell/bacnet_shell_file.c:1086-1090 | two digits a byte, decoded to the same bytes |
| Numerals.UnhexAccepts | zephyr/subsys/bacnet_shell/bacnet_shell_file.c:366-372 | a text is decoded if and only if its length is even and every character is a hexadecimal digit |
| FileImport.ParseUint32 | zephyr/subsys/bacnet_shell/bacnet_shell_file.c:84-108 | with wrapping 32-bit arithmetic: accepts exactly one to ten digits of value at most 2^32-1, with that value |
| FileImport.ImportOutcome | zephyr/subsys/bacnet_shell/bacnet_shell_file.c:1107-1145 | what every import does: refused with the error of its first failing check and nothing changed, or the bytes the backend takes overlaid in its object's file, with 0 exactly when these are all |
| FileImport.OnlyWritableFilesChange | zephyr/subsys/bacnet_shell/bacnet_shell_file.c:344-397 | an import that returns 0 or changes anything met a writable stream object with a pathname, an offset within the limit and data that fits the chunk |
| FileImport.ImportLine | zephyr/subsys/bacnet_shell/bacnet_shell_file.c:1107-1145 | every exported entry is accepted by a writable stream object and overlays its bytes at its offset |
| FileImport.ImportRebuilds | zephyr/subsys/bacnet_shell/bacnet_shell_file.c:344-397 | entries that tile, replayed into an empty file, build their concatenation |
| FileImport.ExportImportIdentity | zephyr/subsys/bacnet_shell/bacnet_shell_file.c:1093-1145 | export then import is the identity on the file's bytes, for every file and chunk size; into another object the entries carry its instance |
| FileImport.ImportCommandFits | zephyr/subsys/bacnet_shell/bacnet_shell_file.c:32-42 | a re-issued entry is at most twice the chunk size plus 74 characters, and when it is exactly that |
| FileDump.FoldKeepsInv | zephyr/subsys/bacnet_shell/bacnet_shell_file.c:663-736 | rows tile from the start, come from the captured object, never pass the 31-bit limit, and 0 means the whole range or an end of file met |
| FileDump.DumpPrintsTheRange | zephyr/subsys/bacnet_shell/bacnet_shell_file.c:697-735 | with the file unwritten, 0 means exactly the requested range cut at the end of file |
| FileDump.DumpLine | zephyr/subsys/bacnet_shell/bacnet_shell_file.c:617-649 | the two column loops print the row |
| FileDump.RowRoundTrip | zephyr/subsys/bacnet_shell/bacnet_shell_file.c:617-649 | a fixed-column reader recovers the row's offset, length and bytes |
| FileDump.DumpTerminates | zephyr/subsys/bacnet_shell/bacnet_shell_file.c:713-733 | a dump makes a bounded number of passes in every run |
| FileDump.RangeOutcome | zephyr/subsys/bacnet_shell/bacnet_shell_file.c:682-709 | exactly which ranges are refused, and how many bytes the others ask for |
| FileDump.PassOutcome | zephyr/subsys/bacnet_shell/bacnet_shell_file.c:713-733 | what one pass makes of the world it finds: an error, or the bytes of the next row that the file still has |
| FileDump.RefusedExactly | zephyr/subsys/bacnet_shell/bacnet_shell_file.c:674-709 | a dump is refused exactly when its capture fails or its range is bad |
| FileDump.DumpProgress | zephyr/subsys/bacnet_shell/bacnet_shell_file.c:713-735 | over sampled worlds that hold the object unwritten, n rows are read after n reads, and 0 comes with the last |
| FileDump.UndisturbedDumpSucceeds | zephyr/subsys/bacnet_shell/bacnet_shell_file.c:663-736 | in every run in which the object stays and is not written, a dump of a good range never fails and prints that range |
| FileDump.AsciiColumn | zephyr/subsys/bacnet_shell/bacnet_shell_file.c:640-648 | a row has 71 characters; in column 53 + k stands byte k when it is printable, otherwise a point |
| FileDump.DumpUnderInterference | zephyr/subsys/bacnet_shell/bacnet_shell_file.c:663-736 | the dump invariant in every run, over worlds seen under the lock |
| Records.Check | zephyr/subsys/bacnet_shell/bacnet_shell_file.c:988-1003 | the checking pass accepts exactly the data that decodes item by item to its end |
| Records.Replay | zephyr/subsys/bacnet_shell/bacnet_shell_file.c:1007-1033 | after a successful check the unchecked pass stays inside the data, advances, and visits the same boundaries and items |
| Records.ScanTiles | zephyr/subsys/bacnet_shell/bacnet_shell_file.c:988-1033 | the items of a scan tile the data to its end |
| Records.ScanFindsAll | zephyr/subsys/bacnet_shell/bacnet_shell_file.c:988-1033 | if some cut of the data into pieces decodes piece by piece, the scan finds exactly those pieces |
| Records.WindowDecodes | zephyr/subsys/bacnet_shell/bacnet_shell_file.c:1260-1284 | a window decodes the item in front exactly when the whole data does and the item is no longer than the window |
| FileDecode.ValidateInitialValues | zephyr/subsys/bacnet_shell/bacnet_shell_file.c:1147-1169 | accepts exactly the requests whose initial values all decode inside the buffer |
| DecodeText.PrintApplicationValue | zephyr/subsys/bacnet_shell/bacnet_shell_file.c:837-986 | prints each kind of application value as an object of its type and value |
| DecodeDocument.ValueReads | zephyr/subsys/bacnet_shell/bacnet_shell_file.c:785-986 | the object printed for any application value reads as its type and value |
| FileDecode.PrintApplicationValues | zephyr/subsys/bacnet_shell/bacnet_shell_file.c:1007-1033 | prints every primitive value, or the bytes when one is not primitive |
| FileDecode.PrintInitialValues | zephyr/subsys/bacnet_shell/bacnet_shell_file.c:1171-1214 | on a validated request prints exactly the values the validation found |
| FileDecode.PrintRecord | zephyr/subsys/bacnet_shell/bacnet_shell_file.c:1216-1232 | prints the record's offset, object and validated values |
| DecodeDocument.RecordReads | zephyr/subsys/bacnet_shell/bacnet_shell_file.c:1171-1232 | each printed record is one JSON text with its offset, its object and every initial value with its application values, in order |
| FileDecode.WindowedDecodeIsWholeParse | zephyr/subsys/bacnet_shell/bacnet_shell_file.c:1260-1312 | on an unchanged file the windowed loop is a whole-file parse, up to the first boundary without a good record |
| FileDecode.ConcatenationParses | zephyr/subsys/bacnet_shell/bacnet_shell_file.c:1260-1312 | the whole-file parse of a concatenation of good records is those records at their prefix sums |
| FileDecode.DecodePrintsTheRecords | zephyr/subsys/bacnet_shell/bacnet_shell_file.c:1234-1316 | the command, when it returns, returns 0 with exactly those records |
| FileDecode.DecodeUnderInterference | zephyr/subsys/bacnet_shell/bacnet_shell_file.c:1234-1316 | in every run it makes boundedly many locked sections; it is refused for the capture's reason or with EPERM where the file is no configuration file, and otherwise decodes one; its records chain from 0 with good initial values, and each was decoded from the captured object in a window read under the lock and type-checked under the lock after that |
| FileDecode.StopsExactly | zephyr/subsys/bacnet_shell/bacnet_shell_file.c:1259-1312 | an opened decode stops with an error if and only if some section found its reason: object changed, file short (EIO), record or initial values bad (EBADMSG), type unsupported (ENOTSUP) |
| FileDecode.DecodeFinishes | zephyr/subsys/bacnet_shell/bacnet_shell_file.c:1259-1315 | a decode is finished after boundedly many worlds, whatever they are |
| FileShell.Shell.Lock | zephyr/subsys/bacnet_osif/bacnet_lock.c:13-16 | recursive: only taking the free lock admits the other threads' changes |
| FileShell.Shell.Own | zephyr/subsys/bacnet_shell/bacnet_shell_file.c:163-178 | a fresh copy, the empty string for null, or nothing when memory is out |
| FileShell.Shell.Release | zephyr/subsys/bacnet_shell/bacnet_shell_file.c:180-191 | frees each owned string once and leaves none |
| FileShell.Shell.CaptureTransfer | zephyr/subsys/bacnet_shell/bacnet_shell_file.c:193-238 | the snapshot with its three strings, or the first failing check and nothing kept |
| FileShell.Shell.Open | zephyr/subsys/bacnet_shell/bacnet_shell_file.c:285-295 | captures in one locked section and leaves the lock free |
| FileShell.Shell.OpenBackup | zephyr/subsys/bacnet_shell/bacnet_shell_file.c:297-311 | as open, of configured backup files only, releasing what it captured otherwise |
| FileShell.Shell.ReadTransfer | zephyr/subsys/bacnet_shell/bacnet_shell_file.c:313-331 | revalidates and reads in one locked section |
| FileShell.Shell.CopyChunks | zephyr/subsys/bacnet_shell/bacnet_shell_file.c:1072-1098 | the loop computes the export program and prints its entries; strings are freed on each error path |
| FileShell.Shell.CmdFileExport | zephyr/subsys/bacnet_shell/bacnet_shell_file.c:1035-1105 | status and text are those of the export program over the sampled worlds; lock and heap end as they began |
| FileShell.Shell.DumpRows | zephyr/subsys/bacnet_shell/bacnet_shell_file.c:713-735 | the loop computes the dump program and prints its rows, and frees the strings |
| FileShell.Shell.CmdFileDump | zephyr/subsys/bacnet_shell/bacnet_shell_file.c:663-736 | the same for the dump command, with its range checks |
| FileShell.Shell.NextRecord | zephyr/subsys/bacnet_shell/bacnet_shell_file.c:1260-1303 | one pass of decode: both locked sections, the length checks and the validation |
| FileShell.Shell.DecodeRecords | zephyr/subsys/bacnet_shell/bacnet_shell_file.c:1259-1315 | the loop computes the decode program and prints its records, and frees the strings |
| FileShell.Shell.CmdFileDecode | zephyr/subsys/bacnet_shell/bacnet_shell_file.c:1234-1316 | the same for the decode command |
| FileShell.Shell.FileWriteHex | zephyr/subsys/bacnet_shell/bacnet_shell_file.c:344-397 | length, parity, digits, pathname, read-only and stream checks in order, then one overlay write, which may come up short, and the reply |
| FileShell.Shell.CmdFileImport | zephyr/subsys/bacnet_shell/bacnet_shell_file.c:1107-1145 | the fields, the number tokens, the instance and the offset limit, then the write and its reply |
| FileShell.Shell.CmdFileImportLocked | zephyr/include/bacnet_shell/bacnet_shell.h:18-28 | the import handler runs and replies on the world found under the lock and the depth ends as it began |
| StorageKey.StrtoulOfDecimal | zephyr/subsys/bacnet_settings/bacnet_storage.c:100-131 | a canonical decimal is read as its number, unless it is `ULONG_MAX` or more |
| StorageKey.SignsAreRead | zephyr/subsys/bacnet_settings/bacnet_storage.c:100-124 | spaces and a sign in front are accepted, and a negative number wraps |
| StorageKey.PrefixesAreRead | zephyr/subsys/bacnet_settings/bacnet_storage.c:105 | octal and hexadecimal numbers are accepted |
| StorageKey.NumbersAreRefused | zephyr/subsys/bacnet_settings/bacnet_storage.c:106-119 | what is no number, has text behind it or is `ULONG_MAX` is refused |
| StorageKey.KeyRoundTrip | zephyr/subsys/bacnet_settings/bacnet_storage.c:391-511 | decoding a key's name gives that key exactly when every field fits the component buffer and is not `ULONG_MAX`, an error otherwise, never another key |
| StorageKey.AnyFieldsDecode | zephyr/subsys/bacnet_settings/bacnet_storage.c:433-511 | decimal fields are type, instance, property and index in that order, cut to their widths, and more components are ignored |
| StorageKey.NameOfPresentValue | zephyr/subsys/bacnet_settings/bacnet_storage.c:391-416 | the present value of analog value 1 has the name `.bacnet/2/1/85` |
| StorageKey.HandlerPathRoundTrip | zephyr/subsys/bacnet_settings/bacnet_storage.c:433-437 | the same without the base in front, as the settings handler receives it, unless the path lies below the base |
| StorageKey.ShadowedKeyIsLost | zephyr/subsys/bacnet_settings/bacnet_storage.c:433-511 | a path that lies below the base never decodes as its key |
| StorageKey.TailLiesBelow | zephyr/subsys/bacnet_settings/bacnet_storage.c:391-416 | a key's path lies below exactly its first field, its first two, or with an index its first three |
| StorageKey.DecodeTakesThreeFields | zephyr/subsys/bacnet_settings/bacnet_storage.c:440-506 | a path decodes only with three fields, and with two separators only without index |
| StorageKey.NameInjective | zephyr/subsys/bacnet_settings/bacnet_storage.c:391-416 | different keys have different full names |
| StorageKey.NamesIdentifyKeys | zephyr/subsys/bacnet_settings/bacnet_storage.c:391-416 | stored names identify keys if and only if base length + 39 fits the name limit |
| StorageKey.DescendantIsSkipped | zephyr/subsys/bacnet_settings/bacnet_storage.c:640-668 | a name below a key's name never passes the exact-match test |
| Storage.SaveChangesOneKey | zephyr/subsys/bacnet_settings/bacnet_storage.c:585-606 | a save under one key's name changes what that key finds and nothing else |
| Storage.OnlyTheExactEntryMatches | zephyr/subsys/bacnet_settings/bacnet_storage.c:627-668 | of the entries of a key's subtree, exactly the key's own passes the loader's test |
| Storage.Store.Set | zephyr/subsys/bacnet_settings/bacnet_storage.c:585-606 | on success the key finds the value (nothing for an empty one); every other key, and every key on failure, finds what it found |
| Storage.Store.Get | zephyr/subsys/bacnet_settings/bacnet_storage.c:627-728 | the key's value cut to the buffer, or not found |
| Storage.Store.Delete | zephyr/subsys/bacnet_settings/bacnet_storage.c:735-752 | on success the key finds nothing; no other key changes |
| Storage.Store.ClearEntry | zephyr/subsys/bacnet_settings/bacnet_storage.c:759-789 | rebuilds the full name, deletes it, and keeps the first failure |
| Storage.Store.Clear | zephyr/subsys/bacnet_settings/bacnet_storage.c:791-806 | one delete for each entry at or below the base, whatever fails, and the first failure returned |
| Storage.CleanNamesFit | zephyr/subsys/bacnet_settings/bacnet_storage.c:776-781 | no name below a base that leaves room for every key is too long to be cleared |
| Storage.AfterClearHas | zephyr/subsys/bacnet_settings/bacnet_storage.c:759-806 | exactly the entries whose delete succeeded are gone and every other is as it was |
| Storage.FirstFailureIsFirst | zephyr/subsys/bacnet_settings/bacnet_storage.c:783-806 | a non-zero result is the status of a write before which none failed |
| Storage.ClearedStoreIsEmpty | zephyr/subsys/bacnet_settings/bacnet_storage.c:754-806 | when a clear returns 0, exactly the entries at or below the base are gone and every get finds nothing |
| Settings.StoreThenRestore | zephyr/subsys/bacnet_settings/bacnet_settings.c:58-135 | restoring a stored write gives its normal form (priority from the index when commandable, else stored index and priority 16), and keys coincide exactly when normal forms address the same slot |
| Settings.InNumbers | zephyr/subsys/bacnet_settings/bacnet_settings.c:58-135 | property 85 of a commandable object is stored under its priority and comes back with it; otherwise the priority comes back as 16 |
| Settings.Persistence.WritePropertyStore | zephyr/subsys/bacnet_settings/bacnet_settings.c:58-91 | on success the write's data is what its key finds, and nothing else changes |
| Settings.Persistence.RestoreValue | zephyr/subsys/bacnet_settings/bacnet_settings.c:106-173 | delivers the restored write and answers as the callback exactly when the data is not empty and at most `MAX_APDU`, else EINVAL |
| Settings.Persistence.HandlerSet | zephyr/subsys/bacnet_settings/bacnet_storage.c:521-551 | delivers exactly the decodable values, with the stored length, from the value buffer and what lies behind it; answers 0 for an empty value and EINVAL for a path that does not decode |
| Settings.Persistence.WritePropertyRestore | zephyr/subsys/bacnet_settings/bacnet_settings.c:202-224 | walks every entry of the handler's subtree once, and an error on one does not stop it |
| Settings.DeliveriesAreExact | zephyr/subsys/bacnet_settings/bacnet_settings.c:183-224 | the walk delivers each restorable key once, with what was copied for its value, and nothing else |
| Settings.StoreHoldsLatest | zephyr/subsys/bacnet_settings/bacnet_settings.c:58-91 | after any history of writes each key finds its latest non-empty write |
| Settings.RestoreReplaysLatestWrites | zephyr/subsys/bacnet_settings/bacnet_settings.c:58-224 | after any history, a restore delivers for each restorable key the normal form of its latest write, once, with the data that was copied, and nothing else |
| Settings.ReplaysExactlyIffLatestFit | zephyr/subsys/bacnet_settings/bacnet_storage.c:526-541 | the restorable writes of a history are replayed exactly, whatever lies behind the buffer, if and only if each fits the buffer |
| Replay.ReturnsAllIffKeptFit | zephyr/subsys/bacnet_settings/bacnet_storage.c:521-551 | every latest write with data comes back if and only if its key decodes and it fits the buffer and a WriteProperty |
| Replay.NamesAreRightIff | zephyr/subsys/bacnet_settings/bacnet_storage.c:192-200 | the handler gets every stored key right if and only if store and handler have one name that is not ambiguous |
| Replay.OtherNamesLoseAKey | zephyr/subsys/bacnet_settings/bacnet_storage.c:193 | with different names one of the keys 1/1/1 and 2/1/1 is lost or comes back as another |
| Replay.ReplaysEverythingIff | zephyr/subsys/bacnet_settings/bacnet_settings.c:58-224 | the restorable writes of every history are replayed exactly if and only if the names are equal and not ambiguous and the buffer holds the longest write |
| Replay.ReturnsEverythingIff | zephyr/subsys/bacnet_settings/bacnet_settings.c:58-224 | every write with data of every history comes back exactly if and only if the names are equal, no stored key's path lies below the base, every field decodes and the buffer holds the longest write |
| Replay.EveryKeyDecodesIff | zephyr/subsys/bacnet_settings/bacnet_storage.c:428-431 | every stored key decodes if and only if a component holds ten digits and `ULONG_MAX` is above 32 bits |
| Replay.OneByteTooMany | zephyr/subsys/bacnet_settings/bacnet_storage.c:526-541 | a write one byte longer than the buffer comes back with its last byte from behind it |
| Replay.DefaultNamesRestoreNothing | zephyr/subsys/bacnet_settings/bacnet_storage.c:35 | under the default names no stored key lies in the restored subtree |
| AddressWait.AddressIndex | zephyr/subsys/bacnet_datalink/bip-init.c:404-431 | the first usable slot, or -1 exactly when there is none |
| AddressWait.UsableExactly | zephyr/subsys/bacnet_datalink/bip-init.c:404-431 | exactly which slots are usable |
| AddressWait.NoLostWakeup | zephyr/subsys/bacnet_datalink/bip-init.c:404-471 | in every run a waiter that is blocked with a usable address has its event still owed or queued, is subscribed, and has started DHCP where there is DHCP |
| AddressWait.WokenByOwnEventsOnly | zephyr/subsys/bacnet_datalink/bip-init.c:433-471 | in every run the waiter is woken at most as often as events of its own interface were delivered |
| AddressWait.QuietWaiterRuns | zephyr/subsys/bacnet_datalink/bip-init.c:455-468 | with nothing owed or queued, a waiter with a usable address is not blocked |
| AddressWait.ReturnedIndexWasUsable | zephyr/subsys/bacnet_datalink/bip-init.c:404-471 | in every run the returned slot was usable when the waiter read it, and every lower one was not when it read that |
| AddressWait.OwnStepsAreBounded | zephyr/subsys/bacnet_datalink/bip-init.c:464-468 | while a slot stays usable the waiter takes a bounded number of steps |
| AddressWait.UndisturbedScan | zephyr/subsys/bacnet_datalink/bip-init.c:404-431 | the slot-by-slot scan, undisturbed, ends where the sequential function does |
| TaskLock.WholeIffEveryoneLocks | zephyr/tests/subsys/bacnet_lock/src/main.c:49-67 | every read in every run is the pair last written whole, if and only if every thread holds the lock when it touches the clock |
| TaskLock.UnlockedReaderSeesATornPair | zephyr/tests/subsys/bacnet_lock/src/main.c:184-204 | an unlocked reader can get the new time with the previous date |
| TaskLock.HolderIsAlone | zephyr/subsys/bacnet_osif/bacnet_lock.c:13-21 | while a thread holds the lock no other thread's step changes anything |
| TaskLock.DepthIsBalance | zephyr/subsys/bacnet_osif/bacnet_lock.c:13-21 | in every run a thread's depth is the balance of its locks and unlocks |
| TaskLock.ClockShell.DateTime | zephyr/subsys/bacnet_shell/bacnet_shell_datetime.c:19-48 | sets the pair only when both texts parse, prints the clock on success, and changes nothing on an error |
| TaskLock.AskedExactly | zephyr/subsys/bacnet_shell/bacnet_shell_datetime.c:19-48 | the first argument is the date and the second the time, and only both together set the clock |
| TaskLock.ClockShell.DateTimeLocked | zephyr/include/bacnet_shell/bacnet_shell.h:18-28 | on every path the depth is restored, and the pair printed is the one set or the one found |
| Reinit.Service.Task | zephyr/subsys/bacnet_osif/bacnet_reinit.c:40-89 | the switch computes one step of the machine and its actions |
| Reinit.Service.SetDelay | zephyr/subsys/bacnet_osif/bacnet_reinit.c:98-102 | sets the delay and starts the timer |
| Reinit.TimerHolds | zephyr/subsys/bacnet_osif/bacnet_reinit.c:40-102 | in every run the timer holds the delay in force and the counter at the last idle tick, setting or restart |
| Reinit.FiresExactlyAfterDelay | zephyr/subsys/bacnet_osif/bacnet_reinit.c:46-82 | exactly when a tick restarts, in terms of the history |
| Reinit.RestartIsNeverEarly | zephyr/subsys/bacnet_osif/bacnet_reinit.c:49-85 | with one width, real time since the last idle tick, setting or restart is at least the delay, and a due restart is not missed |
| Reinit.NeverEarlyIffSameWidth | zephyr/subsys/bacnet_osif/bacnet_mstimer.c:17-20 | the delay is kept in every run if and only if the timer subtracts in the counter's width |
| Reinit.RestartsAreOneShot | zephyr/subsys/bacnet_osif/bacnet_reinit.c:54-81 | between two restarts there is a new request (no reboot support) or a new delay (reboot support); the first has both |
| Reinit.AtMostOneRestartARequest | zephyr/subsys/bacnet_osif/bacnet_reinit.c:59-81 | without reboot support there are never more restarts than requests |
| Reinit.RestartIsAsRequested | zephyr/subsys/bacnet_osif/bacnet_reinit.c:40-89 | a restart reboots cold or warm as the last request asked, after the callback for a coldstart, and reports it where there is no reboot |
| PropertyPrint.IsQuoted | zephyr/subsys/bacnet_shell/bacnet_shell_property.c:208-262 | the backward scan quotes exactly what is no keyword, not already quoted and not number-like |
| PropertyRead.BareNumbers | zephyr/subsys/bacnet_shell/bacnet_shell_property.c:208-262 | the numbers of RFC 8259 section 6 without exponent are exactly the number-like texts that start and end with a digit and have no leading zero |
| PropertyRead.ShowReads | zephyr/subsys/bacnet_shell/bacnet_shell_property.c:274-292 | what is printed for a text is a JSON value exactly when the text has a meaning, and then it is that value |
| PropertyRead.BareButNoValue | zephyr/subsys/bacnet_shell/bacnet_shell_property.c:208-262 | `007`, `00`, `.`, `5.` and `-` are printed bare and are no JSON |
| PropertyRead.EscapesHaveMeaning | zephyr/subsys/bacnet_shell/bacnet_shell_property.c:229-232 | a text that is itself a string may hold escapes of any code, such as `\uE000` and surrogates |
| PropertyPrint.PrintValue | zephyr/subsys/bacnet_shell/bacnet_shell_property.c:457-553 | the decode loop terminates and prints the lines of the data |
| PropertyRead.ListReadsBack | zephyr/subsys/bacnet_shell/bacnet_shell_property.c:499-550 | a list that decodes to its end reads as one array of the texts' meanings, in order, exactly when every text has one, and otherwise as none or a longer one; a list that does not is no complete array, but for the one exception of the next row |
| PropertyRead.TextThatCloses | zephyr/subsys/bacnet_shell/bacnet_shell_property.c:542-549 | the exception happens: a decoder whose two values are printed as `true` and a text that closes the list, cut short by no length, reads as a list of two |
| PropertyRead.TwoValuesMakeFour | zephyr/subsys/bacnet_shell/bacnet_shell_property.c:304-330 | the lines printed for two values with the text `"a","b"` read as an array of four |
| PropertyRead.SingleReadsBack | zephyr/subsys/bacnet_shell/bacnet_shell_property.c:499-553 | anything else reads as an object with the one value its text means, exactly when the text has a meaning |
| PropertyRead.QuoteInside | zephyr/subsys/bacnet_shell/bacnet_shell_property.c:276-292 | the object printed for the text `x"y` is no JSON |
| PropertyPrint.SkippingShowsErrorsOnly | zephyr/subsys/bacnet_shell/bacnet_shell_property.c:499-550 | without printing, one line shows exactly when some reached value does not decode |

## Left out

- Sockets, interface bring-up, netmasks and packet input and output of both IP data links.
- Flash, NVS, littlefs and devicetree selection, and `bacnet_storage_erase`, which is one interval test.
- The BACnet library itself: encoders and decoders are parameters, self-delimiting where a property needs it; object lists and property tables are parameters.
- `crc32_ieee_update` is modelled as the bit-by-bit register; the table-driven code of Zephyr is not part of this model.
- Float formatting and parsing, and the parsers built on `sscanf` (`bacnet_storage_key_parse`, `bacnet_settings_object_parse`).
- Argument parsing of the shell commands before the modelled core, and the wording of error messages; the console of the model holds results only.
- `file list`, `info`, `config`, `read` and `write`, which add no loop or state beyond the modelled commands; `write` ends in the modelled hex write.
- `json_obj_parse` is the RFC 8259 reader of `Json`: unknown members are ignored and the first of equal keys counts. A raw byte reads as the character of its number, an escape as its code point, and half a surrogate pair as U+FFFD.
- DecodeText.PrintApplicationValue: the decimal text of a real number is a parameter, as is whether it fits its buffer; reading it back asks that it is a number of RFC 8259, as `%g` prints it.
- FileDecode.PrintInitialValues: an initial value's data is a sequence of bytes, while the source takes its length from the library unchecked, as a `uint32_t`; that this stays inside the value is left to the library.
- Reinit.NeverEarlyIffSameWidth: `mstimer_expired` is not part of this model; that it subtracts readings as `unsigned long` and compares with the interval is an assumption on the library, as is its width.
- Replay.ReplaysEverythingIff: asks for room for one digit a component, `ULONG_MAX` of at least 3 and a `MAX_APDU` of at least 1; Replay.ReturnsEverythingIff for the last only. Object instances have all 32 bits.
- FileDump.RowRoundTrip: the ASCII column is printed and not read back, because bytes that are not printable share one character.
- Storage.Store.Clear: the entries are listed before the deletes, so a backend whose iteration is disturbed by a delete is not covered; nor is a name longer than the limit, which stops the walk in the source and which the settings subsystem cannot hold.
- Storage.Store.Get: the backend's read callback does not fail.
- Settings.Persistence.HandlerSet: a copy beyond the value buffer is undefined in C; the model gives it arbitrary bytes, and the read callback does not fail.
- Settings.Persistence.RestoreValue: the error numbers that a refused write maps to are the callback's parameter.
- Typed settings getters and setters; `bacnet_settings_characterstring_ansi_set` stores only when its string initialisation fails, so it has no round trip.
- AddressWait.NoLostWakeup: the event queue does not drop events, and an IPv4 configuration is not freed while its slots are scanned.
- TaskLock.ClockShell.DateTime: the clock does not run on between the store and the print inside the lock.
- Reinit.Service.Task: a coldstart callback does not itself change the timer or the device state, and the device continues after a reboot call, where the source would not.
- PropertyRead.ListReadsBack: the property's name is the body of a string and the appended text has no quote or escape, as the names of the library and the source's own texts.
- PropertyPrint.PrintValue: the value's tag for an empty buffer, and the object printed for a negative length, whose class and code are unquoted.
- Priority of threads and timeouts of the mutex: the lock waits forever in the source.
