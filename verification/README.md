# libshv in Dafny

A model of the parts of libshv whose behaviour is decided by code alone, with proofs of what they promise. The model
follows the code: where the code falls short of a promise, the shortfall is kept, a concrete input shows it, and the
exact condition under which the promise holds is proved.

- **Wire formats.** `IntCode`, `DateTimeCode`, `Chunks` and `DecimalDigits` hold the byte-level codes. `Codecs`
  describes a wire format by how it writes and lexes leaves, container frames and separators, and gives the recursive
  writer and reader of values with metadata once for all formats; `CodecRoundTrip` and `CodecPath` prove reading
  inverse to writing and the path reader equal to decode-and-walk for every format that satisfies the laws;
  `MapReading` says what is read from any input, with keys in any order and as often as one likes. `ChainPack` and
  `Cpon` are the two formats; `CponLaws` shows that the laws survive a reader that skips commas and colons,
  `ChainPackInputs` what becomes of input that is cut short, `CponInputs` what is read from numbers in all their forms,
  comments and tokens that the writer does not use, and `CponLayout` how text is broken into lines. `StreamReaders`,
  `StreamWriters`, `PackContexts`, `ChainPackPackers` and `CponUnpackers` are the stateful readers, writers and
  buffers, each proved against those functions. Schema bytes are those of
  libshvchainpack/c/include/shv/chainpack/cchainpack.h:15-35.
- **Calendar, times and decimals.** `Calendar` proves the era arithmetic right against a leap-year day count.
  `TimeTexts` prints and reads times as ISO 8601 text, and as names of journal files. `Decimals`, `CponNumbers`,
  `DecimalTexts` and `DecimalPrinting` cover the arithmetic, text and in-place printing of decimals.
- **Journal.** `Journals` holds the replay step `addToSnapshot`, `FileJournals` the directory of files,
  `ShvFileJournals` appends, roll-over and rotation for files told apart by their start times (`Run`), `JournalSizes`
  the size that is counted. `NamedJournals` is the journal object over the directory as it is (`NamedRun`): a file is
  found by its name, and its start time is read from that name. `FittingNames` shows both to be the same journal while
  names fit, and so carries the theorems about `Run` over; names fit wherever they show the times that are used, as
  they do from 2000 to 2099. `LoggedRows` and `NamedRows` say which row an append leaves on disk, where, and at what
  time. `JournalTexts` is the text of the files with its reader, `JournalReading` what that text replays to,
  `JournalValues` the columns of values and times. `GetLogs`, `GetLogLoops`, `GetLogTheorems`, `GetLogLimits`,
  `GetLogAnswers`, `GetLogPaths` and `GetLogHonesty` are the query; `FileSelection`, `FileChoices`, `LastRows`,
  `SafeQueries`, `FileLists` and `RunQueries` the choice of the file it starts from and the list of files it reads.
- **Broker.** `Brokers` is one broker and the caller-id operations, `BrokerNets` a network of brokers and clients as
  a state machine in which any node may send any frame, `BrokerTheorems` what holds in every run of it, and
  `BrokerDelivery` that requests are handed on and answers can come home.
- **Access control.** `RoleGraphs` and `RoleTheorems` hold the breadth-first role closure, `Acls` its caches.
- **Crypt.** `Crypts` is the keystream encoder and its decoder.

Where the code does not do what one would expect:

- `days_from_0` miscounts years before year 1: times there convert back if and only if the year before is a leap year
  (`Calendar.TimeGmInvertsGmTimeIff`, `Calendar.YearZeroIsOffByOne`).
- CPON text reads unsigned numbers from 2^63 on back as INT64_MAX and cuts blobs at their length modulo 2^32
  (`CponTheorems.CponRoundTrip`, `CponTheorems.LargeUIntsCollapse`).
- A block comment is not closed where an odd number of stars stands in front of its end (`CponInputs.StarsCloseIff`),
  and the sign of an unsigned number is ignored (`CponInputs.UIntReads`).
- `readPath` stops at the first entry with the key it looks for, while reading the whole map keeps the last one
  (`MapReading.PathAgreesIff`).
- `getLog` without a snapshot can return no rows and a header that claims the whole period, although rows exist
  (`GetLogHonesty.HonestIff`, `GetLogHonesty.LostRow`); the next query, starting there, misses them.
- The record count limit in the header of a result is not the one that is kept, unless the caller's own is
  (`GetLogLimits.HeaderLimitIsKeptIff`); what the caller's limit guarantees is stated by `GetLogLimits.LimitIsExact`.
- An entry whose domain is empty or C does not enter the journal's snapshot, but a client reads its row as a value
  change (`GetLogHonesty.DomainIsSafeIff`, `GetLogHonesty.CodedEntryIsTakenOver`).
- An entry without a path, which a list of entries can hold, is read with the time 0, and the header's `until` with it
  (`GetLogPaths.QueryAnswersIff`, `GetLogPaths.PathlessRowMisleads`).
- Reading from the chosen file on can differ from reading every file: for `until` not after `since` with a snapshot, and
  for "last" with a date as `until` (`RunQueries.QueryIsSafeIff`, with runs that show it in `RunQueries.TwoKeysMislead`
  and `RunQueries.OldUntilHidesLast`). A limit below one makes a difference only after an explicit call of
  `createNewLogFile` (`RunQueries.QueryOverEveryRun`, `RunQueries.LimitMisleads`).
- An explicit call of `createNewLogFile` with a clock behind the newest row leaves the rows out of time order
  (`RunQueries.NewFileKeepsOrderIff`).
- The text of a time shows the milliseconds 1 to 9 with the second digit of the year in their middle: in 1970 to 1999
  they read as 91 to 99. Rows lose their times by this, exactly where that digit is not 0 (`TimeTexts.TimeSurvivesIff`);
  in names of files, where 0 is printed too, so do the milliseconds 0 to 9 (`TimeTexts.NameSurvivesIff`).
- Two files begun in the same millisecond, or at times whose names coincide, such as 1000 and 1090, are one file listed
  twice, whose rows a query reads twice until the next rotation reads the directory (`FileLists.RunReadsOnceIff`,
  `FileLists.ReadTwice`). A name that comes back later puts rows behind old ones, and a value that was dropped is
  replayed from the newest file (`FileLists.StaleRowReplays`, `FileLists.NamesComeBack`); where names fit this does not
  happen (`FittingNames.EveryFittingRun`). A file whose name is before that of its predecessor is the first that
  rotation deletes, with the row that was just written to it (`NamedRows.WrittenRowIsDeleted`).
- `appendThrow` refuses an entry with a negative time in an empty journal and leaves an empty file behind
  (`ShvFileJournals.AppendedIsGood`); `append` then reads the directory again and logs the entry with the time of that
  file (`ShvFileJournals.AppendLogs`).
- The text of a journal file does not keep every entry. The reader skips rows without a path, reads rows without a
  domain as value changes, leaves out zero bytes and breaks paths at tabs and line ends, the CPON text of a value
  changes large unsigned numbers, some decimals and what is invalid, and the text of a time some milliseconds
  (`JournalValues.ChangeReadsBackIff`). The newest file, as read, then need not replay to the snapshot in memory, whose
  values do not depend on times (`JournalReading.HarmlessIff`, `JournalValues.ChangeIsFaithfulIff`, and runs that show
  it in `JournalReading.ChangedValueIsLost` and `JournalValues.LargeNumberIsLost`).
- The size a journal counts leaves out the snapshot rows of files begun since the directory was read, so that rotation
  may start late (`JournalSizes.CountedIsRealIff`, `JournalSizes.WithinLimit`, `JournalSizes.RotationIsLate`).
- Lookups of role lists by user, role, LDAP user and Azure user share one cache: a user whose name starts with one of
  the three key prefixes can be given another's roles (`Acls.NameIsSafeIff`, `Acls.AzureNameGainsRoles`), and a
  directory user keeps the roles it was first looked up from (`Acls.AnswerIsFirstAsked`,
  `Acls.DirectoryKeepsFirstRoles`). This is over the public functions of the manager: LDAP lookups exist only when it
  is built with `WITH_SHV_LDAP`, and the broker itself looks up no single role but `masterBroker`
  (libshvbroker/src/aclmanager.cpp:276-281, 350).
- The branch of the broker that reports an impossible connection mismatch can be reached, exactly by tunnel answers at
  their last broker that register no reverse ids (`Brokers.MismatchIff`, `BrokerTheorems.MismatchIsReachable`).

## Model

| member | source | states |
|---|---|---|
| `IntCode.UIntRoundTrip` | libshvchainpack/c/cchainpack.c:164-187 | unpacking a packed uint64 followed by anything gives the number and exactly what followed |
| `IntCode.IntRoundTrip` | libshvchainpack/c/cchainpack.c:202-215 | the same for every int64 except INT64_MIN, through the in-band sign bit |
| `IntCode.SignPositionAgrees` | libshvchainpack/c/cchainpack.c:189-215 | the bit the encoder sets for the sign is the one the decoder derives from the head byte, and the magnitude lies below it |
| `IntCode.EncodeUIntIsShortest` | libshvchainpack/c/cchainpack.c:110-162 | no head form that can hold the number is shorter than the one chosen |
| `IntCode.EncodeIntIsShortest` | libshvchainpack/c/cchainpack.c:202-215 | the same for signed numbers, sign bit included |
| `IntCode.EncodedLengthIsMonotone` | libshvchainpack/c/cchainpack.c:110-187 | codes never get shorter as the magnitude grows |
| `IntForms.UIntForms` | libshvchainpack/c/cchainpack.c:110-162 | the bytes of an unsigned number: up to seven bits in one byte, fourteen in two, twenty-one in three, twenty-eight in four, and above that the count of bytes and as few bytes as hold it, the highest first |
| `IntForms.SmallIntForm` | libshvchainpack/c/cchainpack.c:202-215 | the byte of a signed number below 64 in magnitude: the second bit is its sign |
| `IntCode.SignificantBitsByHalving` | libshvchainpack/c/cchainpack.c:83-108 | the table form of the bit length equals the number of significant bits |
| `IntCode.PackUIntDataHelper` | libshvchainpack/c/cchainpack.c:132-162 | the byte-array loop and the head rewrite produce the code of the number |
| `IntCode.UnpackUInt` | libshvchainpack/c/cchainpack.c:433-470 | the head switch and payload loop decode; running out of input is reported; more than 64 bits give UINT64_MAX |
| `IntCode.UnpackInt` | libshvchainpack/c/cchainpack.c:472-496 | sign bit taken off the top; more than 64 bits give INT64_MAX |
| `DateTimeCode.PackRoundTrip` | libshvchainpack/c/cchainpack.c:275-299 | unpacking a packed date-time gives the milliseconds and the offset cut to a quarter hour, for all four flag combinations |
| `DateTimeCode.NearEpochIsRepresentable` | libshvchainpack/c/cchainpack.c:275-299 | every instant within 2^54 ms of the SHV epoch can be packed, negative distances included |
| `DateTimeCode.OffsetSurvivesIffInRange` | libshvchainpack/c/cchainpack.c:665-690 | the offset survives if and only if its quarter-hour quotient lies in -64..63 |
| `DateTimeCode.PackedFields` | libshvchainpack/c/cchainpack.c:275-299 | the fields of the packed number: a bit for the offset, a bit for whole seconds, seven bits of offset if there is one, and above them the milliseconds or seconds since 2 February 2018 |
| `DateTimeCode.CodeRoundTrip` | libshvchainpack/c/cchainpack.c:665-690 | the same through the integer code, leaving exactly what followed |
| `CodecRoundTrip.ValueRoundTrip` | libshvchainpack/src/chainpackwriter.cpp:36-81 | for every lawful format and every value tree with nested metadata, reading what was written gives the tree and leaves exactly the rest |
| `CodecRoundTrip.EntriesRoundTrip` | libshvchainpack/src/chainpackreader.cpp:261-311 | map, imap and metadata loops rebuild the written entries in order |
| `CodecRoundTrip.ListRoundTrip` | libshvchainpack/src/chainpackreader.cpp:246-259 | the list loop rebuilds the written items |
| `RpcValues.InsertSets` | libshvchainpack/src/chainpackreader.cpp:277-311 | setting a key of an ordered map leaves it ordered and changes the value under that key alone, whatever keys came before |
| `RpcValues.EraseForgets` | libshvchainpack/src/chainpackreader.cpp:261-275 | forgetting a key of metadata leaves the others as they are, in order |
| `MapReading.MapIsReadIff` | libshvchainpack/src/chainpackreader.cpp:261-311 | for every input: it is read as a map, an imap or metadata if and only if it is made of keys and values up to an end, and then as the ordered map that holds for each key the value given last |
| `MapReading.AnyOrderReads` | libshvchainpack/src/chainpackreader.cpp:277-311 | entries written one after the other, in any order and with repetitions, are read as the ordered map of the keys written, each with its last value |
| `MapReading.KeysMean` | libshvchainpack/src/chainpackreader.cpp:295-311 | numbers as keys are cut to 32 bits, and kept if they fit; keys of maps are their text, and empty if they are no strings |
| `MapReading.ReadIsCanonical` | libshvchainpack/src/chainpackreader.cpp:96-192 | whatever the input, maps and metadata of what is read are ordered at every depth, and nothing invalid has metadata |
| `Codecs.Read` | libshvchainpack/src/chainpackreader.cpp:96-192 | the recursive reader is total: every successful read consumes input, whatever the bytes |
| `CodecPath.ReadPathAgrees` | libshvchainpack/src/chainpackreader.cpp:194-244 | streaming look-up on the encoding of any tree equals decoding and walking, found and not found, for every key list |
| `CodecPath.FindItemMeans` | libshvchainpack/src/chainpackreader.cpp:194-244 | the list step of the walk finds the item whose decimal index is the key, if there is one |
| `CodecPath.FindEntryMeans` | libshvchainpack/src/chainpackreader.cpp:194-244 | the map step finds the first entry with the key's text, if there is one |
| `CodecPath.FindItemMisses` | libshvchainpack/src/chainpackreader.cpp:194-244 | the list step finds nothing where no element has that index |
| `CodecPath.FindEntryMisses` | libshvchainpack/src/chainpackreader.cpp:194-244 | the map step finds nothing where no entry has that key |
| `MapReading.PathAgreesIff` | libshvchainpack/src/chainpackreader.cpp:194-244 | on a map in any order, `readPath` agrees with reading the map and looking the key up if and only if the first value written for the key is the last |
| `ChainPack.PackedLeafLexes` | libshvchainpack/c/cchainpack.c:575-747 | every packed leaf, followed by anything, is unpacked to that leaf and leaves the rest |
| `ChainPack.ChainPackIsLawful` | libshvchainpack/c/cchainpack.c:333-366 | ChainPack satisfies the codec laws: leaves, container starts and ends, no separators |
| `ChainPack.UnpackNext` | libshvchainpack/c/cchainpack.c:575-747 | the schema switch with its chunk loop yields the same item for every chunk buffer length |
| `ChainPack.UnpackDouble` | libshvchainpack/c/cchainpack.c:633-654 | eight bytes are taken as they come, or underflow is reported |
| `ChainPack.UnpackDateTime` | libshvchainpack/c/cchainpack.c:665-690 | the flag bits, the offset field and the overflow of a packed date-time |
| `ChainPack.UnpackSchema` | libshvchainpack/c/cchainpack.c:690-747 | schema bytes that stand alone: container starts and the end, null and the booleans |
| `ChainPack.UnpackBytes` | libshvchainpack/c/cchainpack.c:498-550 | sized and unsized strings and blobs, read chunk by chunk |
| `ChainPack.UnpackDecimal` | libshvchainpack/c/cchainpack.c:655-664 | mantissa and exponent, the exponent cut to 32 bits |
| `ChainPackTheorems.ChainPackRoundTrip` | libshvchainpack/src/chainpackwriter.cpp:36-81 | read(write(v) ++ rest) returns the tree with all metadata and leaves rest; it is v itself if and only if v holds no invalid value |
| `ChainPackTheorems.EncodingsArePrefixFree` | libshvchainpack/src/chainpackreader.cpp:96-192 | encodings are self-delimiting: equal streams come from equal trees with equal rests |
| `ChainPackTheorems.ReadPathIsDecodeAndWalk` | libshvchainpack/src/chainpackreader.cpp:194-244 | readPath on a ChainPack encoding equals decoding everything and walking the keys |
| `ChainPackTheorems.AsReadIsIdentityIffValid` | libshvchainpack/src/chainpackwriter.cpp:36-65 | a tree changes on its way only by invalid values that become null |
| `ChainPackInputs.ReadIsLocal` | libshvchainpack/src/chainpackreader.cpp:96-192 | for every input: what is read does not depend on what follows it, which is left where it was |
| `ChainPackInputs.TruncatedIsRefused` | libshvchainpack/src/chainpackreader.cpp:96-192 | no value is read from an encoding that is cut short, wherever it is cut |
| `ChainPackInputs.EveryValueIsCanonical` | libshvchainpack/src/chainpackreader.cpp:96-192 | whatever bytes come in, what is read is ordered throughout |
| `ChainPackInputs.CStringReads` | libshvchainpack/c/cchainpack.c:498-550 | C strings, which the writer does not use, are read |
| `ChainPackInputs.MessageBytes` | libshvchainpack/tests/test_crc32.cpp:19 | a message with metadata, small numbers, strings and an imap is written with the schema bytes that the tests of the repository have |
| `ChainPackInputs.SchemaBytesAre` | libshvchainpack/c/include/shv/chainpack/cchainpack.h:15-35 | the schema byte of each leaf and what stands behind it |
| `ChainPackInputs.FrameBytesAre` | libshvchainpack/c/include/shv/chainpack/cchainpack.h:15-35 | the schema bytes of containers, metadata and their ends |
| `StreamReaders.StreamReader.ReadValue` | libshvchainpack/src/chainpackreader.cpp:96-192 | the reader object returns what the reader function specifies and advances to its rest, or fails with it |
| `StreamReaders.StreamReader.ParseList` | libshvchainpack/src/chainpackreader.cpp:246-259 | the list loop |
| `StreamReaders.StreamReader.ParseEntries` | libshvchainpack/src/chainpackreader.cpp:261-311 | the loops for maps, imaps and metadata |
| `StreamReaders.StreamReader.ReadPathValue` | libshvchainpack/src/chainpackreader.cpp:194-244 | the path loop computes the look-up function |
| `StreamWriters.StreamWriter.WriteValue` | libshvchainpack/src/cponwriter.cpp:163-180 | the writer appends exactly the text of the value at its depth and restores its container stack |
| `StreamWriters.StreamWriter.WriteElements` | libshvchainpack/src/cponwriter.cpp:186-229 | containers are framed by their begin and end, elements separated by what the stack says |
| `StreamWriters.StreamWriter.WriteSeparator` | libshvchainpack/src/cponwriter.cpp:294-315 | the separator depends on the element count of the innermost container, which grows by one |
| `StreamWriters.PieceWriter.Leaf` | libshvchainpack/src/chainpackwriter.cpp:36-65 | a leaf is written by the C packer of its type |
| `StreamWriters.Stream` | libshvchainpack/src/abstractstreamwriter.cpp:5-14 | for both formats and every buffer size, the flushed stream is exactly the text of the value |
| `PackContexts.RunWrites` | libshvchainpack/c/ccpcp.c:21-123 | for any writes and any buffer: with a flush handler flushed plus buffered bytes are the plain concatenation; without one the buffer holds a prefix, never passes its end, and is OK if and only if the total fits; the dry run counts that total |
| `PackContexts.PackContext.MakeSpace` | libshvchainpack/c/ccpcp.c:54-73 | space is made by flushing or overflow is reported, and no byte is lost |
| `PackContexts.PackContext.CopyByte` | libshvchainpack/c/ccpcp.c:89-100 | one byte is appended to what was written |
| `PackContexts.PackContext.CopyBytes` | libshvchainpack/c/ccpcp.c:102-123 | a block is appended in as many rounds as the buffer needs |
| `PackContexts.PackContext.Flush` | libshvchainpack/src/abstractstreamwriter.cpp:5-14 | the flush loop moves all buffered bytes to the stream and resets the buffer |
| `PackContexts.DryRun` | libshvchainpack/c/ccpcp.c:38-52 | a dry run counts the exact length |
| `ChainPackTheorems.WriteToStream` | libshvchainpack/src/chainpackwriter.cpp:36-81 | through the C packers and the buffered writer, whatever its size, the stream decodes to the value written |
| `ChainPackPackers.PackUIntData` | libshvchainpack/c/cchainpack.c:164-187 | the packer appends the integer code |
| `ChainPackPackers.PackUInt` | libshvchainpack/c/cchainpack.c:217-228 | small numbers in the schema byte, others behind it |
| `ChainPackPackers.PackIntData` | libshvchainpack/c/cchainpack.c:202-215 | the packer appends the signed code |
| `ChainPackPackers.PackDecimal` | libshvchainpack/c/cchainpack.c:243-250 | schema byte, mantissa, exponent |
| `ChainPackPackers.PackDateTime` | libshvchainpack/c/cchainpack.c:275-299 | schema byte and packed date-time |
| `ChainPackPackers.PackDouble` | libshvchainpack/c/cchainpack.c:252-273 | schema byte and the eight bytes |
| `ChainPackPackers.PackScalar` | libshvchainpack/src/chainpackwriter.cpp:36-65 | the packer chosen for a leaf appends its code |
| `ChainPackPackers.PackBytes` | libshvchainpack/c/cchainpack.c:368-395 | schema byte, length, data |
| `Chunks.EscapeRoundTrip` | libshvchainpack/c/cchainpack.c:39-56 | in each escape alphabet the terminated text of any byte string reads back to it and leaves what followed |
| `Chunks.EscapedByteDecodes` | libshvchainpack/c/ccpon.c:597-680 | each alphabet is unambiguous byte by byte |
| `Chunks.StringItem.ReadEscaped` | libshvchainpack/c/ccpon.c:1125-1220 | concatenated chunks are the unescaped text whatever the chunk length; malformed text is reported |
| `Chunks.StringItem.UnpackEscaped` | libshvchainpack/c/ccpon.c:1178-1220 | one chunk is a prefix of what remains |
| `Chunks.StringItem.ReadSized` | libshvchainpack/c/cchainpack.c:498-538 | concatenated chunks of a length-prefixed string are its bytes, or underflow is reported |
| `Chunks.ReadBack` | libshvchainpack/c/cchainpack.c:498-544 | writing and chunked reading of any byte string with any alphabet and chunk length gives it back |
| `Calendar.CivilFromDaysIsRight` | libshvchainpack/c/ccpon.c:233-258 | for every day the era formula yields a valid date whose leap-year day count is that day |
| `Calendar.DaysToYearIsTheCalendar` | libshvchainpack/c/ccpon.c:182-199 | the reference day count grows by 366 in leap years and by 365 in others, and is anchored at 1970 |
| `Calendar.CumulativeDaysAreSums` | libshvchainpack/c/ccpon.c:201-210 | the month table holds the sums of the month lengths, leap years included |
| `Calendar.DayNumberIsInjective` | libshvchainpack/c/ccpon.c:182-210 | different valid dates have different day numbers |
| `Calendar.TimeGmInvertsGmTimeIff` | libshvchainpack/c/ccpon.c:212-286 | for every second the broken-down time is valid, and converts back to the second if and only if its year is at least 1 or follows a leap year |
| `Calendar.GmTimeInvertsTimeGmIff` | libshvchainpack/c/ccpon.c:212-286 | every valid broken-down time comes back from its second under the same condition and no other |
| `Calendar.YearZeroIsOffByOne` | libshvchainpack/c/ccpon.c:187-191 | 1 January of year 0 comes back as 2 January |
| `Calendar.DayCountsFitInt32` | libshvchainpack/c/ccpon.c:187-199 | no 32-bit day count overflows in the years 1 to 5,000,000 |
| `TimeTexts.UIntToStr` | libshvchainpack/c/ccpon.c:26-49 | digits written backwards and reversed in place are the decimal digits, and nothing else is touched |
| `TimeTexts.ShiftRight` | libshvchainpack/c/ccpon.c:56-59 | the padding loop moves the digits to the right end and pads only the places they leave |
| `TimeTexts.UIntToStrLPad` | libshvchainpack/c/ccpon.c:51-63 | a number shorter than its width: places between digits and padding keep what the buffer held |
| `TimeTexts.PackDateTimeStr` | libshvchainpack/c/ccpon.c:435-469 | through one buffer that the milliseconds reuse, the text is the ISO text in which a single digit of milliseconds has the second digit of the year in front |
| `TimeTexts.TimeReads` | libshvchainpack/c/ccpon.c:956-1073 | the text of every time that `DateTime` holds is read, as the time it shows |
| `TimeTexts.TimeSurvivesIff` | libshvchainpack/c/ccpon.c:435-469 | for every integer: the text of a time is read as that time if and only if it fits 57 bits and, from 1970 on, its milliseconds are not 1 to 9 or the second digit of the year is 0; before 1970, it is a whole second of a year that `timegm` gets right |
| `TimeTexts.DateLooks` | libshvchainpack/c/ccpon.c:435-462 | in years of four digits the text is the ISO 8601 date and time, each part in its two or four places |
| `TimeTexts.OffsetSurvivesIff` | libshvchainpack/c/ccpon.c:956-1090 | from 1970 on, a time written in local time with its offset in hours and minutes is read as the same instant if and only if its milliseconds survive in the local year |
| `TimeTexts.ShvEpochIs` | libshvchainpack/c/cchainpack.c:275-299 | the epoch of ChainPack date-times is the beginning of 2 February 2018 |
| `TimeTexts.NameReads` | libshvcore/src/utils/shvjournalfilereader.cpp:183-218 | the name of a file is read, as the start time with the milliseconds it shows |
| `TimeTexts.NameSurvivesIff` | libshvcore/src/utils/shvjournalfilereader.cpp:183-218 | the start time is read from the name of its file if and only if its milliseconds are at least 10 or the second digit of the year is 0 |
| `TimeTexts.NamesAgreeIff` | libshvcore/src/utils/shvjournalfilereader.cpp:211-218 | two start times give one file name if and only if both names show one time |
| `TimeTexts.NamesakesAreApart` | libshvcore/src/utils/shvjournalfilereader.cpp:211-218 | different times with one name are 10 to 90 ms apart, and the earlier one is not shown as it is |
| `TimeTexts.ThisCenturySurvives` | libshvcore/src/utils/shvjournalfilereader.cpp:211-218 | from 2000 to 2099 every time survives, in a row and in a name |
| `Decimals.NormalizeIsCanonical` | libshvchainpack/src/rpcvalue.cpp:1523-1537 | decimals of equal number normalise to the same pair |
| `Decimals.NormalizeKeepsNumber` | libshvchainpack/src/rpcvalue.cpp:1523-1537 | normalising keeps the number |
| `Decimals.NormalizeLoop` | libshvchainpack/src/rpcvalue.cpp:1523-1537 | the loop computes the normal form |
| `Decimals.CompareIsExact` | libshvchainpack/src/rpcvalue.cpp:1561-1593 | whenever comparison does not fall back to floating point it is the exact comparison of m*10^e |
| `Decimals.EqualNumbersCompareEqual` | libshvchainpack/src/rpcvalue.cpp:1561-1593 | equal numbers compare equal on the exact path |
| `Decimals.FallsBackIff` | libshvchainpack/src/rpcvalue.cpp:1561-1593 | comparison falls back to floating point if and only if the exponents of the reduced decimals are more than eight apart or the mantissa that is scaled does not fit 64 bits |
| `Decimals.RpcDecimal.SetDecPlaces` | libshvchainpack/src/rpcvalue.cpp:1539-1559 | the object takes over the mantissa and exponent of the specification |
| `Decimals.WithDecPlacesMeaning` | libshvchainpack/src/rpcvalue.cpp:1539-1559 | setting decimal places keeps the number, changes nothing, or truncates toward zero by less than one unit |
| `DecimalTexts.DecimalRoundTrip` | libshvchainpack/c/ccpcp.c:345-403 | every printed decimal parses to the identical pair unless exponent > 0 and digits + exponent <= 9, where it becomes (m*10^e, 0); always to the same number |
| `DecimalTexts.HasMarkIff` | libshvchainpack/c/ccpcp.c:345-403 | the text has an e if and only if the exponent is positive and more than nine digits would be needed, or all digits are behind the point and more than three places are |
| `DecimalPrinting.DecimalTextFits` | libshvchainpack/c/ccpcp.c:345-403 | no decimal takes more than 32 bytes of the 64-byte buffer |
| `DecimalPrinting.DecimalToString` | libshvchainpack/c/ccpcp.c:345-403 | reversing, shifting and padding in the buffer leaves exactly that text |
| `DecimalPrinting.IntToStr` | libshvchainpack/c/ccpcp.c:309-343 | digits written backwards and reversed in place are the decimal digits, or 0 if they do not fit |
| `DecimalPrinting.InsertDot` | libshvchainpack/c/ccpcp.c:365-371 | the shift loop opens a gap for the point and moves only the digits behind it |
| `DecimalPrinting.PadFraction` | libshvchainpack/c/ccpcp.c:372-381 | the shift loop puts zeros in front of short fractions |
| `CponNumbers.UnpackIntToResult` | libshvchainpack/c/ccpon.c:852-947 | the scanning loop with sign, hexadecimal prefix and overflow flag |
| `CponNumbers.ScanDigits` | libshvchainpack/c/ccpon.c:852-947 | digits in front of a stop are all consumed and read as their number, without overflow up to INT64_MAX |
| `CponTheorems.CponRoundTrip` | libshvchainpack/src/cponwriter.cpp:163-327 | text written with any insignificant indent reads back and leaves the rest; the tree is the same, decimals by number, if and only if it holds no invalid value, no uint from 2^63 on and no blob from 2^32 bytes on |
| `CponTheorems.LargeUIntsCollapse` | libshvchainpack/c/ccpon.c:1458-1461 | all unsigned numbers from 2^63 on read back as INT64_MAX |
| `CponTheorems.WriteText` | libshvchainpack/src/cponwriter.cpp:163-327 | through the buffered writer, whatever buffer size and indent, the text reads back to the value |
| `CponTheorems.SameIffSpellable` | libshvchainpack/src/cponreader.cpp:48-141 | the exact condition under which a tree survives text |
| `CponLayout.LinesAreRight` | libshvchainpack/src/cponwriter.cpp:163-327 | pretty-printed text has a line end in front of each element and in front of the end of exactly those containers that have more than ten items, or five entries, or hold another container |
| `CponLayout.IndentIsDepth` | libshvchainpack/c/ccpon.c:334-349 | indented by tabs, each of these lines has as many of them as it is deep |
| `CponLaws.CponIsLawful` | libshvchainpack/c/ccpon.c:1222-1491 | CPON satisfies the codec laws although the reader skips commas and colons like blanks |
| `CponLaws.NumberLaw` | libshvchainpack/c/ccpon.c:1391-1472 | every printed number is lexed back to what the format keeps of it |
| `CponLaws.QuotedLaw` | libshvchainpack/c/ccpon.c:682-711 | strings and blobs are lexed back; a blob loses what the 32-bit length cast drops |
| `CponLaws.SkipBlanks` | libshvchainpack/c/ccpon.c:737-802 | insignificant bytes in front of anything change nothing |
| `CponInputs.IntReads` | libshvchainpack/c/ccpon.c:852-947 | any sign, plus included, and any decimal digits are read as the number they stand for, clipped to 64 bits |
| `CponInputs.UIntReads` | libshvchainpack/c/ccpon.c:1458-1461 | with a u behind it, the number is read without its sign, at most INT64_MAX |
| `CponInputs.HexReads` | libshvchainpack/c/ccpon.c:852-947 | 0x and hexadecimal digits of either case, behind any sign, are read as the number they stand for, clipped to 64 bits |
| `CponInputs.PointReads` | libshvchainpack/c/ccpon.c:1391-1472 | digits, a point and digits are read as the decimal with as many places as there are digits behind the point |
| `CponInputs.PointAndExponentRead` | libshvchainpack/c/ccpon.c:1391-1472 | an exponent with any sign, behind e or E, is added to that |
| `CponInputs.ExponentAloneReads` | libshvchainpack/c/ccpon.c:1391-1472 | and to digits without a point |
| `CponInputs.BlockIsSkipped` | libshvchainpack/c/ccpon.c:737-802 | a block comment in front of anything changes nothing, if each star in it takes a byte other than a slash with it |
| `CponInputs.StarsCloseIff` | libshvchainpack/c/ccpon.c:737-802 | stars in front of the end of a comment hide it if and only if their number is odd |
| `CponInputs.LineIsSkipped` | libshvchainpack/c/ccpon.c:737-802 | a line comment in front of anything changes nothing |
| `CponInputs.WhiteIsSkipped` | libshvchainpack/c/ccpon.c:737-802 | so do blanks, tabs, line ends, commas and colons |
| `CponInputs.SkippedIsIgnored` | libshvchainpack/src/cponreader.cpp:48-141 | input that differs only in what is skipped in front of a value is read as the same value |
| `CponInputs.HexBlobReads` | libshvchainpack/c/ccpon.c:1088-1121 | pairs of hexadecimal digits of either case, with blanks in front of them, are read as the blob of their bytes |
| `CponInputs.BlobEscapeReads` | libshvchainpack/c/ccpon.c:1125-1176 | a backslash and two hexadecimal digits of either case are one byte of a blob |
| `CponInputs.ArrayIsList` | libshvchainpack/c/ccpon.c:1273-1372 | arrays are read as lists |
| `CponInputs.EscapesRead` | libshvchainpack/c/ccpon.c:1178-1220 | the letters of escapes in strings stand for zero, the control bytes and themselves |
| `Cpon.SkipInsignificant` | libshvchainpack/c/ccpon.c:737-802 | the skipping loops with block and line comments and a stray slash |
| `CponUnpackers.UnpackNext` | libshvchainpack/c/ccpon.c:1222-1479 | the item reader yields the same item for every chunk buffer length |
| `CponUnpackers.UnpackToken` | libshvchainpack/c/ccpon.c:1252-1392 | the cases of the first significant byte |
| `CponUnpackers.UnpackLiteral` | libshvchainpack/c/ccpon.c:1301-1347 | null, true and false are compared letter by letter |
| `CponUnpackers.UnpackPrefixed` | libshvchainpack/c/ccpon.c:1273-1372 | the byte that must follow a letter; both forms of blobs, read chunk by chunk |
| `CponUnpackers.UnpackNumber` | libshvchainpack/c/ccpon.c:1391-1472 | flags and counters of the number case give the specified item |
| `CponUnpackers.CopyEscaped` | libshvchainpack/c/ccpon.c:597-680 | the escaping loops append the escaped text |
| `CponUnpackers.PackBlob` | libshvchainpack/c/ccpon.c:682-704 | the blob text, with its length cut to 32 bits |
| `CponUnpackers.PackString` | libshvchainpack/c/ccpon.c:706-711 | the quoted text |
| `CponUnpackers.PackDecimal` | libshvchainpack/c/ccpon.c:395-406 | the printed decimal is appended through its buffer |
| `CponUnpackers.PackInt` | libshvchainpack/c/ccpon.c:378-391 | the decimal digits are appended through their buffer |
| `CponUnpackers.PackUInt` | libshvchainpack/c/ccpon.c:361-376 | the digits and the letter u |
| `CponUnpackers.PackScalar` | libshvchainpack/src/cponwriter.cpp:163-180 | the packer chosen for a leaf appends its text |
| `CponUnpackers.PackFieldDelim` | libshvchainpack/c/ccpon.c:1481-1486 | a comma except before the first element, then the place of the next one |
| `CponUnpackers.PackContainerEnd` | libshvchainpack/c/ccpon.c:351-357 | the place of the closing bracket, and the bracket |
| `CponUnpackers.IndentElement` | libshvchainpack/c/ccpon.c:334-349 | a new line and the indent as often as the nesting, one blank in one-liners |
| `Journals.DropSubtree` | libshvcore/include/shv/core/utils/shvpath.h:71-91 | walking from the lower bound to the first key without the prefix drops exactly the path and what lies below it |
| `Journals.ViewStep` | libshvcore/src/utils/abstractshvjournal.cpp:27-40 | the next visible snapshot depends on the visible snapshot alone |
| `Journals.HeldIff` | libshvcore/src/utils/abstractshvjournal.cpp:27-40 | a history leaves under each path exactly the change that was made there last, unless a drop of the path or of what it lies below took it away since |
| `Journals.InSubtreeIff` | libshvcore/include/shv/core/utils/shvpath.h:71-91 | what lies below a path is the path itself, and the path, a slash and anything |
| `Journals.SnapshotRowFrom` | libshvcore/src/utils/shvjournalfilewriter.cpp:94-105 | each snapshot row is a value of the snapshot, with the given time, marked as snapshot value and not as spontaneous |
| `Journals.RowsAreInKeyOrder` | libshvcore/src/utils/shvjournalfilewriter.cpp:94-105 | the rows are in the order of their paths, each path once |
| `Journals.StampSnapshot` | libshvcore/src/utils/shvjournalfilewriter.cpp:94-105 | one row per key, in key order, with the given time |
| `Journals.RowsReplayToSnapshot` | libshvcore/src/utils/shvjournalfilewriter.cpp:94-105 | the rows of a snapshot replay to it, from nothing and from the same state |
| `ShvFileJournals.EveryRun` | libshvcore/src/utils/shvfilejournal.cpp:203-275 | with files told apart by start time, in every run of appends with roll-over and rotation: times never decrease across files, the newest file alone and the whole directory replay to the snapshot in memory, which is the replay of all that was appended |
| `ShvFileJournals.AppendLogs` | libshvcore/src/utils/shvfilejournal.cpp:203-220 | append logs every entry, at the second attempt if need be, keeps all that, and leaves a counted size within the limit or one file |
| `ShvFileJournals.SettledIsGood` | libshvcore/src/utils/shvfilejournal.cpp:210-216 | after a refusal the directory is read again, and the entry gets the time of the empty file |
| `ShvFileJournals.AppendedIsGood` | libshvcore/src/utils/shvfilejournal.cpp:222-258 | appendThrow keeps all that; it throws exactly for a negative time in an empty journal |
| `ShvFileJournals.RotatedIsGood` | libshvcore/src/utils/shvfilejournal.cpp:338-357 | rotation keeps the newest file and ends within the limit or with that file alone |
| `ShvFileJournals.KeptFiles` | libshvcore/src/utils/shvfilejournal.cpp:338-357 | the files kept are the newest ones, with a size below the limit or only one |
| `LoggedRows.RotationDeletesNoMore` | libshvcore/src/utils/shvfilejournal.cpp:338-357 | rotation deletes from the oldest file on, only while the size is not below the limit, and never the newest file |
| `LoggedRows.RowIsLogged` | libshvcore/src/utils/shvfilejournal.cpp:203-258 | append leaves exactly this on disk: the entry at its own time, or the clock's if it has none, but not before the newest row; behind the last rows while their file is within its limit, else in a new file behind the snapshot; less the files that rotation deletes |
| `LoggedRows.EveryRowIsLogged` | libshvcore/src/utils/shvfilejournal.cpp:203-258 | so in every run, an entry with a negative time in an empty journal included |
| `NamedJournals.ShvFileJournal.AppendThrow` | libshvcore/src/utils/shvfilejournal.cpp:222-258 | the object's new state is that of the append specification, or of the throw |
| `NamedJournals.ShvFileJournal.AppendEntry` | libshvcore/src/utils/shvfilejournal.cpp:203-220 | the object's new state is that of append: a second attempt after the directory was read again |
| `NamedJournals.ShvFileJournal.CheckJournalContext` | libshvcore/src/utils/shvfilejournal.cpp:303-321 | the files and their sizes are taken from the directory, start times from the names and the newest time from the text of the last row |
| `NamedJournals.ShvFileJournal.CreateNewLogFile` | libshvcore/src/utils/shvfilejournal.cpp:260-275 | the file with the name of the start time gets the snapshot, and is begun if it is not there |
| `NamedJournals.ShvFileJournal.RotateJournal` | libshvcore/src/utils/shvfilejournal.cpp:338-357 | the deletion loop keeps the specified files, and the directory is read again, start times from the names |
| `NamedJournals.ShvFileJournal.AppendMonotonic` | libshvcore/src/utils/shvjournalfilewriter.cpp:66-81 | the row is appended and its file's size and time are taken over |
| `NamedJournals.NamedRunIsListed` | libshvcore/src/utils/shvfilejournal.cpp:222-275 | in every run, whatever the names: every listed time has a file, every file has rows and is listed under its name |
| `NamedJournals.EveryAppendLogs` | libshvcore/src/utils/shvfilejournal.cpp:203-220 | in every run, whatever the names, append logs every entry and leaves a counted size within the limit, or one file |
| `NamedJournals.AttemptSucceeds` | libshvcore/src/utils/shvfilejournal.cpp:222-258 | appendThrow throws for no positive time, whatever the names, and keeps the list complete |
| `NamedJournals.RotatedIsListed` | libshvcore/src/utils/shvfilejournal.cpp:338-357 | rotation lists the files it keeps by what their names show, and ends within the limit or with one file |
| `FittingNames.RunFits` | libshvcore/src/utils/shvfilejournal.cpp:222-275 | in every run in which no new file takes a name of another one, and names show their times when a rotation reads them, the journal is, under those names, the one that tells files apart by start time |
| `FittingNames.SurvivingTimesFit` | libshvcore/src/utils/shvjournalfilereader.cpp:211-218 | that holds in every run whose clocks and entry times are shown by names as they are |
| `FittingNames.EveryFittingRun` | libshvcore/src/utils/shvfilejournal.cpp:203-275 | in every such run times never decrease across the listed files, and the newest file alone and all listed files replay to the snapshot in memory, which is the replay of all that was appended |
| `NamedRows.EveryNamedRow` | libshvcore/src/utils/shvfilejournal.cpp:203-258 | in every run, whatever the names: each entry gets its own time, the clock's, or that of the entry logged last, as it should, and until the directory is read again its row ends the file begun last |
| `NamedRows.FittingRowIsLogged` | libshvcore/src/utils/shvfilejournal.cpp:203-258 | in every run whose names fit, rotated or not, the newest row on disk decides the time, and the entry is the newest row afterwards |
| `NamedRows.WrittenRowIsDeleted` | libshvcore/src/utils/shvfilejournal.cpp:338-357 | where a name goes back behind that of the file before, rotation deletes the file just written, and the entry is left in memory alone |
| `NamedRows.NamesGoBack` | libshvcore/src/utils/shvjournalfilereader.cpp:211-218 | on the first day of 1970 names go back so within 90 ms |
| `JournalSizes.RealSize` | libshvcore/src/utils/shvfilejournal.cpp:246-258 | in every run the real size is the size counted and that of the snapshot rows written since the directory was read |
| `JournalSizes.UncountedIff` | libshvcore/src/utils/shvfilejournal.cpp:260-275 | in every run there are such rows if and only if, since the last rotation, a file was begun while the entries before it left some value |
| `JournalSizes.CountedIsRealIff` | libshvcore/src/utils/shvfilejournal.cpp:246-275 | the size counted is the real one if and only if no value was rolled over into a new file since the last rotation |
| `JournalSizes.WithinLimit` | libshvcore/src/utils/shvfilejournal.cpp:252-257 | after every append the real size is within the limit, or one file is left, unless a value was rolled over since the last rotation; then it exceeds the limit by no more than the rows carried over |
| `JournalSizes.RotationIsLate` | libshvcore/src/utils/shvfilejournal.cpp:260-275 | two entries and a limit of two rows: three rows in two files are counted as two, and nothing is rotated |
| `JournalTexts.FileIsReadByRows` | libshvcore/src/utils/shvjournalfilereader.cpp:50-145 | the text of a file, split at line ends with zero bytes left out, is read row by row, whatever separators the rows hold |
| `JournalTexts.LineLooks` | libshvcore/src/utils/shvjournalfilewriter.cpp:107-131 | a row is written as its eight columns in this order, with tabs between them and a line end behind them |
| `JournalTexts.RowReadsBackIff` | libshvcore/src/utils/shvjournalfilereader.cpp:76-141 | one row is read as it was written if and only if its path and domain are there and hold no tab, line end or zero byte, and its time and its value survive their texts |
| `JournalTexts.ReadAsWrittenIff` | libshvcore/src/utils/shvjournalfilewriter.cpp:107-130 | the text of a file is read as its rows were written if and only if all of them are such rows |
| `JournalReading.PlainRunsReadBack` | libshvcore/src/utils/shvjournalfilereader.cpp:50-145 | in every run whose names fit, of appends of such entries at times that survive, every row is read as it was written |
| `JournalReading.FaithfulRunsReplay` | libshvcore/src/utils/shvjournalfilereader.cpp:50-145 | in every run of faithful entries whose names fit, the newest file and all listed files, as the file reader reads their text, replay to the snapshot in memory, at whatever times |
| `JournalReading.HarmlessIff` | libshvcore/src/utils/shvjournalfilereader.cpp:76-141 | an entry leaves every run of otherwise faithful entries whose names fit replaying as read, if and only if it is faithful: without separators, what is read of it has the effect it has; with one, it is no change and nothing read in its place is |
| `JournalReading.BrokenPathHarms` | libshvcore/src/utils/shvjournalfilereader.cpp:58-75 | a value change whose path holds a separator or a zero byte is never harmless |
| `JournalReading.ChangedValueIsLost` | libshvcore/src/utils/shvjournalfilereader.cpp:100-108 | a run of two entries, one with a value that its text does not keep: the file read shows another value than the snapshot in memory |
| `JournalValues.CponIsClean` | libshvcore/src/utils/shvjournalfilewriter.cpp:117-118 | CPON text on one line holds no tab, line end or zero byte, for any value tree |
| `JournalValues.SurvivesIff` | libshvcore/src/utils/shvjournalfilereader.cpp:100-108 | a value tree is read from its text as it was written if and only if it holds nothing invalid and no leaf, in the tree or its metadata, is changed by the format |
| `JournalValues.LeafIsKeptIff` | libshvchainpack/c/ccpon.c:361-410 | the leaves that CPON text changes are exactly unsigned numbers from 2^63 on, blobs from 2^32 bytes on, and decimals with a positive exponent written out in full |
| `JournalValues.ChangeIsFaithfulIff` | libshvcore/src/utils/shvjournalfilewriter.cpp:107-130 | with values in CPON, a value change is faithful, and so harmless in every run, if and only if its path is there and clean and no leaf of its value is changed |
| `JournalValues.ChangeReadsBackIff` | libshvcore/src/utils/shvjournalfilewriter.cpp:107-131 | with values in CPON and times in ISO text, a value change is read from its row as it was written if and only if its path is there and clean, its time survives and no leaf of its value is changed |
| `JournalValues.LargeNumberIsLost` | libshvcore/src/utils/shvjournalfilereader.cpp:100-108 | a run with a change to 2^63: the file read shows INT64_MAX in its place |
| `FileJournals.NewestFileIsEnough` | libshvcore/src/utils/shvfilejournal.cpp:260-275 | because each file starts with a snapshot, the whole directory replays to what its newest file replays to |
| `FileJournals.RowsAreOrdered` | libshvcore/src/utils/shvfilejournal.cpp:222-258 | rows of all files together are in time order |
| `GetLogLimits.QueryAnswers` | libshvcore/src/utils/getlog.cpp:164-272 | for time-ordered entries and a period since < until, from the beginning if `since` is no date, the rows are the snapshot and all matching entries with since < t < header until (<= when the source ran out), so no timestamp is split, and they read back through the path dictionary; if no entry stops the query, the source must end in rows that are read with their time |
| `GetLogAnswers.RowsAreExact` | libshvcore/src/utils/getlog.cpp:164-272 | for every such query, with a date as `since` or without: the rows are exactly the snapshot and the log that the limit allows, less its newest timestamp where that may not be complete; the limit flag goes with that log, and `until` is the time of the first entry left out, or of the last one there is |
| `GetLogAnswers.HeaderIsRight` | libshvcore/src/utils/getlog.cpp:258-270 | the header's `since` is that of the query if there is data up to it, else the time of the first row; without rows it is what was asked |
| `GetLogAnswers.LastRowAnswers` | libshvcore/src/utils/getlog.cpp:203-212 | last without a snapshot: the last matching entry before until, or nothing, with its time in the header |
| `GetLogAnswers.LastSnapshotAnswers` | libshvcore/src/utils/getlog.cpp:174-182 | last with a snapshot: the rows of the state left by the matching entries before until and the first one behind them, at the time of the newest value |
| `GetLogAnswers.LastReplays` | libshvcore/src/utils/getlog.cpp:174-182 | a client that replays them reaches that state, as far as rows can tell it |
| `GetLogAnswers.BackwardAnswers` | libshvcore/src/utils/getlog.cpp:164-212 | until not after since: the state before until and of the first entry behind it if that is not after since, or nothing without a snapshot, and the header that goes with it |
| `GetLogAnswers.PathsAreAsAsked` | libshvcore/src/utils/getlog.cpp:219-236 | paths are numbers if a dictionary was asked for, and else spelled out without one; the domain of a value change is not sent |
| `GetLogPaths.QueryAnswersIff` | libshvcore/src/utils/getlog.cpp:241-272 | from 1970 on that condition is exact: a query is answered so at every time of day if and only if a matching entry at until or later or a new timestamp beyond the limit stops it, or the newest timestamp of the source, or its snapshot, has no row without a path that the header is made from |
| `GetLogLimits.LimitIsExact` | libshvcore/src/utils/getlog.cpp:184-194 | the log is the window up to the first row that begins a new timestamp and, with the snapshot, would exceed the caller's limit; the limit flag is set exactly if that row or another one beyond the limit was met |
| `GetLogLimits.StopsEarlyIff` | libshvcore/src/utils/getlog.cpp:164-200 | a dated scan stops before the source ends if and only if a matching entry is not before until, or a row of the window begins a new timestamp and would exceed the limit |
| `GetLogLimits.LimitDecides` | libshvcore/src/utils/getlog.cpp:184-194 | only one log and one flag satisfy this |
| `GetLogLimits.BeyondLimit` | libshvcore/src/utils/getlog.cpp:184-194 | rows beyond the limit all have the timestamp of the row before them |
| `GetLogLimits.HeaderLimitIsKeptIff` | libshvcore/src/utils/getlog.cpp:143-148 | the limit that the header names is the one that every scan obeys if and only if it is the caller's: not above 10000, or INT_MAX when limits are ignored |
| `GetLogTheorems.ScanIsRight` | libshvcore/src/utils/getlog.cpp:164-200 | what the scanning loops have collected at any point, stopped by until, by the limit, or not at all |
| `GetLogTheorems.SnapshotPlusLogReplays` | libshvcore/src/utils/getlog.cpp:55-80 | snapshot rows plus log rows replay to the same state as the whole matching history up to the cut |
| `GetLogHonesty.QueryReplays` | libshvcore/src/utils/getlog.cpp:164-272 | a client that replays what it reads reaches the state of the history up to since, continued by the window up to the header's until as rows can tell it |
| `GetLogHonesty.DomainIsSafeIff` | libshvcore/src/utils/shvjournalentry.cpp:125-153 | a domain never misleads a client that replays the rows of a query for a period with a snapshot, over any history of entries with paths, if and only if it is neither empty nor C |
| `GetLogHonesty.CodedEntryIsTakenOver` | libshvcore/src/utils/shvjournalentry.cpp:146-148 | one entry with the domain C: the journal keeps no value for it, the client does |
| `GetLogPaths.PathlessRowMisleads` | libshvcore/src/utils/getlog.cpp:250-270 | an entry without a path at the end of a list of entries: the header's until is 0 |
| `GetLogHonesty.HonestIff` | libshvcore/src/utils/getlog.cpp:237-272 | the header claims no rows that are missing, except exactly when until is a date, no snapshot is sent, and either the limit stops the query before its first row or every row is taken back as too recent |
| `GetLogHonesty.LostRow` | libshvcore/src/utils/getlog.cpp:250-262 | one entry half a second old: an empty result that claims to cover everything until 10000 |
| `GetLogLoops.ImplGetLog` | libshvcore/src/utils/getlog.cpp:122-289 | the nested reader loops, snapshot rows, dictionary and header compute the specified result; the value taken for until is always there |
| `GetLogLoops.Query.Take` | libshvcore/src/utils/getlog.cpp:168-199 | one turn of the inner loop |
| `GetLogs.MadeRows` | libshvcore/src/utils/getlog.cpp:20-31 | paths are numbered in the order met, and no later row changes the number of a path |
| `GetLogs.RowsAreReadable` | libshvcore/src/utils/getlog.cpp:219-236 | every index in a row is in the dictionary that is sent and stands for the path of its entry |
| `GetLogTheorems.RowExpands` | libshvcore/src/utils/shvjournalentry.cpp:125-153 | a row sent and read back is the entry it was made from |
| `FileSelection.NewestMatchingFile` | libshvcore/src/utils/getlog.cpp:304-335 | the index chosen: the first file, the last one for last, else the newest that starts no later than since |
| `FileChoices.ChosenFileAgreesIff` | libshvcore/src/utils/getlog.cpp:304-335 | unfiltered, reading from a file that starts no later than since and before until gives the rows, dictionary, until and limit flag of reading every file, if and only if not: the limit is below one, rows were skipped, and the first row read lies between since and until |
| `SafeQueries.DatedQueryAgreesIff` | libshvcore/src/utils/getlog.cpp:318-334 | the same for every query with since < until and the file chosen for it |
| `SafeQueries.BackwardQueryAgreesIff` | libshvcore/src/utils/getlog.cpp:164-200 | for until <= since: nothing is sent without a snapshot; with one the answers agree if and only if the chosen file starts before until, or its first row alone shows what the journal shows at until, at the time of the row that stops the scan there |
| `SafeQueries.NewestFileAnswersLastIff` | libshvcore/src/utils/getlog.cpp:310-315 | for last the newest file gives the result of reading every file if and only if its first row is before until, or that row alone shows what the journal shows at until at the same newest time (with a snapshot), or no row is before until (without) |
| `SafeQueries.QueryOnJournal` | libshvcore/src/utils/shvfilejournal.cpp:594-608 | a safe query agrees when empty files are left out first |
| `FileLists.ReadsEveryRowOnceIff` | libshvcore/src/utils/shvfilejournal.cpp:594-608 | a list that names the files on disk misses no row, and reads each once if and only if no file with rows is named twice |
| `FileLists.RunReadsOnceIff` | libshvcore/src/utils/shvfilejournal.cpp:589-608 | in every run, the files listed in memory miss no row, and read each once if and only if no file was begun under the name of one that was there since the last rotation |
| `RunQueries.RunBegins` | libshvcore/src/utils/shvfilejournal.cpp:222-275 | in every run of files told apart by start time, every file has rows, and the first one has the time at which the file starts |
| `RunQueries.QueryOverEveryRun` | libshvcore/src/utils/shvfilejournal.cpp:589-608 | in every run whose names fit and are listed once, queries with since < until whatever their limit, those without a snapshot, without since, and last without a date as until, over the files listed in memory from the chosen one on, each opened under its name, answer like over every row |
| `RunQueries.QueryIsSafeIff` | libshvcore/src/utils/getlog.cpp:304-335 | over all such runs these are exactly the queries that are answered from the chosen file on as from every file |
| `RunQueries.TwoKeysMislead` | libshvcore/src/utils/getlog.cpp:174-182 | a run of three changes with until at the start of the newest file: last, and until <= since with a snapshot, show one key of two |
| `RunQueries.OldUntilHidesLast` | libshvcore/src/utils/getlog.cpp:310-315 | a run with changes at 10 and 30: last until 25 gives one row from every file, none from the newest |
| `RunQueries.LimitMisleads` | libshvcore/src/utils/shvfilejournal.cpp:260-275 | an event, an explicit createNewLogFile and a change: a limit below one gives nothing from every file and a row from the chosen one |
| `RunQueries.NewFileKeepsOrderIff` | libshvcore/src/utils/shvfilejournal.cpp:260-275 | an explicit createNewLogFile leaves the rows in time order if and only if the snapshot is empty or the clock is not behind the newest row |
| `FileLists.NamedOnceIff` | libshvcore/src/utils/shvfilejournal.cpp:260-275 | in every run no two listed times have one name if and only if no file was begun under a name that was taken since the last rotation |
| `FileLists.AttemptedListIff` | libshvcore/src/utils/shvfilejournal.cpp:222-275 | one append leaves names listed once if and only if it rotates, or found them so and did not take a name again |
| `FileLists.ReadTwice` | libshvcore/src/utils/shvfilejournal.cpp:260-275 | a small file limit and two entries of one millisecond, or at 1000 and 1090 of 1970: one file listed twice, its rows read twice |
| `FileLists.OneNameReadsTwice` | libshvcore/src/utils/shvfilejournal.cpp:260-275 | the same for any two entries whose times have one name |
| `FileLists.StaleRowReplays` | libshvcore/src/utils/shvfilejournal.cpp:260-275 | a change, its drop under another name, and a change under the first name again: the newest file replays the value that was dropped |
| `FileLists.NamesComeBack` | libshvcore/src/utils/shvjournalfilereader.cpp:211-218 | on the first day of 1970 names come back so within 90 ms, such as those of 1, 50 and 91 |
| `Brokers.PopUndoesPush` | libshvchainpack/src/rpcmessage.cpp:424-466 | pop returns the id pushed last and leaves the ids that were there |
| `Brokers.PopTakesLast` | libshvchainpack/src/rpcmessage.cpp:444-490 | pop and peek see the newest id; what is popped is taken off |
| `Brokers.MismatchIff` | libshvbroker/src/brokerapp.cpp:1122-1151 | the branch reported as impossible is reached exactly by a tunnel search at its last broker that registers no reverse ids |
| `Brokers.BrokerApp.OnRpcFrameReceived` | libshvbroker/src/brokerapp.cpp:1014-1174 | the sent frames and those handed to the node tree grow by exactly what is owed to the frame: the same request with its connection, one refusal, one response passed on, one answer to a search, or nothing |
| `Brokers.BrokerApp.OnRootNodeSendRpcMessage` | libshvbroker/src/brokerapp.cpp:1215-1227 | one frame is sent to the connection of the newest caller id, with the same id and the other caller ids, or none |
| `Brokers.ReceiveHandles` | libshvbroker/src/brokerapp.cpp:1014-1174 | for every frame: a granted request is handed on once with its id and its connection behind its caller ids; a refused one is answered once with its id and caller ids; a response goes to its newest caller id without it; a search at its last broker is answered by the ids it registered; nothing else is sent |
| `Brokers.ReplyHandles` | libshvbroker/src/brokerapp.cpp:1215-1227 | a response of a local node goes to its newest caller id without it, and nowhere if that is not open |
| `BrokerTheorems.MismatchIsReachable` | libshvbroker/src/brokerapp.cpp:1140-1151 | a leaf that sends an answer to a search it never got, without reverse ids, takes its broker into that branch |
| `BrokerTheorems.StepKeeps` | libshvbroker/src/brokerapp.cpp:1014-1174 | every step of the network - connections opening, closing and reconnecting, frames sent, forged, received, lost - keeps the routing invariant |
| `BrokerTheorems.ResponsesRetrace` | libshvbroker/src/brokerapp.cpp:1122-1168 | in every run, a response whose responder copied the caller ids is passed only to the connection its request came in on, or dropped if that is gone |
| `BrokerTheorems.ResponsesArrive` | libshvchainpack/src/rpcmessage.cpp:898-908 | in every run, such a response reaches only the leaf that asked, with the ids the request started with |
| `BrokerTheorems.SearchesNeverMismatch` | libshvbroker/src/brokerapp.cpp:1140-1158 | in every run, frames that register reverse ids never reach the mismatch branch, and the answer goes back to whom the search came from |
| `BrokerTheorems.IdsAreNeverReused` | libshvchainpack/src/irpcconnection.cpp:58-62 | a connection id names the same connection for the rest of the run |
| `BrokerDelivery.GrantedIsHandedOn` | libshvbroker/src/brokerapp.cpp:1100-1105 | in every run, a granted request leaves exactly one frame in the node tree of its broker, with its id and the stack of the connections it came over |
| `BrokerDelivery.RefusalIsSent` | libshvbroker/src/brokerapp.cpp:1110-1119 | in every run, a request that is not granted leaves exactly one response on its way back over its connection |
| `BrokerDelivery.ForwardedReaches` | libshvbroker/src/brokerapp.cpp:1014-1105 | in every run, a request forwarded from the node tree reaches the other side of the connection as it is |
| `BrokerDelivery.AnswerCanComeHome` | libshvbroker/src/brokerapp.cpp:1122-1168 | in every run, while the connections a leaf's request came over are up, there are steps that bring a response with its id to the leaf that asked, with the caller ids it asked with |
| `RoleTheorems.FlattenIsBreadthFirst` | libshvbroker/src/aclmanager.cpp:246-269 | on every finite role graph, cycles included, each reachable role is listed once, nothing else is, and the roles within any distance of the seeds form a prefix of the list |
| `RoleTheorems.NearerFirst` | libshvbroker/src/aclmanager.cpp:246-269 | distance from the seeds never decreases along the list |
| `RoleTheorems.ReachesIff` | libshvbroker/src/aclmanager.cpp:246-269 | reachable are the seeds and the sub-roles of what is reachable |
| `RoleTheorems.ListedInOrder` | libshvbroker/src/aclmanager.cpp:246-269 | the list is that of the seeds and then of the sub-roles of its own roles in turn, each role at its first place |
| `Acls.Flattened` | libshvbroker/src/aclmanager.cpp:246-266 | the queue loop terminates and computes the list |
| `Acls.AnswerIsFirstAsked` | libshvbroker/src/aclmanager.cpp:246-286 | after any run of setUser, setRole and lookups by user, role, LDAP and Azure user, a lookup is answered with what the oldest lookup under its key since the last change would compute now |
| `Acls.CacheIsInvisible` | libshvbroker/src/aclmanager.cpp:83-116 | a lookup answers like a fresh computation on the current store, if no other lookup of the run used its key |
| `Acls.UserIsGivenRoles` | libshvbroker/src/aclmanager.cpp:246-296 | after any run, a user whose name is not reserved is given exactly the roles that can be reached from those set for it last, each once, nearer ones first and in order |
| `Acls.LookupIsGivenRoles` | libshvbroker/src/aclmanager.cpp:271-286 | so are a role from itself, and a directory user from the roles it brings, if no other lookup used the key |
| `Acls.StoreIsAsSet` | libshvbroker/src/aclmanager.cpp:83-116 | after any run, the store holds for each user and each role what was set last, and the rules it had |
| `Acls.KeysAreApart` | libshvbroker/src/aclmanager.cpp:271-286 | lookups share a key only if they are of one kind and ask for one name, or one asks for a user name with one of the three prefixes |
| `Acls.ReservedNameCollides` | libshvbroker/src/aclmanager.cpp:271-286 | a user whose name is the key of another lookup is answered with that lookup's list once it was made |
| `Acls.ReservedNameGainsRole` | libshvbroker/src/aclmanager.cpp:271-286 | such a user, unknown to the store, is given the roles of a role, an LDAP user or an Azure user |
| `Acls.AzureNameGainsRoles` | libshvbroker/src/currentclientshvnode.cpp:70-84 | alice asks for her roles, and the user named _Azure#Key:alice is given them |
| `Acls.DirectoryKeepsFirstRoles` | libshvbroker/src/currentclientshvnode.cpp:75-84 | an Azure user, looked up with the roles of its groups for a grant, is answered with them when asked with those of the store, which has none |
| `Acls.NameIsSafeIff` | libshvbroker/src/aclmanager.cpp:246-286 | a user name is answered freshly after every run on every store if and only if it starts with none of the three key prefixes |
| `Acls.AclManager.GetUser` | libshvbroker/src/aclmanager.cpp:70-81 | the lazily filled user cache always returns the store's definition |
| `Acls.AclManager.SetUser` | libshvbroker/src/aclmanager.cpp:83-88 | the user is set and no other, and both caches are emptied |
| `Acls.AclManager.SetRole` | libshvbroker/src/aclmanager.cpp:111-116 | the role is set or taken away and no other, and the list cache is emptied |
| `Acls.AclManager.UserFlattenRoles` | libshvbroker/src/aclmanager.cpp:246-269 | the cached list, or else all roles reached from the given ones, each once, nearer ones first and in order |
| `Acls.AclManager.RolesOfUser` | libshvbroker/src/aclmanager.cpp:288-296 | a lookup answers as the step function says and leaves its state; a list that is not cached is that of the roles reached from those of the user in the store |
| `Acls.AclManager.FlattenRole` | libshvbroker/src/aclmanager.cpp:271-274 | a lookup by role shares the list cache, under the prefixed key |
| `Acls.AclManager.LdapUserFlattenRoles` | libshvbroker/src/aclmanager.cpp:277-280 | a lookup from given roles under the LDAP key of a user |
| `Acls.AclManager.AzureUserFlattenRoles` | libshvbroker/src/aclmanager.cpp:283-286 | a lookup from given roles under the Azure key of a user |
| `Acls.AclManager.AccessRoleRules` | libshvbroker/src/aclmanager.cpp:127-140 | the lazily filled rule cache returns the store's rules |
| `Acls.AclManager.FirstGrant` | libshvbroker/src/aclmanager.cpp:412-432 | the grant is that of a rule that matches while no rule of an earlier role and no earlier rule of its own role does, and none is given exactly if none matches |
| `Crypts.CodeRoundTrip` | libshvcore/src/utils/crypt.cpp:40-58 | the byte code is prefix-free: what is written for a byte is taken back as that byte |
| `Crypts.DecodeUndoesEncode` | libshvcore/src/utils/crypt.cpp:110-130 | the keystream cancels for every generator and seed |
| `Crypts.EncodedByte` | libshvcore/src/utils/crypt.cpp:60-92 | each bit of byte i of the code is that of byte i of the data, turned over where the generator's number i + 1 has a one in its lowest byte |
| `Crypts.GeneratorInClosedForm` | libshvcore/src/utils/crypt.cpp:22-32 | the numbers of the linear generator in closed form, for any parameters |
| `Crypts.SpaceIsIgnoredIff` | libshvcore/src/utils/crypt.cpp:135-139 | blanks, tabs and line breaks are left out wherever they are, and no other bytes |
| `Crypts.DecryptUndoesEncrypt` | libshvcore/src/utils/crypt.cpp:132-147 | with any padding behind a NUL and white space anywhere, decryption gives the data up to its first NUL |
| `Crypts.Encrypt` | libshvcore/src/utils/crypt.cpp:60-92 | the code is at least as long as asked for and decrypts to the data up to its first NUL |
| `Crypts.CodeIsItsOwnSpacing` | libshvcore/src/utils/crypt.cpp:40-58 | the alphabet holds no white space, so removing white space never harms a code |
| `Crypts.DecodeAll` | libshvcore/src/utils/crypt.cpp:110-130 | the decoding loop |

## Left out

- Floating point: doubles are eight opaque bytes in ChainPack and not part of CPON text; map keys given as doubles go
  through a parameter `floatKey`; the double fallback of the decimal comparison and `toDouble` are not modelled.
- INT64_MIN in integers and decimal mantissas, and INT_MIN as exponent in text: the code negates them.
- Date-times in CPON text: the reader takes them through a parameter `dateText`, the writer does not write them.
- ChainPackTheorems.ChainPackRoundTrip: date-times are those that `RpcDateTime` can hold, with offsets in whole
  quarter hours; what becomes of other offsets is stated by `DateTimeCode.PackRoundTrip`.
- Decimals.CompareIsExact: says nothing where the code falls back to floating point; there, unequal numbers may
  compare as equal.
- Calendar.TimeGmInvertsGmTimeIff: integers are unbounded; `Calendar.DayCountsFitInt32` gives the years in which the
  32-bit day counts cannot overflow.
- JSON output and translation of metadata ids to names.
- Overflow of signed arithmetic in C where it is undefined.
- `ccpcp_convert`, socket drivers and frame headers.
- Journal rows: the time-of-entry, short-time and user-id columns, which are empty here. The text of flags is a
  parameter that is read as it was written. Theorems about queries over a journal speak of its rows as written;
  `JournalReading.PlainRunsReadBack` says when they are read like that. Doubles and dates in values are not part of the
  CPON text here.
- Text of times: reading of text that no time is printed as, such as months beyond 12.
- TimeTexts.NameReads: start times are positive and before the year 10000, from which on the separators in a name take
  the places of digits; theorems about runs take the names of later times to be like those before.
- JournalSizes.RealSize: like the other theorems about `Run`, for files told apart by start time;
  `FittingNames.RunFits` says when a journal is such.
- FittingNames.RunFits: one direction; names that do not fit can still leave the journal as it should be.
- File system behaviour: I/O failures, directory scanning order; the write position of a file opened for appending is
  its size. Clocks are parameters and positive. Runs are made of appends; explicit calls of `createNewLogFile` are
  covered by `RunQueries.LimitMisleads` and `RunQueries.NewFileKeepsOrderIff` alone.
- GetLogLimits.QueryAnswers: `since` is before `until`; the other queries are those of
  `GetLogAnswers.LastSnapshotAnswers`, `GetLogAnswers.LastRowAnswers` and `GetLogAnswers.BackwardAnswers`. The
  condition on rows without a path is shown to be exact for `since` from 1970 on. The pattern matcher is an abstract
  predicate, and the record count limit is the caller's own, which is the one that is kept.
- GetLogHonesty.HonestIff: under the condition of `GetLogLimits.QueryAnswers`, without which the header's time is
  that of no row.
- SafeQueries.DatedQueryAgreesIff: the header's `since` is not compared, because it depends on whether older data was
  seen. Queries with a path or domain filter are left out: a filter can hide the snapshot rows of a file.
- RunQueries.QueryIsSafeIff: dates are later than the first millisecond of 1970 and row times below the largest
  64-bit number; runs have names that fit and list each file once, as `FittingNames.SurvivingTimesFit` and
  `FileLists.RunReadsOnceIff` say when; the theorems for one journal do without.
- Signals, subscriptions, exported-path mapping, mount points and the routing decision of the broker's node tree,
  which is any choice here; granting access is a parameter.
- ACL: special paths of the broker itself, where the groups of LDAP and Azure users come from, mounts, passwords; rule
  patterns are an abstract predicate.
- Crypts.Encrypt: the generator, the salt and the random padding are parameters.
