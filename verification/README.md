# Socket::Class: readers, registries and the bundled CA tools

A Dafny model of the parts of Socket::Class in which most can go wrong, and proofs about them.

**Streams.** `Transport` says what a kernel socket and an SSL connection may answer, and what a stream
that can be peeked is. `Socket` has the receive buffer by which the SSL variant imitates `MSG_PEEK`, and
refines that stream. `LineBuffer`, `LineReader` and `PacketReader` are the loops of `readline` and
`read_packet`; `LineRules`, `Matcher` and `PacketRules` say what their results mean; `Session` is about
whole runs. The plain and the SSL copy of the readers are one model, since they differ in the receive
call only (and in a NUL that the SSL copy does not write when it would block).

**Handles and contexts.** `Registry` is the table of 32 bucket lists with its links; `SslContexts` adds
the sharing of SSL contexts by reference counts.

**The CA tools.** `SubjectName` (the subject parser), `Tokenizer` (the command line splitter),
`IndexRotation` (the renames of the database files), `Policy` (the policy section), `Times`, `Revocation`
and `Expiry` (dates and revocation records), `Serial`, `DatabaseRules`, `DatabaseRuns` and `CaDatabase`
(the database).

**Texts.** `Numbers`, `Bluetooth`, `Rendering` and `PrintfEstimate`.

In most files a module of rules, with the meaning and the proofs, comes before the module with the loops
as the source has them. Run `dafny verify dfyconfig.toml` to check everything.

Where the code does not do what it is for, the model follows the code, proves exactly when it does, and
shows inputs for which it does not:

- `readline` guards the test for the second character of a CR/LF pair by `i < r`, which always holds
  there, so that at the end of a chunk it tests a character that was not peeked (`LineRules.PairRule`). It
  can swallow a letter (`LineReader.LostLetterExample`). Where the buffer ends there too, it looks behind it
  (`LineRules.LooksBehindIff`), and can read a character into the memory there (`LineRules.OverrunIff`,
  `LineReader.OverrunExample`).
- `read_packet` does not look again at a byte that ended a partial match (`Matcher.FindsFirstIff`, and
  `Matcher.MissedStream` for a stream per separator).
- `starttls` gives its own context back before it counts the one that was named
  (`SslContexts.World.Starttls`, `SslContexts.StarttlsExample`).
- `chopup_args` runs past the line after a quote that is not closed (`Tokenizer.Args.Chopup`,
  `TokenRules.UnclosedExample`).
- The undo of `rotate_index` can install a stale backup, and is missing when the second `stat` fails
  (`RotationRules.RestoresIff`, `RotationRules.RestoresAlwaysIff`, `RotationRules.StaleBackupExample`,
  `RotationRules.SecondStatExample`).
- Dates outside 1950 to 2049 are written as GeneralizedTime and refused when they are read
  (`RevocationRules.ClockRoundTrip` and `DatabaseRules.OwnDatabaseLoads`; every clock of such a year is an
  input).
- Expiry marking knows the year by two digits only: from 2050 on it misses certificates that are past
  (`DatabaseRules.AgingExact`, `DatabaseRules.AgingExample`).
- In `do_body` the first search for a clash of names is made with a name that is not set yet. It finds
  nothing, so that the clash is left to the insertion, but it compares a name with null as soon as one in
  the index has the hash of the empty name (`CaDatabase.Database.Issue`, `DatabaseRuns.HashedSafe`,
  `CaDatabase.Database.EmptyNameExample`).
- `my_itoa` is wrong for the minimum of a long and, in base 16, for negative numbers
  (`NumberRules.ItoaParsesBack`); its scratch array is too small for bases below 9
  (`NumberRules.ScratchSuffices`), of which no caller makes use.
- The guards of `to_string` presume small descriptors and numbers (`SocketText.SafeIffSmall`,
  `SocketText.OverflowAt16`, `Rendering.OverflowExample`).
- The size estimate of `vprintf` ignores widths, the length of `%f`, `%hd` and capital conversions
  (`PrintfRules.EstimateExact`, `PrintfRules.RepeatExact`, `PrintfRules.WidthExample`,
  `PrintfRules.RealExample`, `PrintfRules.ShortExample`, `PrintfRules.CapitalExample`), and its scan runs
  past a format that ends in an open `l` (`PrintfRules.RunsPastIff`, `PrintfRules.RunsPastExample`).

## Model

| member | source | states |
|---|---|---|
| `SocketModel.Socket.SslRecv` | xs/sc_ssl/sc_ssl_mod_def.c:257-322 | the receive over SSL meets the contract of a peekable stream whose content is what `rcvbuf` holds and then the unread plaintext: a peek returns a prefix and leaves the stream, a read removes exactly what it returns, an error loses nothing, and bytes that were peeked are read back from `rcvbuf` alone |
| `SocketModel.Socket.Append` | xs/sc_ssl/sc_ssl_mod_def.c:283-319 | a peek beyond `rcvbuf` grows it and appends what the connection gives, without losing what it held |
| `SocketModel.Socket.Discard` | xs/sc_ssl/sc_ssl_mod_def.c:271-276 | a read from `rcvbuf` drops its first bytes and moves the rest down |
| `SocketModel.Socket.Recv` | sc_mod_def.c:601-657 | the plain and the SSL receive meet the same stream contract, and where they fail they report what the connection answered |
| `Transport.PeekThenRead` | xs/sc_ssl/sc_ssl_mod_def.c:257-322 | after a peek of n bytes a read of k <= n cannot fail and returns the first k of them |
| `LineBuffer.PeekChunk` | sc_mod_def.c:902-907 | the line buffer takes a whole step at its write position before the peek, and holds what was peeked |
| `LineBuffer.Consume` | sc_mod_def.c:954-958 | the read after a peek removes at least what was peeked, and all it asks for if that is there, and stores it inside the buffer; the second character of a pair is the one that may find no room |
| `LineReader.ScanLine` | sc_mod_def.c:932-935 | the scan stops at the first CR, LF or NUL of the chunk |
| `LineReader.TakeLine` | sc_mod_def.c:940-955 | at a terminator exactly the line and the swallowed characters leave the stream |
| `LineReader.ReadChunk` | sc_mod_def.c:901-966 | one turn of the loop, for any cut of the peeks |
| `LineReader.ReadChunks` | sc_mod_def.c:901-966 | the loop consumes full chunks in order and loses nothing |
| `LineReader.Readline` | sc_mod_def.c:896-977 | the line is a prefix of the stream free of CR, LF and NUL, line and terminator are what was removed and what the buffer starts with, a failure removes nothing and comes exactly where the connection ends or breaks before the first character; the size of the buffer follows from the length of the line, and what is read fits exactly if it is no longer than that; the pair test looks behind the buffer exactly at a CR or LF that ends chunk and buffer; where the calls get the data there is, line, swallowed characters and overrun follow from stream and buffer before the call |
| `LineRules.CompletedLine` | sc_mod_def.c:932-957 | wherever the peeks were cut, a completed line is the longest prefix without CR, LF and NUL, and ends before one of them |
| `LineRules.PairRule` | sc_mod_def.c:943-954 | where the calls get the data there is, a complementary CR/LF pair is swallowed exactly if there is one, except at the end of a chunk with more behind it, if what the buffer (or the memory behind it) holds there and what the stream holds differ in whether they complete the pair |
| `LineRules.OverrunIff` | sc_mod_def.c:901-955 | the characters read leave the line buffer exactly if a CR or LF ends a chunk and the buffer with more behind it, and the memory after the buffer holds the other half of a pair |
| `LineRules.LooksBehindIff` | sc_mod_def.c:945-948 | the character tested behind the terminator is outside the line buffer exactly if the terminator is a CR or LF that ends a chunk and the buffer |
| `LineRules.LossRule` | sc_mod_def.c:943-954 | for calls that cut the data anyhow, exactly when a result may have swallowed a character of the next line |
| `LineReader.LostLetterExample` | sc_mod_def.c:896-977 | two calls on one socket, of which the second one swallows a letter, since the line feed behind the first line is still in the buffer |
| `LineReader.OverrunExample` | sc_mod_def.c:943-955 | a call that reads a letter into the memory behind the line buffer |
| `LineRules.AsIntended` | sc_mod_def.c:943-954 | whenever the tested character does not mislead, the second one is taken only if it was peeked and completes a pair |
| `Matcher.Scanned` | sc_mod_def.c:1037-1053 | the matcher invariant: the last m scanned bytes are the first m of the separator |
| `Matcher.Sound` | sc_mod_def.c:1037-1053 | where the matcher stops the separator stands, for every separator and stream |
| `Matcher.RepeatedFound` | sc_mod_def.c:1037-1053 | a separator of one repeated byte is found at its first occurrence |
| `Matcher.FindsFirstIff` | sc_mod_def.c:1037-1053 | the first occurrence is found in every stream if and only if the separator is one repeated byte |
| `Matcher.MissedStream` | sc_mod_def.c:1037-1053 | for every other separator, a stream in which the first occurrence is missed |
| `Matcher.FrameCompletes` | sc_mod_def.c:1037-1053 | after a payload without the first byte of the separator, the separator is recognised at its last byte |
| `PacketReader.ScanPacket` | sc_mod_def.c:1025-1054 | the scanning loop agrees with the matcher and stops at the separator or at the limit |
| `PacketReader.ReadChunk` | sc_mod_def.c:995-1063 | one turn of the loop, the separator possibly straddling the chunks |
| `PacketReader.ReadPacket` | sc_mod_def.c:979-1075 | payload and separator are exactly what was removed; a non-zero maximum is never exceeded, and is what is returned where the separator is not found before it; with the data at hand nothing less than all of it is; it fails exactly for an empty separator and where the connection ends or breaks before the first character, and removes nothing then |
| `PacketRules.FoundOnce` | sc_mod_def.c:1037-1053 | the packet does not depend on how the peeks were cut |
| `PacketRules.EarliestFound` | sc_mod_def.c:1037-1053 | with a separator of one repeated byte no occurrence is skipped |
| `PacketRules.Framed` | sc_mod_def.c:994-1068 | a framed payload within the limit is what is reported |
| `Session.Run` | sc_mod_def.c:896-1075 | conservation over any sequence of calls: what they returned and swallowed, in order, followed by what is left, is the stream |
| `Session.Perform` | sc_mod_def.c:896-1075 | a reading call fails exactly if the connection does, or for an empty separator, and otherwise gets something of what is at hand |
| `Session.ReadFrames` | sc_mod_def.c:979-1075 | payloads written with the separator between them come back in order |
| `Registry.Table.Add` | socket_class.c:5-21 | registration at the head of a bucket keeps the lists well formed and adds the next identifier |
| `Registry.Table.Register` | xs/sc_ssl/sc_ssl_mod_def.c:864-871 | the new entry is the first of its bucket list, and every list is otherwise as before |
| `Registry.Table.Rem` | xs/sc_ssl/sc_ssl_mod_def.c:1371-1399 | unlinking removes its target and nothing else |
| `Registry.Table.Unregister` | socket_class.c:38-59 | every bucket list is as before without the target, the others in their order |
| `Registry.Table.Find` | socket_class.c:79-96 | the entry with the identifier is found, or null is returned if there is none |
| `Registry.Table.BucketList` | socket_class.c:5-21 | each bucket list is finite and holds exactly the live entries of its slot, the latest first |
| `Registry.Table.OnePredecessor` | socket_class.c:46-56 | only one link points to an entry |
| `Registry.SameList` | socket_class.c:5-21 | a bucket list is determined by its members |
| `Registry.LatestRemoved` | socket_class.c:46-56 | skipping an entry leaves every other link pointing to its predecessor |
| `Registry.Run` | socket_class.c:5-96 | over any run of create, release and lookup the registry answers like a set of identifiers, while the counter is below the limit of int |
| `SslContexts.World.CtxCreate` | xs/sc_ssl/sc_ssl_mod_def.c:852-879 | a new context is registered with the count 1 for the handle of its creator |
| `SslContexts.World.CtxDestroy` | xs/sc_ssl/sc_ssl_mod_def.c:881-893 | a context is unlinked exactly when the reference given back was the last |
| `SslContexts.World.Create` | xs/sc_ssl/sc_ssl_mod_def.c:117-146 | the record takes the new context or the named one; a failure afterwards restores every count |
| `SslContexts.World.Accept` | xs/sc_ssl/sc_ssl_mod_def.c:225-248 | the connection shares the context of its listener and counts itself; a failed handshake gives the count back |
| `SslContexts.World.FreeUserdata` | xs/sc_ssl/sc_ssl_mod_def.c:1401-1416 | the reference goes with the record |
| `SslContexts.World.Swap` | xs/sc_ssl/sc_ssl_mod_def.c:804-807 | the swap of contexts is sound exactly if the record does not hold the last reference to the context that is named |
| `SslContexts.World.Starttls` | xs/sc_ssl/sc_ssl_mod_def.c:787-836 | a socket without a record gets a context of its own unless one is named, one reference moves to the context that is named, and no other count changes; counts stay right in every case but one, which is named exactly |
| `SslContexts.StarttlsExample` | xs/sc_ssl/sc_ssl_mod_def.c:804-807 | a context object that is given back while a socket uses it, and named again by that socket |
| `SslContexts.World.HandleSuffices` | xs/sc_ssl/sc_ssl_mod_def.c:804-807 | a caller that holds a handle on the named context is never in that case |
| `SslContexts.World.Run` | xs/sc_ssl/sc_ssl_mod_def.c:117-893 | in every state that operations in any order lead to, each count is the number of records and handles, contexts are registered exactly while somebody refers to them, every one has a holder, and no record points at one that is gone |
| `SubjectRules.RoundTrip` | xs/sc_ssl/openssl/source/apps/apps.c:2033-2124 | the parser undoes the printer exactly for lists whose last value is not empty, whose first element carries no flag and, where multi-valued names are off, that carry none |
| `SubjectRules.FieldOfEscaped` | xs/sc_ssl/openssl/source/apps/apps.c:2066-2121 | a field undoes the escapes |
| `SubjectRules.ParsedFlags` | xs/sc_ssl/openssl/source/apps/apps.c:2105-2118 | what flags a parsed list can have |
| `SubjectName.CopyKind` | xs/sc_ssl/openssl/source/apps/apps.c:2066-2086 | the loop over a type, its writes inside the copy buffer |
| `SubjectName.CopyValue` | xs/sc_ssl/openssl/source/apps/apps.c:2093-2122 | the loop over a value, its writes inside the copy buffer and the flag array |
| `SubjectName.CopyElement` | xs/sc_ssl/openssl/source/apps/apps.c:2062-2124 | one element; the slots used stay below their bound for every input |
| `SubjectName.Collect` | xs/sc_ssl/openssl/source/apps/apps.c:2052-2124 | the parse loops accept exactly the syntax, and the arrays hold its elements |
| `SubjectName.ParseName` | xs/sc_ssl/openssl/source/apps/apps.c:2031-2151 | the entries of the name are those of the parsed elements, unknown types and empty values skipped |
| `SubjectRules.AttributesAll` | xs/sc_ssl/openssl/source/apps/apps.c:2129-2145 | nothing is skipped if every type is known and every value is there |
| `SubjectRules.AttributesExact` | xs/sc_ssl/openssl/source/apps/apps.c:2129-2145 | the entries are those of the elements of known type with a value, in their order |
| `SubjectRules.UsableCount` | xs/sc_ssl/openssl/source/apps/apps.c:2129-2145 | of these no element is skipped and none doubled |
| `SubjectRules.SubjectExample` | xs/sc_ssl/openssl/source/apps/apps.c:2062-2124 | a subject with each of the special characters |
| `SubjectRules.RefusedExamples` | xs/sc_ssl/openssl/source/apps/apps.c:2045-2124 | what is refused, and a plus sign where multi-valued names are off |
| `SubjectName.Reparse` | xs/sc_ssl/openssl/source/apps/apps.c:2031-2151 | printing and then parsing gives the list back |
| `TokenRules.ReadIffPrinted` | xs/sc_ssl/openssl/source/apps/apps.c:371-418 | reading and printing of command lines are inverse: the lines that can be read are exactly the printed ones |
| `TokenRules.PrintOfRead` | xs/sc_ssl/openssl/source/apps/apps.c:371-418 | whatever is read prints as it was |
| `TokenRules.ReadOfPrint` | xs/sc_ssl/openssl/source/apps/apps.c:371-418 | words printed bare, or in a quote character that they lack, come back |
| `TokenRules.WordsOfRead` | xs/sc_ssl/openssl/source/apps/apps.c:371-418 | the words are the texts of the line |
| `TokenRules.UnclosedExample` | xs/sc_ssl/openssl/source/apps/apps.c:397-405 | a line that has no words, since its quote is not closed |
| `TokenRules.WordsExample` | xs/sc_ssl/openssl/source/apps/apps.c:371-418 | a line with each kind of blank and quote |
| `Tokenizer.CutQuoted` | xs/sc_ssl/openssl/source/apps/apps.c:397-405 | a quoted word is cut out in place; after a quote that is not closed the scan leaves the line |
| `Tokenizer.CutBare` | xs/sc_ssl/openssl/source/apps/apps.c:406-416 | a bare word is cut out in place, also at the end of the line |
| `Tokenizer.Args.Room` | xs/sc_ssl/openssl/source/apps/apps.c:381-394 | the slot array grows by 20 when it is full, so that there is always a slot |
| `Tokenizer.Args.Chopup` | xs/sc_ssl/openssl/source/apps/apps.c:352-422 | the slots hold exactly the words of the line as C strings in the edited buffer, unused slots are null, only NULs inside the line are written, and the scan stays inside exactly if every quote is closed |
| `RotationRules.RotateSucceeds` | xs/sc_ssl/openssl/source/apps/apps.c:1906-1984 | success installs both new files, keeps both old ones as backups and touches nothing else |
| `RotationRules.RotateSucceedsIff` | xs/sc_ssl/openssl/source/apps/apps.c:1906-1984 | success exactly if both new files exist and no call is refused |
| `RotationRules.RotateFails` | xs/sc_ssl/openssl/source/apps/apps.c:1934-1983 | after a failure with a working undo, exactly for which ends of its run the four files are as they were |
| `RotationRules.RestoresIff` | xs/sc_ssl/openssl/source/apps/apps.c:1934-1983 | for which files every failure with a working undo restores the four of them, whatever calls are refused, if the second stat is answered: exactly if no stale backup can take the place of a missing live file |
| `RotationRules.RestoresAlwaysIff` | xs/sc_ssl/openssl/source/apps/apps.c:1934-1983 | the same if the second stat may be refused too: exactly if there is, besides, no new database file |
| `RotationRules.LiveFilesRestored` | xs/sc_ssl/openssl/source/apps/apps.c:1934-1983 | with both live files there, every failure but that of the second stat is undone if the undo works |
| `RotationRules.SecondStatExample` | xs/sc_ssl/openssl/source/apps/apps.c:1945-1953 | with all four files there and only the second stat refused, the new database stays installed beside the old attributes |
| `RotationRules.StaleBackupExample` | xs/sc_ssl/openssl/source/apps/apps.c:1934-1942 | an undo that puts a stale backup in the place of a missing live file |
| `RotationRules.RotateSafe` | xs/sc_ssl/openssl/source/apps/apps.c:1921-1983 | in every intermediate state, whatever fails, each old content is under its live or its backup name, and no new content is lost unless an undo is refused |
| `RotationRules.DistinctIff` | xs/sc_ssl/openssl/source/apps/apps.c:1874-1904 | the suffixes for which no two of the six names clash |
| `RotationRules.SwapEnds` | xs/sc_ssl/openssl/source/apps/apps.c:1587-1656 | how the replacement of one file can end |
| `IndexRotation.RotateIndex` | xs/sc_ssl/openssl/source/apps/apps.c:1858-1987 | the renames with their undo steps on the names as they are written; for suffixes that do not clash success exactly if both new files are there and no call is refused, and then they stand in the place of the live files, and these under the old suffix; names that are too long change nothing |
| `IndexRotation.RotateSerial` | xs/sc_ssl/openssl/source/apps/apps.c:1587-1656 | the same for a single file |
| `Policy.AddRow` | xs/sc_ssl/openssl/source/apps/ca.c:1773-1868 | one policy row: an optional entry may be missing, a supplied one may not, and each one to match must be among the CA's own; accepted exactly then, with all request entries of the type in order; both searches terminate |
| `Policy.BuildSubject` | xs/sc_ssl/openssl/source/apps/ca.c:1773-1868 | success exactly if every row accepts, and then the subject is row by row the entries of the request |
| `Policy.FindEqual` | xs/sc_ssl/openssl/source/apps/ca.c:1826-1848 | the search with the jump finds an equal entry of the CA exactly if there is one |
| `Policy.IndexByObj` | xs/sc_ssl/openssl/source/crypto/x509/x509name.c:108-127 | the first entry of a type after a position |
| `Policy.DnSubject` | xs/sc_ssl/openssl/source/apps/ca.c:1870-1904 | the name without its e-mail addresses, or the whole one, and the preserved one where wanted |
| `PolicyRules.SubjectIsSelection` | xs/sc_ssl/openssl/source/apps/ca.c:1773-1868 | a policy that names each type once loses, invents and doubles no entry |
| `PolicyRules.OfTypeMembers` | xs/sc_ssl/openssl/source/apps/ca.c:1773-1868 | what entries of a type are |
| `PolicyRules.NotOfTypeMembers` | xs/sc_ssl/openssl/source/apps/ca.c:1897-1903 | what is left without a type |
| `Times.UtcTimeCheck` | xs/sc_ssl/openssl/source/crypto/asn1/a_utctm.c:115-163 | the loop accepts exactly the syntax of UTCTime |
| `Times.GeneralizedTimeCheck` | xs/sc_ssl/openssl/source/crypto/asn1/a_gentm.c:118-184 | the loop accepts exactly the syntax of GeneralizedTime |
| `TimeRules.TimeStringValid` | xs/sc_ssl/openssl/source/crypto/asn1/a_time.c:101-115 | a printed time is a UTCTime exactly in the years 1950 to 2049, and a GeneralizedTime in the others |
| `ExpiryRules.TimeStringDenotes` | xs/sc_ssl/openssl/source/crypto/asn1/a_time.c:101-115 | the printed time denotes the clock, in either form |
| `ExpiryRules.WellFormedIsPrinted` | xs/sc_ssl/openssl/source/crypto/asn1/a_utctm.c:187-225 | every UTCTime with seconds and Z is the printed form of the clock that it denotes |
| `ExpiryRules.LongFormIsPrinted` | xs/sc_ssl/openssl/source/crypto/asn1/a_gentm.c:118-184 | every GeneralizedTime with seconds and Z is the long form of the clock that it denotes |
| `TimeRules.ZoneIs` | xs/sc_ssl/openssl/source/crypto/asn1/a_utctm.c:139-160 | the zones that are accepted: none, Z, and offsets of at most twelve hours and 59 minutes |
| `TimeRules.FractionIs` | xs/sc_ssl/openssl/source/crypto/asn1/a_gentm.c:150-163 | the fractions that are accepted: none, or a point and at least one digit |
| `ExpiryRules.ShortTime` | xs/sc_ssl/openssl/source/crypto/asn1/a_gentm.c:133-147 | the seconds may be missing, in both forms |
| `RevocationRules.RoundTrip` | xs/sc_ssl/openssl/source/apps/ca.c:2708-3012 | a record says what was meant (time, reason code of section 5.3.1 of RFC 5280, hold OID or compromise time) exactly if its time is a UTCTime, and otherwise cannot be read at all |
| `RevocationRules.ClockRoundTrip` | xs/sc_ssl/openssl/source/apps/ca.c:2771-2795 | records made by the clock can be read back exactly in the years 1950 to 2049 |
| `RevocationRules.ReasonsDiffer` | xs/sc_ssl/openssl/source/apps/ca.c:2682-2696 | no two reason names are the same but for case |
| `RevocationRules.ReasonsRead` | xs/sc_ssl/openssl/source/apps/ca.c:2944-3000 | each reason by its name has its code of section 5.3.1 of RFC 5280, and a record without a reason has none |
| `RevocationRules.ExtrasRead` | xs/sc_ssl/openssl/source/apps/ca.c:2955-3000 | the reasons with an argument: a hold with an object identifier, a compromise of a key or of the CA with its time |
| `RevocationRules.RecordsRefused` | xs/sc_ssl/openssl/source/apps/ca.c:2907-3012 | what cannot be read: other names, reasons that lack their argument, a time that is none |
| `RevocationRules.ReasonInAnyCase` | xs/sc_ssl/openssl/source/apps/ca.c:2944-2953 | names are read in any case |
| `RevocationRules.RecordsWritten` | xs/sc_ssl/openssl/source/apps/ca.c:2708-2795 | the records as text, none for a bad argument |
| `RevocationRules.ReasonWritten` | xs/sc_ssl/openssl/source/apps/ca.c:2708-2795 | a reason is given by one of eight names in any case, and written as it is spelled |
| `RevocationRules.IndexIs` | xs/sc_ssl/openssl/source/apps/ca.c:2944-2953 | a reason in any case is found under its own number |
| `Revocation.Strlcpy` | xs/sc_ssl/openssl/source/crypto/buffer/buf_str.c:97-108 | the copy, cut off if it does not fit |
| `Revocation.Strlcat` | xs/sc_ssl/openssl/source/crypto/buffer/buf_str.c:110-116 | the concatenation, cut off if it does not fit |
| `Revocation.MakeRevocationStr` | xs/sc_ssl/openssl/source/apps/ca.c:2708-2795 | null exactly for a bad argument; else a buffer that the record fills to the last byte |
| `Revocation.Split` | xs/sc_ssl/openssl/source/apps/ca.c:2916-2933 | the parts of a record, cut out of a copy in place |
| `Revocation.UnpackRevinfo` | xs/sc_ssl/openssl/source/apps/ca.c:2907-3012 | what a record says, none if it is malformed |
| `ExpiryRules.ExpiredIffNotAfter` | xs/sc_ssl/openssl/source/apps/ca.c:2631-2672 | for well-formed times the comparison is chronological, by the century rule of section 4.1.2.5.1 of RFC 5280 |
| `ExpiryRules.NowWellFormed` | xs/sc_ssl/openssl/source/crypto/asn1/a_utctm.c:187-225 | the clock as it is printed for the comparison |
| `NumberRules.ItoaParsesBack` | socket_class.c:472-496 | in bases 2 to 10 and 16 the text is read back as the argument exactly if that is not the minimum of a long and, in base 16, not negative |
| `NumberRules.ScratchSuffices` | socket_class.c:473-492 | the scratch array of 21 bytes has room for the text of every long exactly from base 9 on |
| `NumberRules.ValueOfDigits` | socket_class.c:478-489 | the value of the digits is the number |
| `Numbers.Backwards` | socket_class.c:478-489 | the digits in the scratch array, last first |
| `Numbers.Itoa` | socket_class.c:472-496 | the text of the number stands in the buffer, with its NUL behind it |
| `SerialRules.KeyUnique` | xs/sc_ssl/openssl/source/apps/apps.c:1441-1448 | the serial index tells any two serial numbers apart |
| `SerialRules.KeySkipsZeros` | xs/sc_ssl/openssl/source/apps/apps.c:1434-1448 | what the index compares is the text from the first character on that is no zero |
| `SerialRules.SerialTextDenotes` | xs/sc_ssl/openssl/source/apps/ca.c:1906-1909 | the text of a serial number denotes it in base 16, two digits a byte, with no more bytes than it needs, and a sign if it is negative |
| `SerialRules.SerialTextOk` | xs/sc_ssl/openssl/source/apps/ca.c:903-925 | the text of every serial number passes the check at loading |
| `Serial.BnToHex` | xs/sc_ssl/openssl/source/crypto/bn/bn_print.c:68-101 | two digits a byte, without leading zero bytes |
| `Serial.SerialOf` | xs/sc_ssl/openssl/source/apps/ca.c:2418-2421 | zero is written with two digits |
| `DatabaseRules.OwnDatabaseLoads` | xs/sc_ssl/openssl/source/apps/ca.c:882-926 | the program accepts what it wrote itself exactly if every date is a UTCTime |
| `DatabaseRules.AgedChronologically` | xs/sc_ssl/openssl/source/apps/ca.c:2631-2672 | a valid row with a well-formed time expires exactly if its instant is at or before now, or what two digits for the year make of it |
| `DatabaseRules.AgingExact` | xs/sc_ssl/openssl/source/apps/ca.c:2631-2672 | the clocks with which expiry is right for every well-formed time: those of the years 1950 to 2049, and later only the last second before the two digits come to 50 again |
| `DatabaseRules.AgingExample` | xs/sc_ssl/openssl/source/apps/ca.c:2631-2672 | a certificate that ended with 2049 is still valid in 2050 |
| `DatabaseRules.RevokeOnce` | xs/sc_ssl/openssl/source/apps/ca.c:2493-2498 | a revoked certificate stays as it is |
| `DatabaseRules.AfterRevokeEvolves` | xs/sc_ssl/openssl/source/apps/ca.c:2431-2511 | a revocation changes one row at most, by a permitted step, and adds one row at most |
| `DatabaseRules.RevokeAgain` | xs/sc_ssl/openssl/source/apps/ca.c:2481-2486 | the call to itself goes on as if the certificate had always been known |
| `DatabaseRules.RowsAged` | xs/sc_ssl/openssl/source/apps/ca.c:2636-2672 | expiry keeps what holds of the rows |
| `DatabaseRules.RowAdded` | xs/sc_ssl/openssl/source/crypto/txt_db/txt_db.c:301-338 | a new row keeps serial numbers and names unique |
| `CaDatabase.Database.Insert` | xs/sc_ssl/openssl/source/crypto/txt_db/txt_db.c:301-341 | insertion fails exactly on a clash of serial number, or of name where it has to be unique |
| `CaDatabase.Database.Issue` | xs/sc_ssl/openssl/source/apps/ca.c:1906-1965 | a certificate is entered exactly if its serial number and, where it has to be unique, its name are free; the search with the name that is not set is safe exactly if no name in the index has the hash of the empty one |
| `CaDatabase.Database.EmptyNameExample` | xs/sc_ssl/openssl/source/apps/ca.c:1916-1918 | a certificate with an empty name is entered, and the next search compares with null |
| `CaDatabase.Database.Revoke` | xs/sc_ssl/openssl/source/apps/ca.c:2406-2520 | success exactly for a row with that name that is not revoked, or for a new one, with a good argument; the row then carries a record of what was meant, whose time is now; the whole new database and its index of names for every case; the call to itself terminates |
| `CaDatabase.Database.UpdateDb` | xs/sc_ssl/openssl/source/apps/ca.c:2610-2680 | exactly the valid rows whose time has come expire, and their number is returned |
| `CaDatabase.Database.Run` | xs/sc_ssl/openssl/source/apps/ca.c:2136-2680 | over any run serial numbers stay unique, revocation dates stay with revoked rows and revoked rows as they are; the run gives the effects of its operations one after the other, up to the first unsafe search; and the database can be loaded again exactly if its dates were UTCTimes and every operation that took effect brought such ones |
| `DatabaseRuns.EffectsDates` | xs/sc_ssl/openssl/source/apps/ca.c:2136-2680 | what the operations of a run that took effect do to the dates, as an equivalence |
| `DatabaseRuns.HashedSafe` | xs/sc_ssl/openssl/source/apps/ca.c:1916-1918 | a run that meets no name with the hash of the empty one is safe |
| `CaDatabase.CheckRows` | xs/sc_ssl/openssl/source/apps/ca.c:883-926 | the checks at loading accept exactly rows without a revocation date unless they are revoked, with one that can be read if they are, with a UTCTime to expire and a serial number that passes its check |
| `CaDatabase.CheckSerial` | xs/sc_ssl/openssl/source/apps/ca.c:903-925 | the check of a serial number: an even number of hexadecimal digits, at least two, with or without a sign |
| `BluetoothRules.RoundTrip` | socket_class.c:449-468 | reading an address inverts printing it |
| `BluetoothRules.ToTextIs` | socket_class.c:449-455 | the bytes are printed last first, two digits each |
| `BluetoothRules.ReadThenPrinted` | socket_class.c:449-468 | printing inverts reading for every text of six pairs of digits, up to their case |
| `BluetoothRules.StrToLExamples` | socket_class.c:462 | what strtol makes of blanks, signs, prefixes and other characters |
| `BluetoothRules.MissingIsZero` | socket_class.c:461-466 | the fields that a text lacks are zero |
| `Bluetooth.StrToBa` | socket_class.c:457-468 | the bytes stored are the fields of the text, last first |
| `RenderRules.FilledPrefix` | sc_mod_def.c:2019-2217 | the output is a prefix of the unbounded text |
| `RenderRules.FilledInside` | sc_mod_def.c:2019-2217 | parts that keep within their guards leave room for the NUL |
| `RenderRules.FilledAll` | sc_mod_def.c:2019-2217 | a buffer larger than the text by the largest guard takes all of it |
| `RenderRules.FilledGrows` | sc_mod_def.c:2019-2217 | a larger buffer only adds to the output |
| `RenderRules.GuardExact` | sc_mod_def.c:2030-2035 | the guard of one part protects every buffer exactly if the text keeps within it |
| `SocketText.WholeText` | sc_mod_def.c:2019-2217 | the text without a bound, label by label |
| `SocketText.FieldNames` | sc_mod_def.c:2029-2116 | the names that are printed, and the numbers where there is no name |
| `SocketText.AddrText` | sc_mod_def.c:2117-2212 | the addresses as they are printed, byte by byte |
| `SocketText.WordsAt` | sc_mod_def.c:2129-2141 | the words of an address in their order |
| `SocketText.Hex4Value` | sc_mod_def.c:2129-2141 | four digits denote their word |
| `SocketText.CutExample` | sc_mod_def.c:2029-2213 | how much of a text there is in buffers of all sizes |
| `SocketText.AddrCut` | sc_mod_def.c:2117-2212 | the room that is demanded before an address |
| `SocketText.SmallNumbersAre` | sc_mod_def.c:2029-2116 | the numbers that the guards presume |
| `SocketText.PartsFit` | sc_mod_def.c:2029-2212 | all parts keep within their guards exactly if the raw numbers are as small as the guards presume |
| `SocketText.SafeIffSmall` | sc_mod_def.c:2019-2217 | for every socket: buffers of all sizes hold the text with its NUL exactly if the raw numbers are as small as the guards presume |
| `SocketText.OverflowAt16` | sc_mod_def.c:2029-2035 | a descriptor of six digits fills a buffer of 16 bytes to the end, so that the NUL has no room |
| `Rendering.ToString` | sc_mod_def.c:2019-2217 | for every socket, the text as far as the guards let it go, its NUL at the reported size, nothing behind that written; inside the buffer if the raw numbers are small |
| `Rendering.OverflowExample` | sc_mod_def.c:2029-2035 | a run that writes its NUL behind the buffer |
| `PrintfRules.EstimateSuffices` | sc_mod_def.c:801-882 | for formats of pieces that fit their text and room the scan stays inside, and the reserved size exceeds what is printed |
| `PrintfRules.EstimateExact` | sc_mod_def.c:801-882 | for formats made of given %%, %c, %d, %i, %u, %o, %x, %s, %p, %a, %e, %f and %g, with or without l and widths: every one of them is estimated right exactly if no width and no %f exceeds its own text and room |
| `PrintfRules.RepeatExact` | sc_mod_def.c:801-882 | a piece may be repeated any number of times exactly if it prints no more than its text and room |
| `PrintfRules.PieceFits` | sc_mod_def.c:819-875 | a conversion prints no more than its text and room exactly if its width, and for %f the number, is within them; `%hd` and `%X` exactly if their numbers have at most three and two characters |
| `PrintfRules.WidthExample` | sc_mod_def.c:819-822 | `%99d` prints more than is reserved |
| `PrintfRules.ShortExample` | sc_mod_def.c:819-875 | 22 times `%hd` prints more than is reserved, 21 times does not |
| `PrintfRules.CapitalExample` | sc_mod_def.c:821-824 | capital conversions are taken for flags: 11 times `%X` prints more than is reserved |
| `PrintfRules.RealExample` | sc_mod_def.c:848-862 | a number of 130 characters, printed by `%f`, exceeds what is reserved, and one of 129 does not |
| `PrintfRules.RoomTable` | sc_mod_def.c:825-875 | what is added for each conversion |
| `PrintfRules.RunsPastIff` | sc_mod_def.c:804-877 | the scan runs past the end of the format exactly if this consists of complete items and then a conversion that ends in its `l`s, whatever the arguments are |
| `PrintfRules.RunsPastExample` | sc_mod_def.c:819-831 | `%l` is the shortest such format |
| `PrintfEstimate.Estimate` | sc_mod_def.c:804-877 | the scan computes the size, and runs past the format exactly if this ends in an open conversion |

## Left out

- SocketModel.Socket.Recv: the caller's buffer is the returned data; the conversion of lengths to `int` and the bookkeeping of error codes are not modelled.
- LineReader.Readline: the memory past the line buffer is a parameter, `beyond`; the write that the swallowed character makes there, when it has no room, is reported by `fits` and not carried out.
- LineRules.LossRule: with calls that cut the data anyhow it depends on the transport whether the next character has come when it is read, so that this says which results there may be, not that one occurs; `LineReader.Readline` says which character of the buffer is tested then.
- SslContexts.World.Create: the named context is the one that the arguments lead to; the parsing of the other arguments, the handshakes and the fields of a context besides its count are not modelled.
- SslContexts.World.Run: cloning of threads, which raises the counts of all contexts at once, and the locks are not modelled; each locked section is one step.
- Registry.Table.Add: the counter is below the limit of `int`; what happens after it wraps is not modelled.
- SubjectName.ParseName: `OBJ_txt2nid` is a function parameter; failing allocations and a failing `X509_NAME_add_entry_by_NID` are not modelled.
- Tokenizer.Args.Chopup: a failing `realloc` is not modelled; past the end of the line the model stops where the source goes on reading.
- IndexRotation.RotateIndex: the file system is a map of names to contents; that two paths may lead to one file, and directories, are not modelled.
- Policy.BuildSubject: the request is a list of typed strings; string types, the checks before the loop and the renumbering of multi-valued entries at a removal are not modelled.
- CaDatabase.Database.Issue: the certificate itself, its signature and its dates are parameters; `lh_strhash` is any function that is zero for the empty name, as it is for none; what the comparison with null does is not modelled, and a run ends there.
- CaDatabase.Database.Revoke: rows are values in a list that is replaced as a whole, so that the sharing of a row between list and index is by position.
- DatabaseRules.Written: the quoting of tabs in the file, and names with line ends, are not modelled.
- Numbers.Itoa: bases above 10 other than 16, in which the digits run on behind `9`, are not modelled (no caller uses them), nor is what a text that is too long for the scratch array overwrites.
- Rendering.ToString: numbers are those of 64-bit longs; the views of an address are separate fields, and a path that is not terminated inside its 128 bytes is not modelled; `str` is the memory from the buffer on, of which the buffer is the first `size` bytes.
- PrintfEstimate.Estimate: an argument that is missing or of another kind than the format asks for is not modelled; sizes are those of 64-bit systems.
- PrintfRules.EstimateExact: a floating number is given by its text, whose length is bounded as for the formats of 64-bit systems except for `%f`; precisions and `*` are not modelled; of the conversions that the scan does not count (`h`, `hh`, `z`, `j`, `t`, `n` and capitals) only `%hd` and `%X` are, in formats of their own, since behind one in a mixed format the arguments are out of step.
- `mod_sc_writeln` and its SSL copy, whose buffer sizes do not agree with each other.
- The option getters and setters, the timeout formulas, the blocking mode, name resolution and address packing.
- The Perl glue, the Windows branches and the debug allocators.
- All other OpenSSL applications and the library itself, except for the few functions cited above.
