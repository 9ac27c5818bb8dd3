# Verification of the SLATE API server's algorithms

A Dafny model of the parts of the SLATE API server that compute rather than
plumb, with proofs of what they promise. `dafny verify dfyconfig.toml` checks
everything. Code that changes state step by step is modelled by classes and
methods with loops; each method is proved equal to a function on values, and
the theorems are lemmas about those functions.

- **Archives** (`Bytes`, `TarHeader`, `TarHeaderProofs`, `TarLayout`, `TarStream`,
  `TarRoundTrip`): the UStar header byte by byte, the writer, and the reader with
  its cache. What the writer appends, the reader gives back, in order or on
  demand. Constants are those of the ustar interchange format of POSIX.1.
- **Directory trees** (`FileTree`, `RealPath`, `TreeArchive`, `Extraction`,
  `TreeRoundTrip`, `TreeTheorem`, `TreeLaws`, `TreeUnstripped`, `Containment`): the
  breadth-first archiver, path resolution with missing components, directory creation
  and extraction over a model of the disk; exactly when archiving and extracting
  reproduces a tree, and when extraction stays inside its target.
- **Base64, CRC and gzip** (`Base64`, `Crc`, `Gzip`): against RFC 4648 section 4
  and RFC 1952 sections 2.3 and 8.
- **INI files** (`IniText`, `IniConfig`, `IniLaws`, `IniRoundTrip`): the printer and the
  parser of options over a tree of applications are inverse to each other, and what
  any file says is told line by line.
- **Arguments** (`ArgSpec`, `ArgLaws`, `ArgOptionLaws`, `ArgForms`, `ArgGroups`,
  `ArgOrder`, `ArgParser`): the command-line loop, which pushes tokens back, ends; where
  each argument goes; different spellings of the same options parse alike.
- **SHA-1** (`Sha1Standard`, `Sha1Stream` in `Sha1.dfy`): the streaming
  implementation is the function of FIPS 180-4 sections 5.1.1 and 6.1.2.
- **Child processes** (`ReaperSpec`, `ReaperProofs`, `ReaperTheorems`,
  `Reaper`): handles and the reaper thread as atomic steps on one table; what
  every interleaving keeps.
- **Smaller algorithms** (`ConfigFiles`, `ConfigProofs`, `ConfigLaws`, `Versions`,
  `VersionLaws`, `VersionsExact`, `SecretBuffer`, `Multimap`): configuration files that
  include each other, version order, the doubling buffer, and the multimap of
  representatives. `CharText` has the character classes that several of the modules use.

## What the proofs found

Where a promise does not hold of the code, the code is modelled as it is; of the
lemmas named, some say exactly when the promise holds, and some give inputs for
which it does not.

- The split loop of the header accepts indices 0 and 156, but a slash at index 0
  is lost and a prefix has only 155 bytes (`TarHeaderProofs.NameRoundTrip`,
  `LeadingSlashLost`, `LastPrefixByteLost`).
- A link target of 100 bytes leaves no NUL and is read back with `ustar` behind
  it (`TarHeaderProofs.LinkReadsBack`, `LongTargetGrows`).
- The size field is cast to 32 bits although sizes below 8 GB are accepted
  (`TarHeaderProofs.SizeReadsBack`, `FourGigabytesLost`).
- `realpathHyp` claims to resolve paths with missing components; with three
  missing names it gives another path (`RealPath.RealpathExact`,
  `ThreeMissingNames`).
- So an archive made with `stripPrefix` false comes back under its path exactly when
  the directory made first happens to be one of the tree's own: always for one or
  two names, and for more only when the third repeats the second
  (`TreeUnstripped.UnstrippedExactly`, `StraysFromThree`).
- The test that should keep extraction inside its target compares texts. It does so
  for paths that are resolved rightly exactly when it cuts them at a `/`, as it always
  does for a target that ends in one (`Containment.EntryContained`,
  `ExtractionContained`, `NeighbourPasses`).
- The decoder's write at the end of its buffer is not zero for input with unused
  bits set (`Base64.TerminatorKept`, `TerminatorLost`).
- Arguments with both kinds of quotes and white space, and empty arguments, do not
  survive being written to an INI file (`IniText.SplitUndoesJoin`,
  `EmptyArgumentIsLost`).
- Only 32 bits of the SHA-1 length are written (`Sha1Stream.PaddingExact`,
  `HalfGigabyteMisread`).
- Version comparison passes over digits directly before letters, so that `1a` and
  `2a` are the same and `1` and `2a` are each older than the other; it keeps to the
  order of the parts exactly for plain versions (`VersionsExact.PlainExactly`,
  `Versions.DigitsPassedOver`, `BothOlder`). It may also read segment bounds that
  were never set (`Versions.UnsetExactly`).
- A process handle that is moved keeps its status exactly when the callback of the
  move finds a record of the pid: when the child is not reaped by then, or its pid is
  in use again. Otherwise the new handle is left with an uninitialised flag and an
  uninitialised status (`ReaperTheorems.MoveOutcome`, `LateMoveForgets`,
  `RacingMoveForgets`, `LateMoveSaved`).

Besides, the code differs from its comments and from the standard in these points.

- `endStream` does not set `ended`, so later appends are not refused, and what
  they write is never read (`TarRoundTrip.ArchiveReadsBack`).
- A comment says that numbers are left filled with NULs, and POSIX wants the
  version `00`; the code writes NUL-terminated numbers and a space and NUL.
- The destructor of a process handle asks in a comment whether its last branch is
  reachable: it is, exactly when the child is reaped and its pid in use again
  (`ReaperTheorems.DestructorBranches`, `DestructorMeetsStranger`).
- A configuration line without `=` has itself as its value.

## Model

| member | source | states |
|---|---|---|
| TarHeader.Header.Fill | src/Archive.cpp:399-455 | The constructor leaves exactly the record of the specification function in memory, and throws exactly when the size is over 8 GB, the path over 256 bytes, or no split point is found |
| TarHeader.Header.FillName | src/Archive.cpp:405-434 | The loop over split points finds the first `/` from size-101 to 156; an error leaves the same error as the specification |
| TarHeaderProofs.FilledDescribes | src/Archive.cpp:399-455 | Name, prefix, mode, size, type and checksum of a built header hold what they should: no later field write and no checksum destroys an earlier field (for every byte, see TarLayout.FilledLaid) |
| TarHeaderProofs.LinkDescribes | src/Archive.cpp:1025-1036 | The same for a link header, whose target is written after the constructor and before the checksum is redone |
| TarLayout.FilledLaid | src/Archive.cpp:399-455 | Every byte of a built header at its numeric offset: name at 0, mode 0644 at 100, user at 108, group at 116, size at 124, time at 136, sum at 148, type at 156, NULs as link target at 157, `ustar` and NUL at 257, a space and NUL at 263 and 264, the prefix at 345, NULs elsewhere |
| TarLayout.LinkLaid | src/Archive.cpp:1025-1036 | Every byte of a link header: the same, with size 0, type 2 and the target at 157 |
| TarLayout.OwnerAndTimeRead | src/Archive.cpp:435-441 | In both kinds of header the field at 108 scans to the user id and the one at 116 to the group id if they are below 8^7, and otherwise holds the first eight of its digits, without a NUL; the field at 136 always scans to the time |
| TarLayout.WriterRefuses | src/Archive.cpp:400-429 | A header is refused for its size exactly from 8 GB on, for its name exactly above 256 bytes, for want of a slash exactly when none is where one is looked for, and a link for its target exactly above 100 bytes |
| TarHeaderProofs.NameRoundTrip | src/Archive.cpp:405-434 | `getName` returns the stored path if and only if the path has at most 100 bytes or its split index is 1 to 155 (index 0 loses the leading slash, index 156 the last byte of the prefix) |
| TarHeaderProofs.LeadingSlashLost | src/Archive.cpp:405-434 | Index 0: every path of 101 bytes with `/` in front comes back without it |
| TarHeaderProofs.LastPrefixByteLost | src/Archive.cpp:405-434 | Index 156: every path with 156 bytes before and 99 behind the slash comes back without the last byte before it |
| TarHeaderProofs.FourGigabytesLost | src/Archive.cpp:439 | A file of exactly 2^32 bytes is announced with size 0 |
| TarHeaderProofs.LongTargetGrows | src/Archive.cpp:756 | Every target of 100 bytes is accepted and comes back with the magic behind it |
| TarHeaderProofs.SplitFails | src/Archive.cpp:405-428 | The constructor refuses a NUL-free path exactly when it is over 256 bytes, or over 100 without a `/` where one is looked for |
| TarHeaderProofs.SizeReadsBack | src/Archive.cpp:439 | The size field, terminated and scanned as octal, gives the size modulo 2^32, because of the cast; the mode field gives 0644 |
| TarHeaderProofs.LinkReadsBack | src/Archive.cpp:756 | A target of up to 100 bytes is read back unchanged if and only if it has at most 99; at 100 it runs on into the magic |
| TarHeaderProofs.SummedIsAccepted | src/Archive.cpp:457-512 | Whatever the other bytes, a header whose checksum was set last is accepted by the checksum test and is not all zero |
| TarHeader.ChecksumFits | src/Archive.cpp:457-469 | The byte sum is at most 130560, so it fits six octal digits and the overflow branch cannot be taken |
| TarHeader.Header.SetChecksum | src/Archive.cpp:457-469 | Sums with the checksum field as spaces, writes six digits, NUL, space; never fails |
| TarHeader.Header.ChecksumValid | src/Archive.cpp:471-512 | The sum, with the checksum field as spaces, and the scan of the stored digits accept exactly the headers whose stored octal number is the sum of their bytes |
| TarHeader.Header.IsEmpty | src/Archive.cpp:514-517 | True exactly for an all-zero record |
| TarHeader.Header.GetName | src/Archive.cpp:519-544 | The two byte loops return the prefix up to NUL, a slash, and the name up to NUL |
| Bytes.ScanPrinted | src/Archive.cpp:436-455 | An octal number printed with leading zeros and scanned back gives the number, whatever follows |
| TarStream.TarWriter.AppendFile | src/Archive.cpp:1001-1015 | Appends exactly header, data and padding to a multiple of 512, or throws and appends nothing |
| TarStream.TarWriter.AppendDirectory | src/Archive.cpp:1017-1023 | Appends exactly one directory header, or throws and appends nothing |
| TarStream.TarWriter.AppendSymLink | src/Archive.cpp:1025-1036 | Appends exactly one link header with the target and a checksum over it, or throws and appends nothing |
| TarStream.TarWriter.EndStream | src/Archive.cpp:1038-1044 | Appends exactly 1024 zero bytes; nothing stops later appends |
| TarLayout.FileBytes | src/Archive.cpp:1001-1015 | An appended file is 512 bytes of header, its data, and the fewest NULs that fill a block of 512 |
| TarLayout.FooterBytes | src/Archive.cpp:1038-1044 | The footer is 1024 NULs |
| TarStream.TarReader.ReadFiles | src/Archive.cpp:699-774 | The loop over headers, which skips padding and unknown types and stops at the target or after two empty blocks, does to the reader what the recursive specification does, with the same error |
| TarStream.TarReader.NextFile | src/Archive.cpp:667-679 | Returns the first stored name, or "" at the end, and the matching reader state |
| TarStream.TarReader.StringForFile | src/Archive.cpp:617-630 | Answers from the cache or reads on; a missing file is the error the code throws |
| TarStream.TarReader.TypeForFile | src/Archive.cpp:632-645 | As for the contents, for the type |
| TarStream.NamesAreStored | src/Archive.cpp:699-774 | A non-empty name returned by reading is the name of a stored record |
| TarLayout.AnyHeaderReads | src/Archive.cpp:699-769 | Any accepted header, of any writer, with any mode below 8^7 printed at 100, any size below 8 GB and any type flag: the call returns its name and stores, unless the name is there already, a record of the kind the flag means, with that mode; a regular file has the data of its size, a link its target, and every other kind no data; the stream moves past a regular file's data and, whatever the kind, past what the size leaves of a block of 512 |
| TarLayout.CutFileReads | src/Archive.cpp:753-763 | A regular file cut off by the end of the stream is filled up with the byte 255 to its announced size, and is stored |
| TarLayout.EmptyBlocksRead | src/Archive.cpp:699-722 | One empty block is passed over, two in a row end reading just behind them, and so does less than a block |
| TarLayout.ReaderRefuses | src/Archive.cpp:725-748 | A record is refused for its checksum exactly when the test fails, and then for a size field exactly when no NUL or space ends it; an accepted one has the size and the mode that its fields at 124 and 100 scan to |
| TarRoundTrip.EntryReadsBack | src/Archive.cpp:699-769 | Reading at the bytes of one appended entry stores exactly that entry (type, data, mode 0644) under its path and leaves the stream just behind it |
| TarRoundTrip.FooterEndsReading | src/Archive.cpp:699-722 | At the footer reading stops with "" and the end flag, without touching what comes after |
| TarRoundTrip.ArchiveReadsBack | src/Archive.cpp:667-769 | For every list of storable entries with distinct names, the loop over `nextFile` gives them back in order with type, data and mode, then "", with the reader at its end; bytes after the footer, such as entries appended after `endStream`, are never seen |
| TarRoundTrip.LazyLookup | src/Archive.cpp:617-660 | From any point of a written archive one lookup answers as a lookup in the whole archive would, and leaves the cache as exactly the first k entries and the stream at the boundary of entry k |
| TarRoundTrip.LazyRun | src/Archive.cpp:617-660 | Any sequence of lookups, in any order and with repetitions, agrees with the full archive |
| TarRoundTrip.FreshReader | src/Archive.cpp:600 | A new reader over a finished archive is at boundary 0, where the lookup theorems start |
| Base64.EncodeBase64 | src/Archive.cpp:92-125 | The bit-shuffling loop writes exactly the sextets of the input followed by padding |
| Base64.EncodesPerRfc4648 | src/Archive.cpp:92-125 | That text is the encoding of RFC 4648 section 4, defined by 24-bit groups |
| Base64.TablesAreStandard | src/Archive.cpp:24-125 | With the 64 characters of RFC 4648, Table 1, written out: the coder writes the n-th for n, the decoder takes the n-th for n and `=` for 0, and no other character is taken |
| Base64.OctetsAreGroups | src/Archive.cpp:41-90 | Any four characters and the three octets decoded from them are the same 24 bits, high bits first |
| Base64.DecodedSize | src/Archive.cpp:41-90 | Decoding gives three quarters of the text without its `=` at the end, or the first illegal character before any `=` |
| Base64.DecodeBase64 | src/Archive.cpp:41-90 | Every buffer write stays in bounds, the result is the first outLen octets and the byte at outLen, or the first illegal character |
| Base64.DecodeEncode | src/Archive.cpp:41-125 | Decoding an encoding gives the data back, for every byte string, with the write at outLen zero |
| Base64.TerminatorKept | src/Archive.cpp:41-90 | For all text that is not rejected, the write at outLen is zero if and only if something but `=` follows the first `=`, or the unused low bits of the last character decoded are zero |
| Base64.TerminatorKeptIfChecked | src/Archive.cpp:31-90 | For text that passes the check, if and only if those bits are zero |
| Base64.TerminatorLost | src/Archive.cpp:41-90 | `AB` passes the check and sets the byte at outLen |
| Base64.SanityCheckBase64 | src/Archive.cpp:31-39 | Accepts exactly strings of alphabet characters followed by nothing but `=` |
| Base64.SanityMeansDecodable | src/Archive.cpp:31-90 | A string that passes the check has no character that the decoder rejects |
| Base64.EncodedLooksEncoded | src/Archive.cpp:31-125 | Every encoding passes the check |
| FileTree.Disk.MkdirP | src/FileSystem.cpp:60-98 | The loop over slashes creates what the specification creates, with the same error (the empty path, then mode bits above 0777, then what the disk refuses), and on an error leaves what was made before it |
| FileTree.MakesEach | src/FileSystem.cpp:60-98 | Going over the slashes of a path of plain names is making each ancestor in turn, the directory itself last |
| FileTree.MakesLast | src/FileSystem.cpp:60-98 | Where the parents exist, the directory alone is added, or nothing when it is there |
| RealPath.RealpathHyp | src/Archive.cpp:776-910 | The loop over components, with its limit of 1024 iterations and the `last` it does not advance below a missing component, returns what the specification returns |
| RealPath.RealpathExact | src/Archive.cpp:776-910 | Within the limit, the result is the meaning of the path as a stack of names if and only if no name but the last is entered below a missing component |
| RealPath.TwoMissing | src/Archive.cpp:776-910 | Two missing names below an existing directory are still resolved to themselves |
| RealPath.ManyMissing | src/Archive.cpp:834-835 | What any longer list of missing names is resolved to: from the third on, each is preceded by all from the second on, as `last` is not advanced |
| RealPath.ThreeMissingNames | src/Archive.cpp:834-835 | So `/a/b/c` becomes `/a/b/b/c` when `/a` is missing, against the description of the function |
| TreeArchive.RecursivelyArchive | src/Archive.cpp:1046-1111 | The queue of directories is written breadth first: exactly the entries of the specification, each in the surroundings of its own moment. It succeeds if and only if the writer accepts every entry; otherwise the stream holds exactly those before the first refused one, and the error is that one's |
| TreeArchive.ListDirectory | src/Archive.cpp:1055-1105 | One directory: its files in order, its folders queued, other kinds skipped; or it stops at the first file that the writer refuses |
| TreeArchive.ArchiveFile | src/Archive.cpp:1088-1098 | One file is appended under its cleaned path, or the writer's error returned with nothing appended |
| TreeLaws.LevelByLevel | src/Archive.cpp:1046-1111 | The entries of a tree come level by level: all directories of one depth, each followed by its files, before any deeper directory |
| TreeLaws.ListingOrder | src/Archive.cpp:1081-1109 | Within a directory, files and directories are taken in the order of its listing, each by itself |
| Extraction.ExtractToFileSystem | src/Archive.cpp:912-999 | The extraction loop leaves reader and disk as the specification does, with the same error |
| Extraction.ExtractNext | src/Archive.cpp:942-997 | The body of the loop: resolution of the path, the test against escaping, the record placed, and dropped if asked |
| Extraction.PlaceRecord | src/Archive.cpp:950-990 | A directory is created with its parents, a file written, at the place computed for it |
| Containment.EntryOnWay | src/Archive.cpp:912-999 | One extracted entry changes nothing on the disk but on the way to its resolved path, and is there afterwards |
| Containment.ResolvedPlainly | src/Archive.cpp:776-910 | A path in which no name but the last is entered below a missing one is resolved to a text without dots |
| Containment.TestMeansBelow | src/Archive.cpp:943-948 | The test of a resolved text against the target passes a place at or below the target if and only if the target ends in `/`, or the text ends there or goes on with `/` |
| Containment.EntryContained | src/Archive.cpp:942-992 | An entry whose path is resolved rightly is placed at or below the target if and only if the test cuts its path at a `/`, and then nothing outside the target has changed |
| Containment.ExtractionContained | src/Archive.cpp:912-999 | A whole extraction from any stream, into a directory whose text ends in `/`: if every entry's path is resolved rightly, nothing outside the directory has changed |
| Containment.NeighbourPasses | src/Archive.cpp:943-948 | Without the `/` the test passes every neighbour whose name begins with the target's |
| Containment.DotsRemain | src/Archive.cpp:834-835 | Behind two missing names two dots are not resolved and stay in the text |
| TreeRoundTrip.ResolvesInside | src/Archive.cpp:936-948 | A stored relative path resolves to its own place below the target directory, so the check against escaping accepts it |
| TreeRoundTrip.ExtractsArchive | src/Archive.cpp:912-999 | Extracting a written archive is placing its entries one after the other, whatever follows the footer |
| TreeLaws.ReaderAfterwards | src/Archive.cpp:937-999 | After extracting a written archive the reader stands behind the footer, with all its records or, if they are dropped, with what it had before; on an error it stands just behind the entry that could not be placed, which is kept, and everything before it has been placed |
| TreeTheorem.ArchiveIsGood | src/Archive.cpp:1046-1111 | The archive of a tree holds every node once: all its paths are storable and distinct |
| TreeTheorem.PlacesQueue | src/Archive.cpp:912-1111 | Whatever waits in the archiver's queue, placing the entries it will write succeeds (parents come first) and puts exactly the waiting trees over a disk whose nodes are of the same kinds |
| TreeTheorem.PlacingKeeps | src/Archive.cpp:912-999 | Whatever is extracted, nothing is taken away, and directories stay directories and files files |
| TreeTheorem.ExtractsOver | src/Archive.cpp:912-1111 | Archiving any tree of directories and regular files and extracting it into any existing directory succeeds and leaves the tree there over what was before, the rest of the disk unchanged, if and only if no directory is in the place of a file nor a file in the place of a directory |
| TreeTheorem.ExtractsAgain | src/Archive.cpp:912-1111 | Extracting a second time succeeds and changes nothing, for both texts of a directory, with a `/` at the end and without |
| TreeTheorem.ArchiveThenExtract | src/Archive.cpp:912-1111 | Into an existing empty directory it always succeeds and leaves exactly that tree there, the rest of the disk unchanged |
| TreeTheorem.SmallTreeExtracts | src/Archive.cpp:912-1111 | The theorem applied: a directory with one file, for any short names and any contents, archived and extracted below an empty directory |
| TreeUnstripped.EmitsAlike | src/Archive.cpp:1046-1111 | Without stripping, a path of plain names is archived as with its root stripped |
| TreeUnstripped.FirstMade | src/Archive.cpp:942-992 | Where the first directory of an unstripped archive is really made, by resolution and `mkdir_p`, with every directory above it |
| TreeUnstripped.UnstrippedExactly | src/Archive.cpp:912-1111 | Archived without stripping and extracted into an empty directory, the tree comes back under its whole path if and only if the directory made first is one of its own |
| TreeUnstripped.StraysFromThree | src/Archive.cpp:834-835 | That is so for every path of at most two names, and for a longer one only when its third name repeats the second |
| TreeTheorem.ExistingTarget | src/Archive.cpp:776-910 | An absolute path of an existing directory, with a `/` at the end or without, is such a target |
| IniText.SplitUpString | include/CLI11.hpp:339-382 | The destructive splitting loop returns the tokens of the specification |
| IniText.JoinArguments | include/CLI11.hpp:922-939 | The string stream loop writes the quoted arguments with single spaces |
| IniText.SplitUndoesJoin | include/CLI11.hpp:339-382 | A list of arguments survives `ini_join` and `split_up` if and only if each is non-empty and quotable: not both quote characters with white space, no quote in front without |
| IniText.SplitUndoesJoinOfNonEmpty | include/CLI11.hpp:339-382 | On lists without empty arguments the condition is quotability alone |
| IniLaws.WordsRead | include/CLI11.hpp:339-382 | Any text put together from plain words, words in either kind of quotes and perhaps an unclosed one at the end, with white space between them where it is needed, is split into exactly those words |
| IniText.EmptyArgumentIsLost | include/CLI11.hpp:922-939 | An empty argument in front is lost: the rest is read back as if it were not there |
| IniText.Trim | include/CLI11.hpp:254-283 | Trimming removes exactly the white space at both ends |
| IniConfig.FlagRoundTrip | include/CLI11.hpp:975-995 | `to_flag` recovers the count of every flag that was given |
| IniLaws.FlagTold | include/CLI11.hpp:975-995 | true, on and yes give one result and false, off and no give none, in any case of letters |
| IniLaws.FlagNumber | include/CLI11.hpp:975-995 | White space, a sign and decimal digits, whatever follows, give as many results as the number says; from 2^64 on it is out of range, and a negative number counts down from 2^64 |
| IniLaws.FlagRefused | include/CLI11.hpp:975-995 | Every other single text is refused |
| IniLaws.FlagAlone | include/CLI11.hpp:975-995 | More or fewer than one input is refused, and nothing else for that reason |
| IniConfig.FixNewlinesIn | include/CLI11.hpp:388-398 | The find loop puts the leader behind every newline and nothing else, for every leader with which it ends |
| IniConfig.WriteConfig | include/CLI11.hpp:3735-3784 | The writer produces the text of the specification for the whole tree of applications |
| IniConfig.ReadConfig | include/CLI11.hpp:1015-1058 | The reader produces the items of the specification, line by line under the current section |
| IniLaws.FileTold | include/CLI11.hpp:1015-1058 | A whole file of headings, comments, blank lines, names alone and settings, with any white space around them, gives exactly the items told line by line: a name alone is ON, a setting has the words behind its first `=`, dots part a name into parents, and the last heading is the first parent unless it is called default in any case of letters; a newline at the very end makes no difference |
| IniConfig.SplitAt | include/CLI11.hpp:212-224 | Splitting at a delimiter as getline does, never to an empty list |
| IniRoundTrip.CommentReads | include/CLI11.hpp:3735-3784 | A description written as a comment, with any newlines in it, adds no item |
| IniRoundTrip.OptionReads | include/CLI11.hpp:3735-3784 | One written option is read back as its item, with the section path |
| IniRoundTrip.ConfigRoundTrip | include/CLI11.hpp:1015-1058 | For every tree of applications with plain names and protectable arguments, reading what was written gives exactly the configurable options that were given, in order, with their subcommand path, first long name and results; with defaults also the options that have one, with its words, and the flags not given as false; with or without descriptions |
| ArgParser.Parser.Parse | include/CLI11.hpp:3339-3345 | The argument loop ends for every argument list and tree, although flag groups push a token back: the sum of lengths plus one falls each turn; the final state or error is that of the specification |
| ArgParser.Parser.ParseOne | include/CLI11.hpp:3494-3518 | One turn of the loop, by kind of argument, and it lowers the measure |
| ArgParser.Parser.ParseSub | include/CLI11.hpp:3565-3582 | A subcommand takes over the remaining arguments, or a waiting positional or the parent does |
| ArgParser.Parser.ParseArgument | include/CLI11.hpp:3585-3689 | Long and short options: attached value, flag, glued value, following values, and the rest of a group pushed back |
| ArgParser.Parser.EatArguments | include/CLI11.hpp:3650-3682 | The loops that take following arguments, limited or not, and the error when they run out |
| ArgParser.Parser.ParsePositionalArg | include/CLI11.hpp:3532-3562 | The first positional that takes more, else the parent, else the missing list |
| ArgLaws.PositionalGoes | include/CLI11.hpp:3532-3562 | An argument goes to the first option in the order of declaration that is positional and has fewer results than it expects, or expects any number; if there is none, to the parent by fallthrough, else to the missing list, with all that follow when the application is a prefix command |
| ArgLaws.PlainLine | include/CLI11.hpp:3339-3345 | The whole line: for an application without subcommands whose positionals expect n1, ..., nk values, a list of plain arguments leaves each option with its slice, in the order of declaration, and the surplus in the missing list, in order |
| ArgLaws.NamedFrom | include/CLI11.hpp:3603-3605 | The option found by name is the first in the order of declaration that has it, up to case where the option ignores case |
| ArgOptionLaws.Recognized | include/CLI11.hpp:3309-3336 | What an argument is taken for, with the characters written out: the mark, the name of a subcommand here or further up that is not full and not used, a long option, a short one, or none of these |
| ArgOptionLaws.LongGoes | include/CLI11.hpp:3585-3623 | `--name` and `--name=value` go to the first option of that long name, with what follows the first `=` |
| ArgOptionLaws.LongGoesOn | include/CLI11.hpp:3607-3618 | If there is none, to the parent by fallthrough, else into the missing list |
| ArgOptionLaws.ShortGoes | include/CLI11.hpp:3585-3623 | `-c` and what is glued to it go to the first option of that short name |
| ArgOptionLaws.ShortGoesOn | include/CLI11.hpp:3607-3618 | If there is none, to the parent by fallthrough, else into the missing list |
| ArgOptionLaws.FlagTakes | include/CLI11.hpp:3638-3640 | A flag gets one empty result |
| ArgOptionLaws.OptionTakes | include/CLI11.hpp:3671-3683 | An option that expects n values takes the next n arguments in order, whatever they look like; fewer are an error |
| ArgOptionLaws.UnlimitedTakes | include/CLI11.hpp:3651-3669 | An option of unlimited values takes the arguments that are none of the other kinds, but once it has the number it needs only while no positional lacks values; a mark behind them is dropped |
| ArgOptionLaws.GivenValue | include/CLI11.hpp:3625-3637 | A value behind `=` counts as the first of those expected, also for a flag |
| ArgOptionLaws.GluedValue | include/CLI11.hpp:3638-3688 | What is glued to a short name is a value for an option that takes one, and for a flag goes back with a dash |
| ArgOptionLaws.MarkGoes | include/CLI11.hpp:3494-3518 | The mark goes into the missing list, and every later argument is taken as a positional |
| ArgOptionLaws.SubcommandWaits | include/CLI11.hpp:3565-3567 | While a required positional lacks values, the name of a subcommand is a positional |
| ArgOptionLaws.SubcommandGoes | include/CLI11.hpp:3566-3577 | Otherwise the first subcommand of that name is noted once and parses the rest |
| ArgOptionLaws.SubcommandGoesUp | include/CLI11.hpp:3566-3582 | A name that no subcommand here has goes to the parent, and without one is an error |
| ArgGroups.GroupMeansOneByOne | include/CLI11.hpp:3585-3689 | From any state, parsing on from a group of flags equals parsing on from the flags given one by one: results, order, missing list, subcommands, remaining arguments |
| ArgForms.EqualsMeansSeparate | include/CLI11.hpp:848-861 | From any state `--name=value` parses as `--name value` does, including errors and options of several or unlimited values |
| ArgForms.GluedMeansSeparate | include/CLI11.hpp:838-845 | From any state `-nvalue` parses as `-n value` does |
| ArgOrder.ParseTells | include/CLI11.hpp:3339-3345 | After every parse that throws nothing, each option of each application is in the parse order exactly as often as it has results |
| Sha1Stream.SHA1.ProcessByte | include/crow/TinySHA1.hpp:58-66 | Keeps the invariant: index is the length mod 64, the block holds the open part, the digest is the fold over complete blocks |
| Sha1Stream.SHA1.ProcessBlock | include/crow/TinySHA1.hpp:140-188 | One block is the compression of FIPS 180-4 section 6.1.2 |
| Sha1Stream.SHA1.Schedule | include/crow/TinySHA1.hpp:141-150 | The word array is the message schedule of the standard |
| Sha1Stream.RoundsAlike | include/crow/TinySHA1.hpp:158-181 | One round as written, with its own forms of rotation, choice and majority, is one round of the standard |
| Sha1Stream.SHA1.ProcessBytes | include/crow/TinySHA1.hpp:67-80 | Feeding a chunk is feeding its octets |
| Sha1Stream.SHA1.GetDigest | include/crow/TinySHA1.hpp:81-107 | The two padding loops and eight length octets give the standard hash of everything fed, below 2^29 bytes; beyond that, the hash chain over the octets really fed |
| Sha1Stream.SHA1.GetDigestBytes | include/crow/TinySHA1.hpp:108-137 | The twenty octets are the words of that hash, most significant first |
| Sha1Stream.HashOfChunks | include/crow/TinySHA1.hpp:48-107 | After a reset, however a message is cut into calls, the first digest is the standard's |
| Sha1Stream.HalfGigabyteMisread | include/crow/TinySHA1.hpp:81-103 | A message of 2^29 octets gets the length octets of the empty one |
| Sha1Stream.PaddingExact | include/crow/TinySHA1.hpp:81-103 | The padding is that of FIPS 180-4 section 5.1.1 if and only if the message is under 2^29 bytes |
| Reaper.ProcessTable.Construct | src/Process.cpp:246-276 | The constructor callback does the specified step on table and handle, and keeps the invariant |
| Reaper.ProcessTable.Deliver | src/Process.cpp:388-404 | The reaper callback does the specified step, through the handle pointer found in the record |
| Reaper.ProcessTable.MoveStart | src/Process.cpp:278-283 | The new handle takes the pid, the old one gives it up; the status flag is not initialised |
| Reaper.ProcessTable.MoveFinish | src/Process.cpp:284-295 | The callback that redirects the record and copies the status |
| Reaper.ProcessTable.Destroy | src/Process.cpp:322-336 | The destructor callback |
| ReaperProofs.StepKeeps | src/Process.cpp:246-407 | Every step keeps the invariant of table, handles, moves and children |
| ReaperTheorems.EveryRun | src/Process.cpp:246-407 | So does every interleaving of steps |
| ReaperTheorems.TableMeansHalfDone | src/Process.cpp:361-407 | After every run a pid has a record if and only if exactly one of handle construction and reaping has happened for one of its children, and the record says which |
| ReaperTheorems.NoDanglingPointer | src/Process.cpp:396-404 | Every pointer in the table names a live handle that owns the pid, or is being moved into one |
| ReaperTheorems.NoPidCollision | src/Process.cpp:251-257 | The assertion in the constructors holds |
| ReaperTheorems.DeliveredOnce | src/Process.cpp:361-404 | A status is put into a handle at most once, and exactly once when both sides are through and the handle was not destroyed first |
| ReaperTheorems.HandleHasStatus | src/Process.cpp:246-296 | A settled handle has a status if and only if its child is reaped, and then the right one, unless it came out of a late move |
| ReaperTheorems.StaysUnderWay | src/Process.cpp:246-407 | From the start of a move to its callback the new handle keeps what its constructor left, and the old one tells what the child did, whatever other handles and the reaper do |
| ReaperTheorems.RecordAfterReaping | src/Process.cpp:361-407 | The pid of a child that got its handle has a record if and only if the child is not reaped or its pid is in use again |
| ReaperTheorems.MoveOutcome | src/Process.cpp:278-296 | A whole move, with any steps between its halves: the new handle has the right status if the callback finds a record; otherwise the child is reaped and the new handle keeps the two values its constructor left unset, which is right if and only if they happen to be the status |
| ReaperTheorems.RecordedMovesKeepStatus | src/Process.cpp:246-407 | After every run whose moves all find a record, each handle of a child has its status if and only if the child is reaped, and then the right one |
| ReaperTheorems.InTimeLosesNothing | src/Process.cpp:278-296 | So it is in particular when every move ends before its child is reaped |
| ReaperTheorems.LateMoveForgets | src/Process.cpp:278-296 | A run in which a finished handle forgets its status by being moved |
| ReaperTheorems.LateMoveSaved | src/Process.cpp:278-296 | A run in which it does not, because its pid is in use again |
| ReaperTheorems.RacingMoveForgets | src/Process.cpp:278-296 | A run in which the reaper comes between the two halves of a move |
| ReaperTheorems.DestructorBranches | src/Process.cpp:322-336 | The destructor never erases a record; the record names another handle if and only if its own child is reaped and the pid in use again |
| ReaperTheorems.DestructorMeetsStranger | src/Process.cpp:322-336 | A run that reaches the branch which the source wonders about |
| Crc.BuildTable | src/Archive.cpp:287-303 | The nested loops fill the table with eight register steps of each index |
| Crc.UpdateCrc | src/Archive.cpp:305-314 | The table-driven loop computes the specified update |
| Crc.TableIsRegister | src/Archive.cpp:305-314 | For every byte string the table-driven steps equal the shift register of RFC 1952 section 8 fed bit by bit |
| Crc.KnownValues | src/Archive.cpp:287-314 | Entries 1 and 255 of the table of RFC 1952, and the CRCs of the empty text and of `a` |
| Crc.UpdatedAppend | src/Archive.cpp:336-344 | Updating block by block is one update over the concatenation |
| Crc.UpdatedFromZero | src/Archive.cpp:304-314 | The update from zero is the CRC of the message |
| Gzip.GzipCompress | src/Archive.cpp:276-365 | Header, the deflated blocks in order, then the CRC of the whole input and its length modulo 2^32, little-endian, as RFC 1952 section 2.3 wants; deflate is any function |
| Gzip.MemberBytes | src/Archive.cpp:318-365 | The member byte by byte: the ten bytes of the header, the body, and four bytes each of CRC and size, the lowest first |
| Gzip.BodyInBlocks | src/Archive.cpp:318-362 | The body is what deflate gives for the blocks of 128 KiB in order, each after all before it; all but the last are full, and only the last, perhaps empty, is told to finish |
| Gzip.Drain | src/Archive.cpp:346-359 | The output loop writes everything zlib has, once |
| Versions.CompareVersions | src/Utilities.cpp:234-354 | The loop returns what the specification returns, for all pairs of strings, telling the reading of a bound that was never set |
| Versions.CompareSegments | src/Utilities.cpp:305-341 | Stripping zeros, comparing lengths and the inline strcmp, for any two segments |
| Versions.DigitsCompareAsNumbers | src/Utilities.cpp:305-341 | On segments of digits this is comparing numbers |
| Versions.PlainVersionsCompare | src/Utilities.cpp:234-354 | When no letter directly follows a digit, no separator ends the string and every tilde but a last one stands before a letter or digit, the result is the lexicographic order of the tokens: tilde, then words, then numbers by value |
| VersionsExact.PlainExactly | src/Utilities.cpp:234-354 | A version compares with every plain version as their tokens do, from either side, if and only if it is plain itself |
| VersionsExact.Misses | src/Utilities.cpp:234-354 | For every version that is not plain, from any place in it on, a plain one is found with which it does not |
| Versions.VersionsOrdered | src/Utilities.cpp:234-354 | On these versions the result is antisymmetric and transitive, and zero if and only if the tokens are equal |
| VersionLaws.WordsCompare | src/Utilities.cpp:305-341 | Of two words the older is the one with the smaller character where they first differ, or that ends first |
| VersionLaws.PartsCompare | src/Utilities.cpp:234-354 | Two numbers compare by value, two words as words, and a number is newer than a word |
| VersionLaws.PlacesCompare | src/Utilities.cpp:234-354 | The first different part decides; a version is newer than its own beginning, and a tilde older than anything in its place |
| VersionLaws.TokensJoin | src/Utilities.cpp:247-294 | A separator between the parts does not count, and a tilde does |
| Versions.UnsetExactly | src/Utilities.cpp:234-303 | A bound that was never set is read if and only if the strings differ, neither is empty and the first round finds no letter or digit in the first |
| Versions.DigitsPassedOver | src/Utilities.cpp:271-294 | Digits directly before letters do not count: such versions compare as their letters alone |
| Versions.BothOlder | src/Utilities.cpp:234-354 | Then the result is not antisymmetric: `1` is older than `2a` and `2a` older than `1` |
| Versions.SeparatorAtEnd | src/Utilities.cpp:343-352 | A separator at the end makes a version newer |
| ConfigFiles.Configuration.Parse | src/slate_service.cpp:304-333 | The recursion ends for every set of files and leaves options and error as specified |
| ConfigProofs.SucceedsExactlyWithoutCycles | src/slate_service.cpp:304-333 | Reading succeeds if and only if on every walk along include lines the last file is readable and met for the first time, and its values parse |
| ConfigProofs.LastAssignmentWins | src/slate_service.cpp:316-332 | After success every option has the last value assigned to it in the depth-first flattening of all files read, or its old value (for lines written out, see ConfigLaws.EveryOptionTold) |
| ConfigLaws.OneLineReads | src/slate_service.cpp:132-165 | A file of the one line `k=v`, or `k` for k itself as value: a text option then has v, a flag is true exactly for true, True and 1, a number has the number read modulo 2^32, and a value that is no number is an error; nothing else changes |
| ConfigLaws.IncludeReads | src/slate_service.cpp:304-333 | A line `config=` reads the file it names in its place; a file on the way to itself and an unreadable one are errors |
| ConfigLaws.EveryOptionTold | src/slate_service.cpp:316-332 | For files given as pairs (k, v), after success every option has the value of the last pair for it, of all the files in the order they are read, or its old value |
| SecretBuffer.WriteAll | src/SecretCommands.cpp:17-46 | Any run of Put on a new buffer leaves exactly the text, capacity 32 times a power of two, and at most twice its length copied in all |
| SecretBuffer.SecretStringBuffer.Put | src/SecretCommands.cpp:19-25 | Appends one character; doubles a full buffer |
| SecretBuffer.SecretStringBuffer.Reserve | src/SecretCommands.cpp:40-46 | Keeps the contents, never shrinks |
| SecretBuffer.PutKeepsDoubled | src/SecretCommands.cpp:19-25 | After k doublings 32 * (2^k - 1) characters have been copied, and more than half of the buffer is used |
| Multimap.RefinesLatest | include/concurrent_multimap.h:88-200 | After every run of operations a lookup by key and class finds what the history alone says: the latest representative, or nothing |
| Multimap.NeverEmpty | include/concurrent_multimap.h:101-109 | No run leaves a key with an empty set |
| Multimap.TimeChanges | include/concurrent_multimap.h:132-200 | A category's time changes at no other time than when it is created, erased, or by `update_expiration` |
| Multimap.OwnTime | include/concurrent_multimap.h:88-200 | After `update_expiration` a key that is there has the given time, after an insertion a new key has the clock's, and after an erasure a key that is gone has none; otherwise its time stays |
| Multimap.TimesFromHistory | include/concurrent_multimap.h:88-200 | After every run the time of a key is that of the last update or creation since it last came to exist, read from the history alone |
| Multimap.OwnPair | include/concurrent_multimap.h:88-200 | What each operation leaves for its own key and class |
| Multimap.OtherPairs | include/concurrent_multimap.h:88-200 | Erasing a key takes its other classes; nothing else touches another pair |
| Multimap.ConcurrentMultimap.DoInsertOrAssign | include/concurrent_multimap.h:132-147 | New state as specified; true exactly when the class was not there |
| Multimap.ConcurrentMultimap.DoInsert | include/concurrent_multimap.h:152-162 | A value of a class already there stays; true exactly when it was not there |
| Multimap.ConcurrentMultimap.DoUpdate | include/concurrent_multimap.h:173-185 | Replaces only what is there, and reports whether it was |
| Multimap.ConcurrentMultimap.DoEraseValue | include/concurrent_multimap.h:101-109 | Erases one value, and the key with the last one; returns how many |
| Multimap.ConcurrentMultimap.DoEraseKey | include/concurrent_multimap.h:88-96 | Erases a key with all its values; returns how many |
| Multimap.ConcurrentMultimap.DoUpdateExpiration | include/concurrent_multimap.h:192-200 | Sets the time of an existing key only |

## Left out

- TarHeader.SplitName: an index past the end of the path, which the split loop can
  reach for short paths, is undefined in C++ and is taken as "no slash here".
- TarStream.ReadFrom: a number field that does not start with an octal digit, where
  `sscanf` stores nothing or reads a sign, ends reading with an error of its own.
- TreeTheorem.ExtractsOver: the names of the target and of the deepest path in the tree
  are at most 1024 together, the number of iterations after which `realpathHyp` gives
  up; so it is in `TreeUnstripped.UnstrippedExactly`.
- FileTree.Stat: errors other than a missing name or a file in the way (access, loops,
  length) do not occur on the modelled disk; permissions are not modelled; paths are
  absolute, as `realpathHyp` makes them.
- Containment.EntryContained: paths in which a name is entered below a missing one are
  not covered, since their resolved text may still hold two dots
  (`Containment.DotsRemain`).
- Extraction.ExtractTo: extracting symbolic links is an error of the model's own.
- TreeArchive.RecursivelyArchive: symbolic links and special files in a directory are
  skipped; the link branch writes behind its buffer (`buf[len]`).
- TarHeader.Env: user, group and time are parameters.
- Base64.EncodeBase64: the buffer size, computed in floating point, is exact below
  2^53 bytes and is modelled by integers.
- IniConfig.ToFlag: a count beyond what a vector can hold is not an error; characters
  are classified as in the C locale.
- IniRoundTrip.GoodApp: names contain no `.`, and arguments and default values no
  newline.
- IniLaws.IsPath: names that begin with `[` or `;`, which may be read as headings and are
  read as comments, and names whose last part is empty are not told.
- ArgLaws.PlainLine: positionals that take any number of values are not covered, and the
  application has no parent.
- ArgSpec.ParseAll: what follows the argument loop (callbacks, configuration file,
  environment, required and excluded options, help) is not modelled; an option is
  identified by its position in its application.
- Sha1Stream.SHA1: shifting an octet into the sign bit of an int, undefined before
  C++20, is the unsigned shift; copying a hash object is not modelled.
- ReaperSpec.Step: `detach`, move assignment, pipes, the signal to the child, the flag
  set by the signal handler, and stopping the reaper are not modelled; nothing is
  claimed about when a step happens. A pid is used again only after the constructor
  and the reaper are both through with it.
- Gzip.GzipCompress: deflate is any function of the input so far; stream errors are
  left out, and so is decompression.
- Versions.CompareVersions: a plain `char` is signed, and letters and digits are those
  of the C locale.
- ConfigFiles.Configuration: `std::stoul` is a parameter; environment and arguments
  are left out, and files do not change while they are read.
- SecretBuffer.SecretStringBuffer: `PushUnsafe`, which calls itself, and `ShrinkToFit`
  are left out, and so is clearing memory.
- Multimap.ConcurrentMultimap: the library's set is a map from classes to values; each
  operation is atomic; `find`, `count` and `contains` only read what the lemmas state.
- HTTP handlers, authentication, the persistent store, telemetry, help texts and calls
  to kubectl, helm and AWS: plumbing.
