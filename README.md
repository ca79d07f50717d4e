# achile comparer — a Dafny model

achile records a directory tree in a manifest and later checks a tree
against it. The manifest has three parts:

- a 16-byte header naming the digest algorithm, padded with NUL bytes;
- one record per file, holding its path, its recorded size and its recorded
  checksum;
- a trailer holding the record count, the total size (two big-endian
  unsigned 64-bit integers) and a checksum over the bytes of every file.

This project models the reconciliation engine, the `Comparer`:

- opening a manifest and selecting its algorithm from the header;
- resolving each record against an ordered list of candidate directories
  (first match wins);
- streaming a found file through the digest and classifying the record as
  `D`eleted, `I`dentical or `M`odified;
- the running aggregate (`Coze`: count and total size);
- the digest's two states: the per-file local state, reset after every
  record, and the global state, never reset;
- the trailer check at the end of a compare pass;
- the read-only `List` pass, which stops at the first record no directory
  holds.

The files are:

- `wrappers.dfy`: `Option`.
- `words.dfy`: bytes, `uint64`, Go's `int64(x)` conversion, big-endian
  encoding and decoding, and NUL trimming.
- `digests.dfy`: the algorithm registry and the `Digest` object. Every write
  goes to both of its byte logs.
- `aggregate.dfy`: `Coze` and its update, which wraps modulo 2^64.
- `files.dfy`: records, the file system, first-match lookup, and the outcome
  of streaming one file.
- `comparer.dfy`:
  - the specification functions of a compare pass (`CompareRecords`), of a
    list pass (`ListRecords`) and of the trailer check (`TrailerVerdict`);
  - the `Comparer` class, whose methods are proved against those functions;
  - `NewComparer`.
- `properties.dfy`: the properties of those specification functions.

The operating system is an input, not something the model performs:

- An `Os` value holds a map from path to what `Stat`, `Open` and a read
  would report at that path.
- It also holds `filepath.Join` and `filepath.Clean` as opaque functions.
- An algorithm is its output size and an arbitrary function from the bytes
  written to the sum.
- The manifest arrives as its header bytes, the records its decoder
  delivers, and the bytes after the last record.

Behaviour of the code that the model keeps and the lemmas make visible:

- compareFiles updates the aggregate only for records found in some
  directory (comparer.go:102-109). A deleted record adds nothing, so when
  any file is missing, a trailer that counts every record fails the
  count/size check before the global checksum is compared
  (`MissingRecordFailsTrailer`, for manifests of fewer than 2^64 records).
- compare ignores the errors of the two `binary.Read` calls. On a short
  trailer, a field keeps the value 0 and the trailer read ends there
  (`TrailerShortVerdicts`).
- When the checksum read falls short, compare returns the compare pass's
  own aggregate. Otherwise it returns the trailer's
  (`TrailerChecksumVerdicts`).
- digestFile compares the streamed length with `int64(fi.Size)`. A recorded
  size of 2^63 or more therefore never matches.

## Model

| member | source | states |
|---|---|---|
| `Comparing.NewComparer` | comparer.go:30-56 | fails with CannotOpen, ShortHeader (fewer than 16 header bytes) or UnknownAlgorithm (the trimmed name is not registered), and then returns no comparer; otherwise returns a fresh comparer whose digest uses the named algorithm, with both digest states empty and the manifest's records and trailer still unread |
| `Comparing.Comparer.constructor` | comparer.go:44-49 | the comparer holds the given digest, records and trailer, and its local digest state is empty |
| `Words.TrimNul` | comparer.go:42 | the trimmed header name has no NUL byte at either end |
| `Words.TrimNulPadded` | comparer.go:42 | the trimmed name is a contiguous part of the header, and every byte before and after it is NUL |
| `Words.TrimPadded` | comparer.go:42 | a name with no NUL at either end, padded with any number of NULs on either side, trims back to exactly that name |
| `Comparing.HeaderName` | comparer.go:36-42 | a name exists exactly when 16 header bytes are available; it has no NUL at either end and sits inside those 16 bytes with only NUL bytes around it |
| `Comparing.OpenCheck` | comparer.go:30-47 | NewComparer's failures in its order: CannotOpen exactly when the file does not open, ShortHeader exactly when it opens with fewer than 16 header bytes, and no failure exactly when the trimmed name is registered |
| `ComparerProperties.HeaderSelects` | comparer.go:36-47 | a 16-byte header holding a NUL-padded name yields that name, and opening fails exactly when the registry does not know it |
| `Digests.NewDigest` | comparer.go:45-47 | the digest is missing exactly when the name is not registered; otherwise it is fresh, uses the registered algorithm, and starts with both states empty |
| `Digests.Digest.Write` | comparer.go:160 | every byte streamed into the digest is appended to both the local and the global state |
| `Digests.Digest.Reset` | comparer.go:118 | clears the local state and leaves the global state untouched |
| `Comparing.StatusChar` | comparer.go:13-18 | each status prints as one of the letters D, I, M, A |
| `Comparing.StatusCharInjective` | comparer.go:13-18 | distinct statuses print as distinct letters |
| `Files.FirstRegularIsFirst` | comparer.go:141-151 | no directory before the chosen one holds a regular file at the joined path, and the chosen one does |
| `Comparing.Comparer.LookupFile` | comparer.go:141-151 | reports found exactly when some directory holds a regular file at the joined path; the record then carries the path joined with the first such directory, and is otherwise returned unchanged |
| `Files.FileCheckAccepts` | comparer.go:153-171 | digestFile succeeds exactly when the file opens, reads without error, delivers as many bytes as recorded (below 2^63) and the local sum equals the recorded checksum |
| `Files.FileCheck` | comparer.go:153-171 | digestFile's decision, checks in its order: the open failure is reported exactly when the file does not open, and a reported checksum mismatch carries the sum of the local state after streaming, which differs from the recorded one; its success condition is pinned by FileCheckAccepts, and the read and size failures by FileCheckOrder |
| `Files.FileCheckOrder` | comparer.go:160-166 | once the file opens, ReadFailed is reported exactly when the read ends in an error; SizeMismatch exactly when the read is clean and the streamed length differs from int64 of the recorded size, carrying the recorded size and the streamed length |
| `Comparing.Comparer.DigestFile` | comparer.go:153-171 | the error is the first failing check, in order: open, read, size, checksum; every byte read reaches both digest states, and nothing is read when the open fails |
| `Comparing.Comparer.CompareFiles` | comparer.go:95-121 | consumes every record; the aggregate, the report lines and the bytes added to the global state are those of the compare pass; the local state is empty afterwards |
| `Comparing.ReconcileLine` | comparer.go:101-117 | one iteration of compareFiles (Reconcile): the line is Deleted exactly when no directory holds the record, carries the resolved path and the recorded size, and its sum is over exactly the bytes the record streamed: the resolved file's bytes for a found record, Identical or Modified, and none for a deleted one; through CompareRecords, the global state therefore receives the found files' bytes in manifest order |
| `ComparerProperties.ClassifyExact` | comparer.go:101-117 | record i is Deleted iff no directory holds it, Identical iff the file found is unchanged, and Modified iff it is found but changed; the line carries the resolved path, the recorded size, and a sum over that file's bytes alone |
| `ComparerProperties.CompareAccounting` | comparer.go:101-110 | the aggregate counts exactly the found records, in order, and sums their recorded sizes, modulo 2^64 |
| `Aggregate.UpdateWraps` | comparer.go:107 | cz.Update always changes the count, and the total size wraps around exactly when the true sum reaches 2^64 |
| `Aggregate.TallyTotals` | comparer.go:75 | starting from zero, one update per size gives the number of sizes and their sum, both modulo 2^64 |
| `ComparerProperties.DeletedLeavesNoTrace` | comparer.go:101-118 | removing a record no directory holds changes neither the aggregate nor any byte fed to the global digest |
| `ComparerProperties.DeletedAddsNoCount` | comparer.go:102-109 | removing a record no directory holds leaves the aggregate unchanged |
| `ComparerProperties.DeletedStreamsNothing` | comparer.go:101-104 | removing a record no directory holds leaves the bytes fed to the global digest unchanged |
| `ComparerProperties.MissingRecordShortensCount` | comparer.go:101-110 | when any record is missing, the aggregate's count is below the number of records |
| `ComparerProperties.MissingRecordFailsTrailer` | comparer.go:123-129 | a trailer written for the whole manifest then fails with a count/size mismatch, before its checksum is read |
| `Comparing.Comparer.ReadFull` | comparer.go:131-134 | succeeds exactly when enough bytes remain and then consumes exactly n of them; otherwise it consumes the rest of the stream |
| `Comparing.Comparer.ReadUint64` | comparer.go:125-126 | decodes the next 8 bytes as a big-endian uint64; on a short stream the value is 0 |
| `Comparing.TakeUint64` | comparer.go:125-126 | binary.Read with its error ignored: with 8 bytes available it reads exactly those (their encoding is the value) and leaves the rest; on a shorter stream the value is 0 and the stream is drained |
| `Words.DecodeUint64Inverse` | comparer.go:125-126 | encoding a decoded 8-byte big-endian value gives the same 8 bytes back |
| `Words.EncodeUint64` | comparer.go:125-126 | the 8-byte big-endian encoding decodes back to the same value |
| `Comparing.TrailerVerdict` | comparer.go:123-139 | compare only consumes the stream; on success the trailer's aggregate equals the compare pass's; a count/size mismatch carries both aggregates and the trailer's is returned; every outcome is pinned by TrailerAccepts, TrailerChecksumVerdicts and TrailerShortVerdicts |
| `ComparerProperties.TrailerChecksumVerdicts` | comparer.go:131-138 | once both integers are present and match, a stream too short for the checksum gives ChecksumTruncated with the compare pass's aggregate and is drained; a full but different checksum gives GlobalMismatch with the trailer's aggregate and leaves the stream after it; a matching one is accepted |
| `ComparerProperties.TrailerShortVerdicts` | comparer.go:124-134 | with fewer than 16 trailer bytes the missing integers read as 0 and the stream ends: a mismatch with the aggregate gives CountMismatch, otherwise the empty checksum read gives ChecksumTruncated (or, for a zero-length sum, a comparison with nothing) |
| `Comparing.Comparer.CompareTrailer` | comparer.go:123-139 | the aggregate, error and remaining stream follow the trailer verdict for the stream, the digest's size, the compare pass's aggregate and the global sum |
| `ComparerProperties.TrailerAccepts` | comparer.go:123-139 | the trailer is accepted exactly when it holds both integers and a full checksum, the integers equal the aggregate, and the checksum equals the global sum; a count/size mismatch is reported before the checksum is read |
| `ComparerProperties.TrailerRoundTrip` | comparer.go:123-139 | the trailer laid out for an aggregate and a checksum is accepted for exactly that pair, and the stream is left right after it |
| `ComparerProperties.IntactTreeVerifies` | comparer.go:95-139 | a tree where every record is found and unchanged is reported all Identical; its aggregate holds every record and their total size; the digest is fed every file's bytes in manifest order; and the trailer recorded for that tree is accepted |
| `Comparing.Comparer.Compare` | comparer.go:80-89 | cleans the directories in place, runs the compare pass over every record, then returns the trailer verdict's error for the pass's aggregate and the global sum |
| `Digests.Digest.Global` | comparer.go:135 | the sum of every byte written since construction; when the algorithm's sums have its declared size, so does this one |
| `Digests.Digest.Local` | comparer.go:167 | the sum of the bytes written since the last Reset; when the algorithm's sums have its declared size, so does this one |
| `Comparing.Comparer.Checksum` | comparer.go:91-93 | the sum over every byte streamed since the digest was created |
| `Comparing.CleanDirs` | comparer.go:59-61 | each directory is replaced, in place, by its cleaned form |
| `Comparing.FirstUnresolved` | comparer.go:63-67 | every record before the returned index is found, and the record at that index, if any, is not |
| `Comparing.Comparer.List` | comparer.go:58-78 | cleans the directories in place and consumes records up to and including the first missing one; returns the aggregate of the records before it and that record's path, or the aggregate of all records and no path |
| `ComparerProperties.ListOutcome` | comparer.go:58-78 | List reports no missing path iff every record is found, and its aggregate is then the record count and total size; otherwise it names the first missing record, whose predecessors are all found, with the count and size of those predecessors |
| `ComparerProperties.ListAgreesWithCompare` | comparer.go:58-121 | when every record is found, List and compareFiles reach the same aggregate |
| `Words.Int64Of` | comparer.go:164 | Go's int64 conversion of a uint64 keeps the value below 2^63 and wraps it into the negative range otherwise |

## Left out

- Operating-system I/O: opening, stat-ing and reading files are modelled
  by the `Os` map, and a read that fails does so after delivering its bytes.
  Closing the manifest and the per-file `defer r.Close()` are not modelled.
- `filepath.Join` and `filepath.Clean` are opaque functions. Path syntax and
  their injectivity are not modelled.
- Concrete hash algorithms are not modelled. The sum is an arbitrary
  function, so collision resistance and the order sensitivity of the global
  checksum cannot be stated.
- FetchInfos is not part of this model. The records it would decode are
  given as a sequence, and the rest of the stream as the trailer bytes.
  Decoding errors, the record encoding and buffered read-ahead are not
  modelled.
- Verbose and pretty printing, including FormatSize, are not modelled. The
  compare pass returns its lines (status, recorded size, local sum, path)
  as `report` instead of printing them. List's verbose line is not
  modelled.
- The option setters (setVerbose, setPretty, setError) and the functional
  options passed to NewComparer are not modelled.
- Coze's definition is not in the source. The model takes it to be two uint64 fields,
  updated with Go's wrap-around, with an equality test.
- Comparing.Comparer.DigestFile: io.Copy's byte count is taken to be the
  number of bytes delivered, without modelling the int64 overflow of a
  file of 2^63 bytes or more.
- Errors are kinds with their data, not Go error strings.
- The Added status is part of the alphabet, but no operation produces it.
