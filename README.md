# File splitting and QR file transfer, modelled in Dafny

This project models three parts of a Go code base:

- **The splitter** (`pkg/split/split.go`). `SplitFile` cuts a file into numbered fragments `<stem>_NNNN.part`. Fragment 0 first goes to a temporary `.tmp` name and then gets a 98-byte big-endian header in front of it. The header holds a SHA-256 digest, the requested count, the size, the time and the name. `MergeFile` finds the fragments with the regular expression `_(\d{4})\.part$`, sorts them by index and reads the header. It then writes the file named in the header, verifies the digest and removes the fragments. `SplitData` and `MergeData` do the same in memory: they cut a gob-encoded value into a pre-allocated slice and join it back.
- **The QR transfer** (`pkg/qrfiletransfer/qrfiletransfer.go`). `QRFileTransfer` is an object with settings. `FileToQRCodes` splits a file into `outDir/temp` and writes one QR image (`qrcodes/<stem>.png`) and one raw copy (`data/<stem>.dat`) per fragment. `QRCodesToFile` copies the `.dat` files back as `.part` fragments, merges them and copies the rebuilt file out. Both remove the temporary directory.
- **The golden-file helper** (`pkg/testutils/golden.go`). `normalizeSystemdUnitContent` groups the lines of a systemd unit into sections and writes every section out with its headers and properties sorted. `CompareWithGoldenFile` updates a golden file, or compares against it. Unit files are compared after normalising; any other file is compared byte for byte.

## How the model is built

- **Bytes and files.** Text, paths and file contents are byte strings (`seq<uint8>`), as Go strings are. The file system is a map from path to contents.
- **Cleaned paths.** Files are keyed by their cleaned path. `Paths.Clean` is `filepath.Clean`, and `filepath.Join` cleans what it builds. A directory argument is cleaned before use (`Paths.DirArg`). A file argument is looked up under `Paths.FileKey`, its cleaned path. A path whose last element is empty, `.` or `..` names no regular file, so opening, creating or writing it fails.
- **Directories.** Directories exist implicitly: a path is inside a directory when `filepath.Dir` of it is that directory.
- **Listings.** A listing (`os.ReadDir`, `filepath.Glob` of `<dir>/*<ext>`) is the ascending sequence of matching paths. `Listing.Glob` computes it by picking the least remaining match each round.
- **Operations on files.** Each operation that changes files is a method. It returns the status and the new file system, and its `ensures` ties both to a specification function: `SplitSpec`, `MergeSpec`, `FileToQRCodesSpec`, `QRCodesToFileSpec` or `CompareSpec`. Lemmas about those functions state what the source promises.
- **The QR object.** `QRFileTransfer` is a class whose fields are the Go struct's fields. Its setters and `FileToQRCodes` update those fields in place.
- **The in-memory split.** `SplitData` fills a Dafny `array` in place, as the Go code fills the slice it is given.
- **Outside code as parameters.** SHA-256, gob, base64, the QR encoder, the PNG writer, the clock and the float scaling `int(float64(n) * 1.34)` are parameters. They are the `Hasher`, the encode/decode functions, `Encoders` and `now`.

The main results are these:

- `RoundTrip.SplitThenMerge` covers splitting a file and then merging the output directory. Under the stated conditions, the merge succeeds whatever order discovery lists the fragments in. The file comes back under its base name, every fragment is gone and nothing else changed.
- `QrRoundTrip.FileThroughQRCodes` covers `FileToQRCodes` followed by `QRCodesToFile` on the same directory. Under the stated conditions both succeed, and the output path then holds the original file's bytes.
- `DataSplit.DataRoundTrip` shows that `MergeData` after `SplitData` returns the decoded value.
- `Golden.NormalizeIdempotent` shows that normalising normalised text changes nothing.
- `Golden.SectionsCommute`, `Golden.PropertiesCommute` and `Golden.RenderOrderFree` show that the normal form ignores the order of sections and properties.

The code differs from the documented behaviour in two places, and the model follows the code:

- The header's count field records the *requested* chunk count, truncated to 32 bits. It is not the number of fragments written (`split.go:86`).
- The split writes k = ceil(L / B) fragments, where B = L / C + 1. So k is at most the requested count C, and often below it (`split.go:76`, `split.go:97-124`).

`strings.Replace(fullPath, "part", "tmp", 1)` replaces the first `part` in the whole path. That occurrence can lie in the directory or in the file name instead of the extension.

- `Splitter.SplitWrites` describes the split when the first `part` is the extension.
- `Splitter.SplitFailsOnItself` covers every other case. An example is a source `department.txt`, whose fragment 0 is first written as `detmpment_0000.part`. The `.part` destination is then the temporary file itself. `os.Create` truncates that file, the header is written, and `io.Copy` reads back what it appends until a write fails. The split returns the copy error, and the file stays.
- An output directory such as `parts` also moves the first `part` away from the extension, to `tmps/<stem>_0000.part`. Only `parts` was created, so unless `tmps` already exists, `os.WriteFile` fails first with the write error (`split.go:108-109`). Directories are implicit in the model, so there the write succeeds and the split ends in the copy error as above.
- `Splitter.SplitSucceedsIff` combines the two cases. A split of a non-empty source succeeds exactly when the first `part` is the extension.

## Model

| member | source | states |
|---|---|---|
| DataSplit.PartSize | pkg/split/split.go:262-267 | the part size is 0 exactly for empty data, and 1 when there are fewer bytes than slots |
| DataSplit.PartSizeBounds | pkg/split/split.go:262-267 | with at least as many bytes as slots, p*chunks <= len < (p+1)*chunks |
| DataSplit.Slots | pkg/split/split.go:270-285 | the slice SplitData leaves has one `[]byte` per slot, slot i being part i of the encoded bytes |
| DataSplit.SplitData | pkg/split/split.go:240-288 | the error is the first failed check (nil input, fewer than 2 chunks, wrong slice length, encode error); on success the array holds the slots, on error it is unchanged |
| DataSplit.FillSlots | pkg/split/split.go:270-285 | the loop leaves exactly the slots in the array |
| DataSplit.SlotIs | pkg/split/split.go:271-284 | slot i is data[start:end] with the loop's start/end, or empty when start is past the data |
| DataSplit.SlotsPrefix | pkg/split/split.go:270-285 | the first n slots, concatenated, are the encoded bytes up to n*p |
| DataSplit.SlotsTile | pkg/split/split.go:270-285 | concatenated in order, the slots are exactly the encoded bytes: nothing lost, nothing repeated |
| DataSplit.SlotSizes | pkg/split/split.go:262-285 | 7 bytes in 3 slots give sizes 2, 2, 3; 2 bytes in 3 slots give 1, 1 and an empty slot |
| DataSplit.FirstNonBytes | pkg/split/split.go:310-314 | finds the first element that is not a `[]byte`, and none exists iff it returns None |
| DataSplit.MergeData | pkg/split/split.go:298-329 | returns the decoded value, or in order: nil output, no chunks, index of the first non-`[]byte`, no data, decode error |
| DataSplit.DataRoundTrip | pkg/split/split.go:240-329 | MergeData of SplitData's slots decodes the encoded bytes; when decode inverts encode it returns the original value |
| Header.Encode | pkg/split/split.go:37-44 | the image is 98 bytes: digest at 0, count at 32, size at 36, time at 44, name at 52, big-endian |
| Header.Decode | pkg/split/split.go:406 | binary.Read fails exactly for fewer than 98 bytes; otherwise fields are read from the same offsets |
| Header.DecodeEncode | pkg/split/split.go:371-378 | reading back a written header gives the same record, whatever follows it |
| Header.EncodeDecode | pkg/split/split.go:406 | every 98-byte prefix is the image of the record read from it |
| Header.EncodeInjective | pkg/split/split.go:37-44 | different records have different images |
| Bytes.DecodeEncodeInt64 | pkg/split/split.go:41-42 | an int64 written big-endian in two's complement reads back unchanged |
| Bytes.EncodeDecodeInt64 | pkg/split/split.go:41-42 | every 8-byte string is the image of the int64 read from it |
| Bytes.DecodeEncodeUint32 | pkg/split/split.go:40 | a uint32 written big-endian reads back unchanged |
| Bytes.IndexOf | pkg/split/split.go:104 | the result is an occurrence with none before it, or None when there is no occurrence at all |
| Bytes.ReplaceFirst | pkg/split/split.go:104 | only the leftmost occurrence is replaced; without one the string is unchanged |
| Bytes.TrimSuffix | pkg/split/split.go:100 | the suffix is removed when present, otherwise the string is unchanged |
| Bytes.TrimZerosPadded | pkg/split/split.go:169 | a name with no NUL at either end, zero-padded, comes back from bytes.Trim unchanged |
| Paths.JoinSplits | pkg/split/split.go:354-357 | Dir and Base of Join(d, n) give back d and n for a clean directory and a plain name |
| Paths.Clean | pkg/split/split.go:101 | filepath.Clean's result is never empty and has no trailing separator except the root |
| Paths.CleanIdempotent | pkg/split/split.go:101 | cleaning a cleaned path changes nothing |
| Paths.CleanAppend | pkg/split/split.go:101 | filepath.Join of a directory and one element is that element joined onto the cleaned directory |
| Paths.CleanOfJoin | pkg/split/split.go:430 | joining a clean directory and one element gives a clean path, so the joined name is the file's key |
| Paths.DirArg | pkg/split/split.go:101 | a directory argument is used cleaned, and the empty one stays empty |
| Paths.FileKeyClean | pkg/split/split.go:396 | the key of a file path is its cleaned form, itself clean, with the path's last element as its base name |
| Listing.SortedAscending | pkg/split/split.go:416 | a listing names every entry of the directory exactly once, in ascending byte order |
| Listing.AscendingUnique | pkg/split/split.go:416 | an ascending list is determined by its set of entries |
| Listing.LexLeTotal | pkg/testutils/golden.go:46 | Go's string order is total |
| Listing.LexLeTrans | pkg/testutils/golden.go:46 | Go's string order is transitive |
| Listing.LexLeAntisym | pkg/testutils/golden.go:46 | Go's string order is antisymmetric |
| Listing.Listed | pkg/qrfiletransfer/qrfiletransfer.go:196 | the listing is ascending, holds exactly the matching files, and only files that exist |
| Listing.Glob | pkg/qrfiletransfer/qrfiletransfer.go:196 | the method returns exactly the ascending listing |
| Discovery.Decimal | pkg/split/split.go:100 | %d of i has 1, 2, 3 or 4 digits iff i is below 10, 100, 1000 or 10000 |
| Discovery.Pad4 | pkg/split/split.go:100 | %04d gives at least four digits, exactly four iff i < 10000 |
| Discovery.Pad4Value | pkg/split/split.go:100 | a %04d numeral reads back (Sscanf %d) as the number it came from |
| Discovery.ChunkIndex | pkg/split/split.go:423-444 | an index read from a name is below 10000 |
| Discovery.ChunkIndexMatches | pkg/split/split.go:423-435 | a name yields an index iff it is some prefix, `_`, four digits and `.part` |
| Discovery.ChunkNameIndex | pkg/split/split.go:100 | the name of fragment i yields index i when i < 10000, and no index from 10000 on |
| Discovery.TmpNotChunk | pkg/split/split.go:423 | a `.tmp` file is never taken for a fragment |
| Discovery.SortByIndex | pkg/split/split.go:448-450 | the result is ascending by index and a permutation of its input |
| Discovery.PermutationDistinct | pkg/split/split.go:448-450 | sorting a list without repeats gives one without repeats |
| Discovery.CheckFiles | pkg/split/split.go:415-453 | fails iff the path is empty, since directories are implicit and an absent directory lists as empty; otherwise returns every fragment file of the cleaned directory exactly once, ascending by index |
| Discovery.StrictlySortedUnique | pkg/split/split.go:448-450 | two strictly ascending lists with the same elements are equal |
| Discovery.DiscoveryDeterministic | pkg/split/split.go:415-453 | when no two fragment files share an index, every admissible result of checkFiles is the same list |
| Splitter.BufferSize | pkg/split/split.go:76 | the buffer size fileSize/chunks + 1 is at least one byte |
| Splitter.BufferCovers | pkg/split/split.go:76 | chunks buffers of that size hold more than the whole file |
| Splitter.CountBelow | pkg/split/split.go:97-113 | read i returns bytes iff it starts inside the source |
| Splitter.FragmentCountBound | pkg/split/split.go:76-124 | the split writes at most the requested number of fragments, and none for an empty source |
| Splitter.FewerFragmentsThanRequested | pkg/split/split.go:76-124 | 5 bytes asked in 4 chunks give 3 fragments; 2 bytes in 2 give 1 |
| Splitter.Fragment | pkg/split/split.go:98-108 | each written fragment holds between 1 and chunkSize bytes |
| Splitter.FirstFragment | pkg/split/split.go:98-108 | the first read takes the first chunkSize bytes, or all of them when fewer |
| Splitter.FragmentsTile | pkg/split/split.go:97-124 | the fragments, in index order, concatenate to the source |
| Splitter.ChunkNameInjective | pkg/split/split.go:100 | different indices give different fragment names |
| Splitter.FragmentPathsDistinct | pkg/split/split.go:100-106 | different reads are written to different paths, the temporary one included |
| Splitter.NameField | pkg/split/split.go:93 | the name field is always 46 bytes |
| Splitter.HeaderFields | pkg/split/split.go:84-93 | the header holds uint32(requested count), the size, the time, the name's first 46 bytes zero-padded, and the digest of the source |
| Splitter.WriteFragmentsContents | pkg/split/split.go:97-113 | after the writes, each fragment path holds its read and every other path is as it was |
| Splitter.WriteFragmentAt | pkg/split/split.go:108 | a later write never overwrites an earlier fragment |
| Splitter.WriteFragmentsFrame | pkg/split/split.go:108 | a path no write names keeps what it held |
| Splitter.ReadStep | pkg/split/split.go:98-99 | one read fills the buffer with the next fragment and advances the offset to the next fragment's start |
| Splitter.WriteStep | pkg/split/split.go:100-108 | writing read i to the loop's path extends the written state by fragment i; read 0 goes to the temporary path |
| Splitter.WriteReads | pkg/split/split.go:97-124 | the loop writes every fragment, hashes exactly the source, and remembers the temporary path (empty for an empty source) |
| Splitter.SplitFile | pkg/split/split.go:65-125 | the result and the new file system are those of the split specification, for the cleaned output directory |
| Splitter.SplitRejects | pkg/split/split.go:66-68 | fewer than two chunks (or no output directory) is an error and writes nothing |
| Splitter.SplitEmptySource | pkg/split/split.go:95-119 | an empty source fails when opening the empty temporary path, and writes nothing |
| Splitter.TempPathIsTmp | pkg/split/split.go:103-106 | when the first `part` is the extension, fragment 0 is written to `<stem>_0000.tmp` |
| Splitter.TmpNameParts | pkg/split/split.go:354-357 | the temporary name is one path element whose stem is `<stem>_0000` |
| Splitter.FinalPathOfTemp | pkg/split/split.go:354-357 | injectMetadata's destination for that temporary file is `<stem>_0000.part` |
| Splitter.InjectMoves | pkg/split/split.go:341-391 | when the `.part` name differs: success, the `.part` file holds header + fragment, the temporary file is gone, nothing else changes |
| Splitter.InjectOntoItself | pkg/split/split.go:341-391 | when the `.part` name is the temporary file itself: the copy error, the file stays and holds the header, nothing else changes |
| Splitter.FinalPathFresh | pkg/split/split.go:100-106 | the temporary path, `<stem>_0000.part` and the later fragments' paths are pairwise different |
| Splitter.SplitShape | pkg/split/split.go:65-125 | a non-empty source gives between 1 and chunks fragments, and the split is the writes followed by the injection |
| Splitter.SplitWrites | pkg/split/split.go:65-125 | with the first `part` as extension: success, `_0000.part` holds header + first read, each later fragment its read, the temporary file is gone, nothing else changes |
| Splitter.FirstPartElsewhere | pkg/split/split.go:354-357 | when the first `part` of the path lies in the directory or the stem, injectMetadata's destination is the temporary file itself |
| Splitter.SplitFailsOnItself | pkg/split/split.go:65-125 | then the split fails with the copy error; the temporary file stays and holds the header, and the later fragments stay as written |
| Splitter.SplitSucceedsIff | pkg/split/split.go:65-125 | a split of a non-empty source into a clean directory succeeds iff the first `part` of fragment 0's path is its extension |
| Merger.ExtractMetadata | pkg/split/split.go:395-411 | succeeds iff the file exists and has at least 98 bytes, and then the record is the one whose image starts the file |
| Merger.FirstChunk | pkg/split/split.go:152-162 | finds the first chunk marked first, with none before it; None iff no chunk is marked first |
| Merger.HeaderOf | pkg/split/split.go:152-166 | None iff no chunk is index 0; otherwise the header read from such a chunk |
| Merger.Payload | pkg/split/split.go:193-200 | fragment 0 contributes what follows its 98-byte header, the others all their bytes |
| Merger.CopyChunks | pkg/split/split.go:186-212 | whether every copy finished, the file system and the digest input are those of the copy specification, which stops at the first fragment that is the output itself and has bytes left to read |
| Merger.RemoveChunks | pkg/split/split.go:220-224 | every chunk file is gone afterwards and nothing else changes, even if one was already missing |
| Merger.ReadHeader | pkg/split/split.go:152-166 | the header search returns what HeaderOf specifies |
| Merger.MergeFile | pkg/split/split.go:136-229 | the result is the merge specification on the cleaned directory, applied to a list discovery may return; a copy onto itself returns CopyFailed and keeps the fragments |
| Merger.MergeRejects | pkg/split/split.go:142-166 | no fragments, or none with index 0: the matching error, and nothing is written |
| Merger.CopyFromAppends | pkg/split/split.go:186-212 | when the output is not a fragment, it receives every payload in list order and the digest sees exactly those bytes |
| Merger.CopyFromFrame | pkg/split/split.go:186-212 | the copy loop changes only the output file |
| Merger.MergeOutcome | pkg/split/split.go:168-224 | when the output is not a fragment, it holds the payloads; the fragments are removed iff the digest matches the header, with HashMismatch otherwise |
| Merger.CopyOntoItself | pkg/split/split.go:186-205 | when the output is fragment j, and no earlier one, and has bytes past its read offset at its turn, the copy loop stops unfinished there, the output holding the earlier payloads |
| Merger.MergeOntoFragment | pkg/split/split.go:171-205 | when the header names such a fragment, the merge returns CopyFailed for the output; the output holds the payloads copied before it, nothing else changes, and every fragment file stays |
| Merger.AssembleOntoFragment | pkg/split/split.go:171-205 | the same outcome for the part of the merge after the header is read |
| Merger.MergeMismatchKeepsChunks | pkg/split/split.go:214-217 | a digest mismatch keeps every fragment file |
| RoundTrip.SplitChunkFile | pkg/split/split.go:100-101 | fragment i's file lies in the output directory and is recognised with index i |
| RoundTrip.OutputNotFragment | pkg/split/split.go:169-171 | the file the merge writes is neither a fragment nor the split's temporary file |
| RoundTrip.NameRestored | pkg/split/split.go:93 | the name field, trimmed of NULs, is the name written into it |
| RoundTrip.SplitLayout | pkg/split/split.go:65-125 | under the split conditions, the split succeeds and leaves exactly its k fragments |
| RoundTrip.SplitContents | pkg/split/split.go:97-124 | fragment 0 holds header + first read, and every fragment's payload is its read |
| RoundTrip.MatchesAfterSplit | pkg/split/split.go:423-444 | after the split, the files discovery accepts are exactly the split's fragments |
| RoundTrip.FoundAfterSplit | pkg/split/split.go:448-450 | discovery then lists them in index order |
| RoundTrip.HeaderAfterSplit | pkg/split/split.go:152-166 | the merge reads back the header the split wrote |
| RoundTrip.PayloadsRestore | pkg/split/split.go:186-212 | the payloads of all fragments, in order, are the source |
| RoundTrip.MergeRestores | pkg/split/split.go:169-224 | the merge leaves the source under its name, no fragment, and the rest untouched |
| RoundTrip.SplitThenMerge | pkg/split/split.go:65-229 | split then merge succeeds and restores the file under its base name; fragments gone, nothing else changed |
| QrTransfer.NumChunks | pkg/qrfiletransfer/qrfiletransfer.go:158-172 | the chunk count is always at least two |
| QrTransfer.ChunkSizeFor | pkg/qrfiletransfer/qrfiletransfer.go:176 | the new maxChunkSize is the buffer size SplitFile uses for that count |
| QrTransfer.ChunkSizeBound | pkg/qrfiletransfer/qrfiletransfer.go:158-176 | the chunk size is at most 1000 bytes; at most 800 above 5000 bytes; at most 500 above 20000 bytes |
| QrTransfer.NumChunksMonotone | pkg/qrfiletransfer/qrfiletransfer.go:158-172 | a larger file never gets fewer chunks |
| QrTransfer.EstimatedVersion | pkg/qrfiletransfer/qrfiletransfer.go:88-107 | the estimated version lies in 1..40 |
| QrTransfer.VersionSteps | pkg/qrfiletransfer/qrfiletransfer.go:88-107 | below each threshold the version is at most that row's, from it on at least the next row's |
| QrTransfer.VersionMonotone | pkg/qrfiletransfer/qrfiletransfer.go:88-107 | more data never gives a smaller version |
| QrTransfer.ModuleCount | pkg/qrfiletransfer/qrfiletransfer.go:111 | a symbol has 21 to 177 modules per side, 17 plus a multiple of 4 |
| QrTransfer.Clamp | pkg/qrfiletransfer/qrfiletransfer.go:119-123 | the result lies in [lo, hi] when the bounds are ordered; a value inside is kept, one below becomes lo |
| QrTransfer.OptimalQRSize | pkg/qrfiletransfer/qrfiletransfer.go:74-126 | the image size lies within [minQRSize, maxQRSize] when those are ordered |
| QrTransfer.OptimalQRSizeMonotone | pkg/qrfiletransfer/qrfiletransfer.go:74-126 | a larger chunk never gets a smaller image |
| QrTransfer.DefaultQRSizes | pkg/qrfiletransfer/qrfiletransfer.go:41-42 | with the default bounds the size is max(400, 4 px per module) and at most 708; the 1600 cap is never reached |
| QrTransfer.ChosenQRSize | pkg/qrfiletransfer/qrfiletransfer.go:243-247 | with auto-adjust the size lies within the bounds; without it, it is qrSize |
| QrTransfer.SubDir | pkg/qrfiletransfer/qrfiletransfer.go:143 | `temp`, `qrcodes` and `data` are joined onto the cleaned directory, giving clean, non-empty paths |
| QrTransfer.StemOfJoined | pkg/qrfiletransfer/qrfiletransfer.go:220-221 | the stem of `dir/<stem><ext>` is `<stem>` |
| QrTransfer.ChunkNameRoundTrip | pkg/qrfiletransfer/qrfiletransfer.go:220-229 | fragment i's `.dat` name maps back to the same `.part` name in the temporary directory, read as index i |
| QrTransfer.PayloadParses | pkg/qrfiletransfer/qrfiletransfer.go:235-236 | the QR text `Chunk: <stem>\nData: <base64>` gives back the stem and the encoded data when the stem has no newline |
| QrTransfer.ParsePayloadExact | pkg/qrfiletransfer/qrfiletransfer.go:236 | whatever parses is exactly the payload of its parts |
| QrTransfer.EmitAdvance | pkg/qrfiletransfer/qrfiletransfer.go:212-258 | one round: a QR failure stops with an error; otherwise the image and the data file are written and the loop goes on |
| QrTransfer.RemoveAll | pkg/qrfiletransfer/qrfiletransfer.go:261 | the directory and everything below it disappear, nothing else changes |
| QrTransfer.EmitFrame | pkg/qrfiletransfer/qrfiletransfer.go:212-258 | the chunk loop writes nothing but the listed fragments' images and data files |
| QrTransfer.EmitWrites | pkg/qrfiletransfer/qrfiletransfer.go:212-258 | when the loop finishes, every fragment has its image and its data file |
| QrTransfer.EmitCopies | pkg/qrfiletransfer/qrfiletransfer.go:254-257 | with distinct stems, each data file holds exactly its fragment's bytes |
| QrTransfer.RestageFrame | pkg/qrfiletransfer/qrfiletransfer.go:294-313 | the data-file loop writes nothing but the `.part` copies |
| QrTransfer.RestageCopies | pkg/qrfiletransfer/qrfiletransfer.go:294-313 | with distinct stems, each `temp/<stem>.part` holds exactly its data file's bytes |
| QrTransfer.FirstKept | pkg/qrfiletransfer/qrfiletransfer.go:326-332 | returns an entry that is neither `.part` nor `.tmp`, or None when every entry is one of those |
| QrTransfer.FirstKeptLeast | pkg/qrfiletransfer/qrfiletransfer.go:321-332 | in the name-sorted listing, the entry found is the least such entry |
| QrTransfer.QRCodesToFileOk | pkg/qrfiletransfer/qrfiletransfer.go:284-318 | a successful run found data files and merged successfully |
| QrTransfer.CopyOutOk | pkg/qrfiletransfer/qrfiletransfer.go:334-353 | a successful copy found a rebuilt file and wrote it to a non-empty output path |
| QrTransfer.QRCodesToFileResult | pkg/qrfiletransfer/qrfiletransfer.go:274-356 | after success, an output path outside temp holds the least merged entry that is neither `.part` nor `.tmp` |
| QrTransfer.QRFileTransfer.constructor | pkg/qrfiletransfer/qrfiletransfer.go:35-45 | a new object has chunk size 2000, Medium recovery, 800 px, bounds [400, 1600], auto-adjust on |
| QrTransfer.QRFileTransfer.SetRecoveryLevel | pkg/qrfiletransfer/qrfiletransfer.go:48-50 | only the recovery level changes |
| QrTransfer.QRFileTransfer.SetQRSize | pkg/qrfiletransfer/qrfiletransfer.go:53-55 | only qrSize changes |
| QrTransfer.QRFileTransfer.SetMinQRSize | pkg/qrfiletransfer/qrfiletransfer.go:58-60 | only minQRSize changes |
| QrTransfer.QRFileTransfer.SetMaxQRSize | pkg/qrfiletransfer/qrfiletransfer.go:63-65 | only maxQRSize changes |
| QrTransfer.QRFileTransfer.SetAutoAdjustQRSize | pkg/qrfiletransfer/qrfiletransfer.go:68-70 | only the auto-adjust flag changes |
| QrTransfer.QRFileTransfer.EmitCodes | pkg/qrfiletransfer/qrfiletransfer.go:212-258 | the chunk loop, with the object's current settings |
| QrTransfer.QRFileTransfer.PublishChunks | pkg/qrfiletransfer/qrfiletransfer.go:195-265 | lists `.tmp` then `.part` fragments, emits them, then removes temp |
| QrTransfer.QRFileTransfer.SizeChunks | pkg/qrfiletransfer/qrfiletransfer.go:158-176 | the chunk count for the file size; only maxChunkSize changes, to the split's buffer size |
| QrTransfer.QRFileTransfer.FileToQRCodes | pkg/qrfiletransfer/qrfiletransfer.go:134-266 | the outcome is that of the specification for the starting settings: OpenFailed unless the path names an existing regular file; only maxChunkSize changes, to the split's buffer size |
| QrTransfer.QRFileTransfer.SplitAndPublish | pkg/qrfiletransfer/qrfiletransfer.go:179-265 | a split error is returned as is; otherwise the fragments are published |
| QrTransfer.QRFileTransfer.StageChunks | pkg/qrfiletransfer/qrfiletransfer.go:294-313 | the loop writes each `.dat` as `temp/<stem>.part` |
| QrTransfer.QRFileTransfer.FindReconstructed | pkg/qrfiletransfer/qrfiletransfer.go:321-332 | the first entry of the sorted listing that is neither `.part` nor `.tmp` |
| QrTransfer.QRFileTransfer.QRCodesToFile | pkg/qrfiletransfer/qrfiletransfer.go:274-356 | the outcome is that of the specification on the cleaned directory, for the fragment list discovery returns in temp |
| QrRoundTrip.FileThroughQRCodes | pkg/qrfiletransfer/qrfiletransfer_test.go:88-107 | FileToQRCodes and then QRCodesToFile, for any fragment order discovery gives: both succeed, and the output path holds the original bytes |
| QrRoundTrip.PublishedFragments | pkg/qrfiletransfer/qrfiletransfer.go:134-266 | FileToQRCodes succeeds; temp is gone, and `data` holds exactly one `.dat` per fragment, with that fragment's bytes |
| QrRoundTrip.RestoredFromPublished | pkg/qrfiletransfer/qrfiletransfer.go:274-356 | from such a published directory, QRCodesToFile succeeds and the output path holds the source |
| QrRoundTrip.StagedFromData | pkg/qrfiletransfer/qrfiletransfer.go:294-313 | the `.part` copies of the data files rebuild exactly what the split had left in temp |
| QrRoundTrip.MergeCopiesOut | pkg/qrfiletransfer/qrfiletransfer.go:316-353 | merging those copies succeeds, and the file copied out holds the source |
| QrRoundTrip.MergeLeavesResult | pkg/qrfiletransfer/qrfiletransfer.go:316-332 | after the merge, the rebuilt file holds the source and is the entry the ReadDir scan picks |
| QrRoundTrip.MergedFound | pkg/qrfiletransfer/qrfiletransfer.go:321-332 | after the merge, the rebuilt file is the first entry of temp that is neither `.part` nor `.tmp` |
| QrRoundTrip.CopyOutFound | pkg/qrfiletransfer/qrfiletransfer.go:334-353 | the entry found is copied to the output path's key, outside temp, and the copy succeeds |
| QrRoundTrip.StagedIsSplit | pkg/split/split.go:65-125 | a file system that holds the split's fragments in temp and agrees with the start elsewhere is the split's result |
| QrRoundTrip.SplitCarries | pkg/split/split.go:65-125 | after the split, each fragment file holds its fragment: header + first read for fragment 0, its read for the others |
| QrRoundTrip.PublishFacts | pkg/qrfiletransfer/qrfiletransfer.go:195-265 | publishing the split's fragments succeeds, empties temp, and leaves one data file per fragment, holding its bytes |
| QrRoundTrip.VisitedFragments | pkg/qrfiletransfer/qrfiletransfer.go:196-209 | the `.tmp` + `.part` listing is exactly the split's fragments, and their images and data files go to distinct paths |
| QrRoundTrip.SplitFilesOnly | pkg/split/split.go:97-125 | after a split into an empty directory, the directory's files are exactly the k fragments |
| QrRoundTrip.ChunkFilesAfterSplit | pkg/qrfiletransfer/qrfiletransfer.go:196-209 | the listing the publishing loop visits is the ascending `.part` listing, and it holds exactly the fragments |
| QrRoundTrip.EmitSucceeds | pkg/qrfiletransfer/qrfiletransfer.go:212-258 | when the QR encoder never fails and every listed fragment exists, the chunk loop succeeds |
| QrRoundTrip.FragmentsSeparate | pkg/qrfiletransfer/qrfiletransfer.go:220-229 | distinct fragments get distinct image and data paths |
| QrRoundTrip.PublishedCopy | pkg/qrfiletransfer/qrfiletransfer.go:254-261 | after the loop and the RemoveAll of temp, each fragment's data file holds that fragment's bytes |
| QrRoundTrip.PublishedOnlyData | pkg/qrfiletransfer/qrfiletransfer.go:212-258 | any file in `data` after publication is one of the fragments' data files |
| QrRoundTrip.StagedCopy | pkg/qrfiletransfer/qrfiletransfer.go:294-313 | each data file is copied to its fragment's `.part` path in temp |
| QrRoundTrip.StagedFrame | pkg/qrfiletransfer/qrfiletransfer.go:294-313 | the restaging loop writes nothing but those `.part` paths |
| QrRoundTrip.DataUnclashed | pkg/qrfiletransfer/qrfiletransfer.go:302-307 | distinct data files are restaged to distinct `.part` paths |
| QrRoundTrip.ChunkStemsDiffer | pkg/split/split.go:100 | distinct fragment files have distinct stems |
| QrRoundTrip.SplittableAgain | pkg/split/split.go:65-125 | the split conditions hold again once temp is empty, as after publication |
| QrRoundTrip.SomeDataFile | pkg/qrfiletransfer/qrfiletransfer.go:284-291 | a publication of at least one fragment leaves a `.dat` file, so QRCodesToFile does not stop for want of data files |
| Golden.SplitLines | pkg/testutils/golden.go:18 | strings.Split on newline gives at least one piece, none containing a newline |
| Golden.JoinSplit | pkg/testutils/golden.go:18 | joining the pieces with newlines gives back the text |
| Golden.SplitJoin | pkg/testutils/golden.go:18 | splitting newline-joined, newline-free lines gives back the lines |
| Golden.SplitTerminated | pkg/testutils/golden.go:49-62 | the builder's newline-terminated output splits into its lines and a final empty piece |
| Golden.TrimSpace | pkg/testutils/golden.go:24 | the trimmed line has no white space at either end |
| Golden.TrimSpaceParts | pkg/testutils/golden.go:24 | only white space is removed, and only at the two ends |
| Golden.TrimFixed | pkg/testutils/golden.go:24 | a line with no white space at either end is left as is |
| Golden.TrimIdempotent | pkg/testutils/golden.go:24 | trimming twice is trimming once |
| Golden.SortStrings | pkg/testutils/golden.go:46 | sort.Strings returns a permutation of its input |
| Golden.SortStringsSorted | pkg/testutils/golden.go:46 | the result is in ascending order |
| Golden.SortedUnique | pkg/testutils/golden.go:46 | two ascending lists with the same elements (counted) are equal |
| Golden.SortOrderFree | pkg/testutils/golden.go:54 | the sorted list depends only on the multiset of strings |
| Golden.SortIdempotent | pkg/testutils/golden.go:54 | sorting sorted strings changes nothing |
| Golden.SortSetNames | pkg/testutils/golden.go:42-46 | sorting the map's keys, in whatever order they were visited, gives them in ascending order |
| Golden.PropertyStep | pkg/testutils/golden.go:35-37 | a property under an open section is appended to it, trimmed |
| Golden.HeaderStep | pkg/testutils/golden.go:30-34 | a header opens its section, keeping what the section already holds |
| Golden.GroupConcat | pkg/testutils/golden.go:23-39 | grouping runs line by line, so the input can be cut anywhere |
| Golden.GroupLines | pkg/testutils/golden.go:19-39 | the loop builds exactly the section map of the lines |
| Golden.RenderStep | pkg/testutils/golden.go:50-60 | each section appends its header, its sorted properties and an empty line |
| Golden.WriteLines | pkg/testutils/golden.go:56-58 | the builder receives each line followed by a newline |
| Golden.RenderSections | pkg/testutils/golden.go:49-62 | the builder loop produces the rendering of the sections in the given order |
| Golden.NormalizeSystemdUnitContent | pkg/testutils/golden.go:17-63 | the method returns the normal form: sections in ascending header order, properties sorted, each section followed by an empty line |
| Golden.NoHeadersEmpty | pkg/testutils/golden.go:35 | text without any header line normalises to the empty string |
| Golden.LeadingPropertiesDropped | pkg/testutils/golden.go:21-38 | properties before the first header are dropped |
| Golden.SectionKeys | pkg/testutils/golden.go:30-34 | the sections are exactly the trimmed header lines, empty and repeated ones included |
| Golden.RenderOrderFree | pkg/testutils/golden.go:42-60 | the output depends only on the sections and the multiset of each one's properties |
| Golden.PropertiesCommute | pkg/testutils/golden.go:35-60 | swapping two neighbouring property lines does not change the output |
| Golden.SectionsCommute | pkg/testutils/golden.go:23-60 | swapping two neighbouring whole sections does not change the output |
| Golden.AppendsCommute | pkg/testutils/golden.go:37 | adding properties to two sections commutes, up to the order within a section |
| Golden.BlocksCommute | pkg/testutils/golden.go:23-39 | two sections in either order give the same sections |
| Golden.StepReachable | pkg/testutils/golden.go:23-39 | grouping keeps every key a clean header and every property clean, non-empty and not a header |
| Golden.Expected | pkg/testutils/golden.go:49-60 | the sections the rendered names contribute: those names with sorted properties, the rest unchanged |
| Golden.RenderedSections | pkg/testutils/golden.go:17-63 | reading the normal form back gives the same sections, with the same properties |
| Golden.NormalizeIdempotent | pkg/testutils/golden.go:17-63 | normalising normalised text changes nothing |
| Golden.CompareWithGoldenFile | pkg/testutils/golden.go:68-115 | update writes the file under its cleaned path and answers true, or answers false for a path that names no regular file (the empty path, a trailing `/`, `.`, `..`); a missing golden file gives false; `.service`/`.timer`/`.target` goldens are compared after normalising, others byte for byte |
| Golden.UpdateThenCompare | pkg/testutils/golden.go:79-114 | after an update, comparing the same content succeeds |
| Golden.UnitGoldenIgnoresOrder | pkg/testutils/golden.go:97-108 | a unit golden matches content with the same sections and properties in any order |
| Golden.UnitGoldenMatchesNormalized | pkg/testutils/golden.go:97-108 | a unit golden matches its own normal form |

## Left out

- **Directories.** Directories are implicit. `os.MkdirAll` always succeeds, and a write never fails for a missing parent directory. Listing a directory that does not exist gives an empty listing, where `os.ReadDir` fails; only the empty path fails. A directory entry named like a fragment is not modelled, so the `IsDir` checks are not modelled either.
- **Path spellings.** Paths are compared after lexical cleaning only. There is no working directory, so `a` and `/cwd/a` are different files.
- **I/O errors.** I/O errors other than a missing file, or a path that names no regular file (the empty path, or one ending in `/`, `.` or `..`), are not modelled. Those are failed `Stat`, `Read`, `Write`, `Seek`, `Close`, `Remove` and `RemoveAll` calls, permission errors and full disks. Errors from deferred closes and printed warnings have no effect on the model.
- **Glob patterns.** `filepath.Glob` is modelled for directories without pattern metacharacters (`*`, `?`, `[`). A directory containing one of them is matched literally.
- **Outside code.** SHA-256, gob encoding and decoding, base64, the QR encoder and the PNG writer are parameters, and so are `time.Now()` and `int(float64(n) * 1.34)`. Nothing is assumed about them beyond a 32-byte digest. The command line, video and the qrcode package are not part of this model.
- **The split object.** `NewSplit` and the empty `Split` struct carry no state and are not modelled.
- **Slice aliasing.** The slots of `SplitData` alias the encoded buffer; the model copies them.
- **Sort order.** `sort.Slice` is not stable. `Discovery.CheckFiles` may return any order among fragments with equal indices, and `Merger.MergeFile` is proved for every such order.
- **Symbolic links, file modes and permissions** are not modelled.
- **Test failures.** `t.Fatalf` and `require.Equal` are modelled as the false answer `CompareWithGoldenFile` then returns.
- **Other helpers.** `ReadGoldenFile`, `UpdateGoldenFile` and `AssertFileMatchesGolden` are not part of this model.
- **Reading while writing the same file.** `io.Copy` from a file into itself, when there is something left to read, is modelled only by its outcome: the copy error, with the file left in place. This covers the split's temporary file (`Splitter.Inject`) and a merge whose output is a fragment (`Merger.CopyFrom`). When nothing is left to read, the copy adds nothing and goes on, in Go and in the model.
- **Merger.CopyFrom, Merger.MergeSpec and Merger.MergeFile:** when the output is a fragment with bytes left to read at its turn, the output's contents after the failed copy are stated as the payloads copied before it. The bytes `io.Copy` appends before a write fails depend on when the disk fills.
- **Splitter.Inject:** when the `.part` name is the temporary file itself, the file's contents after the failed copy are stated as the header alone. The appended bytes depend on when the disk fills.
- **Merger.MergeSpec and Merger.MergeFile:** create the output only for a header name that is one path element other than `.` and `..`. They report `CreateFailed` for a name with a separator, such as `sub/x` or `../x`. `os.Create` of the joined path can succeed for those, also outside the input directory.
- **Golden.TrimSpace:** removes ASCII white space only (tab, newline, vertical tab, form feed, carriage return, space). It does not remove Unicode white space such as U+0085 or U+00A0.
- **Splitter.SplitWrites:** covers only sources where the first `part` in fragment 0's path is its extension. Every other case, where that `part` lies in the directory or in the stem, fails, as `Splitter.SplitFailsOnItself` states.
- **RoundTrip.SplitThenMerge:** requires every condition of `RoundTrip.Splittable`:
  - a non-empty source whose size fits an int64;
  - a requested count of at least two;
  - at most 10000 fragments actually written (the requested count may be larger);
  - a clean output directory;
  - no earlier fragment files in that directory;
  - a source base name that is one element other than `.` and `..`;
  - a source base name of at most 46 bytes, with no NUL at either end;
  - the first `part` of fragment 0's path being its extension.

  Outside those conditions the merge may read a truncated name, take stray fragments or fail to create the output, and the lemma says nothing.
- **QrRoundTrip.FileThroughQRCodes:** requires, besides every condition of `RoundTrip.Splittable` for `outDir/temp`:
  - `outDir/temp` and `outDir/data` hold no file beforehand;
  - the QR encoder succeeds on every text;
  - the source's name does not end in `.part` or `.tmp`, so the rebuilt file is found after the merge;
  - the output path names a regular file outside `outDir/temp`, which the deferred `RemoveAll` would delete.

  Outside those conditions stray data files, a QR failure or a lost output can change the outcome, and the lemma says nothing.
- **QrTransfer.QRCodesToFileResult:** assumes the output path lies outside the temporary directory. Otherwise the deferred `RemoveAll` deletes the copy.
- **Splitter.SplitFile and QrTransfer.QRFileTransfer.FileToQRCodes:** require the file size to fit in an int64, as `Stat` reports it.
