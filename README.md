# FAT32 photo carver, modelled in Dafny

The program recovers photos from a raw dump of a FAT32 memory card without
walking the file system. It finds the volume ID (boot) sector by testing
every 512-byte sector against four BPB (BIOS parameter block) fields. From
that sector it derives the cluster size and the number of whole clusters in
the dump. It then classifies every cluster as a photo head or not, by the
camera name "Canon EOS 600D" at two fixed offsets or the Exif identifier at
offset 6. Finally it writes the clusters from each head up to the next head
into a new file.

The dump is an immutable `seq<byte>`. Every read from it is a slice.
The output directory is an `Extraction.OutputSink` object. It has the list
of files written, in creation order (`files[k]` is `file_k.jpg`), and the
global counter `file_count` as the field `fileCount`.

Modules, one per component of `fat_reader.cpp`:

- `FieldDecoder` (`field_decoder.dfy`): `interpret_as_int` and
  `interpret_as_string`, the little-endian value and its inverse, and the
  shared `Failure` and `Result` types.
- `VolumeId` (`volume_id.dfy`): the boot-sector fields, the acceptance
  heuristic `get_fat_volumeID_information`, and the sector-by-sector search
  loop in `main`.
- `ClusterGeometry` (`geometry.dfy`): cluster size and cluster count.
- `ImageHead` (`image_head.dfy`): `cluster_is_image_head` and the
  disk-analyze loop that collects head clusters.
- `Extraction` (`extraction.dfy`): `write_clusters_to_file`,
  `retrieve_image` and the retrieval loop of `main`.
- `Recovery` (`recovery.dfy`): `main` from the file size on, as one method.

Failures. The C program asserts that every `fread` returns all the bytes it
asked for, and its callers do not always keep to that: a read can run past
the end of the dump. In the model the field decoders and
`write_clusters_to_file` require the read to fit. The two loops that can
reach a short read test it first and stop with `Err(ReadPastEnd(offset))`:

- the boot-sector search, when the dump length is not a multiple of 512 and
  no earlier sector was accepted;
- the cluster scan, when a cluster is shorter than the 0x619 bytes that the
  three head tests read, near the end of the dump.

A sectors-per-cluster field of 0 makes the division at `fat_reader.cpp:229`
divide by zero. It is modelled as `Err(ZeroClusterSize)`.

Three behaviours of the code that a reader might not expect, all kept in
the model:

- The search is not limited to the first 100,000,000 bytes. The constant
  `VOLUME_ID_SEARCH_LIMIT` is declared but never used, so the loop runs to
  the end of the dump.
- The camera name then five non-NUL bytes at 0xA4 does not match. The
  19-byte read is cut only at a NUL, so that text is 19 bytes long and is
  not equal to the 14-byte name.
  `ImageHead.TrailingTextDefeatsCameraMatch` proves this.
- `interpret_as_int` puts the bytes into an `int` through a union. So a
  four-byte field with its top bit set reads as a negative number.
  `FieldDecoder.AsInt32` models this two's-complement reading. None of the
  decisions depends on it, because the only four-byte field the heuristic
  looks at is compared with 2.

## Model

| member | source | states |
|---|---|---|
| `FieldDecoder.InterpretAsInt` | fat_reader.cpp:39-61 | copying the bytes read into the low bytes of a zeroed four-byte word and reading the word back gives exactly the value `IntAt` specifies |
| `FieldDecoder.IntAt` | fat_reader.cpp:39-61 | for a read of up to three bytes the result is the unsigned little-endian value and is below 256^n; for any width it is a signed 32-bit value congruent to that unsigned value modulo 2^32 |
| `FieldDecoder.AsInt32` | fat_reader.cpp:20-23 | the word read back through the union is the one value in [-2^31, 2^31) congruent to the unsigned word modulo 2^32, and it is negative exactly when the top bit is set |
| `FieldDecoder.LittleEndianAppend` | fat_reader.cpp:50-60 | byte i of the field weighs 256^i: the value of s + t is value(s) + 256^(length of s) · value(t), which is the sum Σ s[i]·256^i |
| `FieldDecoder.ZeroExtension` | fat_reader.cpp:51-57 | zero bytes above the bytes read leave the value unchanged |
| `FieldDecoder.LittleEndianBound` | fat_reader.cpp:51-57 | the value of n bytes is below 256^n |
| `FieldDecoder.DecodeEncode` | fat_reader.cpp:50-60 | every value below 256^n is the decoded value of its n-byte little-endian encoding |
| `FieldDecoder.EncodeDecode` | fat_reader.cpp:50-60 | encoding the decoded value in the same width gives back the bytes read, so no two fields decode to the same value |
| `FieldDecoder.UntilNul` | fat_reader.cpp:33-36 | the result is a prefix of the buffer with no NUL in it, and the buffer ends or has a NUL right after it: the longest NUL-free prefix |
| `FieldDecoder.InterpretAsString` | fat_reader.cpp:25-37 | the text read is at most n bytes long, equals the dump's bytes from the offset, has no NUL, and is followed by a NUL when it is shorter than n |
| `FieldDecoder.UntilNulOfTerminated` | fat_reader.cpp:33-36 | a NUL-free prefix that is followed by a NUL or by the end of the buffer is the text the buffer yields |
| `FieldDecoder.TextMatches` | fat_reader.cpp:25-37 | the text read equals a NUL-free literal exactly when the literal's bytes are at the offset and the read ends right after them, at a NUL or at the read width |
| `VolumeId.GetVolumeIdInformation` | fat_reader.cpp:70-106 | the result is the index of the sector holding the offset when the four field tests pass, and -1 exactly when they do not |
| `VolumeId.AcceptedBytes` | fat_reader.cpp:75-85 | a sector is accepted exactly when it has 0x55 0xAA at 0x1FE, 0x00 0x02 (512) at 0x0B, 2 at 0x10 and 0x02 0x00 0x00 0x00 at 0x2C |
| `VolumeId.FindVolumeIdSector` | fat_reader.cpp:199-211 | a found sector is accepted and every earlier sector is rejected; -1 comes back exactly when the length is a multiple of 512 and no sector is accepted; a read past the end happens only at the partial last sector, after every whole sector was rejected |
| `ClusterGeometry.ComputeGeometry` | fat_reader.cpp:225-229 | the cluster size is 512 times sectors per cluster, and the cluster count c satisfies c · size ≤ file size < (c + 1) · size |
| `ClusterGeometry.ClusterInsideDump` | fat_reader.cpp:229-235 | every cluster with an index below the cluster count lies completely inside the dump |
| `ImageHead.ImageHeadBytes` | fat_reader.cpp:132-142 | `ClusterIsImageHead` holds exactly when the 14 bytes of "Canon EOS 600D" and then a NUL are at 0xA4 or at 0x606, or the bytes "Exif" are at 6 |
| `ImageHead.TrailingTextDefeatsCameraMatch` | fat_reader.cpp:134-135 | a non-NUL byte right after the camera name at 0xA4 makes that test fail, because the 19-byte read is then longer than the name |
| `ImageHead.ScanForImageHeads` | fat_reader.cpp:231-242 | the scan succeeds exactly when every cluster can be classified, and otherwise stops with a read past the end; on success the heads are strictly increasing and below the cluster count, a cluster is in the list exactly when it is a head, and the detection count equals the list's length |
| `Extraction.RunsShape` | fat_reader.cpp:174-182 | m heads give m - 1 files, zero for one head or none, and file k is the run from head k to head k + 1 |
| `Extraction.RunsSnoc` | fat_reader.cpp:245-249 | each further head adds exactly one file, the run from the previous last head to it |
| `Extraction.ClusterRunContents` | fat_reader.cpp:156-168 | the run between heads a < b holds (b - a) · cluster size bytes, and its byte j is dump byte a · cluster size + j |
| `Extraction.ClusterRunExtend` | fat_reader.cpp:156-168 | copying one more cluster appends exactly that cluster's bytes to the run |
| `Extraction.RunsTileSpan` | fat_reader.cpp:245-249 | for increasing heads, the files laid end to end are exactly the dump bytes from the first head's cluster to the last head's cluster, with nothing lost or repeated |
| `Extraction.OutputSink.constructor` | fat_reader.cpp:14 | the output starts with no files and the file counter at 0 |
| `Extraction.OutputSink.WriteClustersToFile` | fat_reader.cpp:145-172 | the counter goes up by exactly one, and exactly one new file is appended, holding the bytes of clusters c_start up to c_end (empty when the range is empty); earlier files are unchanged |
| `Extraction.OutputSink.RetrieveImage` | fat_reader.cpp:174-182 | the last head writes nothing; any other head k writes one file with the run from head k to head k + 1 |
| `Extraction.OutputSink.RetrieveAll` | fat_reader.cpp:244-249 | after the loop the files written are exactly `Runs` of the head list, appended after the earlier files, and the counter equals the number of files |
| `VolumeId.FirstVolumeIdUnique` | fat_reader.cpp:199-211 | the search has at most one answer: two sectors that are each accepted with no accepted sector before them are the same sector |
| `Recovery.SectorsPerClusterAt` | fat_reader.cpp:217 | the one-byte sectors-per-cluster field of the found sector reads as the byte at offset 0x0D |
| `Recovery.RecoverImages` | fat_reader.cpp:195-252 | "no volume ID" comes back exactly when no whole sector is accepted and none is partial; the photos are extracted exactly when the first accepted sector has a nonzero sectors-per-cluster field and every cluster it counts can be classified, and then the geometry comes from that field, the heads are the increasing list of head clusters and the new files are the runs between them; a zero cluster size is reported only when that field of the first accepted sector is 0; a read past the end only at a partial last sector after every whole sector was rejected, or at a counted cluster that cannot be classified; on every outcome but extraction no file is written |

## Left out

- File I/O (`fopen`, `fseek`, `fread`, `fwrite`, `fclose`, `calloc`, `free`): reads are slices of the dump and writes are appends to `OutputSink.files`. A failed `fopen` is not modelled.
- `get_file_size` (fat_reader.cpp:108-114): the file size is `|dump|`.
- All diagnostics on `cout` and `cerr`, including the floating-point progress percentage and the field listing of an accepted sector.
- Command-line handling (fat_reader.cpp:187-191): the dump is a parameter.
- The file names built with `sprintf`: a file's number is its position in `OutputSink.files`.
- The reserved-sector and sectors-per-FAT fields, and the second reads of FAT count, root cluster and signature at fat_reader.cpp:218-222: no decision uses them.
- C `int` width of offsets and products: `get_fat_volumeID_information` and the decoders take an `int` offset, and `cluster_iter * cluster_size` is an `int` product. Both would overflow on dumps of 2 GiB or more. The model uses unbounded integers.
- Builds with assertions disabled: the model assumes the length assertions are active, so a short read stops the program.
- Write failures: the model assumes every write succeeds.
