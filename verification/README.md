# QCOW2 core: verified model

A Dafny model of the `core` crate of a read-only QCOW2 library: the strict reader, positioned reads
over it, header parsing, the refcount/orphan scan and the snapshot table. `dafny verify dfyconfig.toml`
checks the whole project.

## What is modelled

The central idea is that an image *is* one function from guest offsets to cells (`Mapping.Cells`): a
cell is a byte, a hole where a data cluster runs past the end of the file, or a fault (unreadable
table entry, unreachable position, stream that does not inflate). It is stated with division,
remainder and bit fields. The reader, a class with a cursor over a backing with its own cursor, works
with shifts and masks over machine words and is proved to serve exactly those cells, for every
schedule of short reads and every failure of the backing.

What the cells, the report, the header facts and the snapshots *are* is fixed from the other side: the
`Written...` modules start from an encoder that knows nothing of the readers and prove that a file in
which a disk, refcounts, header fields or snapshots were written yields exactly those.

| module | content |
|---|---|
| `Bits`, `Bytes` | machine words, `&`, `\|`, `<<`, `>>` bit by bit and as arithmetic; big-endian fields |
| `Io` | an arbitrary seekable source with short reads and failures; a regular file |
| `Header` | strict and lenient header parsing, the header-extension walk and its encoder |
| `Mapping` | the meaning of an image: address split, L2 entries, cells, the guest disk |
| `Cursor`, `Runs` | what one call may do to the cursor; whole runs of seeks and reads |
| `Reader`, `Vfs` | the reader and the positioned-read wrapper, as classes |
| `Compressed` | the compressed-cluster descriptor, and how it relates to the format specification |
| `Packing`, `Refcount` | refcounts packed at seven widths, and their two-level lookup |
| `BitOrder` | the order of sub-byte refcounts, the program's against the format specification's |
| `Scan`, `Agreement` | the orphan scan, and when it sees what the reader serves |
| `Snapshots` | the snapshot table: enumeration, truncation, round trip |
| `Layout` | writing a file: the header field by field, tables word by word |
| `WrittenHeaders`, `WrittenDisks`, `WrittenCounts`, `WrittenSnapshots` | what is written is what is read: opening and header facts, the guest disk, the scan's report, the snapshot table |
| `PlainDisks` | a file for every guest byte string |
| `Files` | small files, byte by byte, on which the findings below can be seen |

Parameters of the model: raw deflate is a function `Inflate` from byte strings to an optional byte
string, lossy UTF-8 decoding is a function `Utf8`, and the largest position a source can be seeked to
is `seekLimit`. `usize` is taken to be 64 bits wide. Words are subset types of the integers, so every
assignment to a `u64` carries a proof that nothing overflows; where the program does wrap, the model
says so (`Cursor.Wrap`, `Bits.Shl`). Whether the build panics on arithmetic overflow is a field of the
reader (`overflowChecks`); it matters to `seek` alone.

## Findings

Places where the code differs from its documentation, from the format specification, or from what a
reader might assume. Each has a lemma that says exactly when the two coincide.

- **Seeking.** `seek` casts to `i64` and adds. A relative request from 2^64 on is not
  refused: the casts lose a multiple of 2^64 and the cursor lands near the start of the disk, in every
  build (`Cursor.SeekPastHugeDiskWraps`). The sum itself overflows exactly when a relative request
  crosses 2^63 in either direction (`Cursor.OverflowCrossesSignBit`); a build without overflow checks
  then still does the right thing, a build with them panics (`Cursor.CheckedSeekPanics`: position 1,
  asking for 2^63). `Cursor.SeekIsExact` puts the two together: the seek is exact if and only if the
  request is below 2^64 and, in a checked build, does not cross 2^63.
- **Descriptor split.** The code, like the decision record 0004, splits a compressed descriptor at bit
  `63 - cluster_bits`; "Cluster mapping" in the QEMU QCOW2 image format specification puts the split
  at `62 - (cluster_bits - 8)`. `Compressed.StandardDescriptor`: the two name the same offset exactly
  when the specification's offset is below `2^(63 - cluster_bits)`, and then the code's window is never
  shorter. `Compressed.StandardOffsetLost` is a descriptor outside that range.
- **Length of inflated clusters.** Decision record 0004 (line 38) asks for an error unless a stream
  inflates to exactly one cluster, and the implementation notes (lines 74 to 81) describe what happens
  otherwise: past the end of the file the decoder is handed no bytes, accepts them, and the reader
  returns zeros. The code does just that, pads short output with zeros and ignores excess.
  `Compressed.PolicyDiffers`: with a decoder that accepts empty input, the code departs from the record
  exactly at entries that point past the end of the file or at a stream of the wrong length.
  `Files.LostClusterReadsZero` is a 120-byte file that opens and on which it does.
- **Sub-byte refcounts** are read most significant bits first; "Host cluster management" numbers the
  bits of a refcount block from the least significant one. `BitOrder.LookupIsMirrored`: the program's
  refcount of a cluster is the specification's refcount of the cluster in the mirrored slot of the same
  byte. `BitOrder.LookupsAgree` and `BitOrder.VerdictsAgree` say exactly when the two agree on a refcount
  and on an orphan verdict, in terms of the stored byte: its slot reads the same, or is zero, from both
  ends. From 8 bits on they always agree. `BitOrder.ByteAgrees` is the condition for a whole byte, and
  `Files.FalseOrphanReported` is a file whose report shows one orphan that the specification counts as
  in use.
- **Reserved bits and cut tables.** The reader masks an L2 entry with 62 bits, the scan with bits 9 to
  55; the reader reads one entry of a table, the scan loads all of it or nothing. `Agreement.SlotsAgree`
  gives, slot by slot and below table pointers with clear reserved bits, the exact condition under which
  they see the same data cluster.
  `Agreement.StrayBitDisagrees`, `Files.StrayPointerOpens` and `Files.CutTableUncounted` are an entry, a
  file with a stray bit in a table pointer and a file with a table cut off by its end on which they do
  not: from a cut table the reader serves the entries that are left while the scan counts none of them.
- **L1 position 0.** The reader takes an L1 table at position 0 from the header's own bytes, the scan
  takes no table. `Agreement.SameL1`: for an image that opens, the two have the same L1 table exactly when
  its position is nonzero or it is empty. `Files.HeaderAsTableDisagrees` is a file that is nothing but a
  header, whose third word the reader takes for a table pointer; the report counts nothing.
- **Extra data of snapshots.** A record with more than 65536 bytes of extra data is not refused: the
  length is cut, and id and name are taken from inside the extra data. `Snapshots.OversizedExtra` says
  what is reported, `Snapshots.ReadBackIffWithinCap` that a record comes back as itself exactly when its
  extra data is within the cap.

## Model

| member | source | states |
|---|---|---|
| Bytes.DecodeEncode | core/src/header.rs:20-35 | decoding a big-endian word inverts encoding it, at every width it fits |
| Bytes.EncodeDecode | core/src/header.rs:20-35 | encoding inverts decoding on every byte string |
| Layout.FieldsOfFile | core/src/header.rs:20-35 | every field of a written version-2 header reads back from its place in the file |
| Layout.MoreFieldsOfFile | core/src/header.rs:83-89 | so does every field version 3 adds, as far as the file goes |
| Layout.StandingTable | core/src/lib.rs:126-136 | a written list of words reads back as a table |
| WrittenHeaders.StrictOnWritten | core/src/header.rs:46-97 | the strict parser takes exactly the written headers with no reason for refusal, and otherwise fails with the first reason in program order, unsupported feature bits named |
| WrittenHeaders.OpeningOfWritten | core/src/lib.rs:102-147 | opening a file with a written header: the header's error, the oversized L1 table, the unreachable or cut table, or the image that was written |
| WrittenHeaders.OpensIff | core/src/lib.rs:102-147 | a file opens if and only if magic, version, backing offset, cluster bits, encryption, incompatible features, L1 size and L1 position, as written, allow it |
| WrittenHeaders.ShortFileRefused | core/src/header.rs:47-49 | a file under 72 bytes is refused whatever it holds |
| WrittenHeaders.InfoOfWritten | core/src/header.rs:134-197 | every lenient fact of a written header of version 1, 2 or 3, field by field, and the errors |
| WrittenHeaders.NameRoundTrip | core/src/header.rs:211-222 | a written backing-file name comes back, cut to 4096 bytes |
| Io.Backing.ReadWindow | core/src/lib.rs:53-62 | for every schedule of short reads, a success holds exactly the window of the source at the cursor, clipped at its end; a reliable source always succeeds |
| Reader.Qcow2Reader.FromBacking | core/src/lib.rs:102-147 | opening yields a reader of exactly the image the bytes determine, and on a reliable backing fails exactly when, and with the error that, the bytes call for |
| Reader.Qcow2Reader.LoadL1 | core/src/lib.rs:125-136 | the L1 table is the big-endian words at its offset, present exactly when the seek is possible and all of it lies in the file |
| Reader.Qcow2Reader.Locate | core/src/lib.rs:156-159 | the two shifts and the mask yield the L1 and L2 index of repeated division |
| Reader.Qcow2Reader.ReadEntry | core/src/lib.rs:167-171 | a success is the big-endian word at the position; a reliable backing fails exactly past the end of the file |
| Reader.Qcow2Reader.ClusterRefFor | core/src/lib.rs:155-205 | shifts and masks resolve each offset as repeated division does, without overflow, whatever the tables hold |
| Reader.DecodeEntry | core/src/lib.rs:173-204 | the mask-and-shift classification of an L2 entry is its reading as bit fields |
| Reader.DecodeDescriptor | core/src/lib.rs:181-190 | the two masks of the descriptor are its low field and the field up to bit 61 |
| Reader.DescriptorMasks | core/src/lib.rs:182-185 | for every cluster size the offset mask is a remainder and the shifted count mask a bit field |
| Mapping.DecodeL2 | core/src/lib.rs:173-204 | data clusters lie below 2^62, compressed offsets below 2^(63-cluster_bits), and a compressed request is 512 to 2^(cluster_bits+8) bytes |
| Mapping.AddressBijection | core/src/lib.rs:156-159 | offsets and in-range (L1, L2, within) triples correspond one to one |
| Mapping.CellOnFile | core/src/lib.rs:155-287 | the meaning of a guest offset read off the file in one go: L1 slot, L2 entry, place; an entry that is not all there is a fault, a byte behind the file a hole |
| WrittenDisks.EntryDecodes | core/src/lib.rs:173-204 | a written entry, stored, zero-flagged, packed or absent, is read as what was written |
| WrittenDisks.PieceResolves | core/src/lib.rs:155-205 | every guest offset is resolved to the piece written for its cluster, and past the tables to none |
| WrittenDisks.WrittenDiskIsServed | core/src/lib.rs:102-287 | write, then read: a file in which a guest string is laid out cluster by cluster, each stored, zero-flagged, compressed or absent, opens, is well-formed, and its guest disk is that string |
| WrittenDisks.OpenAndRead | core/src/vfs.rs:47-69 | opening such a file and reading at any offset returns that slice of the string |
| PlainDisks.EveryDiskIsServed | core/src/lib.rs:102-287 | for every guest string, at every cluster size, there is a file that opens and serves it |
| Mapping.SparseReadsZero | core/src/lib.rs:161-165 | corollary of the definitions: offsets past the L1 table or under an empty slot hold zero bytes |
| Mapping.WellFormedIffHosted | core/src/lib.rs:264-283 | corollary of the definitions: every offset holds a byte if and only if every table entry can be read and leads into the file, to a stream that inflates, or nowhere |
| Reader.Qcow2Reader.DecompressCluster | core/src/lib.rs:213-239 | the fill loop hands the decoder exactly the clipped window, and the result is at least one cluster, padded with zeros |
| Reader.Qcow2Reader.PlanRead | core/src/lib.rs:259-262 | one read stops at the first of buffer end, disk end and cluster end, and is never empty by then |
| Cursor.ReadLimitIsLargest | core/src/lib.rs:259-262 | the limit of one read is the largest number of bytes that fit the buffer, the disk and the cluster |
| Reader.Qcow2Reader.ReadCluster | core/src/lib.rs:264-283 | what is delivered is what the cells of the cluster hold; only a data cluster may fall short; bytes outside the request are kept |
| Reader.Qcow2Reader.Read | core/src/lib.rs:254-287 | a read delivers the cells from the cursor on and moves by that much; an empty one inside the disk means end of file; a failed one keeps the cursor and, on a reliable backing, means a fault |
| Reader.Qcow2Reader.Seek | core/src/lib.rs:291-305 | a seek obeys the seek relation of its build: panic on an overflowing sum where that is checked, else refuse a negative target, else move; it changes the cursor only |
| Cursor.OverflowCrossesSignBit | core/src/lib.rs:293-295 | the signed sum overflows if and only if a relative request crosses 2^63 from its base |
| Cursor.SeekIsExact | core/src/lib.rs:291-305 | in either build: the seek lands on the requested position, or refuses, if and only if that is below 2^64 and does not cross 2^63 under overflow checks; a checked crossing panics and keeps the cursor; a request from 2^64 on lands 2^64 lower |
| Cursor.SeekPastHugeDiskWraps | core/src/lib.rs:295 | in every build, one byte past the end of a disk of 2^64-1 bytes is byte 0 |
| Cursor.CheckedSeekPanics | core/src/lib.rs:294 | from position 1, moving by 2^63-1 panics in a checked build and is refused in the other |
| Runs.Perform | core/src/lib.rs:253-306 | any sequence of calls on a reader, over any backing and in either build, is a run from its cursor to its cursor |
| Runs.StepIsIdeal | core/src/lib.rs:253-306 | on a well-formed image every call from a signed position is a step of a cursor over the guest byte string |
| Runs.RunSimulation | core/src/lib.rs:253-306 | so is every call of every run: same positions, prefixes of what is ahead, empty only at the end or for an empty buffer, exact seeks or, under overflow checks, a panic on relative requests from 2^63 on |
| Runs.ReadsReassemble | core/src/lib.rs:254-287 | on any image and any backing, consecutive reads return the cells between first and last position, none skipped and none repeated |
| Runs.ReadToEnd | core/src/lib.rs:254-287 | on a well-formed image, reading until an empty read yields the rest of the guest disk |
| Runs.ReadRest | core/src/lib.rs:254-287 | on a well-formed image and a reliable backing, reading in chunks until an empty read terminates, with exactly the rest of the guest disk and the cursor at its end |
| Runs.EndIsDiskEnd | core/src/lib.rs:255-262 | reads never take the cursor past the disk |
| Runs.RunsAgree | core/src/lib.rs:254-287 | two runs that deliver the same guest offset deliver the same byte, whatever failed or was short in either |
| Vfs.Qcow2Source.constructor | core/src/vfs.rs:33-39 | the recorded length is the virtual disk size |
| Vfs.Qcow2Source.ReadAt | core/src/vfs.rs:47-69 | a positioned read is a function of the cells alone: for any cursor, schedule or failure, a success returns exactly the determined length and bytes, and a reliable backing fails only where that is determined |
| Vfs.Qcow2Source.Fill | core/src/vfs.rs:58-68 | the same for the fill loop, started at the right cursor |
| Vfs.Qcow2Source.ReadMore | core/src/vfs.rs:60-66 | one round of the loop appends cells, and an empty or failed one says what stands at the cursor |
| Vfs.PositionedReadMeans | core/src/vfs.rs:47-69 | a positioned read of n bytes means n byte cells followed by the end of the request or of the disk or a hole in the file, below 2^63, and nothing past the disk's end |
| Vfs.WellFormedReadsFull | core/src/vfs.rs:47-69 | on a well-formed image it succeeds with exactly guest[offset .. offset+min(len, available)] |
| Vfs.ReadsCompose | core/src/vfs.rs:49-68 | after a full read of a bytes, reading b more where it ended agrees with one read of a+b, in success and in length, whether or not the disk ends there; only where that is inside the disk at 2^63 or beyond is the second read refused |
| Vfs.RunEndsAt | core/src/vfs.rs:58-68 | a delivered run that cannot be extended is the longest run of byte cells |
| Compressed.EncodeIsSum | core/src/lib.rs:635-639 | the or of flag, shifted count and offset is their sum: no bits collide |
| Compressed.DescriptorPartition | core/src/lib.rs:181-185 | offset, count and the two top bits partition the 64-bit entry |
| Compressed.DecodeOfEncode | core/src/lib.rs:173-191 | decoding inverts the encoder for every offset below 2^(63-cluster_bits) and every count 1 to 2^(cluster_bits-1) |
| Compressed.EncodeOfDecode | core/src/lib.rs:173-191 | encoding inverts decoding on every compressed entry with a clear top bit |
| Compressed.StandardDescriptor | core/src/lib.rs:178-186 | the offset is the specification's if and only if that fits below the code's split, and then the window has 128 sectors per additional one, plus one, and covers the specification's |
| Compressed.StandardSplit | core/src/lib.rs:182-185 | the seven bits between the two splits are the specification's top offset bits and the code's low count bits |
| Compressed.StandardOffsetLost | core/src/lib.rs:182-184 | a descriptor whose specified offset the code does not find |
| Compressed.StandardClusterIsServed | core/src/lib.rs:213-239 | where the specification's window holds a whole stream, whatever follows it, the cluster served is the one the specification defines |
| Compressed.PastEndReadsZero | core/src/lib.rs:222-237 | an entry that points past the end of the file reads as zeros where decision record 0004 demands an error |
| Compressed.PolicyDiffers | core/src/lib.rs:222-237 | with a decoder that accepts empty input, the code departs from the record at an offset if and only if its entry points past the end of the file or at a stream that is not one cluster long |
| Files.LostClusterReadsZero | core/src/lib.rs:222-237 | a 120-byte file that opens, whose guest byte 0 is served as zero where the record demands an error |
| Header.UnsupportedFeatures | core/src/header.rs:12-16 | the feature mask is nonzero exactly when one of bits 2 to 4 is set |
| Header.StrictIffDecodable | core/src/header.rs:46-97 | strict parsing succeeds if and only if lenient parsing does and the facts are decodable, and the shared fields are then equal |
| Header.StrictWindowAgreesWithInspect | core/src/lib.rs:43-45 | the same for the two windows (104 and 8192 bytes) the entry points read from one file |
| Header.BackingFormatName | core/src/header.rs:229-262 | the checked-arithmetic loop computes the capped walk of the extension area; no overflow check fires |
| Header.ScanRecord | core/src/header.rs:240-259 | one round of the loop, with every sum checked, is one step of the walk on any bytes |
| Header.ScanExtensions | core/src/header.rs:239-261 | the same as the whole loop from any starting position and for any cap |
| Header.StepAt | core/src/header.rs:253-259 | the position rises by at least 8, keeps its residue modulo 8 and stays inside the data |
| Header.PaddingMask | core/src/header.rs:254 | the padding mask rounds up to a multiple of 8 |
| Header.RecordsSeen | core/src/header.rs:239-261 | the data left bounds the number of records: eight bytes for each but the last |
| Header.CappedWalk | core/src/header.rs:239-261 | the capped walk equals the uncapped one if that looks at no more records than the cap, and is None otherwise |
| Header.StepOverRecord | core/src/header.rs:308-316 | one encoded record is read back as itself: stop on a backing format, else step behind its padding |
| Header.ExtensionRoundTrip | core/src/header.rs:229-262 | walking an encoded list finds the first backing-format record among the first records up to the cap, cut to 4096 bytes, and nothing otherwise |
| Header.FormatNameRoundTrip | core/src/header.rs:229-262 | the same for a whole header, of version 2 (area at 72) or 3 (area at the header length), and 64 records |
| Header.CutFormat | core/src/header.rs:247-252 | a backing-format record whose payload, up to 4096 bytes, leaves the data stops the walk with nothing |
| Files.FeatureRefused | core/src/header.rs:82-89 | a version-3 header with incompatible bit 3 is refused, and the bit is named |
| Packing.FieldOfBytes | core/src/refcount.rs:123-143 | a big-endian value is a field of the bit string |
| Packing.FieldInByte | core/src/refcount.rs:145-152 | shifting and masking one byte is a field of the bit string, most significant bit first |
| Packing.StoreThenRead | core/src/refcount.rs:368-384 | storing one aligned field sets it and changes no other, neighbours in the same byte included, at every width |
| Refcount.BlockMask | core/src/refcount.rs:112-113 | masking a table entry rounds it down to a cluster, with room for a block below 2^64 |
| Refcount.PositionInBlock | core/src/refcount.rs:104-151 | the looked-up field is aligned, wholly inside its own block, never straddles a byte when narrower than one, and has a 64-bit address |
| Refcount.RefcountOf | core/src/refcount.rs:97-156 | every width's arm returns the field of the bit string at the refcount's position, 0 without a block, None outside table or file |
| Refcount.FetchSlot | core/src/refcount.rs:111-156 | the same for one slot of the block a table entry points to |
| Refcount.PackedField | core/src/refcount.rs:148-152 | shifting a byte down and masking it yields the slot that far from its high end |
| Refcount.ReadPacked | core/src/refcount.rs:145-152 | the sub-byte arm is a field of the bit string and its shift never goes below zero |
| Refcount.ReadAt | core/src/refcount.rs:160-164 | an exact read succeeds if and only if the range lies in the file |
| Refcount.LookupAfterStore | core/src/refcount.rs:97-156 | after storing a refcount the lookup returns it, and no refcount stored elsewhere changes |
| Refcount.BlockRoundTrip | core/src/refcount.rs:368-384 | within one block every other slot keeps its refcount |
| WrittenCounts.WrittenLookup | core/src/refcount.rs:97-156 | every lookup over blocks and a table that were written, at every width, returns the refcount that was written, 0 without a block and nothing past the table |
| BitOrder.ValueIsMirrored | core/src/refcount.rs:123-152 | the program's value of a slot is the specification's value of the mirrored slot of the byte; slots of whole bytes are their own mirrors |
| BitOrder.ByteAgrees | core/src/refcount.rs:145-152 | program and specification agree on all slots of a byte if and only if its digits read the same in both directions |
| BitOrder.ZerosAgree | core/src/refcount.rs:145-152 | they agree on which slots of a byte are zero if and only if its zero digits sit symmetrically |
| BitOrder.LookupIsMirrored | core/src/refcount.rs:97-156 | at every width the program's refcount of a cluster is the specification's refcount of the mirrored cluster |
| BitOrder.LookupsAgree | core/src/refcount.rs:97-156 | the two refcounts of a cluster agree if and only if its slot reads the same from both ends of its byte; slots of whole bytes and clusters without a slot in the file always agree |
| BitOrder.LookupsAgreeOnMirror | core/src/refcount.rs:97-156 | in terms of the program alone: they agree if and only if it reads the same for the mirrored cluster |
| BitOrder.VerdictsAgree | core/src/refcount.rs:259-268 | the orphan verdicts agree if and only if the slot is zero from both ends of its byte or from neither; without a slot narrower than a byte they always do |
| BitOrder.HighBitDiffers | core/src/refcount.rs:150-152 | a byte 0x80 at width 1: slot 0 reads 1 in the program and 0 in the specification, slot 7 the reverse |
| BitOrder.FalseOrphan | core/src/refcount.rs:260-268 | a refcount block starting with 0x80, at width 1: the scan's test calls cluster 7 an orphan, the specification does not |
| Files.FalseOrphanReported | core/src/refcount.rs:172-279 | a 2048-byte file whose report shows one cluster and one orphan, in use by the specification's order |
| Scan.ReadU64TableChecked | core/src/refcount.rs:75-90 | fails if and only if a nonempty table at a nonzero offset is not wholly inside the file; otherwise the table is its words |
| Scan.WalkTable | core/src/refcount.rs:241-269 | after one table the counters are those of all clusters seen so far, cut at the cap, and the stop flag is set exactly past the cap |
| Scan.Walk | core/src/refcount.rs:235-270 | clusters reached are min(T, cap+1) and orphans are counted among the first min(T, cap), T being all scanned clusters in walk order |
| Scan.RefcountReport | core/src/refcount.rs:172-279 | the report, errors included, is the function of the file that counts this way |
| WrittenCounts.ReportOfWritten | core/src/refcount.rs:172-224 | the report on a written header apart from its counts: every error in program order, the order, the table's offset and clusters, and the answer for an order above 6 |
| WrittenCounts.ShortFileNotReported | core/src/refcount.rs:178-180 | a file under 72 bytes is refused |
| WrittenCounts.WrittenTable | core/src/refcount.rs:218-224 | the refcount table loaded is the one written, clusters times cluster size over 8 entries of it, cut to 2^20 |
| WrittenCounts.WrittenHosts | core/src/refcount.rs:235-255 | the scan finds exactly the stored clusters of a written layout, in guest order |
| WrittenCounts.WrittenReport | core/src/refcount.rs:172-279 | write, then scan: the whole report, the number of stored clusters up to 2^24+1 and, among the first 2^24, those whose refcount was written as zero or whose block was never allocated |
| Files.SecondEntryReported | core/src/refcount.rs:218-224 | a 2048-byte file whose one orphan is found through entry 1 of the refcount table |
| Scan.CountIsCardinality | core/src/refcount.rs:232-269 | the running count is the number of positions that pass the test |
| Scan.OrphansIsCardinality | core/src/refcount.rs:260-268 | orphans are exactly the scanned positions whose refcount resolves to zero; an unknown refcount never counts |
| Scan.OrphansWithinAllocated | core/src/refcount.rs:232-279 | corollary of the report: orphans never exceed allocated clusters, and those never exceed the cap plus one |
| Agreement.EntriesAgree | core/src/refcount.rs:244-254 | reader and scan take the same cluster from an entry if and only if it carries none or its reserved bits are clear |
| Agreement.StrayBitDisagrees | core/src/refcount.rs:251-254 | an entry with a stray reserved bit on which they differ |
| Agreement.SlotsAgree | core/src/refcount.rs:235-254 | below a pointer with clear reserved bits, reader and scan take the same data cluster from a slot if and only if there is no table, the entry is past the file or maps no data cluster, the table is whole and the reserved bits are clear, or the table is cut and the entry maps nothing |
| Agreement.CutTableDisagrees | core/src/refcount.rs:63-65 | a table cut off by the end of the file: the reader serves an entry of it, the scan drops them all |
| Files.CutTableUncounted | core/src/refcount.rs:63-65 | a 520-byte file that opens with such a table, and whose report counts nothing |
| Agreement.StrayPointerDisagrees | core/src/refcount.rs:236-240 | a table pointer with a stray low bit sends the two to different entries |
| Files.StrayPointerOpens | core/src/refcount.rs:236-240 | a 1024-byte file that opens with such a pointer |
| Agreement.SlotsAgreeEverywhere | core/src/refcount.rs:235-254 | over pointers with clear reserved bits, the two agree on every slot if and only if every slot meets that condition |
| Agreement.ScanListsSlots | core/src/refcount.rs:235-255 | on any image the scan examines exactly its slots, in guest order |
| Agreement.SameL1 | core/src/refcount.rs:75-78 | for an image that opens, both entry points take the same L1 table if and only if its position is nonzero or it is empty |
| Files.HeaderAsTableDisagrees | core/src/lib.rs:125-136 | a file that is a bare header with its L1 table at position 0: it opens, the reader maps a data cluster of the disk, the report counts nothing |
| Agreement.ScanSeesWhatReaderMaps | core/src/refcount.rs:235-255 | over clean tables the list the scan examines is the list of data clusters the reader's tables map, in guest order |
| Agreement.ServedIsMapped | core/src/lib.rs:255-264 | the data clusters of the guest disk are a prefix of those the tables map, and all of them if and only if none is mapped past the disk's end |
| Agreement.OnDisk | core/src/lib.rs:255-259 | the clusters counted as the guest disk's are those that start before its end |
| Agreement.ReportCountsReaderClusters | core/src/refcount.rs:172-279 | end to end, for an image that opens, with clean tables: the report counts the data clusters the reader's tables map, those past the disk's end included, and, among those within the cap, the ones with refcount zero; with an L1 position of 0 it counts nothing, whatever the tables are |
| Snapshots.Skip | core/src/snapshots.rs:167-179 | moves by n if and only if the target is inside the file, and otherwise not at all |
| Snapshots.ReadString | core/src/snapshots.rs:182-189 | succeeds if and only if the text is empty or inside the file, and yields its decoding |
| Snapshots.ReadRecord | core/src/snapshots.rs:107-152 | one round captures the record at the cursor exactly if all of its body is there, and steps over the padding if that is there too |
| Snapshots.ReadSnapshots | core/src/snapshots.rs:84-156 | the enumeration, errors included, is a function of the file |
| Snapshots.EntriesAreDisjoint | core/src/snapshots.rs:107-156 | captured records of any file are in order, disjoint, inside the file and 8-aligned to the first |
| Snapshots.ReportedCostsFortyBytes | core/src/snapshots.rs:98-156 | forty bytes of file behind the table offset back every snapshot reported, whatever the header claims |
| Snapshots.TruncationKeepsPrefix | core/src/snapshots.rs:107-153 | a file cut anywhere past 72 bytes yields a prefix of the snapshots of the whole file, or the same error |
| Snapshots.EntryOfRecord | core/src/snapshots.rs:216-241 | an encoded record is read back as itself, whatever surrounds it |
| Snapshots.OversizedExtra | core/src/snapshots.rs:120-132 | of a record with more extra data than the cap, id and name are reported from inside the extra data, and the record seems to end early |
| Snapshots.ReadBackIffWithinCap | core/src/snapshots.rs:120-132 | an encoded record is read back as itself if and only if its extra data is within the cap |
| Snapshots.CutTableRecovers | core/src/snapshots.rs:107-156 | an encoded table of such records cut anywhere yields exactly the records whose bodies survive, up to the cap on their number: lost padding costs nothing, a lost body byte costs the record |
| Snapshots.TableRoundTrip | core/src/snapshots.rs:98-156 | every table, with extra data within the cap, comes back complete and in order, up to the cap on the number of records |
| WrittenSnapshots.TableIsReported | core/src/snapshots.rs:84-156 | behind a written header, the first 65536 records of a written table are reported in order, each id and name the decoding of the record's own bytes, times and sizes as written |
| WrittenSnapshots.CutTableIsReported | core/src/snapshots.rs:84-156 | of a table cut anywhere, record i is reported if and only if it ends before the cut, and then as it was written |
| WrittenSnapshots.RecoveredIff | core/src/snapshots.rs:107-153 | a record is recovered if and only if the part of the table that is left holds the records before it and its body |
| WrittenSnapshots.OtherwiseReported | core/src/snapshots.rs:91-104 | the errors of an enumeration, and the files without a table |
| WrittenSnapshots.ShortFileHasNone | core/src/snapshots.rs:91-93 | a file under 72 bytes is refused |

## Left out

- File opening, paths, `metadata` and operating-system errors: files are byte strings with a cursor, and every system error is the one value `Io`.
- Files opened by path (`Io.RegularFile`) are assumed to deliver a whole header in one `read`, which `refcount_report` and `snapshots` rely on, and to fail only at the end of the file or at an impossible position.
- The deflate codec and lossy UTF-8 decoding: parameters of the model. What a lemma needs of the decoder is a condition on the one stream at hand, or that it accepts empty input.
- The mutex and its poisoning in `core/src/vfs.rs`: positioned reads are serialised, so one caller is modelled.
- `Qcow2Reader::open`, `open_reader`, `from_reader` and `inspect` beyond the window they parse: wrappers.
- Backing chains, encryption, extended L2 entries, external data files and zstd: the code rejects them.
- Local read buffers of the path-based probes are byte strings, not arrays, and the bodies of the longest loops are methods of their own; the caller's buffers of `read` and `read_at` are arrays.
- `Header` parsing reads big-endian fields by definition (`Bytes.BeU32` and its siblings); truncation of `u64` to a narrower `usize` on 32-bit targets is not modelled.
- The `forensic` crate: tables from findings to severities, codes and notes.
- Agreement.SlotsAgree: is stated below table pointers with clear reserved bits; under any other pointer the two read different entries, as `Agreement.StrayPointerDisagrees` shows, and agree only by coincidence.
- Packing.StoreThenRead: the refcount builder writes a sub-byte refcount into a zeroed byte and clears its neighbours; `Packing.Store` keeps them, which is the same on a zeroed byte and the stronger statement elsewhere.
- Allocation and timing beyond the stated bounds.
