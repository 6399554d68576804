# Verified model of the slates archive and anchor

A Dafny model of two crates of slates and proofs about them.

`crates/archive` turns a volume snapshot into an archive file and back: a canonical
manifest tree with a Merkle identity, chunks stored raw or compressed, a container
with a seek table, and a restore that plans the tree, admits it against a byte
budget, decodes every chunk once and keeps sparse files sparse.

`crates/anchor` keeps a daemon alive and its state across restarts: a shared segment
laid out by arithmetic and published under a seqlock, a supervisor with a restart
window, backoff and a graceful stop, and a request/answer protocol that holds the
daemon's handles over its death.

`dafny verify dfyconfig.toml` checks the whole project.

## How the model is built

- Code that loops or updates state is a method or a class with its invariants, proved
  against a specification function or a stated property. Code made of expressions is
  a function. What the source promises is then proved of the specification.
- A writer is a function that puts bytes in front of the bytes that follow; a reader
  yields a value and the unread suffix. Buffers the source fills in place (a scratch
  buffer, a hold message, a payload region, the sampler's histogram) are arrays.
- Machine integers are explicit: checked, saturating and wrapping operations are
  written out. `usize` is 64 bits.
- BLAKE3, CRC32C, LZ4, zstd, the clock, process spawn and wait, handle duplication,
  pipe reads and writes and fallible allocation are parameters. `Container.Lawful`
  states the only laws assumed of the compressors: decompression inverts compression,
  and never yields more than the space it was given.
- The refusals of the manifest and archive readers share one type, `Wire.Refusal`.
- Automatic induction is off for every lemma: each proof is what its body says.
- Runs of concurrent or long-lived parts (seqlock, supervisor, hold protocol) are
  sequences of steps from an initial state, and the theorems quantify over all of them.

| file | what it models |
|---|---|
| `Wire`, `Sorting` | bytes, fixed-width integers, the stable sort by name |
| `Offsets` | fixed fields by their offsets |
| `Manifest`, `ManifestReader`, `Merkle` | the tree's grammar, the stack-machine reader, the Merkle identity |
| `CanonicalForm`, `ManifestLayout` | what a canonical tree is, and where its fields stand |
| `Container`, `ContainerProofs`, `ContainerMethods`, `ContainerLayout` | the archive file, its round trip and lookup, and which files are accepted |
| `RestorePlan`, `RestorePaths`, `RestoreExtents`, `Sparse`, `Restore`, `RestoreTree` | planning, admission, decode-once restore, and what is restored by path |
| `Sampler`, `Verdicts`, `CostModel` | the compressibility sampler and the codec choice |
| `Seqlock`, `Layout`, `SegmentWords` | the anchor's shared memory |
| `Supervise`, `SupervisorRuns` | the supervisor and its runs |
| `HoldMessages`, `HoldLayout`, `Handoff`, `HandoffProofs` | the hold channel's formats |
| `HeldHandles`, `HoldChannel`, `HoldRuns` | the hold protocol and its runs |

## Where the code and its promises part

Each is kept as the code has it, with a lemma for the case and the exact condition.

- The archive reader never compares the seek table with the records
  (`ContainerProofs.AcceptedArchiveMayMissChunks`): an archive whose table is empty is
  still accepted. `ContainerProofs.LookupAgreesIff` says for every table exactly when
  the lookup agrees with a scan.
- `Archive::content` may return fewer bytes than the record declares, although it is
  said to decompress to the declared length (`Container.ShortContentIsAccepted`);
  `Container.ContentLength` and `Container.ContentLengthOfIdentity` say when it is
  exact, and `Container.VerifyInto` when the verifying form accepts.
- Raising the value of a byte can decide for fewer bytes saved, past the cap of a
  worth (`CostModel.CappedBytesSaveFewer`, `CostModel.DearerBytesSaveMore`).
- A zstd level outside a byte is recorded as the nearest byte, although it is said to be
  recorded as its low byte (`CostModel.LevelIsNearest`).
- A policy replaced during a backoff does not set the length of the next one, although
  it is said to (`SupervisorRuns.PolicyDuringBackoff`); `SupervisorRuns.PolicyTakesEffect`
  says exactly when it does.
- The restart bound is a bound exactly below the largest 32-bit value
  (`SupervisorRuns.RestartRate`, `SupervisorRuns.LargestBoundIsNone`).
- A restart whose spawn is refused ends supervision, although a crash loop is said to
  be retried for ever (`SupervisorRuns.RefusedSpawnEndsSupervision`).
- The handoff parser also accepts signs, upper case and leading zeros
  (`HandoffProofs.SignedSpellingIsAccepted`); `HandoffProofs.WrittenIffPlain` says
  which spelling is the one `encode_env` writes.
- A page shorter than the supervision block lets its last word out of its region;
  `SegmentWords.SegmentRuns` states the bound as an equivalence.
- A publication whose generation word wraps to zero reads as nothing published;
  `Seqlock.PayloadRegion.Publish` gives the exact generations.

## Model

| member | source | states |
|---|---|---|
| Wire.LeRoundTrip | crates/archive/src/wire.rs:37-70 | every integer below the width's range reads back from its little-endian bytes |
| Wire.LeByte | crates/archive/src/wire.rs:42-59 | byte k of an integer is the one of weight 256^k, for every width |
| Wire.FromLe | crates/archive/src/wire.rs:119-150 | the integer read has exactly these bytes as its encoding, so reading is injective |
| Wire.GetI64 | crates/archive/src/wire.rs:146-150 | a signed word read is the one whose two's complement bytes were there, else the input was too short |
| Wire.LessIff | crates/archive/src/manifest.rs:424-428 | names compare by their first differing byte, or the one that ends there is smaller |
| Sorting.SortOfPermutation | crates/archive/src/manifest.rs:424-428 | permuting entries with distinct names does not change their sorted order |
| Sorting.SortIncreasing | crates/archive/src/manifest.rs:424-428 | sorting distinct names yields strictly increasing names, as the reader demands |
| Manifest.ComputeTiledLength | crates/archive/src/manifest.rs:226-238 | the loop accepts exactly the extents that start at zero, follow each other without gap or overlap, are not empty, leave a hole's chunk offset zero and end within 64 bits, and returns where they end |
| Manifest.DecodeIffCanonicalEncoding | crates/archive/src/manifest.rs:462-505 | bytes decode to a tree if and only if the tree is canonical (valid strictly increasing names, ordered attributes, tiling extents, matching sizes, bounded depth) and the bytes are its encoding: round trip and one encoding per tree |
| CanonicalForm.Utf8IffText | crates/archive/src/manifest.rs:562-562 | exactly the encodings of Unicode scalar values, by arithmetic on code points, are accepted as text |
| CanonicalForm.TextOnce | crates/archive/src/manifest.rs:562-562 | bytes encode one text |
| CanonicalForm.NameIff | crates/archive/src/manifest.rs:213-221 | a name is accepted exactly when it is a text of some characters in at most 255 bytes, none a separator or NUL, and not a dot or two |
| CanonicalForm.TilesIff | crates/archive/src/manifest.rs:223-238 | extents tile exactly when they follow each other from zero, none empty, no hole with a chunk offset, and end within 64 bits; what they cover is where the last ends |
| CanonicalForm.CanonicalIff | crates/archive/src/manifest.rs:492-496 | a canonical tree is exactly one with such names in byte order, such extents of the recorded sizes, such attributes, and at most 2048 names deep |
| CanonicalForm.DecodeIffDescribed | crates/archive/src/manifest.rs:497-504 | decoding accepts exactly the encodings of the trees so described, each as itself: none is refused and nothing else is accepted |
| Manifest.RootMetaIffCanonicalEncoding | crates/archive/src/manifest.rs:290-304 | the same equivalence for the root's metadata, and the suffix it leaves |
| Manifest.MetaComplete | crates/archive/src/manifest.rs:263-285 | canonical metadata reads back, the count admission never refusing it |
| Manifest.MetaSound | crates/archive/src/manifest.rs:317-384 | whatever metadata is accepted is canonical and was exactly its encoding |
| Manifest.NodeComplete | crates/archive/src/manifest.rs:469-490 | a canonical node reads back from its encoding at any depth and before any bytes, no admission check refusing it |
| Manifest.NodeSound | crates/archive/src/manifest.rs:555-627 | whatever node is accepted is canonical at its depth and was exactly its encoding |
| Manifest.HeaderShrinks | crates/archive/src/manifest.rs:525-551 | a header consumes bytes, and as many entries as a directory declares fit in the bytes left: the measure the loops end on |
| ManifestLayout.ExtentFields | crates/archive/src/manifest.rs:241-246 | where each field of an extent stands in its 56 bytes |
| ManifestLayout.ExtentListFields | crates/archive/src/manifest.rs:484-487 | the count, then each extent 56 bytes after the one before |
| ManifestLayout.MetaFields | crates/archive/src/manifest.rs:263-285 | where each field of the metadata stands, the attributes by name after them |
| ManifestLayout.AttributeFields | crates/archive/src/manifest.rs:277-284 | an attribute is its name after its length, then its extents |
| ManifestLayout.EntryFields | crates/archive/src/manifest.rs:476-479 | an entry is its name after its length, then its metadata, then its node |
| ManifestLayout.NodeFields | crates/archive/src/manifest.rs:469-489 | a node is its kind, its count, and its entries by name or its extents |
| ManifestReader.ReadExtents | crates/archive/src/manifest.rs:525-551 | the counted extent loop reads what the grammar reads, refusal for refusal |
| ManifestReader.ReadXattr | crates/archive/src/manifest.rs:347-384 | one attribute is read as the grammar reads it, in order after those before it |
| ManifestReader.ReadXattrs | crates/archive/src/manifest.rs:347-384 | the attribute loop reads what the grammar reads, refusal for refusal |
| ManifestReader.ReadMeta | crates/archive/src/manifest.rs:317-343 | metadata is read as the grammar reads it |
| ManifestReader.ReadHeader | crates/archive/src/manifest.rs:525-551 | a node header is read as the grammar reads it |
| ManifestReader.ReadEntryHeader | crates/archive/src/manifest.rs:555-575 | an entry header is read as the grammar reads it, in order after the entries before it |
| ManifestReader.NextEntry | crates/archive/src/manifest.rs:578-627 | the inner loop attaches completed nodes and closes directories without changing what the grammar makes of the rest |
| ManifestReader.ReadTree | crates/archive/src/manifest.rs:578-627 | the explicit-stack reader returns what the recursive grammar returns, every tree and every refusal, and ends |
| ManifestReader.Decode | crates/archive/src/manifest.rs:497-505 | a decoded tree is canonical, its encoding is the input, and nothing trails |
| ManifestReader.TakeChunks | crates/archive/src/manifest.rs:393-399 | extents add the chunks not seen yet, in order |
| ManifestReader.TakeXattrs | crates/archive/src/manifest.rs:400-416 | so do the extents of attribute values |
| ManifestReader.PushChildren | crates/archive/src/manifest.rs:408-411 | children pushed in reverse are visited in order |
| ManifestReader.ReferencedChunks | crates/archive/src/manifest.rs:390-421 | the walk lists the distinct chunks of every extent of the root and the tree in order of first reference |
| ManifestReader.DistinctListsEachOnce | crates/archive/src/manifest.rs:386-421 | that list holds each chunk some extent names, holes apart, exactly once and nothing else |
| Merkle.ManifestBinding | crates/archive/src/manifest.rs:308-313 | canonical pairs of root metadata and tree with equal identities are equal, or two different byte strings hashed for them collide |
| Merkle.NodeBinding | crates/archive/src/manifest.rs:434-458 | canonical trees with equal Merkle bytes are equal when the hash is injective on what is hashed for them |
| Merkle.ReorderedSameIdentity | crates/archive/src/manifest.rs:424-490 | reordering the distinctly named entries and attributes anywhere in a tree changes neither its identity nor its encoding |
| Merkle.PermutationIsReordering | crates/archive/src/manifest.rs:424-428 | every permutation of a directory's entries is such a reordering |
| ManifestLayout.HashedFields | crates/archive/src/manifest.rs:434-459 | an identity hashes the node's kind, count and entries by name |
| ManifestLayout.HashedEntryFields | crates/archive/src/manifest.rs:441-448 | in each entry hashed the child's identity stands where the child's bytes are stored |
| ManifestLayout.PinnedFields | crates/archive/src/manifest.rs:308-313 | the identity a header pins is of the root's metadata followed by the tree's identity |
| Container.VerifyInto | crates/archive/src/archive.rs:222-251 | accepts exactly the chunks whose content decodes, verifies, has the declared length and fits the scratch buffer; bytes past the length are untouched |
| Container.ContentLength | crates/archive/src/archive.rs:206-215 | an accepted content is no longer than declared, and exactly as long where the payload is raw or its decompression fills the space |
| Container.ContentLengthOfIdentity | crates/archive/src/archive.rs:206-215 | unless two contents share the identity, it is exactly as long just when the identity is that of so many bytes |
| Container.ShortContentIsAccepted | crates/archive/src/archive.rs:595-614 | under lawful compressors there is a record the reader accepts whose content is shorter than declared |
| ContainerLayout.HeaderIff | crates/archive/src/archive.rs:431-480 | the header is accepted exactly with its magic, version, known flags and limit at their offsets, and its fields are the words at theirs |
| ContainerLayout.AcceptableChunk | crates/archive/src/archive.rs:539-614 | a chunk may be accepted exactly within the limit, not empty, raw of its declared length or encoded in less, and decoding to bytes of its identity |
| ContainerLayout.RecordIff | crates/archive/src/archive.rs:286-294 | a record is exactly its fields at their offsets and its payload |
| ContainerLayout.ChunkIff | crates/archive/src/archive.rs:539-568 | reading accepts exactly the records written of acceptable chunks |
| ContainerLayout.ChunksIff | crates/archive/src/archive.rs:332-339 | the chunks read are exactly the records written of them, one after the other |
| ContainerLayout.ManifestIff | crates/archive/src/archive.rs:345-359 | the manifest section is accepted exactly as the canonical bytes of what it holds, of the identity the header pins |
| ContainerLayout.AcceptedIff | crates/archive/src/archive.rs:325-374 | a file is accepted as an archive exactly when it opens, closes, holds and says so at every offset: the hash of all before it, the sections where the trailer says, the counts and the fields |
| ContainerLayout.LookupIsVerified | crates/archive/src/archive.rs:390-412 | a lookup answers only of a file whose header and whole hash are right, and with an acceptable chunk |
| ContainerLayout.FileBinding | crates/archive/src/archive.rs:509-533 | two accepted files of one length and one trailer are equal, or their covered parts are two strings with one hash |
| ContainerLayout.AlteredIsRefused | crates/archive/src/archive.rs:325-330 | a byte changed under the hash is refused, by decode and by lookup, unless the hash stays the same |
| ContainerLayout.WrittenPrefix | crates/archive/src/archive.rs:262-269 | the first sixteen bytes of every file written |
| ContainerLayout.WrittenSeek | crates/archive/src/archive.rs:301-314 | a seek table is a frame of its own length, its count, and an identity and an offset every 40 bytes |
| ContainerLayout.WrittenEntries | crates/archive/src/archive.rs:283-295 | each entry written names its chunk and where the chunk's record stands |
| ContainerProofs.DecodesWhatIsEncoded | crates/archive/src/archive.rs:255-374 | every well-formed archive decodes from its encoding to itself |
| ContainerProofs.DecodesWhateverTheSeekTable | crates/archive/src/archive.rs:327-374 | it does so with any seek table in place of its own |
| ContainerProofs.LookupAgreesWithScan | crates/archive/src/archive.rs:390-412 | for every identity the seek-table lookup finds the first chunk a linear scan finds, or none when the scan finds none |
| ContainerProofs.LookupFollowsSeekTable | crates/archive/src/archive.rs:390-412 | with any seek table in place of its own, the lookup gives what the first entry naming the identity leads to: none, the record there, or the refusal of it |
| ContainerProofs.LookupAgreesIff | crates/archive/src/archive.rs:327-412 | over every accepted seek table, the lookup agrees with a scan exactly when the first entry naming the identity is missing with the chunk, or lies in the file at a record of that chunk |
| ContainerProofs.AcceptedArchiveMayMissChunks | crates/archive/src/archive.rs:327-374 | with an empty seek table the archive is accepted and the lookup finds nothing, whatever a scan finds |
| ContainerProofs.SectionsLaid | crates/archive/src/archive.rs:283-322 | the offsets the index records are where the sections are |
| ContainerProofs.DecodedIsVerified | crates/archive/src/archive.rs:327-374 | an accepted archive's metadata and tree are canonical and every chunk is within the limits, canonical and verified |
| ContainerProofs.ChunkSound | crates/archive/src/archive.rs:539-568 | an accepted chunk record is within the archive's limit, stored at its declared length and verified |
| ContainerMethods.WriteRecords | crates/archive/src/archive.rs:283-294 | each record is written in turn, and each seek entry is where its record starts |
| ContainerMethods.WriteSections | crates/archive/src/archive.rs:296-318 | the manifest, the seek table and the index follow, the index holding where they start |
| ContainerMethods.ReadChunks | crates/archive/src/archive.rs:332-343 | the counted loop reads what the grammar reads, refusal for refusal |
| ContainerMethods.ReadManifest | crates/archive/src/archive.rs:345-353 | the manifest is decoded and its identity checked as specified |
| ContainerMethods.EncodeArchive | crates/archive/src/archive.rs:255-323 | the writer's loops produce the specified bytes, every section offset taken where its section starts |
| ContainerMethods.DecodeArchive | crates/archive/src/archive.rs:327-374 | the reader's loops decode as specified, and what they accept is verified |
| ContainerMethods.ChunkByIdentity | crates/archive/src/archive.rs:390-412 | the lookup loop finds what the specified lookup finds |
| RestorePlan.PlanXattrs | crates/archive/src/restore.rs:115-128 | attribute values are planned exactly when all of them tile, one body each |
| RestorePlan.PlanEntry | crates/archive/src/restore.rs:152-175 | an entry is refused for its name, its size, a path seen before or its values, the first of these, and otherwise records its metadata and values |
| RestorePlan.PlanEntries | crates/archive/src/restore.rs:152-175 | a directory whose entries all plan adds exactly what they describe, its children left pending in order; otherwise its first bad entry is the refusal |
| RestorePlan.VisitFile | crates/archive/src/restore.rs:140-147 | a file is planned exactly when its extents tile, as one body |
| RestorePlan.VisitDirectory | crates/archive/src/restore.rs:148-176 | a directory adds itself and its entries, keeping what is planned and pending together the whole tree |
| RestorePlan.PlanTree | crates/archive/src/restore.rs:134-180 | the stack walk succeeds exactly when the tree plans, and then holds exactly the bodies, directories and metadata the tree describes; otherwise its refusal is the first of a recursive walk over the tree, a duplicate path only where two are equal |
| RestorePlan.RefusalCause | crates/archive/src/restore.rs:134-180 | that walk refuses a name only where some name is not a component, and extents only where some do not tile or miss their recorded size |
| RestoreTree.FactsAreSaid | crates/archive/src/restore.rs:134-180 | what a tree plans is what its entries say at the paths their names join to |
| RestoreTree.TreePlansIff | crates/archive/src/restore.rs:134-180 | a tree plans, but for repeated paths, exactly when every entry has one component for a name, extents end to end of its size and values end to end |
| RestorePaths.CanonicalPlans | crates/archive/src/restore.rs:134-180 | every canonical tree plans, and no two things it describes share a path and kind (joined paths are injective) |
| RestorePaths.ComponentOfChild | crates/archive/src/restore.rs:156-160 | the first component below a directory of a joined path is the name joined |
| RestoreExtents.PlanMentions | crates/archive/src/restore.rs:134-180 | the planned bodies hold exactly the extents the manifest names |
| RestoreExtents.PlannedBodiesTile | crates/archive/src/restore.rs:115-149 | every planned body tiles and has the length its extents end at |
| Sparse.MaterializedByte | crates/archive/src/restore.rs:230-248 | each byte of the simple reading is its extent's chunk byte, or zero in a hole |
| Sparse.ConcatUpdate | crates/archive/src/restore.rs:230-248 | overwriting one extent's range in place is replacing that extent's bytes |
| Sparse.RawPiecesRepresent | crates/archive/src/restore.rs:351-363 | the pieces of a body's data extents are ascending, disjoint, not empty, and stand for its simple reading |
| Sparse.RepresentsUnique | crates/archive/src/restore.rs:36-45 | pieces and a length stand for one content |
| Sparse.Merged | crates/archive/src/restore.rs:253-266 | merging changes neither what the pieces stand for nor their bytes, and leaves no two touching when every growth is reserved |
| Sparse.Dense | crates/archive/src/restore.rs:58-68 | expansion succeeds exactly when the pieces lie within the length, and gives what they stand for |
| Restore.IndexIsScan | crates/archive/src/restore.rs:288-293 | the chunk index finds the first chunk of an identity |
| Restore.ChunkIndex | crates/archive/src/restore.rs:288-293 | the reversed collection builds that index |
| Restore.BodyBytesChecked | crates/archive/src/restore.rs:191-200 | a file counts its data extents, a value its whole length, or nothing past 64 bits |
| Restore.LargestChunk | crates/archive/src/restore.rs:209-213 | the largest present chunk the extents name |
| Restore.LargestIsLargest | crates/archive/src/restore.rs:204-216 | the chunk counted is the greatest declared length of any present chunk an extent names, or nothing without one |
| Restore.NeededBytes | crates/archive/src/restore.rs:191-216 | the checked folds give the exact need, or nothing when it passes 64 bits |
| Restore.NeedOfSameBodies | crates/archive/src/restore.rs:204-216 | the need depends on the bodies, not on the order they were planned in |
| Restore.RestoreNeeded | crates/archive/src/restore.rs:271-280 | for every tree that plans, the need of any plan of it, capped at 64 bits; other trees are refused exactly as a restore refuses them |
| Restore.AllocateBody | crates/archive/src/restore.rs:219-226 | a body's buffers are zeros of the right lengths, or the given refusal when one cannot be reserved |
| Restore.Allocate | crates/archive/src/restore.rs:298-314 | every body gets its buffers, all reading zeros, or the whole restore is refused |
| Restore.ReferenceBody | crates/archive/src/restore.rs:318-328 | one body adds its data extents to the references and keeps the others |
| Restore.BuildReferences | crates/archive/src/restore.rs:317-328 | every data extent is recorded once under its chunk with its buffer, and nothing else is |
| Restore.FillRef | crates/archive/src/restore.rs:230-248 | filling succeeds exactly when the extent lies inside its chunk, and puts its slice in its place |
| Restore.FillChunk | crates/archive/src/restore.rs:333-346 | a decoded chunk reaches every extent that names it and disturbs no other |
| Restore.FillOne | crates/archive/src/restore.rs:330-346 | a named chunk is looked up, decoded and copied exactly when nothing about it stops the restore, else the refusal is what does |
| Restore.FillAll | crates/archive/src/restore.rs:329-347 | every buffer ends as the simple reading exactly when every extent lies in a present, decodable chunk; each distinct chunk is decoded once; a refusal is that of the first chunk by identity that stops it |
| Restore.ZipPieces | crates/archive/src/restore.rs:353-362 | each data buffer is placed at its extent's offset |
| Restore.AssembleFile | crates/archive/src/restore.rs:352-364 | a file's merged pieces stand for its simple reading, in as many bytes as its data extents |
| Restore.Assemble | crates/archive/src/restore.rs:348-371 | each body with a place of its own is delivered there and nothing else appears |
| Restore.DenseIsMaterialized | crates/archive/src/restore.rs:58-68 | the dense form of a restored file is the simple reading of its extents |
| Restore.RestoreArchive | crates/archive/src/restore.rs:286-380 | succeeds, when allocations do, exactly when the tree plans, the budget covers the need and every extent is readable; then everything described is delivered and as many chunks were decoded as are referenced; a tree that does not plan gets the walk's refusal, a need past the budget is refused as over budget and, when allocations succeed, nothing else is; otherwise the refusal is that of the first chunk by identity that is missing, does not decode or is too short |
| Restore.FirstUnfillableOnce | crates/archive/src/restore.rs:329-347 | that last refusal is one refusal: two cannot both come first |
| Restore.AcceptedArchiveRestores | crates/archive/src/restore.rs:282-347 | of an archive the reader accepted, only the budget, an allocation, a missing chunk or an extent past its chunk can stop a restore, and every body has its own place |
| Restore.AdmittedIsHeld | crates/archive/src/restore.rs:201-216 | restoring an accepted archive, the bytes held and the largest chunk sum to exactly what was needed, which is what was admitted exactly when it fits in 64 bits |
| Restore.AdmittedIsEnough | crates/archive/src/restore.rs:201-216 | under lawful compressors all a restore of an accepted archive holds, and any one chunk decoded beside it, are within the need, and within what was admitted where that fits in 64 bits; what is left beside what is held is the greatest named chunk |
| Restore.RestoredBytes | crates/archive/src/restore.rs:286-380 | of a restored accepted archive, every file the tree describes is there, its pieces in order and within its length, and every byte of its dense form is a hole's zero or the byte its extent names in a chunk verified against its identity |
| RestoreTree.EntryIsRestored | crates/archive/src/restore.rs:286-380 | every entry names lead to in an accepted archive is restored at their joined path: metadata, every attribute's bytes, and a directory or a file of its bytes; no name is a dot or two, and there are at most 2048 |
| RestoreTree.RootIsRestored | crates/archive/src/restore.rs:286-380 | so are the root's metadata and attributes, and a root that is a file |
| RestoreTree.OnlyEntriesDescribed | crates/archive/src/restore.rs:286-380 | metadata is restored only at the path of an entry, as the entry has it |
| RestoreTree.OnlyDirectoriesRestored | crates/archive/src/restore.rs:286-380 | a directory only where the tree has one |
| RestoreTree.OnlyFilesRestored | crates/archive/src/restore.rs:348-371 | a file only where the tree has one |
| RestoreTree.OnlyValuesRestored | crates/archive/src/restore.rs:348-371 | an attribute value only where the tree has one of that name |
| RestoreTree.JoinedOnce | crates/archive/src/restore.rs:108-114 | a joined path gives its names back: two ways to one path are one |
| Restore.DecodedAreReferenced | crates/archive/src/restore.rs:329-347 | the chunks decoded are as many as the manifest's referenced chunks |
| Sampler.CollectSample | crates/archive/src/codec.rs:245-258 | the loop collects sixteen bytes at every 256th offset |
| Sampler.SampleLength | crates/archive/src/codec.rs:245-258 | the sample's exact length, a sixteenth of the bytes rounded up in the last interval |
| Sampler.SampleAt | crates/archive/src/codec.rs:245-258 | where each sampled byte comes from |
| Sampler.BuildHistogram | crates/archive/src/codec.rs:216-222 | each bucket counts its byte value, and the buckets sum to the sample |
| Sampler.RankCounts | crates/archive/src/codec.rs:270-275 | the sorted counts are those of every byte value that occurs, each once, none after a smaller one |
| Sampler.GreedyCoversMost | crates/archive/src/codec.rs:269-285 | no set of byte values covers more of the sample than as many of the most frequent |
| Sampler.CoreSetSize | crates/archive/src/codec.rs:269-285 | the least number of byte values, one at least, whose counts reach the coverage target |
| Sampler.ScaledLogWithin | crates/archive/src/codec.rs:298-305 | the logarithm taken never exceeds log2 of length over count, whatever the shift loses |
| Sampler.ScaledLogExact | crates/archive/src/codec.rs:298-305 | below 2^60 it is exactly the floor of that logarithm |
| Sampler.EntropyAtMostEightBits | crates/archive/src/codec.rs:290-314 | the integer entropy sum is at most eight bits a byte (Gibbs' inequality over floored logarithms) |
| Sampler.EntropyPercent | crates/archive/src/codec.rs:290-314 | at most 100 for every histogram of the sample, with every saturation of the source |
| Sampler.Sample | crates/archive/src/codec.rs:205-242 | a chunk is a hole exactly when all its bytes are zero, and otherwise gets the verdict its sample's statistics give |
| Sampler.JudgedOnce | crates/archive/src/codec.rs:205-242 | those statistics give one verdict |
| Verdicts.JudgedIff | crates/archive/src/codec.rs:205-242 | the verdict of a sample is by its own bytes: whether it is something twice, how many values it has, how few of them make nine tenths of it, and the percent of eight bits its bytes take by their frequencies |
| Verdicts.FewValuesCompress | crates/archive/src/codec.rs:226-228 | a sample of fewer than 64 values is compressible |
| Verdicts.EvenIsIncompressible | crates/archive/src/codec.rs:229-235 | one in which every value occurs equally often, and which is not something twice, is not |
| CostModel.WorthIsCapped | crates/archive/src/codec.rs:345-360 | the saturating products amount to capping gain and cost once each: a worth never wraps |
| CostModel.WorthIsObjective | crates/archive/src/codec.rs:340-360 | the worth is the documented objective: bytes saved at a byte's worth less one compression and the expected decompressions at the worth of time, each side capped |
| CostModel.WorthSign | crates/archive/src/codec.rs:345-360 | a worth is positive exactly when the gain exceeds the cost and the cost is below the cap |
| CostModel.OfferedIff | crates/archive/src/codec.rs:383-399 | a codec point is offered exactly when it is the LZ4 point or a zstd point predicted under the floor |
| CostModel.OfferedInOrder | crates/archive/src/codec.rs:383-399 | the LZ4 point first, then the zstd points in their order |
| CostModel.DecisionIff | crates/archive/src/codec.rs:367-404 | a codec is chosen exactly when the chunk is not sampled out, the probe beats the floor and some offer is worth more than raw; it is an offer of the greatest worth |
| CostModel.PredictionIsProportional | crates/archive/src/codec.rs:327-338 | a prediction is the probe's size in the measured ratio of the points, rounded down by less than a byte and a thousandth |
| CostModel.PredictionByPrior | crates/archive/src/codec.rs:327-338 | without a measured ratio it is 73 hundredths of the probe's size |
| CostModel.ProbedRecordIsShorter | crates/archive/src/codec.rs:375-382 | the floor is beaten exactly when the whole record is shorter than the bytes |
| CostModel.BestIsGreatest | crates/archive/src/codec.rs:383-399 | the choice is a candidate of greatest worth, raw's nothing included |
| CostModel.Decide | crates/archive/src/codec.rs:367-404 | raw without codecs, for a hole, when judged incompressible or when the probe does not beat the floor; in every other case the best candidate, with the probe's output only for LZ4 |
| CostModel.DearerBytesSaveMore | crates/archive/src/codec.rs:340-404 | raising only the value of a byte never decides for fewer bytes saved, unless what was decided then passes the cap of a worth, and then what is decided costs no more |
| CostModel.CappedBytesSaveFewer | crates/archive/src/codec.rs:340-404 | past the cap it does fail: a chunk decided for 412 bytes saved is decided for 312 |
| CostModel.DearerCpuSpendsLess | crates/archive/src/codec.rs:340-404 | raising only the value of processor time never decides for more of it, whatever passes a cap |
| CostModel.RawChunkRecords | crates/archive/src/archive.rs:97-109 | a raw record of the bytes: identity, lengths, canonical and readable exactly within the limits |
| CostModel.Lz4ChunkRecords | crates/archive/src/archive.rs:187-204 | the same for LZ4, from the probe's output or compressed anew |
| CostModel.ZstdChunkRecords | crates/archive/src/archive.rs:150-166 | the same for zstd at any level |
| CostModel.ChunkWith | crates/archive/src/archive.rs:173-183 | whatever the policy, a record of the bytes: canonical exactly when there are any, with exactly them as content within the size limit, and stored as was decided |
| CostModel.LevelIsNearest | crates/archive/src/archive.rs:146-164 | a level is recorded as its low byte only where it fits one, or where the low byte is the nearest |
| Seqlock.PayloadRegion.Publish | crates/anchor/src/segment.rs:816-841 | refused exactly past the region; otherwise every store is a step of the writer, and a read after it returns the payload unless the generation word wrapped to zero |
| Seqlock.PayloadRegion.Write | crates/anchor/src/segment.rs:829-838 | bytes are written in place and nowhere else, each store a step of the writer |
| Seqlock.PayloadRegion.ReadPublished | crates/anchor/src/segment.rs:845-875 | what is returned for any bytes seen between the two loads of the generation; uninterrupted, what is there |
| Seqlock.WriterKeepsInv | crates/anchor/src/segment.rs:816-841 | every step of a writer, death included, keeps the invariant and never lowers the generation |
| Seqlock.ReaderKeepsInv | crates/anchor/src/segment.rs:845-875 | every step of a reader keeps the invariant |
| Seqlock.ReadIsLast | crates/anchor/src/segment.rs:845-875 | a read ends with bytes only when they are the whole of the last completed publication |
| Seqlock.ReadsAreNeverTorn | crates/anchor/src/segment.rs:813-876 | over every interleaving of fewer than 2^63 publications with dying writers and any readers, a read that returns bytes returns one completed publication, the last one from its start to its end |
| Seqlock.UndisturbedReadIsLast | crates/anchor/src/segment.rs:845-875 | in every reachable state an undisturbed read returns the last completed publication, or that one is in progress or was abandoned |
| Seqlock.ReturnedIsLast | crates/anchor/src/segment.rs:845-875 | over every interleaving, whenever and in whatever order the bytes are read between the two loads, a payload returned is exactly the last completed publication, the same from the first load to the second |
| Seqlock.PublicationContinues | crates/anchor/src/segment.rs:816-841 | any run goes on with the stores of a publication |
| Seqlock.QuietReadReturns | crates/anchor/src/segment.rs:845-875 | any run between publications goes on so that a read returns the last of them: no read is refused without cause |
| Layout.AlignedWhole | crates/anchor/src/layout.rs:248-251 | an aligned length is whole pages, one at least, and holds the bytes |
| Layout.RegionIsSpec | crates/anchor/src/layout.rs:309-407 | the checked lookup gives a kind's place in the layout for exactly the kinds the geometry has |
| Layout.RegionHolds | crates/anchor/src/layout.rs:240-292 | in a layout that fits every region is the fewest whole pages that hold what it was derived for |
| Layout.FitsIff | crates/anchor/src/layout.rs:286-300 | a layout fits in 64 bits exactly when what is promised of its regions does: saturation refuses nothing else |
| Layout.Push | crates/anchor/src/layout.rs:258-266 | the next region starts where the last ended and is where the lookup finds it |
| Layout.PushLogs | crates/anchor/src/layout.rs:269-271 | every partition's log follows the last |
| Layout.PushSnapshots | crates/anchor/src/layout.rs:272-275 | every partition's two snapshot slots follow |
| Layout.PushLandings | crates/anchor/src/layout.rs:279-281 | every landing slot follows |
| Layout.Regions | crates/anchor/src/layout.rs:255-284 | for every geometry that fits, the list runs end to end in whole pages to the total, and the lookup finds each entry and nothing for other kinds |
| SegmentWords.RegionRunsSeparate | crates/anchor/src/segment.rs:52-106 | the runs a long enough region declares stay in it and share no byte |
| SegmentWords.RegionDeclaresShared | crates/anchor/src/segment.rs:46-105 | what a region declares is exactly the bytes of it two processes share |
| SegmentWords.ShortPageSpills | crates/anchor/src/segment.rs:52-78 | a page shorter than the supervision block lets a word out of its region |
| SegmentWords.SegmentRuns | crates/anchor/src/segment.rs:46-108 | runs stay in their regions exactly when a page has 208 bytes, then no two share a byte, and words are eight-aligned exactly when pages are |
| Supervise.DeriveHolds | crates/anchor/src/supervise.rs:68-84 | the restart bound is the number of daemon starts the budget holds, one at least |
| Supervise.Supervisor.constructor | crates/anchor/src/supervise.rs:224-259 | nothing runs, nothing is due, and the first backoff is the window |
| Supervise.Supervisor.Start | crates/anchor/src/supervise.rs:568-603 | the new state of a start: nothing with a daemon running, the time even when the spawn is refused |
| Supervise.Supervisor.RecordExitTime | crates/anchor/src/supervise.rs:681-688 | the exits kept are those left once the oldest out of the window are dropped |
| Supervise.Supervisor.Step | crates/anchor/src/supervise.rs:642-710 | the new state and result of a step in every case |
| Supervise.Supervisor.RequestStop | crates/anchor/src/supervise.rs:728-733 | a stop is recorded only for a running daemon and never as zero |
| Supervise.Supervisor.StopStep | crates/anchor/src/supervise.rs:741-796 | the new state and result of a stop step in every case |
| Supervise.Supervisor.Stop | crates/anchor/src/supervise.rs:801-809 | nothing runs and nothing is due after it |
| SupervisorRuns.PrunedIsSuffix | crates/anchor/src/supervise.rs:682-688 | what is dropped is a prefix out of the window, and what is kept starts inside it |
| SupervisorRuns.RestartRate | crates/anchor/src/supervise.rs:679-710 | over every run, whatever policies replace each other in it, a span no longer than the shortest window holds no more restarts made straight after an exit than the greatest bound |
| SupervisorRuns.CrashLoopIff | crates/anchor/src/supervise.rs:679-710 | under one policy an exit is a crash loop exactly when more exits than the bound are no older than the window; otherwise it is a restart that reports how many |
| SupervisorRuns.LargestBoundIsNone | crates/anchor/src/supervise.rs:689-690 | at the largest 32-bit bound no exit is a crash loop and a run exceeds the bound in one instant |
| SupervisorRuns.BackedOffRestartsApart | crates/anchor/src/supervise.rs:650-703 | any two backed-off restarts of a run are the shortest window or more apart |
| SupervisorRuns.CrashLoopWaits | crates/anchor/src/supervise.rs:690-703 | the k-th crash loop since the backoff last began anew waits min(window times 2^k, cap), due that long after the exit |
| SupervisorRuns.PolicyTakesEffect | crates/anchor/src/supervise.rs:548-555 | after a policy is replaced, the next crash loop waits the new window exactly when no backoff was under way at the change (or the wait due is that long anyway); otherwise it waits what it would have |
| SupervisorRuns.PolicyDuringBackoff | crates/anchor/src/supervise.rs:548-555 | a run in which a window of 50 set during a backoff is followed by a wait of 20 |
| SupervisorRuns.WordsOfEvent | crates/anchor/src/segment.rs:157-249 | what each event does to the supervision words: a spawn records the daemon, clears the stop words and counts; nothing else does |
| SupervisorRuns.RunKeepsWords | crates/anchor/src/segment.rs:204-249 | in every run the words say a daemon is live with its pid exactly while there is one |
| SupervisorRuns.GenerationCounts | crates/anchor/src/segment.rs:204-236 | the generation counts the daemons spawned and the restarts those after the first |
| SupervisorRuns.AliveIff | crates/anchor/src/segment.rs:251-262 | alive is live, beaten, and no longer ago than the budget |
| SupervisorRuns.DueStepRestarts | crates/anchor/src/supervise.rs:548-660 | a backoff under way keeps its due time through every event but a start or a stop, a new policy included: steps before it change nothing, and the first at or after it restarts |
| SupervisorRuns.StopIsFinal | crates/anchor/src/supervise.rs:741-809 | after a stop, or a stop step that reports the exit, no event but a start spawns |
| SupervisorRuns.RefusedSpawnEndsSupervision | crates/anchor/src/supervise.rs:650-710 | a restart leaves something to supervise exactly when its spawn succeeds; after a refused one no later step retries |
| SupervisorRuns.StopIsBounded | crates/anchor/src/supervise.rs:771-796 | past the deadline and the budget a stop step ends with the daemon gone |
| SupervisorRuns.StopWaitsForAcknowledgement | crates/anchor/src/supervise.rs:771-783 | before it acknowledges, a daemon that beats has the whole budget from the request |
| SupervisorRuns.StopKillsTheWedged | crates/anchor/src/supervise.rs:771-796 | one that stopped beating is killed at the next step |
| SupervisorRuns.StopReportsTheExit | crates/anchor/src/supervise.rs:741-770 | one found gone is reported with its exit code and not as killed |
| SupervisorRuns.StopIsPatient | crates/anchor/src/supervise.rs:771-783 | a daemon that acknowledged, beats and is within its deadline is not killed |
| HoldMessages.Encode | crates/anchor/src/handles.rs:242-287 | filling the fixed buffer yields the specified bytes, refused exactly outside the shapes |
| HoldMessages.Put | crates/anchor/src/handles.rs:290-299 | a field is written at its offset and nothing else changes |
| HoldMessages.PutValues | crates/anchor/src/handles.rs:270-277 | the values fill their slots in order |
| HoldMessages.DecodeIffEncoding | crates/anchor/src/handles.rs:242-404 | bytes decode to a message if and only if it is well shaped and they are its encoding, for every checksum function |
| HoldMessages.SlotsIff | crates/anchor/src/handles.rs:365-384 | handle slots read back as a list exactly when they are its slots with the rest zero |
| HoldLayout.MessageFields | crates/anchor/src/handles.rs:242-287 | where the magic, kind, id and checksum of a message stand |
| HoldLayout.HoldFields | crates/anchor/src/handles.rs:256-279 | where what a hold says stands, zeros past it |
| HoldLayout.OtherFields | crates/anchor/src/handles.rs:280-282 | what the other messages say |
| Handoff.HexRoundTrip | crates/anchor/src/handles.rs:523-528 | every 64-bit value reads back from its hexadecimal text of at most 16 digits |
| Handoff.RecordRoundTrip | crates/anchor/src/handles.rs:530-542 | every record within the cap reads back, the empty one from its dash |
| Handoff.EntryRoundTrip | crates/anchor/src/handles.rs:490-521 | every entry within the caps reads back from its text, which stays within the derived width |
| Handoff.NoHandleIsRefused | crates/anchor/src/handles.rs:490-521 | an entry with no handle is written and refused when read |
| Handoff.HandoffExample | crates/anchor/src/handles.rs:15-17 | one handoff written out |
| Handoff.SealFields | crates/anchor/src/handles.rs:441-446 | the seal is a hash sign and eight digits of the checksum of all before it |
| HandoffProofs.HexU64Iff | crates/anchor/src/handles.rs:523-528 | a number is accepted exactly as at most sixteen characters, digits of either case after a plus sign or not, and its value is theirs by place |
| HandoffProofs.RadixIff | crates/anchor/src/handles.rs:501-502 | the same of the shorter numbers, within their greatest value |
| Handoff.EncodeEnv | crates/anchor/src/handles.rs:421-446 | for any entries the loop writes the channel, every entry and the checksum of both |
| Handoff.Own | crates/anchor/src/handles.rs:482-484 | an entry's handles are taken exactly when none has an owner yet |
| Handoff.ParseEntries | crates/anchor/src/handles.rs:474-486 | the loop accepts exactly lists of entries within the bound in which each id and handle has one owner |
| HandoffProofs.ParseEnv | crates/anchor/src/handles.rs:450-488 | accepts exactly the texts within the cap whose checksum, channel and entries hold, and returns what they say |
| HandoffProofs.HandoffRoundTrip | crates/anchor/src/handles.rs:421-488 | every handoff within the caps with one owner each is read back as it was; the length cap never refuses it |
| HandoffProofs.AcceptedHasOneOwner | crates/anchor/src/handles.rs:468-488 | whatever is accepted is within every cap and gives each id and handle, the channel's too, one owner |
| HandoffProofs.WrittenIffPlain | crates/anchor/src/handles.rs:448-488 | of the texts accepted, the plainly spelled ones are exactly those `encode_env` writes |
| HandoffProofs.SignedSpellingIsAccepted | crates/anchor/src/handles.rs:523-528 | a channel with a plus sign is accepted |
| HeldHandles.HeldSet.HoldHandles | crates/anchor/src/held_windows.rs:463-527 | a hold is refused for its shape, its id, the bound or a duplication, in that order, keeping nothing; else it is held |
| HeldHandles.HeldSet.Apply | crates/anchor/src/held_windows.rs:436-458 | the new holdings and the one answer to every message |
| HeldHandles.AppliedKeepsBound | crates/anchor/src/held_windows.rs:436-527 | every message keeps the bound and the caps |
| HeldHandles.AppliedChangesOne | crates/anchor/src/held_windows.rs:436-458 | an id is gained only by the hold it answers and lost only by a release of it; a release is answered and anything else refused and counted |
| HeldHandles.HoldKeepsWhatItSays | crates/anchor/src/held_windows.rs:463-527 | a hold is answered held exactly when it is acceptable, and then what is kept is its what, its record and the duplicates of its handles in order; refused, it changes nothing but the count |
| HeldHandles.RefusalSaysWhy | crates/anchor/src/held_windows.rs:471-518 | the reason of a refusal is the first that applies |
| HeldHandles.DuplicateEntry | crates/anchor/src/held_windows.rs:544-548 | one entry's handles are each duplicated, in order, exactly when none is refused |
| HeldHandles.HandOff | crates/anchor/src/held_windows.rs:536-561 | the handoff names the channel's end and each held entry once, at duplicates of their own handles, and nothing else; with distinct duplicates the daemon parses it back as exactly these |
| HoldChannel.AnchorEnd.Reply | crates/anchor/src/supervise_windows.rs:179-195 | an answer written reaches the daemon's queue, one whose write fails is dropped and counted, and one for which there is no room is still pending |
| HoldChannel.AnchorEnd.Turn | crates/anchor/src/supervise_windows.rs:139-155 | the oldest piece is read exactly when no answer is left pending, and every loss is counted |
| HoldChannel.AnchorEnd.Drain | crates/anchor/src/supervise_windows.rs:137-159 | the oldest pieces are taken and their messages applied in order; every answer is delivered or lost in order, or pending: none is overwritten; what is lost or no message is counted; a drain is bounded, and leaves pieces within the bound only for a full quota or a read that does not go through |
| HoldChannel.AnchorEnd.HandOver | crates/anchor/src/supervise_windows.rs:115-123 | a successor gets a channel of its own, empty both ways, and no answer of the last daemon's, even when handing over then fails; without a channel nothing changes; what is handed over names the new channel's end and every entry held, and the daemon reads exactly these |
| HoldRuns.StepKeepsInv | crates/anchor/src/supervise_windows.rs:113-195 | every step of the protocol keeps its invariant |
| HoldRuns.AnswersOwnRequest | crates/anchor/src/supervise_windows.rs:113-123 | in every run an answer read is to a message the reading daemon sent, a held answer to its own accepted hold, in order |
| HoldRuns.HeldIsHeld | crates/anchor/src/handles.rs:1-9 | when a daemon that has asked for no release since its hold reads that an id is held, the anchor holds it |
| HoldRuns.HeldWasAskedFor | crates/anchor/src/held_windows.rs:436-527 | in every run whatever is held was taken for some living daemon's hold, as it said, and not released since |
| HoldRuns.SuccessorGetsTheHold | crates/anchor/src/held_windows.rs:529-561 | what a successor is handed for an id is the what, the record and, handle by handle, duplicates of the duplicates of the hold its predecessor was answered for |
| HoldRuns.HoldReachesTheSuccessor | crates/anchor/src/held_windows.rs:529-561 | and every hold answered and not released since is handed over, once |
| HoldRuns.DrainIsSteps | crates/anchor/src/supervise_windows.rs:131-159 | every drain of the anchor is a run of the protocol's steps, so what is proved of runs holds of the operation |
| HoldRuns.HandOverIsSpawn | crates/anchor/src/supervise_windows.rs:115-123 | handing over is the protocol's spawn |
| HoldRuns.KeptUntilReleased | crates/anchor/src/held_windows.rs:436-458 | across deaths and spawns an entry is kept as it is until a release of it is applied |
| HoldRuns.EntriesWithinBound | crates/anchor/src/held_windows.rs:489-495 | the bound holds in every state of every run |
| HoldRuns.GainedFromTheLiving | crates/anchor/src/handles.rs:6-9 | nothing is held from a daemon that died before its handles were taken |

## Left out

- Weak memory: the seqlock is proved over sequentially consistent steps, not over the acquire and release orders the source uses.
- Seqlock.PayloadRegion.Publish: a region shorter than its own two words is not modelled.
- CostModel.DearerBytesSaveMore: past the cap the failing case is stated one way; whether it arises there depends on every candidate's worth.
- Verdicts.JudgedIff: stated of samples up to 2^64 / 800 bytes; past that the percent saturates, and `Sampler.Sample` states the verdict there.
- Verdicts.EvenIsIncompressible: stated of samples up to the same length, past which the nine tenths saturate too.
- CostModel.PredictionIsProportional: stated where no product saturates; past that the prediction is a cap and not a proportion.
- CostModel.PredictionByPrior: stated where the product does not saturate, for the same reason.
- Sampler.Sample: the branch for an empty sample is left out; a chunk that is not all zero has a byte to sample.
- Text of refusals: the hold formats' refusal reasons are one value, since they carry only text.
- Geometry encoding: the header's fixed encoding of the geometry would only add an easy round trip.
- Builds without zstd: a zstd verdict falls to LZ4 there.
- `crates/archive/src/store.rs`, `RestoredFile::data_bytes`, throughput conversions, the refusal log, the pool's owner words and the sealing root: short accounting that would only add easy members.
- `crates/anchor/src/held.rs`: the Unix form of the hold, tied to descriptor passing.
- OS calls: process creation, overlapped pipe I/O, descriptor inheritance, memory locking and executable identity appear only as outcomes that may refuse.
- Name policy, Unicode versions and NFS or WinFsp bridges: not part of these files.
