// Where everything in an archive file stands (crates/archive/src/archive.rs,
// format.rs), by byte offset: the reader accepts exactly the files laid out so,
// and one altered byte under the hash is refused unless the hash collides.

module ContainerLayout {
  import opened Wire
  import opened Offsets
  import opened Manifest
  import opened Merkle
  import opened Container
  import opened ContainerProofs

  // ------------------------------------------------------------------- header

  /** The first 28 bytes: "SLAR", version 1, known flags only, a chunk limit of at most a mebibyte. */
  ghost predicate Opens(b: Bytes) {
    && |b| >= 116 && b[0..4] == [0x53, 0x4C, 0x41, 0x52] && Word(b, 4, 2) == 1 && Word(b, 12, 4) <= 7
    && Word(b, 24, 4) <= 1024 * 1024
  }

  /** The header's fields where they stand. */
  ghost predicate HeaderAt(b: Bytes, h: ArchiveHeader)
    requires |b| >= 116
  {
    && h.basePageSize == Word(b, 16, 4) && h.chunkMin == Word(b, 20, 4) && h.chunkMax == Word(b, 24, 4)
    && h.manifestHash == b[28..60]
    && h.chunkCount == Word(b, 60, 8) && h.rawBytes == Word(b, 68, 8) && h.storedBytes == Word(b, 76, 8)
    && h.createdUnix == Word(b, 84, 8) && h.volumeId == Word(b, 92, 8) && h.snapshotId == Word(b, 100, 8)
    && h.namePolicyId == Word(b, 108, 4) && h.unicodeVersion == Word(b, 112, 4)
  }

  lemma {:induction false} MagicIs(b: Bytes, at: nat)
    requires at + 4 <= |b|
    ensures Word(b, at, 4) == MAGIC <==> b[at..at + 4] == [0x53, 0x4C, 0x41, 0x52]
    ensures Word(b, at, 4) == TRAILER_MAGIC <==> b[at..at + 4] == [0x53, 0x4C, 0x41, 0x54]
    ensures Word(b, at, 4) == SEEK_TABLE_MAGIC <==> b[at..at + 4] == [0x5E, 0x2A, 0x4D, 0x18]
  {
    MagicBytes();
    WordIs(b, at, 4, MAGIC);
    WordIs(b, at, 4, TRAILER_MAGIC);
    WordIs(b, at, 4, SEEK_TABLE_MAGIC);
  }

  lemma {:induction false} FourOf(v: nat)
    ensures Le(v, 4) == [v % 0x100, v / 0x100 % 0x100, v / 0x100 / 0x100 % 0x100, v / 0x100 / 0x100 / 0x100 % 0x100]
  {
    assert Le(v, 4) == [v % 0x100] + Le(v / 0x100, 3);
    assert Le(v / 0x100, 3) == [v / 0x100 % 0x100] + Le(v / 0x100 / 0x100, 2);
    assert Le(v / 0x100 / 0x100, 2) == [v / 0x100 / 0x100 % 0x100] + Le(v / 0x100 / 0x100 / 0x100, 1);
    assert Le(v / 0x100 / 0x100 / 0x100, 1) == [v / 0x100 / 0x100 / 0x100 % 0x100] + [];
  }

  lemma {:induction false} MagicBytes()
    ensures Le(MAGIC, 4) == [0x53, 0x4C, 0x41, 0x52] && Le(TRAILER_MAGIC, 4) == [0x53, 0x4C, 0x41, 0x54]
    ensures Le(SEEK_TABLE_MAGIC, 4) == [0x5E, 0x2A, 0x4D, 0x18]
    ensures MAGIC < Pow256(4) && TRAILER_MAGIC < Pow256(4) && SEEK_TABLE_MAGIC < Pow256(4)
  {
    Pow256Values();
    FourOf(MAGIC);
    FourOf(TRAILER_MAGIC);
    FourOf(SEEK_TABLE_MAGIC);
  }

  function ShapeAt(b: Bytes): ArchiveHeader
    requires |b| >= 116
  {
    WordFits(b, 16, 4);
    WordFits(b, 20, 4);
    WordFits(b, 24, 4);
    Pow256Values();
    ArchiveHeader(Word(b, 16, 4), Word(b, 20, 4), Word(b, 24, 4), b[28..60], 0, 0, 0, 0, 0, 0, 0, 0)
  }

  lemma {:induction false} VersionWords(b: Bytes)
    requires |b| >= 116
    ensures Word(b, 12, 4) <= U32_MAX
    ensures GetVersion(b).Got? <==> Word(b, 0, 4) == MAGIC && Word(b, 4, 2) == FORMAT_MAJOR
    ensures GetVersion(b).Got? ==> GetVersion(b) == Got(Word(b, 12, 4), b[16..])
  {
    hide GetU16, GetU32, Word;
    assert b[0..] == b;
    TakeU32(b, 0);
    TakeU16(b, 4);
    TakeU16(b, 6);
    TakeU32(b, 8);
    TakeU32(b, 12);
  }

  lemma {:induction false} VersionAt(b: Bytes)
    requires |b| >= 116
    ensures Word(b, 12, 4) <= U32_MAX
    ensures GetVersion(b).Got? <==> b[0..4] == [0x53, 0x4C, 0x41, 0x52] && Word(b, 4, 2) == 1
    ensures GetVersion(b).Got? ==> GetVersion(b) == Got(Word(b, 12, 4), b[16..])
  {
    hide GetVersion, Word;
    VersionWords(b);
    MagicIs(b, 0);
  }

  lemma {:induction false} PrefixIff(b: Bytes)
    requires |b| >= 116
    ensures GetPrefix(b).Got? <==> Opens(b)
    ensures Opens(b) ==> GetPrefix(b) == Got(ShapeAt(b), b[60..])
  {
    hide GetU32, GetHash, GetVersion, Word;
    VersionAt(b);
    TakeU32(b, 16);
    TakeU32(b, 20);
    TakeU32(b, 24);
    TakeHash(b, 28);
  }

  lemma {:induction false} CountsAt(h: ArchiveHeader, b: Bytes)
    requires |b| >= 116
    ensures GetCounts(h, b[60..]).Got?
    ensures var c := GetCounts(h, b[60..]).value;
      && c.basePageSize == h.basePageSize && c.chunkMin == h.chunkMin && c.chunkMax == h.chunkMax
      && c.manifestHash == h.manifestHash
      && c.chunkCount == Word(b, 60, 8) && c.rawBytes == Word(b, 68, 8) && c.storedBytes == Word(b, 76, 8)
      && c.createdUnix == Word(b, 84, 8) && c.volumeId == Word(b, 92, 8) && c.snapshotId == Word(b, 100, 8)
      && c.namePolicyId == Word(b, 108, 4) && c.unicodeVersion == Word(b, 112, 4)
  {
    hide GetU32, GetU64, Word;
    TakeU64(b, 60);
    TakeU64(b, 68);
    TakeU64(b, 76);
    TakeU64(b, 84);
    TakeU64(b, 92);
    TakeU64(b, 100);
    TakeU32(b, 108);
    TakeU32(b, 112);
  }

  /** `Header::parse` reads these fields of exactly the files that open so. */
  lemma {:induction false} HeaderIff(b: Bytes)
    requires |b| >= 116
    ensures GetArchiveHeader(b).Got? <==> Opens(b)
    ensures GetArchiveHeader(b).Got? ==> HeaderAt(b, GetArchiveHeader(b).value)
  {
    hide GetPrefix, GetCounts, Word, Opens;
    PrefixIff(b);
    if Opens(b) {
      CountsAt(GetPrefix(b).value, b);
    }
  }

  // ------------------------------------------------------------------ records

  /** A chunk record: identity, lengths, encoding, level, dictionary and payload at these offsets. */
  ghost predicate RecordAt(b: Bytes, c: Chunk) {
    && |b| >= 82 + |c.payload| && c.identity == b[0..32] && c.rawLen == Word(b, 32, 8) && c.storedLen == Word(b, 40, 8)
    && b[48] == (match c.encoding case Raw => 0 case Lz4 => 1 case Zstd => 2)
    && c.level == b[49] && c.dictionary == b[50..82] && c.payload == b[82..82 + |c.payload|]
  }

  /** What `PutChunk` puts first is such a record, and any record followed by `rest` is what it puts. */
  lemma {:induction false} RecordIff(c: Chunk, b: Bytes, rest: Bytes)
    ensures b == PutChunk(c, rest) <==> RecordAt(b, c) && b[82 + |c.payload|..] == rest
  {
    hide PutU64, PutHash, PutRaw, PutU8, Word, Le;
    var put := PutChunk(c, rest);
    RecordWritten(c, rest);
    if RecordAt(b, c) && b[82 + |c.payload|..] == rest {
      RecordSplits(b, c);
      RecordSplits(put, c);
      SameWord(b, put, 32, 8);
      SameWord(b, put, 40, 8);
    }
  }

  lemma {:induction false} RecordSplits(b: Bytes, c: Chunk)
    requires RecordAt(b, c)
    ensures b == b[0..32] + b[32..40] + b[40..48] + [b[48]] + [b[49]] + b[50..82] + b[82..82 + |c.payload|]
      + b[82 + |c.payload|..]
  {
  }

  lemma {:induction false} RecordWritten(c: Chunk, rest: Bytes)
    ensures RecordAt(PutChunk(c, rest), c) && PutChunk(c, rest)[82 + |c.payload|..] == rest
  {
    hide PutU64, PutHash, PutRaw, PutU8, Le;
    var b7 := PutRaw(c.payload, rest);
    var b6 := PutHash(c.dictionary, b7);
    var b5 := PutU8(c.level, b6);
    var b4 := PutU8(ToWire(c.encoding), b5);
    var b3 := PutU64(c.storedLen, b4);
    var b2 := PutU64(c.rawLen, b3);
    var b := PutChunk(c, rest);
    PutHashIs(c.identity, b2);
    PutU64Is(c.rawLen, b3);
    PutU64Is(c.storedLen, b4);
    PutU8Is(ToWire(c.encoding), b5);
    PutU8Is(c.level, b6);
    PutHashIs(c.dictionary, b7);
    PutRawIs(c.payload, rest);
    assert b[0..] == b;
    Peel(b, 0, c.identity, b2);
    Peel(b, 32, Le(c.rawLen, 8), b3);
    Peel(b, 40, Le(c.storedLen, 8), b4);
    Peel(b, 48, [ToWire(c.encoding)], b5);
    Peel(b, 49, [c.level], b6);
    Peel(b, 50, c.dictionary, b7);
    Peel(b, 82, c.payload, rest);
    Pow256Values();
    LeRoundTrip(c.rawLen, 8);
    LeRoundTrip(c.storedLen, 8);
    assert b[48..49][0] == b[48] && b[49..50][0] == b[49];
  }

  /** What the payload of a record decodes to, by its encoding. */
  function Decodes(C: Codecs, c: Chunk): Option<Bytes> {
    if c.encoding == Raw then Some(c.payload)
    else if c.encoding == Lz4 then C.unlz4(c.payload, c.rawLen) else C.unzstd(c.payload, c.rawLen)
  }

  /**
   * The chunks a reader may accept: within the archive's limit, not empty, raw exactly as long as declared or encoded
   * in less, and decoding to bytes of the identity they are stored under.
   */
  lemma {:induction false} AcceptableChunk(C: Codecs, c: Chunk, chunkMax: U32)
    ensures ChunkOk(C, c, chunkMax) <==>
      && 0 < c.rawLen <= chunkMax <= 1024 * 1024 && c.storedLen == |c.payload|
      && (if c.encoding == Raw then |c.payload| == c.rawLen else |c.payload| < c.rawLen)
      && Decodes(C, c).Some? && C.H(Decodes(C, c).value) == c.identity
  {
    assert Decodes(C, c) == Decompressed(C, c);
  }

  /** `read_chunk` accepts exactly the records written of the chunks it may accept. */
  lemma {:induction false} ChunkIff(C: Codecs, b: Bytes, index: nat, chunkMax: U32, c: Chunk, rest: Bytes)
    requires chunkMax <= MAX_CHUNK_BYTES
    ensures GetChunk(C, b, index, chunkMax) == Got(c, rest) <==> ChunkOk(C, c, chunkMax) && b == PutChunk(c, rest)
  {
    hide ChunkOk, GetChunk, PutChunk;
    if GetChunk(C, b, index, chunkMax) == Got(c, rest) {
      ChunkSound(C, b, index, chunkMax);
      ChunkWasPut(C, b, index, chunkMax);
    }
    if ChunkOk(C, c, chunkMax) && b == PutChunk(c, rest) {
      ChunkComplete(C, c, rest, index, chunkMax);
    }
  }

  lemma {:induction false} ChunkWasPut(C: Codecs, b: Bytes, index: nat, chunkMax: U32)
    requires GetChunk(C, b, index, chunkMax).Got?
    ensures b == PutChunk(GetChunk(C, b, index, chunkMax).value, GetChunk(C, b, index, chunkMax).rest)
  {
    hide Decompressed, Le, FromLe, CanonicalRecord, GetU64, GetHash, GetRaw, GetU8, PutU64, PutHash, PutRaw, PutU8;
    var b1 := GetHash(b);
    var b2 := GetU64(b1.rest);
    var b3 := GetU64(b2.rest);
    var b4 := GetU8(b3.rest);
    var b5 := GetU8(b4.rest);
    var b6 := GetHash(b5.rest);
    var b7 := GetRaw(b6.rest, b3.value);
    PutHashIs(b1.value, b1.rest);
    PutU64Is(b2.value, b2.rest);
    PutU64Is(b3.value, b3.rest);
    PutHashIs(b6.value, b6.rest);
    PutRawIs(b7.value, b7.rest);
  }

  lemma {:induction false} ChunksWerePut(C: Codecs, b: Bytes, n: nat, chunkMax: U32, done: seq<Chunk>)
    requires GetChunks(C, b, n, chunkMax, done).Got?
    ensures var r := GetChunks(C, b, n, chunkMax, done);
      |r.value| == |done| + n && done <= r.value && b == PutChunks(r.value[|done|..], r.rest)
    decreases n
  {
    hide GetChunk, PutChunk;
    if n == 0 {
      assert done[|done|..] == [];
    } else {
      var c := GetChunk(C, b, |done|, chunkMax);
      ChunkWasPut(C, b, |done|, chunkMax);
      ChunksWerePut(C, c.rest, n - 1, chunkMax, done + [c.value]);
      var cs := GetChunks(C, b, n, chunkMax, done).value;
      assert cs[|done|] == (done + [c.value])[|done|] && cs[|done|..][1..] == cs[|done| + 1..];
    }
  }

  /** The chunks of a file are exactly the records written of them, one after the other. */
  lemma {:induction false} ChunksIff(C: Codecs, b: Bytes, n: nat, chunkMax: U32, cs: seq<Chunk>, rest: Bytes)
    requires chunkMax <= MAX_CHUNK_BYTES
    ensures GetChunks(C, b, n, chunkMax, []) == Got(cs, rest) <==>
      |cs| == n && (forall i :: 0 <= i < n ==> ChunkOk(C, cs[i], chunkMax)) && b == PutChunks(cs, rest)
  {
    hide ChunkOk, GetChunks, PutChunks;
    if GetChunks(C, b, n, chunkMax, []) == Got(cs, rest) {
      ChunksWerePut(C, b, n, chunkMax, []);
      ChunksSound(C, b, n, chunkMax, []);
      assert cs[0..] == cs;
    }
    if |cs| == n && (forall i :: 0 <= i < n ==> ChunkOk(C, cs[i], chunkMax)) && b == PutChunks(cs, rest) {
      ChunksComplete(C, cs, 0, rest, chunkMax);
      assert cs[0..] == cs && cs[..0] == [];
    }
  }

  // ----------------------------------------------------------------- manifest

  /** The manifest section is accepted exactly as the canonical bytes of what it holds, under the identity pinned. */
  lemma {:induction false} ManifestIff(C: Codecs, m: Bytes, pinned: Hash, meta: NodeMeta, root: Node)
    ensures DecodedManifest(C, m, pinned) == Ok((meta, root)) <==>
      && MetaCanonical(meta) && Canonical(root) && m == PutMeta(meta, Encode(root))
      && ManifestIdentity(C.H, meta, root) == pinned
  {
    hide GetMeta, PutMeta, MetaCanonical, Canonical, Manifest.Decoded, Encode, ManifestIdentity;
    RootMetaIffCanonicalEncoding(m, meta, Encode(root));
    DecodeIffCanonicalEncoding(Encode(root), root);
    if GetMeta(m).Got? {
      DecodeIffCanonicalEncoding(GetMeta(m).rest, root);
    }
  }

  // --------------------------------------------------------------------- file

  /** The last 68 bytes: where the sections are, the hash of all before it, "SLAT". */
  ghost predicate Closes(C: Codecs, b: Bytes) {
    && |b| >= 116 + 68 && b[|b| - 4..] == [0x53, 0x4C, 0x41, 0x54]
    && b[|b| - 36..|b| - 4] == C.H(b[..|b| - 36])
  }

  /** The records where the trailer says, as many as the header counts and as long as it adds up. */
  ghost predicate HoldsChunks(C: Codecs, b: Bytes, a: Archive)
    requires |b| >= 184
  {
    && Word(b, |b| - 60, 8) <= |b| && |a.chunks| == Word(b, 60, 8)
    && (exists rest :: b[Word(b, |b| - 60, 8)..] == PutChunks(a.chunks, rest))
    && (forall i :: 0 <= i < |a.chunks| ==> ChunkOk(C, a.chunks[i], a.chunkMax))
    && Min(RawTotal(a.chunks), U64_MAX) == Word(b, 68, 8) && Min(StoredTotal(a.chunks), U64_MAX) == Word(b, 76, 8)
  }

  /** The manifest where the trailer says, after its length; canonical, and of the identity the header pins. */
  ghost predicate HoldsManifest(C: Codecs, b: Bytes, a: Archive)
    requires |b| >= 184
  {
    var at := Word(b, |b| - 52, 8);
    && at + 8 <= |b| && at + 8 + Word(b, at, 8) <= |b|
    && b[at + 8..at + 8 + Word(b, at, 8)] == PutMeta(a.rootMeta, Encode(a.manifest))
    && MetaCanonical(a.rootMeta) && Canonical(a.manifest)
    && b[28..60] == ManifestIdentity(C.H, a.rootMeta, a.manifest)
  }

  /** Both, and the head of a seek table where the trailer says. */
  ghost predicate Holds(C: Codecs, b: Bytes, a: Archive)
    requires |b| >= 184
  {
    && HoldsChunks(C, b, a) && HoldsManifest(C, b, a)
    && HasBytes(b, Word(b, |b| - 44, 8), [0x5E, 0x2A, 0x4D, 0x18])
  }

  ghost predicate Fields(b: Bytes, a: Archive)
    requires |b| >= 184
  {
    && a.basePageSize == Word(b, 16, 4) && a.chunkMin == Word(b, 20, 4) && a.chunkMax == Word(b, 24, 4)
    && a.createdUnix == Word(b, 84, 8) && a.volumeId == Word(b, 92, 8) && a.snapshotId == Word(b, 100, 8)
    && a.namePolicyId == Word(b, 108, 4) && a.unicodeVersion == Word(b, 112, 4)
  }

  lemma {:induction false} HashIff(C: Codecs, b: Bytes)
    ensures HashVerified(C, b).Ok? <==> Closes(C, b)
    ensures Closes(C, b) ==> HashVerified(C, b) == Ok(())
  {
    if |b| >= 116 + 68 {
      MagicIs(b, |b| - 4);
      assert b[|b| - 4..] == b[|b| - 4..|b| - 4 + 4];
    }
  }

  lemma {:induction false} SectionsAt(b: Bytes)
    requires |b| >= 184
    ensures GetSections(b).Ok?
    ensures var s := GetSections(b).value;
      s.chunks == Word(b, |b| - 60, 8) && s.manifest == Word(b, |b| - 52, 8) && s.seek == Word(b, |b| - 44, 8)
  {
    hide GetU64, Word;
    TakeU64(b, |b| - 68);
    TakeU64(b, |b| - 60);
    TakeU64(b, |b| - 52);
    TakeU64(b, |b| - 44);
  }

  lemma {:induction false} ManifestAt(b: Bytes, at: nat)
    requires at <= |b|
    ensures GetManifest(b[at..]).Got? <==> at + 8 <= |b| && at + 8 + Word(b, at, 8) <= |b|
    ensures GetManifest(b[at..]).Got? ==> GetManifest(b[at..]).value == b[at + 8..at + 8 + Word(b, at, 8)]
  {
    hide GetU64, Word;
    if at + 8 <= |b| {
      TakeU64(b, at);
      var rest := b[at + 8..];
      if Word(b, at, 8) <= |rest| {
        assert rest[..Word(b, at, 8)] == b[at + 8..at + 8 + Word(b, at, 8)];
      }
    } else {
      TooShort(b[at..]);
    }
  }

  lemma {:induction false} TooShort(b: Bytes)
    requires |b| < 8
    ensures GetU64(b).Refused?
  {
  }

  /**
   * `Archive::decode` accepts a file as an archive exactly when it opens, closes, holds and says so, byte for byte; so
   * every bit before the hash is under the hash.
   */
  lemma {:induction false} AcceptedIff(C: Codecs, b: Bytes, a: Archive)
    ensures DecodedArchive(C, b) == Ok(a) <==>
      |b| >= 184 && Opens(b) && Closes(C, b) && Fields(b, a) && Holds(C, b, a)
  {
    hide DecodedArchive, Opens, Closes, Fields, Holds;
    if DecodedArchive(C, b) == Ok(a) {
      AcceptedIsLaidOut(C, b, a);
    }
    if |b| >= 184 && Opens(b) && Closes(C, b) && Fields(b, a) && Holds(C, b, a) {
      LaidOutIsAccepted(C, b, a);
    }
  }

  lemma {:induction false} AcceptedIsLaidOut(C: Codecs, b: Bytes, a: Archive)
    requires DecodedArchive(C, b) == Ok(a)
    ensures |b| >= 184 && Opens(b) && Closes(C, b) && Fields(b, a) && Holds(C, b, a)
  {
    hide GetArchiveHeader, HashVerified, GetSections, GetChunks, GetManifest, DecodedManifest, ChunkOk, MetaCanonical,
      Canonical, ManifestIdentity, PutChunks, PutMeta, Encode, RawTotal, StoredTotal, Word, GetU32, Opens, Closes;
    DecodedVerifies(C, b);
    HashIff(C, b);
    ClosesHasRoom(C, b);
    HeaderIff(b);
    var h := GetArchiveHeader(b).value;
    HeaderSound(b);
    SectionsAt(b);
    var s := GetSections(b).value;
    var read := GetChunks(C, b[s.chunks..], h.chunkCount, h.chunkMax, []);
    ChunksIff(C, b[s.chunks..], h.chunkCount, h.chunkMax, a.chunks, read.rest);
    ManifestAt(b, s.manifest);
    ManifestIff(C, GetManifest(b[s.manifest..]).value, h.manifestHash, a.rootMeta, a.manifest);
    SeekAt(b, s.seek);
  }

  lemma {:induction false} ClosesHasRoom(C: Codecs, b: Bytes)
    requires Closes(C, b)
    ensures |b| >= 184
  {
  }

  lemma {:induction false} SeekAt(b: Bytes, at: nat)
    requires at <= |b|
    ensures ReadsAs(GetU32(b[at..]), SEEK_TABLE_MAGIC) <==>
      HasBytes(b, at, [0x5E, 0x2A, 0x4D, 0x18])
  {
    if at + 4 <= |b| {
      TakeU32(b, at);
      MagicIs(b, at);
    }
  }

  /** What a decode checked, part by part. */
  lemma {:induction false} DecodedVerifies(C: Codecs, b: Bytes)
    requires DecodedArchive(C, b).Ok?
    ensures GetArchiveHeader(b).Got? && HashVerified(C, b).Ok? && GetSections(b).Ok?
    ensures var h, s, a := GetArchiveHeader(b).value, GetSections(b).value, DecodedArchive(C, b).value;
      && s.chunks <= |b| && s.manifest <= |b| && s.seek <= |b|
      && ReadsAs(GetChunks(C, b[s.chunks..], h.chunkCount, h.chunkMax, []), a.chunks) && TotalsMatch(h, a.chunks)
      && GetManifest(b[s.manifest..]).Got?
      && DecodedManifest(C, GetManifest(b[s.manifest..]).value, h.manifestHash) == Ok((a.rootMeta, a.manifest))
      && ReadsAs(GetU32(b[s.seek..]), SEEK_TABLE_MAGIC)
      && a.basePageSize == h.basePageSize && a.chunkMin == h.chunkMin && a.chunkMax == h.chunkMax
      && a.createdUnix == h.createdUnix && a.volumeId == h.volumeId && a.snapshotId == h.snapshotId
      && a.namePolicyId == h.namePolicyId && a.unicodeVersion == h.unicodeVersion
  {
    hide GetArchiveHeader, HashVerified, GetSections, GetChunks, GetManifest, DecodedManifest, GetU32, TotalsMatch;
  }

  lemma {:induction false} LaidOutIsAccepted(C: Codecs, b: Bytes, a: Archive)
    requires |b| >= 184 && Opens(b) && Closes(C, b) && Fields(b, a) && Holds(C, b, a)
    ensures DecodedArchive(C, b) == Ok(a)
  {
    hide GetArchiveHeader, HashVerified, GetSections, GetChunks, GetManifest, DecodedManifest, ChunkOk, MetaCanonical,
      Canonical, ManifestIdentity, PutChunks, PutMeta, Encode, RawTotal, StoredTotal, Word, GetU32, Opens, Closes,
      DecodedArchive;
    HashIff(C, b);
    HeaderIff(b);
    var h := GetArchiveHeader(b).value;
    HeaderSound(b);
    SectionsAt(b);
    var s := GetSections(b).value;
    var rest :| b[s.chunks..] == PutChunks(a.chunks, rest);
    ChunksIff(C, b[s.chunks..], h.chunkCount, h.chunkMax, a.chunks, rest);
    ManifestAt(b, s.manifest);
    ManifestIff(C, GetManifest(b[s.manifest..]).value, h.manifestHash, a.rootMeta, a.manifest);
    SeekAt(b, s.seek);
    DecodeFromParts(C, b, h, s, a.chunks, GetManifest(b[s.manifest..]).value, (a.rootMeta, a.manifest));
  }

  /** The lookup answers only of files that open and close so. */
  lemma {:induction false} LookupIsVerified(C: Codecs, b: Bytes, id: Hash)
    requires ByIdentity(C, b, id).Ok?
    ensures Opens(b) && Closes(C, b)
    ensures ByIdentity(C, b, id).value.Some? ==> ChunkOk(C, ByIdentity(C, b, id).value.value, Word(b, 24, 4))
  {
    hide GetArchiveHeader, HashVerified, GetSections, GetSeekHeader, SeekFor, ChunkOk, Word, Opens, Closes;
    LookupParts(C, b, id);
    HashIff(C, b);
    ClosesHasRoom(C, b);
    HeaderIff(b);
    HeaderSound(b);
    var s := GetSections(b).value;
    var header := GetSeekHeader(b[s.seek..]);
    if ByIdentity(C, b, id).value.Some? {
      SeekSound(C, b, header.rest, header.value, id, GetArchiveHeader(b).value.chunkMax);
    }
  }

  lemma {:induction false} LookupParts(C: Codecs, b: Bytes, id: Hash)
    requires ByIdentity(C, b, id).Ok?
    ensures GetArchiveHeader(b).Got? && HashVerified(C, b).Ok? && GetSections(b).Ok?
    ensures var h, s := GetArchiveHeader(b).value, GetSections(b).value;
      && s.seek <= |b| && GetSeekHeader(b[s.seek..]).Got?
      && ByIdentity(C, b, id) ==
        SeekFor(C, b, GetSeekHeader(b[s.seek..]).rest, GetSeekHeader(b[s.seek..]).value, id, h.chunkMax)
  {
    hide GetArchiveHeader, HashVerified, GetSections, GetSeekHeader, SeekFor;
  }

  lemma {:induction false} SeekSound(C: Codecs, b: Bytes, seek: Bytes, n: nat, id: Hash, chunkMax: U32)
    requires chunkMax <= MAX_CHUNK_BYTES && SeekFor(C, b, seek, n, id, chunkMax).Ok?
    requires SeekFor(C, b, seek, n, id, chunkMax).value.Some?
    ensures ChunkOk(C, SeekFor(C, b, seek, n, id, chunkMax).value.value, chunkMax)
    decreases n
  {
    hide GetChunk, ChunkOk, GetHash, GetU64;
    var entry := GetHash(seek);
    var offset := GetU64(entry.rest);
    if entry.value != id {
      SeekSound(C, b, offset.rest, n - 1, id, chunkMax);
    } else {
      ChunkSound(C, b[offset.value..], 0, chunkMax);
    }
  }

  // ---------------------------------------------------------------- alteration

  /** Two accepted files of one length and one trailer are the same file, or two strings with one hash. */
  lemma {:induction false} FileBinding(C: Codecs, b: Bytes, c: Bytes)
    requires DecodedArchive(C, b).Ok? && DecodedArchive(C, c).Ok?
    requires |b| == |c| && b[|b| - 36..] == c[|c| - 36..]
    ensures b == c || (b[..|b| - 36] != c[..|c| - 36] && C.H(b[..|b| - 36]) == C.H(c[..|c| - 36]))
  {
    hide DecodedArchive, Opens, Closes, Fields, Holds;
    AcceptedIff(C, b, DecodedArchive(C, b).value);
    AcceptedIff(C, c, DecodedArchive(C, c).value);
    HashOfTail(C, b);
    HashOfTail(C, c);
    assert b == b[..|b| - 36] + b[|b| - 36..] && c == c[..|c| - 36] + c[|c| - 36..];
  }

  lemma {:induction false} HashOfTail(C: Codecs, b: Bytes)
    requires Closes(C, b)
    ensures |b| >= 184 && C.H(b[..|b| - 36]) == b[|b| - 36..][..32]
  {
    assert b[|b| - 36..][..32] == b[|b| - 36..|b| - 4];
  }

  /** Of an accepted file, no byte under the hash can change without the hash of it staying the same: it is refused. */
  lemma {:induction false} AlteredIsRefused(C: Codecs, b: Bytes, k: nat, byte: Byte, id: Hash)
    requires DecodedArchive(C, b).Ok? && k + 36 < |b|
    requires C.H(b[..|b| - 36][k := byte]) != C.H(b[..|b| - 36])
    ensures DecodedArchive(C, b[k := byte]).Err? && ByIdentity(C, b[k := byte], id).Err?
  {
    hide DecodedArchive, ByIdentity, Opens, Closes, Fields, Holds;
    var c := b[k := byte];
    AcceptedIff(C, b, DecodedArchive(C, b).value);
    HashOfTail(C, b);
    assert c[|c| - 36..] == b[|b| - 36..] && c[..|c| - 36] == b[..|b| - 36][k := byte];
    if DecodedArchive(C, c).Ok? {
      AcceptedIff(C, c, DecodedArchive(C, c).value);
      HashOfTail(C, c);
    }
    if ByIdentity(C, c, id).Ok? {
      LookupIsVerified(C, c, id);
      HashOfTail(C, c);
    }
  }

  // ------------------------------------------------------------------ writing

  /** A written file begins with these sixteen bytes: format 1.3, a header of 116 bytes, a seek table. */
  lemma {:induction false} WrittenPrefix(h: ArchiveHeader, rest: Bytes)
    ensures PutArchiveHeader(h, rest)[..16] ==
      [0x53, 0x4C, 0x41, 0x52, 1, 0, 3, 0, 116, 0, 0, 0, 4, 0, 0, 0]
  {
    hide PutU16, PutU32, PutShape, PutCounts, Le;
    var b := PutArchiveHeader(h, rest);
    var b5 := PutShape(h, PutCounts(h, rest));
    var b4 := PutU32(FLAG_SEEK_TABLE, b5);
    var b3 := PutU32(HEADER_LEN, b4);
    var b2 := PutU16(FORMAT_MINOR, b3);
    var b1 := PutU16(FORMAT_MAJOR, b2);
    PutU32Is(MAGIC, b1);
    PutU16Is(FORMAT_MAJOR, b2);
    PutU16Is(FORMAT_MINOR, b3);
    PutU32Is(HEADER_LEN, b4);
    PutU32Is(FLAG_SEEK_TABLE, b5);
    MagicBytes();
    FourOf(HEADER_LEN);
    FourOf(FLAG_SEEK_TABLE);
    TwoOf(FORMAT_MAJOR);
    TwoOf(FORMAT_MINOR);
    var head := Le(MAGIC, 4) + Le(FORMAT_MAJOR, 2) + Le(FORMAT_MINOR, 2) + Le(HEADER_LEN, 4) + Le(FLAG_SEEK_TABLE, 4);
    assert b == head + b5;
  }

  lemma {:induction false} PutU16Is(v: U16, rest: Bytes)
    ensures PutU16(v, rest) == Le(v, 2) + rest
  {
  }

  lemma {:induction false} TwoOf(v: nat)
    ensures Le(v, 2) == [v % 0x100, v / 0x100 % 0x100]
  {
    assert Le(v, 2) == [v % 0x100] + Le(v / 0x100, 1);
    assert Le(v / 0x100, 1) == [v / 0x100 % 0x100] + [];
  }

  /** A seek table is a skippable frame of its own length: the count, then 40 bytes an entry, identity and offset. */
  lemma {:induction false} WrittenSeek(es: seq<SeekEntry>, i: nat, rest: Bytes)
    requires |es| <= U64_MAX && i < |es|
    ensures var b := PutSeek(es, rest);
      && HasBytes(b, 0, [0x5E, 0x2A, 0x4D, 0x18]) && HasWord(b, 4, Min(8 + 40 * |es|, U32_MAX), 4)
      && HasWord(b, 8, |es|, 8) && HasBytes(b, 16 + 40 * i, es[i].identity)
      && HasWord(b, 16 + 40 * i + 32, es[i].offset, 8) && 16 + 40 * |es| <= |b| && b[16 + 40 * |es|..] == rest
  {
    hide PutU32, PutU64, PutSeekEntries, Le, HasWord, HasBytes;
    var b := PutSeek(es, rest);
    var b3 := PutSeekEntries(es, rest);
    var b2 := PutU64(|es|, b3);
    var b1 := PutU32(Min(8 + 40 * |es|, U32_MAX), b2);
    PutU32Is(SEEK_TABLE_MAGIC, b1);
    PutU32Is(Min(8 + 40 * |es|, U32_MAX), b2);
    PutU64Is(|es|, b3);
    MagicBytes();
    assert b[0..] == b;
    PeelBytes(b, 0, Le(SEEK_TABLE_MAGIC, 4), b1);
    PeelWord(b, 4, Min(8 + 40 * |es|, U32_MAX), 4, b2);
    PeelWord(b, 8, |es|, 8, b3);
    SeekEntriesFrom(es, i, rest);
    SeekEntriesFrom(es, |es|, rest);
    assert b[16..][40 * i..] == b[16 + 40 * i..] && b[16..][40 * |es|..] == b[16 + 40 * |es|..];
    SeekEntryIs(es[i..], rest);
    var tail := PutSeekEntries(es[i..][1..], rest);
    PeelBytes(b, 16 + 40 * i, es[i].identity, Le(es[i].offset, 8) + tail);
    PeelWord(b, 16 + 40 * i + 32, es[i].offset, 8, tail);
  }

  lemma {:induction false} SeekEntryIs(es: seq<SeekEntry>, rest: Bytes)
    requires es != []
    ensures PutSeekEntries(es, rest) == es[0].identity + (Le(es[0].offset, 8) + PutSeekEntries(es[1..], rest))
  {
    hide Le, PutU64, PutHash;
    PutU64Is(es[0].offset, PutSeekEntries(es[1..], rest));
    PutHashIs(es[0].identity, PutU64(es[0].offset, PutSeekEntries(es[1..], rest)));
  }

  lemma {:induction false} NoSeekEntries(rest: Bytes)
    ensures PutSeekEntries([], rest) == rest
  {
  }

  lemma {:induction false} SeekEntriesFrom(es: seq<SeekEntry>, i: nat, rest: Bytes)
    requires i <= |es|
    ensures 40 * i <= |PutSeekEntries(es, rest)|
    ensures PutSeekEntries(es, rest)[40 * i..] == PutSeekEntries(es[i..], rest)
    ensures i == |es| ==> PutSeekEntries(es[i..], rest) == rest
  {
    hide Le, PutSeekEntries;
    var b := PutSeekEntries(es, rest);
    NoSeekEntries(rest);
    assert es[|es|..] == [];
    if i == 0 {
      assert es[0..] == es;
    } else {
      SeekEntriesFrom(es, i - 1, rest);
      SeekEntryIs(es[i - 1..], rest);
      assert es[i - 1..][1..] == es[i..];
      var tail := PutSeekEntries(es[i..], rest);
      PeelBytes(b, 40 * (i - 1), es[i - 1].identity, Le(es[i - 1].offset, 8) + tail);
      PeelWord(b, 40 * (i - 1) + 32, es[i - 1].offset, 8, tail);
    }
  }

  /** Each entry the writer makes names its chunk and where in the file the chunk's record stands. */
  lemma {:induction false} WrittenEntries(cs: seq<Chunk>, at: nat, i: nat, b: Bytes, after: Bytes)
    requires i < |cs| && at <= |b| <= U64_MAX && b[at..] == PutChunks(cs, after)
    ensures |SeekTable(cs, at)| == |cs|
    ensures var e := SeekTable(cs, at)[i];
      e.identity == cs[i].identity && e.offset <= |b| && b[e.offset..] == PutChunks(cs[i..], after)
    decreases |cs|
  {
    hide PutChunk, RecordLength;
    SeekTableLength(cs, at);
    if i == 0 {
      assert cs[0..] == cs;
    } else {
      var next := at + RecordLength(cs[0]);
      var tail := PutChunks(cs[1..], after);
      ChunkAppends(cs[0], [], tail);
      assert [] + tail == tail;
      SuffixOf(PutChunk(cs[0], []), tail);
      assert b[next..] == b[at..][RecordLength(cs[0])..];
      WrittenEntries(cs[1..], next, i - 1, b, after);
      assert cs[1..][i - 1..] == cs[i..];
    }
  }

  /** The totals a header carries are sums over the chunks. */
  lemma {:induction false} TotalsAdd(cs: seq<Chunk>, ds: seq<Chunk>)
    ensures RawTotal(cs + ds) == RawTotal(cs) + RawTotal(ds)
    ensures StoredTotal(cs + ds) == StoredTotal(cs) + StoredTotal(ds)
    ensures forall c: Chunk :: RawTotal([c]) == c.rawLen && StoredTotal([c]) == c.storedLen
    decreases |ds|
  {
    if ds == [] {
      assert cs + ds == cs;
    } else {
      TotalsAdd(cs, ds[..|ds| - 1]);
      assert (cs + ds)[..|cs + ds| - 1] == cs + ds[..|ds| - 1];
    }
  }
}
