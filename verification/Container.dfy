// The archive container (crates/archive/src/archive.rs, format.rs): header, chunk
// records, manifest, seek table and trailer. The hash and the compressors are
// arbitrary functions, carried together in `Codecs` with the laws the reader
// relies on in `Lawful`.

module Container {
  import opened Wire
  import opened Manifest
  import opened Merkle

  const MAGIC: U32 := 0x5241_4C53
  const TRAILER_MAGIC: U32 := 0x5441_4C53
  const SEEK_TABLE_MAGIC: U32 := 0x184D_2A5E
  const FORMAT_MAJOR: U16 := 1
  const FORMAT_MINOR: U16 := 3
  const FLAG_SEEK_TABLE: U32 := 4
  const KNOWN_FLAGS: U32 := 7
  const CHUNK_PAGES := 16
  const MAX_BASE_PAGE_BYTES := 64 * 1024
  const MAX_CHUNK_BYTES := CHUNK_PAGES * MAX_BASE_PAGE_BYTES
  const HEADER_LEN := 4 + 2 + 2 + 4 + 4 + 4 + 4 + 4 + 32 + 8 + 8 + 8 + 8 + 8 + 8 + 4 + 4
  const TRAILER_LEN := 8 + 8 + 8 + 8 + 32 + 4

  datatype Encoding = Raw | Lz4 | Zstd

  function ToWire(e: Encoding): U8 {
    match e case Raw => 0 case Lz4 => 1 case Zstd => 2
  }

  function FromWire(v: U8): (r: Option<Encoding>)
    ensures r.Some? ==> ToWire(r.value) == v
    ensures r.None? ==> forall e: Encoding :: ToWire(e) != v
  {
    if v == 0 then Some(Raw) else if v == 1 then Some(Lz4) else if v == 2 then Some(Zstd) else None
  }

  datatype Chunk = Chunk(
    identity: Hash, rawLen: U64, storedLen: U64, encoding: Encoding, level: U8, dictionary: Hash, payload: Bytes)

  /** The hash and the compressors. A decompressor is given the payload and the space it may fill. */
  datatype Codecs = Codecs(
    H: Hasher,
    lz4: Bytes -> Bytes,
    unlz4: (Bytes, nat) -> Option<Bytes>,
    zstd: (Bytes, int) -> Option<Bytes>,
    unzstd: (Bytes, nat) -> Option<Bytes>)

  /** What is assumed of the compressors: decompression inverts compression and stays in its space. */
  ghost predicate Lawful(C: Codecs) {
    && (forall b: Bytes :: C.unlz4(C.lz4(b), |b|) == Some(b))
    && (forall b: Bytes, level: int :: C.zstd(b, level).Some? ==> C.unzstd(C.zstd(b, level).value, |b|) == Some(b))
    && (forall p: Bytes, n: nat :: C.unlz4(p, n).Some? ==> |C.unlz4(p, n).value| <= n)
    && (forall p: Bytes, n: nat :: C.unzstd(p, n).Some? ==> |C.unzstd(p, n).value| <= n)
  }

  // ------------------------------------------------------------------- chunks

  /** `check_canonical_chunk`. */
  predicate CanonicalRecord(rawLen: U64, storedLen: nat, encoding: Encoding) {
    rawLen > 0 && if encoding.Raw? then storedLen == rawLen else storedLen < rawLen
  }

  /** What the stored payload decompresses to in `rawLen` bytes of space. */
  function Decompressed(C: Codecs, chunk: Chunk): Option<Bytes> {
    match chunk.encoding
    case Raw => Some(chunk.payload)
    case Lz4 => C.unlz4(chunk.payload, chunk.rawLen)
    case Zstd => C.unzstd(chunk.payload, chunk.rawLen)
  }

  /** `decode_payload`. */
  function DecodePayload(C: Codecs, chunk: Chunk, index: nat): Result<Bytes> {
    if chunk.rawLen > MAX_CHUNK_BYTES then Err(ChunkTooLarge(index))
    else if !CanonicalRecord(chunk.rawLen, |chunk.payload|, chunk.encoding) then Err(NonCanonicalChunk(index))
    else if Decompressed(C, chunk).None? then Err(BadPayload(index))
    else Ok(Decompressed(C, chunk).value)
  }

  /** `Archive::content`: the decoded bytes, verified against the identity. */
  function Content(C: Codecs, chunk: Chunk): Result<Bytes> {
    var bytes :- DecodePayload(C, chunk, 0);
    if C.H(bytes) != chunk.identity then Err(ChunkIdentityMismatch(0)) else Ok(bytes)
  }

  /** `Archive::verify_into`: verifies a chunk in a scratch buffer instead of an allocation of its own. */
  method VerifyInto(C: Codecs, chunk: Chunk, scratch: array<Byte>) returns (r: Result<()>)
    requires Lawful(C)
    modifies scratch
    ensures r.Ok? <==>
      && Content(C, chunk).Ok?
      && |Content(C, chunk).value| == chunk.rawLen
      && (!chunk.encoding.Raw? ==> chunk.rawLen <= scratch.Length)
    ensures r.Err? ==> r.error == BadPayload(0) || Content(C, chunk) == Err(r.error)
    ensures forall i :: chunk.rawLen <= i < scratch.Length ==> scratch[i] == old(scratch[i])
  {
    if chunk.rawLen > MAX_CHUNK_BYTES {
      return Err(ChunkTooLarge(0));
    }
    if !CanonicalRecord(chunk.rawLen, |chunk.payload|, chunk.encoding) {
      return Err(NonCanonicalChunk(0));
    }
    var content := chunk.payload;
    if !chunk.encoding.Raw? {
      if chunk.rawLen > scratch.Length {
        return Err(BadPayload(0));
      }
      var written := Decompressed(C, chunk);
      if written.None? {
        return Err(BadPayload(0));
      }
      forall i | 0 <= i < |written.value| {
        scratch[i] := written.value[i];
      }
      if |written.value| != chunk.rawLen {
        return Err(BadPayload(0));
      }
      content := scratch[..chunk.rawLen];
      assert content == written.value;
    }
    if C.H(content) != chunk.identity {
      return Err(ChunkIdentityMismatch(0));
    }
    return Ok(());
  }

  /** A chunk the reader accepts at `chunkMax`: sizes admitted, canonical, decodable and verified. */
  predicate ChunkOk(C: Codecs, c: Chunk, chunkMax: U32) {
    && c.rawLen <= chunkMax <= MAX_CHUNK_BYTES
    && c.storedLen == |c.payload|
    && Content(C, c).Ok?
  }

  /**
   * How long an accepted content is: never past the declared length, and exactly that length where the payload
   * is raw or its decompression fills the space it is given.
   */
  lemma {:induction false} ContentLength(C: Codecs, chunk: Chunk)
    requires Lawful(C) && Content(C, chunk).Ok?
    ensures |Content(C, chunk).value| <= chunk.rawLen
    ensures |Content(C, chunk).value| == chunk.rawLen <==>
      chunk.encoding.Raw? || |Decompressed(C, chunk).value| == chunk.rawLen
  {
    match chunk.encoding
    case Raw =>
    case Lz4 => assert |C.unlz4(chunk.payload, chunk.rawLen).value| <= chunk.rawLen;
    case Zstd => assert |C.unzstd(chunk.payload, chunk.rawLen).value| <= chunk.rawLen;
  }

  /** Unless two contents share its identity, it is exact just when the identity is that of so many bytes. */
  lemma {:induction false} ContentLengthOfIdentity(C: Codecs, chunk: Chunk)
    requires Content(C, chunk).Ok?
    requires forall x: Bytes, y: Bytes :: C.H(x) == C.H(y) == chunk.identity ==> x == y
    ensures |Content(C, chunk).value| == chunk.rawLen <==>
      exists b: Bytes :: |b| == chunk.rawLen && C.H(b) == chunk.identity
  {
    var content := Content(C, chunk).value;
    assert C.H(content) == chunk.identity;
  }

  /** An encoded record whose payload decompresses to less than it declares is accepted all the same. */
  lemma {:induction false} ShortContentIsAccepted(H: Hasher) returns (C: Codecs, chunk: Chunk)
    ensures Lawful(C) && C.H == H
    ensures ChunkOk(C, chunk, 2) && |Content(C, chunk).value| < chunk.rawLen
  {
    C := Codecs(H, b => b, InPlace, (b, level) => None, InPlace);
    chunk := Chunk(H([7]), 2, 1, Lz4, 0, ZERO_HASH, [7]);
    assert Decompressed(C, chunk) == Some([7]);
  }

  /** A decompressor that changes nothing. */
  function InPlace(b: Bytes, space: nat): Option<Bytes> {
    if |b| <= space then Some(b) else None
  }

  // ------------------------------------------------------------------ archive

  datatype Archive = Archive(
    basePageSize: U32, chunkMin: U32, chunkMax: U32, createdUnix: U64, volumeId: U64, snapshotId: U64,
    namePolicyId: U32, unicodeVersion: U32, rootMeta: NodeMeta, manifest: Node, chunks: seq<Chunk>)

  datatype ArchiveHeader = ArchiveHeader(
    basePageSize: U32, chunkMin: U32, chunkMax: U32, manifestHash: Hash, chunkCount: U64, rawBytes: U64,
    storedBytes: U64, createdUnix: U64, volumeId: U64, snapshotId: U64, namePolicyId: U32, unicodeVersion: U32)

  function RawTotal(cs: seq<Chunk>): nat {
    if cs == [] then 0 else RawTotal(cs[..|cs| - 1]) + cs[|cs| - 1].rawLen
  }

  function StoredTotal(cs: seq<Chunk>): nat {
    if cs == [] then 0 else StoredTotal(cs[..|cs| - 1]) + cs[|cs| - 1].storedLen
  }

  function Wrap64(n: nat): U64 { n % (U64_MAX + 1) }

  function HeaderOf(C: Codecs, a: Archive): ArchiveHeader {
    ArchiveHeader(a.basePageSize, a.chunkMin, a.chunkMax, ManifestIdentity(C.H, a.rootMeta, a.manifest),
      Wrap64(|a.chunks|), Wrap64(RawTotal(a.chunks)), Wrap64(StoredTotal(a.chunks)),
      a.createdUnix, a.volumeId, a.snapshotId, a.namePolicyId, a.unicodeVersion)
  }

  // ------------------------------------------------------------------- writer

  function PutPrefix(h: ArchiveHeader, rest: Bytes): Bytes {
    PutU32(MAGIC, PutU16(FORMAT_MAJOR, PutU16(FORMAT_MINOR, PutU32(HEADER_LEN, PutU32(FLAG_SEEK_TABLE,
      PutShape(h, rest))))))
  }

  function PutShape(h: ArchiveHeader, rest: Bytes): (b: Bytes)
    ensures |b| == 44 + |rest|
  {
    PutU32(h.basePageSize, PutU32(h.chunkMin, PutU32(h.chunkMax, PutHash(h.manifestHash, rest))))
  }

  function PutCounts(h: ArchiveHeader, rest: Bytes): Bytes {
    PutU64(h.chunkCount, PutU64(h.rawBytes, PutU64(h.storedBytes, PutU64(h.createdUnix, PutU64(h.volumeId,
      PutU64(h.snapshotId, PutU32(h.namePolicyId, PutU32(h.unicodeVersion, rest))))))))
  }

  function PutArchiveHeader(h: ArchiveHeader, rest: Bytes): (b: Bytes)
    ensures |b| == HEADER_LEN + |rest|
  {
    PutPrefix(h, PutCounts(h, rest))
  }

  function PutChunk(c: Chunk, rest: Bytes): (b: Bytes)
    ensures |b| == RecordLength(c) + |rest|
  {
    PutHash(c.identity, PutU64(c.rawLen, PutU64(c.storedLen, PutU8(ToWire(c.encoding), PutU8(c.level,
      PutHash(c.dictionary, PutRaw(c.payload, rest)))))))
  }

  function RecordLength(c: Chunk): nat { 32 + 8 + 8 + 1 + 1 + 32 + |c.payload| }

  function PutChunks(cs: seq<Chunk>, rest: Bytes): Bytes {
    if cs == [] then rest else PutChunk(cs[0], PutChunks(cs[1..], rest))
  }

  function ManifestBytes(a: Archive): Bytes { PutMeta(a.rootMeta, Encode(a.manifest)) }

  function PutManifest(m: Bytes, rest: Bytes): Bytes { PutU64(Wrap64(|m|), PutRaw(m, rest)) }

  datatype SeekEntry = SeekEntry(identity: Hash, offset: U64)

  function PutSeekEntries(es: seq<SeekEntry>, rest: Bytes): Bytes {
    if es == [] then rest else PutHash(es[0].identity, PutU64(es[0].offset, PutSeekEntries(es[1..], rest)))
  }

  /** A zstd skippable frame: magic, frame size, then the entries (section 3.1.2 of RFC 8878). */
  function PutSeek(es: seq<SeekEntry>, rest: Bytes): Bytes {
    PutU32(SEEK_TABLE_MAGIC, PutU32(Min(8 + 40 * |es|, U32_MAX), PutU64(Wrap64(|es|), PutSeekEntries(es, rest))))
  }

  datatype Sections = Sections(chunks: U64, manifest: U64, seek: U64)

  function PutIndex(s: Sections, rest: Bytes): Bytes {
    PutU64(0, PutU64(s.chunks, PutU64(s.manifest, PutU64(s.seek, rest))))
  }

  /** Everything the whole-archive hash covers, then `rest`; `es` is the seek table. */
  function PutBody(h: ArchiveHeader, cs: seq<Chunk>, m: Bytes, es: seq<SeekEntry>, s: Sections, rest: Bytes): Bytes {
    PutArchiveHeader(h, PutChunks(cs, PutManifest(m, PutSeek(es, PutIndex(s, rest)))))
  }

  function ChunksLength(cs: seq<Chunk>): nat {
    if cs == [] then 0 else RecordLength(cs[0]) + ChunksLength(cs[1..])
  }

  function SectionsOf(a: Archive): Sections {
    var manifest := HEADER_LEN + ChunksLength(a.chunks);
    Sections(HEADER_LEN, Wrap64(manifest), Wrap64(manifest + 8 + |ManifestBytes(a)|))
  }

  /** The seek table the writer builds: each chunk's identity and its record's offset. */
  function SeekTable(cs: seq<Chunk>, at: nat): seq<SeekEntry> {
    if cs == [] then [] else [SeekEntry(cs[0].identity, Wrap64(at))] + SeekTable(cs[1..], at + RecordLength(cs[0]))
  }

  /** An archive's bytes with `es` for its seek table. */
  function EncodedWith(C: Codecs, a: Archive, es: seq<SeekEntry>): Bytes {
    var h, m, s := HeaderOf(C, a), ManifestBytes(a), SectionsOf(a);
    PutBody(h, a.chunks, m, es, s,
      PutHash(C.H(PutBody(h, a.chunks, m, es, s, [])), PutU32(TRAILER_MAGIC, [])))
  }

  /** `Archive::encode`. */
  function Encoded(C: Codecs, a: Archive): Bytes {
    EncodedWith(C, a, SeekTable(a.chunks, HEADER_LEN))
  }

  // ------------------------------------------------------------------- reader

  function At(b: Bytes, offset: U64): Result<Bytes> {
    if offset > |b| then Err(Truncated) else Ok(b[offset..])
  }

  function ToResult<T>(r: Read<T>): Result<T> {
    match r case Got(v, _) => Ok(v) case Refused(e) => Err(e)
  }

  /** The flags, after the magic and a version this reader takes. */
  function GetVersion(b: Bytes): Read<U32> {
    var (magic, b1) :- GetU32(b);
    if magic != MAGIC then Refused(BadMagic) else
    var (major, b2) :- GetU16(b1);
    if major != FORMAT_MAJOR then Refused(UnsupportedMajor(major)) else
    var (_, b3) :- GetU16(b2);
    var (_, b4) :- GetU32(b3);
    GetU32(b4)
  }

  function GetPrefix(b: Bytes): Read<ArchiveHeader> {
    var (flags, b5) :- GetVersion(b);
    if flags > KNOWN_FLAGS then Refused(UnknownRequiredFlag(flags - flags % (KNOWN_FLAGS + 1))) else
    var (basePageSize, b6) :- GetU32(b5);
    var (chunkMin, b7) :- GetU32(b6);
    var (chunkMax, b8) :- GetU32(b7);
    if chunkMax > MAX_CHUNK_BYTES then Refused(ChunkMaxTooLarge(chunkMax)) else
    var (manifestHash, b9) :- GetHash(b8);
    Got(ArchiveHeader(basePageSize, chunkMin, chunkMax, manifestHash, 0, 0, 0, 0, 0, 0, 0, 0), b9)
  }

  function GetCounts(h: ArchiveHeader, b: Bytes): Read<ArchiveHeader> {
    var (chunkCount, b1) :- GetU64(b);
    var (rawBytes, b2) :- GetU64(b1);
    var (storedBytes, b3) :- GetU64(b2);
    var (createdUnix, b4) :- GetU64(b3);
    var (volumeId, b5) :- GetU64(b4);
    var (snapshotId, b6) :- GetU64(b5);
    var (namePolicyId, b7) :- GetU32(b6);
    var (unicodeVersion, b8) :- GetU32(b7);
    Got(ArchiveHeader(h.basePageSize, h.chunkMin, h.chunkMax, h.manifestHash, chunkCount, rawBytes, storedBytes,
      createdUnix, volumeId, snapshotId, namePolicyId, unicodeVersion), b8)
  }

  /** `Header::parse`. */
  function GetArchiveHeader(b: Bytes): Read<ArchiveHeader> {
    var (h, b1) :- GetPrefix(b);
    GetCounts(h, b1)
  }

  /** `verify_archive_hash`: the tail magic, and the hash over everything before the hash field. */
  function HashVerified(C: Codecs, b: Bytes): Result<()> {
    if |b| < HEADER_LEN + TRAILER_LEN then Err(Truncated)
    else if FromLe(b[|b| - 4..]) != TRAILER_MAGIC then Err(BadTrailer)
    else if C.H(b[..|b| - 36]) != b[|b| - 36..|b| - 4] then Err(ArchiveHashMismatch)
    else Ok(())
  }

  function GetIndex(b: Bytes): Read<Sections> {
    var (_, b1) :- GetU64(b);
    var (chunks, b2) :- GetU64(b1);
    var (manifest, b3) :- GetU64(b2);
    var (seek, b4) :- GetU64(b3);
    Got(Sections(chunks, manifest, seek), b4)
  }

  /** `Sections::parse`. */
  function GetSections(b: Bytes): Result<Sections> {
    if |b| < TRAILER_LEN then Err(Truncated) else ToResult(GetIndex(b[|b| - TRAILER_LEN..]))
  }

  /** `read_chunk`: admits the declared sizes, then reads, decodes and verifies. */
  function GetChunk(C: Codecs, b: Bytes, index: nat, chunkMax: U32): Read<Chunk> {
    var (identity, b1) :- GetHash(b);
    var (rawLen, b2) :- GetU64(b1);
    var (storedLen, b3) :- GetU64(b2);
    var (wire, b4) :- GetU8(b3);
    if FromWire(wire).None? then Refused(BadLength)
    else if rawLen > chunkMax then Refused(ChunkTooLarge(index))
    else if !CanonicalRecord(rawLen, storedLen, FromWire(wire).value) then Refused(NonCanonicalChunk(index))
    else
      var (level, b5) :- GetU8(b4);
      var (dictionary, b6) :- GetHash(b5);
      var (payload, b7) :- GetRaw(b6, storedLen);
      var chunk := Chunk(identity, rawLen, storedLen, FromWire(wire).value, level, dictionary, payload);
      match DecodePayload(C, chunk, index)
      case Err(e) => Refused(e)
      case Ok(content) =>
        if C.H(content) != identity then Refused(ChunkIdentityMismatch(index)) else Got(chunk, b7)
  }

  function GetChunks(C: Codecs, b: Bytes, n: nat, chunkMax: U32, done: seq<Chunk>): Read<seq<Chunk>>
    decreases n
  {
    if n == 0 then Got(done, b) else
    var (c, b1) :- GetChunk(C, b, |done|, chunkMax);
    GetChunks(C, b1, n - 1, chunkMax, done + [c])
  }

  function DecodedManifest(C: Codecs, m: Bytes, manifestHash: Hash): Result<(NodeMeta, Node)> {
    match GetMeta(m)
    case Refused(_) => Err(ManifestHashMismatch)
    case Got(rootMeta, tree) =>
      match Manifest.Decoded(tree)
      case Err(_) => Err(ManifestHashMismatch)
      case Ok(node) =>
        if ManifestIdentity(C.H, rootMeta, node) != manifestHash then Err(ManifestHashMismatch)
        else Ok((rootMeta, node))
  }

  function GetManifest(b: Bytes): Read<Bytes> {
    var (len, b1) :- GetU64(b);
    GetRaw(b1, len)
  }

  function TotalsMatch(h: ArchiveHeader, cs: seq<Chunk>): bool {
    Min(RawTotal(cs), U64_MAX) == h.rawBytes && Min(StoredTotal(cs), U64_MAX) == h.storedBytes
  }

  /** `Archive::decode`. */
  function DecodedArchive(C: Codecs, b: Bytes): Result<Archive> {
    var h :- ToResult(GetArchiveHeader(b));
    var _ :- HashVerified(C, b);
    var s :- GetSections(b);
    var atChunks :- At(b, s.chunks);
    var chunks :- ToResult(GetChunks(C, atChunks, h.chunkCount, h.chunkMax, []));
    if !TotalsMatch(h, chunks) then Err(TotalsMismatch) else
    var atManifest :- At(b, s.manifest);
    var m :- ToResult(GetManifest(atManifest));
    var tree :- DecodedManifest(C, m, h.manifestHash);
    var atSeek :- At(b, s.seek);
    var magic :- ToResult(GetU32(atSeek));
    if magic != SEEK_TABLE_MAGIC then Err(BadSeekTable) else
    Ok(Archive(h.basePageSize, h.chunkMin, h.chunkMax, h.createdUnix, h.volumeId, h.snapshotId,
      h.namePolicyId, h.unicodeVersion, tree.0, tree.1, chunks))
  }

  /** The seek table's walk: the record at the first entry naming `id`. */
  function SeekFor(C: Codecs, b: Bytes, seek: Bytes, n: nat, id: Hash, chunkMax: U32): Result<Option<Chunk>>
    decreases n
  {
    if n == 0 then Ok(None) else
    match GetHash(seek)
    case Refused(e) => Err(e)
    case Got(entry, s1) =>
      match GetU64(s1)
      case Refused(e) => Err(e)
      case Got(offset, s2) =>
        if entry != id then SeekFor(C, b, s2, n - 1, id, chunkMax) else
        var record :- At(b, offset);
        var chunk :- ToResult(GetChunk(C, record, 0, chunkMax));
        Ok(Some(chunk))
  }

  function GetSeekHeader(b: Bytes): Read<nat> {
    var (magic, b1) :- GetU32(b);
    if magic != SEEK_TABLE_MAGIC then Refused(BadSeekTable) else
    var (_, b2) :- GetU32(b1);
    GetU64(b2)
  }

  /** `Archive::chunk_by_identity`. */
  function ByIdentity(C: Codecs, b: Bytes, id: Hash): Result<Option<Chunk>> {
    var h :- ToResult(GetArchiveHeader(b));
    var _ :- HashVerified(C, b);
    var s :- GetSections(b);
    var atSeek :- At(b, s.seek);
    match GetSeekHeader(atSeek)
    case Refused(e) => Err(e)
    case Got(count, seek) => SeekFor(C, b, seek, count, id, h.chunkMax)
  }

  /** What a linear scan of the chunks finds. */
  function ScanFor(cs: seq<Chunk>, id: Hash): Option<Chunk> {
    if cs == [] then None else if cs[0].identity == id then Some(cs[0]) else ScanFor(cs[1..], id)
  }
}
