// The container's main results: every well-formed archive reads back as itself,
// the seek table finds what a scan finds, and what the reader accepts is verified.

module ContainerProofs {
  import opened Wire
  import opened Manifest
  import opened Merkle
  import opened Container

  /** What a writer's archive satisfies. */
  ghost predicate WellFormed(C: Codecs, a: Archive) {
    && a.chunkMax <= MAX_CHUNK_BYTES
    && MetaCanonical(a.rootMeta) && Canonical(a.manifest)
    && (forall i :: 0 <= i < |a.chunks| ==> ChunkOk(C, a.chunks[i], a.chunkMax))
    && RawTotal(a.chunks) <= U64_MAX && StoredTotal(a.chunks) <= U64_MAX
  }

  // ----------------------------------------------------------------- suffixes

  lemma {:induction false} Appends()
    ensures forall v: U16, r: Bytes, t: Bytes {:trigger PutU16(v, r) + t} :: PutU16(v, r) + t == PutU16(v, r + t)
    ensures forall v: U32, r: Bytes, t: Bytes {:trigger PutU32(v, r) + t} :: PutU32(v, r) + t == PutU32(v, r + t)
    ensures forall v: U64, r: Bytes, t: Bytes {:trigger PutU64(v, r) + t} :: PutU64(v, r) + t == PutU64(v, r + t)
    ensures forall v: U8, r: Bytes, t: Bytes {:trigger PutU8(v, r) + t} :: PutU8(v, r) + t == PutU8(v, r + t)
    ensures forall v: Hash, r: Bytes, t: Bytes {:trigger PutHash(v, r) + t} :: PutHash(v, r) + t == PutHash(v, r + t)
    ensures forall v: Bytes, r: Bytes, t: Bytes {:trigger PutRaw(v, r) + t} :: PutRaw(v, r) + t == PutRaw(v, r + t)
  {
    hide Le;
    forall v: U16, r: Bytes, t: Bytes ensures PutU16(v, r) + t == PutU16(v, r + t) {
      assert Le(v, 2) + r + t == Le(v, 2) + (r + t);
    }
    forall v: U32, r: Bytes, t: Bytes ensures PutU32(v, r) + t == PutU32(v, r + t) {
      assert Le(v, 4) + r + t == Le(v, 4) + (r + t);
    }
    forall v: U64, r: Bytes, t: Bytes ensures PutU64(v, r) + t == PutU64(v, r + t) {
      assert Le(v, 8) + r + t == Le(v, 8) + (r + t);
    }
    forall v: Bytes, r: Bytes, t: Bytes ensures PutRaw(v, r) + t == PutRaw(v, r + t) {
      assert v + r + t == v + (r + t);
    }
    forall v: Hash, r: Bytes, t: Bytes ensures PutHash(v, r) + t == PutHash(v, r + t) {
      assert v + r + t == v + (r + t);
    }
  }

  lemma {:induction false} HeaderAppends(h: ArchiveHeader, r: Bytes, t: Bytes)
    ensures PutArchiveHeader(h, r) + t == PutArchiveHeader(h, r + t)
  {
    hide PutPrefix, PutCounts;
    CountsAppend(h, r, t);
    PrefixAppends(h, PutCounts(h, r), t);
  }

  lemma {:induction false} PrefixAppends(h: ArchiveHeader, r: Bytes, t: Bytes)
    ensures PutPrefix(h, r) + t == PutPrefix(h, r + t)
  {
    hide PutU16, PutU32, PutShape;
    ShapeAppends(h, r, t);
    Appends();
  }

  lemma {:induction false} ShapeAppends(h: ArchiveHeader, r: Bytes, t: Bytes)
    ensures PutShape(h, r) + t == PutShape(h, r + t)
  {
    hide PutU32, PutHash;
    Appends();
  }

  lemma {:induction false} CountsAppend(h: ArchiveHeader, r: Bytes, t: Bytes)
    ensures PutCounts(h, r) + t == PutCounts(h, r + t)
  {
    hide PutU32, PutU64;
    var unicode := PutU32(h.unicodeVersion, r);
    U32Appends(h.unicodeVersion, r, t);
    var policy := PutU32(h.namePolicyId, unicode);
    U32Appends(h.namePolicyId, unicode, t);
    var snapshot := PutU64(h.snapshotId, policy);
    U64Appends(h.snapshotId, policy, t);
    var volume := PutU64(h.volumeId, snapshot);
    U64Appends(h.volumeId, snapshot, t);
    var created := PutU64(h.createdUnix, volume);
    U64Appends(h.createdUnix, volume, t);
    var stored := PutU64(h.storedBytes, created);
    U64Appends(h.storedBytes, created, t);
    var raw := PutU64(h.rawBytes, stored);
    U64Appends(h.rawBytes, stored, t);
    U64Appends(h.chunkCount, raw, t);
  }

  lemma {:induction false} U32Appends(v: U32, r: Bytes, t: Bytes)
    ensures PutU32(v, r) + t == PutU32(v, r + t)
  {
    hide Le;
    assert Le(v, 4) + r + t == Le(v, 4) + (r + t);
  }

  lemma {:induction false} U64Appends(v: U64, r: Bytes, t: Bytes)
    ensures PutU64(v, r) + t == PutU64(v, r + t)
  {
    hide Le;
    assert Le(v, 8) + r + t == Le(v, 8) + (r + t);
  }

  lemma {:induction false} ChunkAppends(c: Chunk, r: Bytes, t: Bytes)
    ensures PutChunk(c, r) + t == PutChunk(c, r + t)
  {
    hide PutU8, PutU64, PutHash, PutRaw;
    Appends();
  }

  lemma {:induction false} ChunksAppend(cs: seq<Chunk>, r: Bytes, t: Bytes)
    ensures PutChunks(cs, r) + t == PutChunks(cs, r + t)
    ensures |PutChunks(cs, r)| == ChunksLength(cs) + |r|
    ensures |cs| <= ChunksLength(cs)
  {
    hide PutChunk;
    if cs != [] {
      ChunksAppend(cs[1..], r, t);
      ChunkAppends(cs[0], PutChunks(cs[1..], r), t);
    }
  }

  lemma {:induction false} ManifestAppends(m: Bytes, r: Bytes, t: Bytes)
    ensures PutManifest(m, r) + t == PutManifest(m, r + t)
    ensures |PutManifest(m, r)| == 8 + |m| + |r|
  {
    hide PutU64, PutRaw;
    Appends();
  }

  lemma {:induction false} SeekEntriesAppend(es: seq<SeekEntry>, r: Bytes, t: Bytes)
    ensures PutSeekEntries(es, r) + t == PutSeekEntries(es, r + t)
    ensures |PutSeekEntries(es, r)| >= |es| + |r|
  {
    hide PutU64, PutHash;
    Appends();
    if es != [] {
      SeekEntriesAppend(es[1..], r, t);
    }
  }

  lemma {:induction false} SeekAppends(es: seq<SeekEntry>, r: Bytes, t: Bytes)
    ensures PutSeek(es, r) + t == PutSeek(es, r + t)
    ensures |PutSeek(es, r)| >= |es| + |r|
  {
    hide PutU64, PutU32, PutSeekEntries;
    Appends();
    SeekEntriesAppend(es, r, t);
  }

  lemma {:induction false} IndexAppends(s: Sections, r: Bytes, t: Bytes)
    ensures PutIndex(s, r) + t == PutIndex(s, r + t)
    ensures |PutIndex(s, r)| == 32 + |r|
  {
    hide PutU64;
    var seek := PutU64(s.seek, r);
    U64Appends(s.seek, r, t);
    var manifest := PutU64(s.manifest, seek);
    U64Appends(s.manifest, seek, t);
    var chunks := PutU64(s.chunks, manifest);
    U64Appends(s.chunks, manifest, t);
    U64Appends(0, chunks, t);
  }

  /** What stands at each section's offset, and what the whole-archive hash covers. */
  lemma {:induction false} BodySuffixes(
    h: ArchiveHeader, cs: seq<Chunk>, m: Bytes, es: seq<SeekEntry>, s: Sections, rest: Bytes)
    ensures var b := PutBody(h, cs, m, es, s, rest);
      var i := PutIndex(s, rest);
      var k := PutSeek(es, i);
      var n := PutManifest(m, k);
      && b == PutBody(h, cs, m, es, s, []) + rest
      && |b| >= HEADER_LEN + ChunksLength(cs) + 8 + |m| + |es| + 32 + |rest|
      && b[HEADER_LEN..] == PutChunks(cs, n)
      && b[HEADER_LEN + ChunksLength(cs)..] == n
      && b[HEADER_LEN + ChunksLength(cs) + 8 + |m|..] == k
      && |i| == 32 + |rest| && b[|b| - |i|..] == i
  {
    hide PutArchiveHeader, PutChunks, PutManifest, PutSeek, PutIndex, ChunksLength;
    var i := PutIndex(s, rest);
    var k := PutSeek(es, i);
    var n := PutManifest(m, k);
    var c := PutChunks(cs, n);
    assert [] + rest == rest && [] + i == i && [] + k == k && [] + n == n && [] + c == c;
    IndexAppends(s, [], rest);
    SeekAppends(es, [], i);
    SeekAppends(es, i, []);
    SeekAppends(es, PutIndex(s, []), rest);
    ManifestAppends(m, [], k);
    ManifestAppends(m, k, []);
    ManifestAppends(m, PutSeek(es, []), i);
    ManifestAppends(m, PutSeek(es, PutIndex(s, [])), rest);
    ChunksAppend(cs, [], n);
    ChunksAppend(cs, n, []);
    ChunksAppend(cs, PutManifest(m, []), k);
    ChunksAppend(cs, PutManifest(m, PutSeek(es, [])), i);
    ChunksAppend(cs, PutManifest(m, PutSeek(es, PutIndex(s, []))), rest);
    HeaderAppends(h, [], c);
    HeaderAppends(h, PutChunks(cs, []), n);
    HeaderAppends(h, PutChunks(cs, PutManifest(m, [])), k);
    HeaderAppends(h, PutChunks(cs, PutManifest(m, PutSeek(es, []))), i);
    HeaderAppends(h, PutChunks(cs, PutManifest(m, PutSeek(es, PutIndex(s, [])))), rest);
    SuffixOf(PutArchiveHeader(h, []), c);
    SuffixOf(PutArchiveHeader(h, PutChunks(cs, [])), n);
    SuffixOf(PutArchiveHeader(h, PutChunks(cs, PutManifest(m, []))), k);
    SuffixOf(PutArchiveHeader(h, PutChunks(cs, PutManifest(m, PutSeek(es, [])))), i);
    ChunksAppend(cs, [], []);
    ChunksAppend(cs, PutManifest(m, []), []);
    ManifestAppends(m, [], []);
  }

  lemma {:induction false} SuffixOf(a: Bytes, b: Bytes)
    ensures (a + b)[|a|..] == b
  {
  }

  // ------------------------------------------------- reading what was written

  lemma {:induction false} HeaderComplete(h: ArchiveHeader, rest: Bytes)
    requires h.chunkMax <= MAX_CHUNK_BYTES
    ensures GetArchiveHeader(PutArchiveHeader(h, rest)) == Got(h, rest)
  {
    hide GetU16, GetU32, GetU64, GetHash, PutU16, PutU32, PutU64, PutHash;
    PrefixComplete(h, PutCounts(h, rest));
  }

  lemma {:induction false} PrefixComplete(h: ArchiveHeader, rest: Bytes)
    requires h.chunkMax <= MAX_CHUNK_BYTES
    ensures GetPrefix(PutPrefix(h, rest)) ==
      Got(ArchiveHeader(h.basePageSize, h.chunkMin, h.chunkMax, h.manifestHash, 0, 0, 0, 0, 0, 0, 0, 0), rest)
  {
    hide GetU16, GetU32, GetU64, GetHash, PutU16, PutU32, PutU64, PutHash;
  }

  lemma {:induction false} ChunkComplete(C: Codecs, c: Chunk, rest: Bytes, index: nat, chunkMax: U32)
    requires ChunkOk(C, c, chunkMax)
    ensures GetChunk(C, PutChunk(c, rest), index, chunkMax) == Got(c, rest)
  {
    hide GetU64, GetHash, GetRaw, PutU64, PutHash, PutRaw, Decompressed;
  }

  lemma {:induction false} ChunksComplete(C: Codecs, cs: seq<Chunk>, k: nat, rest: Bytes, chunkMax: U32)
    requires k <= |cs|
    requires forall i :: 0 <= i < |cs| ==> ChunkOk(C, cs[i], chunkMax)
    ensures GetChunks(C, PutChunks(cs[k..], rest), |cs| - k, chunkMax, cs[..k]) == Got(cs, rest)
    decreases |cs| - k
  {
    hide GetChunk, PutChunk, ChunkOk;
    if k == |cs| {
      assert cs[..k] == cs;
    } else {
      ChunkComplete(C, cs[k], PutChunks(cs[k + 1..], rest), k, chunkMax);
      assert cs[k..][1..] == cs[k + 1..] && cs[..k] + [cs[k]] == cs[..k + 1];
      ChunksComplete(C, cs, k + 1, rest, chunkMax);
    }
  }

  lemma {:induction false} ManifestSectionComplete(C: Codecs, a: Archive, rest: Bytes)
    requires MetaCanonical(a.rootMeta) && Canonical(a.manifest)
    requires |ManifestBytes(a)| <= U64_MAX
    ensures GetManifest(PutManifest(ManifestBytes(a), rest)) == Got(ManifestBytes(a), rest)
    ensures DecodedManifest(C, ManifestBytes(a), ManifestIdentity(C.H, a.rootMeta, a.manifest))
      == Ok((a.rootMeta, a.manifest))
  {
    hide GetU64, GetRaw, PutU64, PutRaw, GetMeta, PutMeta, Manifest.Decoded, Encode, ManifestIdentity, MetaCanonical,
      Canonical;
    MetaComplete(a.rootMeta, Encode(a.manifest));
    DecodeIffCanonicalEncoding(Encode(a.manifest), a.manifest);
  }

  lemma {:induction false} SectionsComplete(s: Sections, rest: Bytes)
    ensures GetIndex(PutIndex(s, rest)) == Got(s, rest)
  {
    hide GetU64, PutU64;
  }

  lemma {:induction false} TrailerVerifies(C: Codecs, covered: Bytes)
    requires |covered| >= HEADER_LEN + TRAILER_LEN - 36
    ensures HashVerified(C, covered + PutHash(C.H(covered), PutU32(TRAILER_MAGIC, []))) == Ok(())
  {
    hide Le, FromLe;
    var h := C.H(covered);
    var magic := Le(TRAILER_MAGIC, 4);
    var b := covered + PutHash(h, PutU32(TRAILER_MAGIC, []));
    assert b == covered + h + magic;
    Pow256Values();
    LeRoundTrip(TRAILER_MAGIC, 4);
    assert b[|b| - 4..] == magic;
    assert b[..|b| - 36] == covered;
    assert b[|b| - 36..|b| - 4] == h;
  }

  /** What stands at the section offsets of `EncodedWith(C, a, es)`. */
  ghost predicate Laid(C: Codecs, a: Archive, es: seq<SeekEntry>, b: Bytes, rest: Bytes) {
    var s := SectionsOf(a);
    && s.chunks == HEADER_LEN <= s.manifest <= s.seek <= |b|
    && |a.chunks| <= U64_MAX && |es| <= U64_MAX && |ManifestBytes(a)| <= U64_MAX
    && b[s.seek..] == PutSeek(es, rest)
    && b[s.manifest..] == PutManifest(ManifestBytes(a), b[s.seek..])
    && b[s.chunks..] == PutChunks(a.chunks, b[s.manifest..])
  }

  lemma {:induction false} SectionsLaid(C: Codecs, a: Archive, es: seq<SeekEntry>, rest: Bytes)
    requires var b := PutBody(HeaderOf(C, a), a.chunks, ManifestBytes(a), es, SectionsOf(a), rest); |b| <= U64_MAX
    ensures var b := PutBody(HeaderOf(C, a), a.chunks, ManifestBytes(a), es, SectionsOf(a), rest);
      Laid(C, a, es, b, PutIndex(SectionsOf(a), rest))
  {
    hide HeaderOf, ManifestBytes, PutChunks, PutManifest, PutSeek, PutIndex, PutBody, ChunksLength;
    BodySuffixes(HeaderOf(C, a), a.chunks, ManifestBytes(a), es, SectionsOf(a), rest);
    ChunksAppend(a.chunks, [], []);
  }

  lemma {:induction false} TrailerReads(
    C: Codecs, h: ArchiveHeader, cs: seq<Chunk>, m: Bytes, es: seq<SeekEntry>, s: Sections)
    ensures var covered := PutBody(h, cs, m, es, s, []);
      var b := PutBody(h, cs, m, es, s, PutHash(C.H(covered), PutU32(TRAILER_MAGIC, [])));
      HashVerified(C, b) == Ok(()) && GetSections(b) == Ok(s)
  {
    hide PutBody, PutChunks, PutManifest, PutSeek, PutIndex, GetIndex, HashVerified, PutHash, PutU32;
    var covered := PutBody(h, cs, m, es, s, []);
    var trailer := PutHash(C.H(covered), PutU32(TRAILER_MAGIC, []));
    BodySuffixes(h, cs, m, es, s, trailer);
    BodySuffixes(h, cs, m, es, s, []);
    TrailerVerifies(C, covered);
    SectionsComplete(s, trailer);
  }

  /** What the reader finds in `EncodedWith(C, a, es)`, section by section. */
  lemma {:induction false} ReadsBackParts(C: Codecs, a: Archive, es: seq<SeekEntry>) returns (rest: Bytes)
    requires WellFormed(C, a) && |EncodedWith(C, a, es)| <= U64_MAX
    ensures var b := EncodedWith(C, a, es);
      && GetArchiveHeader(b).Got? && GetArchiveHeader(b).value == HeaderOf(C, a)
      && HashVerified(C, b) == Ok(())
      && GetSections(b) == Ok(SectionsOf(a))
      && Laid(C, a, es, b, rest)
  {
    hide HeaderOf, ManifestBytes, SectionsOf, PutChunks, PutManifest, PutSeek, PutIndex, PutArchiveHeader,
      GetArchiveHeader, HashVerified, GetSections, PutHash, PutU32, WellFormed, Laid;
    var h, m, s := HeaderOf(C, a), ManifestBytes(a), SectionsOf(a);
    var covered := PutBody(h, a.chunks, m, es, s, []);
    var trailer := PutHash(C.H(covered), PutU32(TRAILER_MAGIC, []));
    TrailerReads(C, h, a.chunks, m, es, s);
    SectionsLaid(C, a, es, trailer);
    HeaderMaxFits(C, a);
    HeaderComplete(h, PutChunks(a.chunks, PutManifest(m, PutSeek(es, PutIndex(s, trailer)))));
    rest := PutIndex(s, trailer);
  }

  lemma {:induction false} HeaderMaxFits(C: Codecs, a: Archive)
    requires WellFormed(C, a)
    ensures HeaderOf(C, a).chunkMax <= MAX_CHUNK_BYTES
  {
  }

  /** An archive decodes to its parts once each part reads back. */
  lemma {:induction false} DecodeFromParts(
    C: Codecs, b: Bytes, h: ArchiveHeader, s: Sections, chunks: seq<Chunk>, m: Bytes, tree: (NodeMeta, Node))
    requires GetArchiveHeader(b).Got? && GetArchiveHeader(b).value == h
    requires HashVerified(C, b) == Ok(()) && GetSections(b) == Ok(s)
    requires s.chunks <= |b| && s.manifest <= |b| && s.seek <= |b|
    requires ReadsAs(GetChunks(C, b[s.chunks..], h.chunkCount, h.chunkMax, []), chunks) && TotalsMatch(h, chunks)
    requires ReadsAs(GetManifest(b[s.manifest..]), m) && DecodedManifest(C, m, h.manifestHash) == Ok(tree)
    requires ReadsAs(GetU32(b[s.seek..]), SEEK_TABLE_MAGIC)
    ensures DecodedArchive(C, b) ==
      Ok(Archive(h.basePageSize, h.chunkMin, h.chunkMax, h.createdUnix, h.volumeId, h.snapshotId, h.namePolicyId,
                 h.unicodeVersion, tree.0, tree.1, chunks))
  {
    hide GetArchiveHeader, HashVerified, GetSections, GetChunks, GetManifest, DecodedManifest, GetU32, TotalsMatch;
  }

  predicate ReadsAs<T(==)>(r: Read<T>, v: T) { r.Got? && r.value == v }

  /** `decode(encode(a)) = a`, and it is so whatever the seek table says: the reader takes nothing from it. */
  lemma {:induction false} DecodesWhateverTheSeekTable(C: Codecs, a: Archive, es: seq<SeekEntry>)
    requires WellFormed(C, a) && |EncodedWith(C, a, es)| <= U64_MAX
    ensures DecodedArchive(C, EncodedWith(C, a, es)) == Ok(a)
  {
    hide GetArchiveHeader, HashVerified, GetSections, GetChunks, GetManifest, DecodedManifest, GetChunk, ChunkOk,
      PutChunks, PutManifest, EncodedWith, SectionsOf, ManifestBytes, MetaCanonical, Canonical, RawTotal, StoredTotal,
      PutSeekEntries, PutU64, PutU32, GetU32, ManifestIdentity, DecodedArchive, WellFormed, Laid, TotalsMatch;
    var rest := ReadsBackParts(C, a, es);
    var b, s := EncodedWith(C, a, es), SectionsOf(a);
    LaidReadsBack(C, a, es, b, rest);
    TotalsOfHeader(C, a);
    DecodeFromParts(C, b, HeaderOf(C, a), s, a.chunks, ManifestBytes(a), (a.rootMeta, a.manifest));
  }

  lemma {:induction false} TotalsOfHeader(C: Codecs, a: Archive)
    requires WellFormed(C, a)
    ensures TotalsMatch(HeaderOf(C, a), a.chunks)
  {
    hide RawTotal, StoredTotal, MetaCanonical, Canonical, ChunkOk, ManifestIdentity;
  }

  /** What is laid out in order reads back section by section. */
  lemma {:induction false} LaidReadsBack(C: Codecs, a: Archive, es: seq<SeekEntry>, b: Bytes, rest: Bytes)
    requires WellFormed(C, a) && Laid(C, a, es, b, rest)
    ensures var s, h := SectionsOf(a), HeaderOf(C, a);
      && s.chunks <= |b| && s.manifest <= |b| && s.seek <= |b|
      && ReadsAs(GetChunks(C, b[s.chunks..], h.chunkCount, h.chunkMax, []), a.chunks)
      && ReadsAs(GetManifest(b[s.manifest..]), ManifestBytes(a))
      && DecodedManifest(C, ManifestBytes(a), h.manifestHash) == Ok((a.rootMeta, a.manifest))
      && ReadsAs(GetU32(b[s.seek..]), SEEK_TABLE_MAGIC)
  {
    hide GetChunks, GetManifest, DecodedManifest, ChunkOk, PutChunks, PutManifest, SectionsOf, ManifestBytes,
      MetaCanonical, Canonical, RawTotal, StoredTotal, PutSeek, GetU32, ManifestIdentity;
    var s, cs := SectionsOf(a), a.chunks;
    assert cs[0..] == cs && cs[..0] == [];
    ChunksComplete(C, cs, 0, b[s.manifest..], a.chunkMax);
    ManifestSectionComplete(C, a, b[s.seek..]);
    SeekBegins(es, rest);
  }

  lemma {:induction false} SeekBegins(es: seq<SeekEntry>, rest: Bytes)
    ensures ReadsAs(GetU32(PutSeek(es, rest)), SEEK_TABLE_MAGIC)
  {
    hide PutU64, PutU32, GetU32, PutSeekEntries;
  }

  lemma {:induction false} DecodesWhatIsEncoded(C: Codecs, a: Archive)
    requires WellFormed(C, a) && |Encoded(C, a)| <= U64_MAX
    ensures DecodedArchive(C, Encoded(C, a)) == Ok(a)
  {
    DecodesWhateverTheSeekTable(C, a, SeekTable(a.chunks, HEADER_LEN));
  }

  // ------------------------------------------------------------------- lookup

  lemma {:induction false} SeekFindsWhatAScanFinds(
    C: Codecs, b: Bytes, cs: seq<Chunk>, at: nat, after: Bytes, rest: Bytes, id: Hash, chunkMax: U32)
    requires |b| <= U64_MAX && at <= |b| && b[at..] == PutChunks(cs, after)
    requires forall i :: 0 <= i < |cs| ==> ChunkOk(C, cs[i], chunkMax)
    ensures SeekFor(C, b, PutSeekEntries(SeekTable(cs, at), rest), |cs|, id, chunkMax) == Ok(ScanFor(cs, id))
    decreases |cs|
  {
    hide GetChunk, PutChunk, ChunkOk, RecordLength, PutHash, GetHash, PutU64, GetU64;
    if cs != [] {
      var es := SeekTable(cs, at);
      var next := at + RecordLength(cs[0]);
      assert es[1..] == SeekTable(cs[1..], next);
      var tail := PutChunks(cs[1..], after);
      ChunkComplete(C, cs[0], tail, 0, chunkMax);
      ChunkAppends(cs[0], [], tail);
      assert [] + tail == tail;
      SuffixOf(PutChunk(cs[0], []), tail);
      assert b[next..] == b[at..][RecordLength(cs[0])..];
      SeekFindsWhatAScanFinds(C, b, cs[1..], next, after, rest, id, chunkMax);
    }
  }

  lemma {:induction false} SeekTableLength(cs: seq<Chunk>, at: nat)
    ensures |SeekTable(cs, at)| == |cs|
  {
    if cs != [] {
      SeekTableLength(cs[1..], at + RecordLength(cs[0]));
    }
  }

  lemma {:induction false} SeekHeaderComplete(es: seq<SeekEntry>, rest: Bytes)
    requires |es| <= U64_MAX
    ensures GetSeekHeader(PutSeek(es, rest)) == Got(|es|, PutSeekEntries(es, rest))
  {
    hide PutU32, GetU32, PutU64, GetU64, PutSeekEntries;
    var counted := PutU64(Wrap64(|es|), PutSeekEntries(es, rest));
    var sized := PutU32(Min(8 + 40 * |es|, U32_MAX), counted);
    assert GetU64(counted) == Got(|es|, PutSeekEntries(es, rest));
    assert GetU32(sized).Got? && GetU32(sized).rest == counted;
    assert GetU32(PutSeek(es, rest)) == Got(SEEK_TABLE_MAGIC, sized);
  }

  /** The lookup by identity finds the first chunk a scan would, or none if the scan finds none. */
  lemma {:induction false} LookupAgreesWithScan(C: Codecs, a: Archive, id: Hash)
    requires WellFormed(C, a) && |Encoded(C, a)| <= U64_MAX
    ensures ByIdentity(C, Encoded(C, a), id) == Ok(ScanFor(a.chunks, id))
  {
    hide GetArchiveHeader, HashVerified, GetSections, EncodedWith, SectionsOf, ManifestBytes, PutManifest, PutChunks,
      PutSeek, GetSeekHeader, SeekFor, SeekTable, PutSeekEntries, ChunkOk, ManifestIdentity, MetaCanonical, Canonical;
    var es := SeekTable(a.chunks, HEADER_LEN);
    var rest := ReadsBackParts(C, a, es);
    var b, s := EncodedWith(C, a, es), SectionsOf(a);
    SeekTableLength(a.chunks, HEADER_LEN);
    SeekHeaderComplete(es, rest);
    SeekFindsWhatAScanFinds(C, b, a.chunks, HEADER_LEN, b[s.manifest..], rest, id, a.chunkMax);
  }

  /** The first entry of a seek table naming `id`. */
  function FirstFor(es: seq<SeekEntry>, id: Hash): Option<SeekEntry> {
    if es == [] then None else if es[0].identity == id then Some(es[0]) else FirstFor(es[1..], id)
  }

  /** What the first entry naming `id` leads to: no entry to none, an entry to the record it points at. */
  function LeadsTo(C: Codecs, b: Bytes, es: seq<SeekEntry>, id: Hash, chunkMax: U32): Result<Option<Chunk>> {
    match FirstFor(es, id)
    case None => Ok(None)
    case Some(e) =>
      var record :- At(b, e.offset);
      var chunk :- ToResult(GetChunk(C, record, 0, chunkMax));
      Ok(Some(chunk))
  }

  lemma {:induction false} SeekReadsFirst(
    C: Codecs, b: Bytes, es: seq<SeekEntry>, rest: Bytes, id: Hash, chunkMax: U32)
    ensures SeekFor(C, b, PutSeekEntries(es, rest), |es|, id, chunkMax) == LeadsTo(C, b, es, id, chunkMax)
    decreases |es|
  {
    hide GetChunk, PutHash, GetHash, PutU64, GetU64;
    if es != [] {
      SeekReadsFirst(C, b, es[1..], rest, id, chunkMax);
    }
  }

  /** A lookup follows the seek table it is given, whoever wrote it. */
  lemma {:induction false} LookupFollowsSeekTable(C: Codecs, a: Archive, es: seq<SeekEntry>, id: Hash)
    requires WellFormed(C, a) && |EncodedWith(C, a, es)| <= U64_MAX
    ensures ByIdentity(C, EncodedWith(C, a, es), id) == LeadsTo(C, EncodedWith(C, a, es), es, id, a.chunkMax)
  {
    hide GetArchiveHeader, HashVerified, GetSections, EncodedWith, SectionsOf, ManifestBytes, PutManifest, PutChunks,
      PutSeek, GetSeekHeader, SeekFor, PutSeekEntries, ChunkOk, ManifestIdentity, MetaCanonical, Canonical, LeadsTo;
    var rest := ReadsBackParts(C, a, es);
    SeekHeaderComplete(es, rest);
    SeekReadsFirst(C, EncodedWith(C, a, es), es, rest, id, a.chunkMax);
  }

  /** The table is right for `id`: its first entry is missing with the chunk, or points at a record of it. */
  ghost predicate PointsRight(
    C: Codecs, b: Bytes, es: seq<SeekEntry>, id: Hash, scanned: Option<Chunk>, chunkMax: U32)
  {
    match FirstFor(es, id)
    case None => scanned.None?
    case Some(e) =>
      scanned.Some? && e.offset <= |b| && ReadsAs(GetChunk(C, b[e.offset..], 0, chunkMax), scanned.value)
  }

  /** Exactly when the lookup finds what a scan finds, over every seek table a reader accepts. */
  lemma {:induction false} LookupAgreesIff(C: Codecs, a: Archive, es: seq<SeekEntry>, id: Hash)
    requires WellFormed(C, a) && |EncodedWith(C, a, es)| <= U64_MAX
    ensures DecodedArchive(C, EncodedWith(C, a, es)) == Ok(a)
    ensures ByIdentity(C, EncodedWith(C, a, es), id) == Ok(ScanFor(a.chunks, id)) <==>
      PointsRight(C, EncodedWith(C, a, es), es, id, ScanFor(a.chunks, id), a.chunkMax)
  {
    hide EncodedWith, ByIdentity, GetChunk, WellFormed, DecodedArchive;
    DecodesWhateverTheSeekTable(C, a, es);
    LookupFollowsSeekTable(C, a, es, id);
  }

  /**
   * The agreement is the writer's, not the reader's: with an empty seek table the same archive is
   * still accepted, and the lookup misses every chunk it holds.
   */
  lemma {:induction false} AcceptedArchiveMayMissChunks(C: Codecs, a: Archive, id: Hash)
    requires WellFormed(C, a) && |EncodedWith(C, a, [])| <= U64_MAX
    ensures DecodedArchive(C, EncodedWith(C, a, [])) == Ok(a)
    ensures ByIdentity(C, EncodedWith(C, a, []), id) == Ok(None)
    ensures ScanFor(a.chunks, id).Some? ==> ByIdentity(C, EncodedWith(C, a, []), id) != Ok(ScanFor(a.chunks, id))
  {
    hide EncodedWith, ByIdentity, WellFormed, DecodedArchive;
    DecodesWhateverTheSeekTable(C, a, []);
    LookupFollowsSeekTable(C, a, [], id);
  }

  // ------------------------------------------------ what the reader guarantees

  lemma {:induction false} ChunkSound(C: Codecs, b: Bytes, index: nat, chunkMax: U32)
    requires GetChunk(C, b, index, chunkMax).Got? && chunkMax <= MAX_CHUNK_BYTES
    ensures ChunkOk(C, GetChunk(C, b, index, chunkMax).value, chunkMax)
  {
    hide GetU64, GetHash, GetRaw, Decompressed;
  }

  lemma {:induction false} ChunksSound(C: Codecs, b: Bytes, n: nat, chunkMax: U32, done: seq<Chunk>)
    requires chunkMax <= MAX_CHUNK_BYTES
    requires forall i :: 0 <= i < |done| ==> ChunkOk(C, done[i], chunkMax)
    requires GetChunks(C, b, n, chunkMax, done).Got?
    ensures var cs := GetChunks(C, b, n, chunkMax, done).value;
      forall i :: 0 <= i < |cs| ==> ChunkOk(C, cs[i], chunkMax)
    decreases n
  {
    hide GetChunk, ChunkOk;
    if n > 0 {
      ChunkSound(C, b, |done|, chunkMax);
      var c := GetChunk(C, b, |done|, chunkMax);
      ChunksSound(C, c.rest, n - 1, chunkMax, done + [c.value]);
    }
  }

  lemma {:induction false} HeaderSound(b: Bytes)
    requires GetArchiveHeader(b).Got?
    ensures GetArchiveHeader(b).value.chunkMax <= MAX_CHUNK_BYTES
  {
    hide GetU16, GetU32, GetU64, GetHash;
  }

  /** An accepted archive: every chunk admitted and verified, the manifest canonical. */
  ghost predicate Verified(C: Codecs, a: Archive) {
    && MetaCanonical(a.rootMeta) && Canonical(a.manifest)
    && forall i :: 0 <= i < |a.chunks| ==> ChunkOk(C, a.chunks[i], a.chunkMax)
  }

  lemma {:induction false} DecodedIsVerified(C: Codecs, b: Bytes)
    requires DecodedArchive(C, b).Ok?
    ensures Verified(C, DecodedArchive(C, b).value)
  {
    hide GetArchiveHeader, GetSections, GetChunks, GetManifest, DecodedManifest, ChunkOk, MetaCanonical, Canonical,
      DecodedArchive;
    DecodedParts(C, b);
    var h := GetArchiveHeader(b).value;
    HeaderSound(b);
    var s := GetSections(b).value;
    ChunksSound(C, b[s.chunks..], h.chunkCount, h.chunkMax, []);
    ManifestSound(C, GetManifest(b[s.manifest..]).value, h.manifestHash);
  }

  /** Where the parts of a decoded archive come from. */
  lemma {:induction false} DecodedParts(C: Codecs, b: Bytes)
    requires DecodedArchive(C, b).Ok?
    ensures GetArchiveHeader(b).Got? && GetSections(b).Ok?
    ensures var h, s, a := GetArchiveHeader(b).value, GetSections(b).value, DecodedArchive(C, b).value;
      && s.chunks <= |b| && s.manifest <= |b| && a.chunkMax == h.chunkMax
      && ReadsAs(GetChunks(C, b[s.chunks..], h.chunkCount, h.chunkMax, []), a.chunks)
      && GetManifest(b[s.manifest..]).Got?
      && DecodedManifest(C, GetManifest(b[s.manifest..]).value, h.manifestHash) == Ok((a.rootMeta, a.manifest))
  {
    hide GetArchiveHeader, HashVerified, GetSections, GetChunks, GetManifest, DecodedManifest, GetU32, TotalsMatch;
  }

  lemma {:induction false} ManifestSound(C: Codecs, m: Bytes, manifestHash: Hash)
    requires DecodedManifest(C, m, manifestHash).Ok?
    ensures MetaCanonical(DecodedManifest(C, m, manifestHash).value.0)
    ensures Canonical(DecodedManifest(C, m, manifestHash).value.1)
  {
    hide GetMeta, Manifest.Decoded, ManifestIdentity, MetaCanonical, Canonical;
    MetaSound(m);
    var tree := GetMeta(m).rest;
    DecodeIffCanonicalEncoding(tree, Manifest.Decoded(tree).value);
  }
}
