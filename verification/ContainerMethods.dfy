// The container's writer and readers as the code runs them: loops over a growing
// buffer or a cursor (crates/archive/src/archive.rs), proved equal to the
// functions of Container.dfy.

module ContainerMethods {
  import opened Wire
  import opened Manifest
  import ManifestReader
  import opened Merkle
  import opened Container
  import opened ContainerProofs

  lemma {:induction false} ChunksSnoc(cs: seq<Chunk>, i: nat)
    requires i < |cs|
    ensures PutChunks(cs[..i + 1], []) == PutChunks(cs[..i], []) + PutChunk(cs[i], [])
    ensures ChunksLength(cs[..i + 1]) == ChunksLength(cs[..i]) + RecordLength(cs[i])
  {
    hide PutChunk, RecordLength;
    if i == 0 {
      assert cs[..1][1..] == [];
    } else {
      ChunksSnoc(cs[1..], i - 1);
      assert cs[..i + 1][1..] == cs[1..][..i] && cs[..i][1..] == cs[1..][..i - 1];
      ChunkAppends(cs[0], PutChunks(cs[1..][..i - 1], []), PutChunk(cs[i], []));
    }
  }

  lemma {:induction false} SeekSnoc(cs: seq<Chunk>, i: nat, at: nat)
    requires i < |cs|
    ensures SeekTable(cs[..i + 1], at) ==
      SeekTable(cs[..i], at) + [SeekEntry(cs[i].identity, Wrap64(at + ChunksLength(cs[..i])))]
  {
    hide RecordLength, Wrap64;
    if i == 0 {
      assert cs[..1][1..] == [];
    } else {
      SeekSnoc(cs[1..], i - 1, at + RecordLength(cs[0]));
      assert cs[..i + 1][1..] == cs[1..][..i] && cs[..i][1..] == cs[1..][..i - 1];
    }
  }

  /** `Archive::encode`: the records, remembering each one's position for the seek table. */
  method WriteRecords(h: ArchiveHeader, cs: seq<Chunk>) returns (writer: Bytes, seek: seq<SeekEntry>)
    ensures writer == PutArchiveHeader(h, PutChunks(cs, []))
    ensures seek == SeekTable(cs, HEADER_LEN)
    ensures |writer| == HEADER_LEN + ChunksLength(cs)
  {
    hide PutArchiveHeader, PutChunk, RecordLength;
    writer, seek := PutArchiveHeader(h, []), [];
    ghost var start := writer;
    for i := 0 to |cs|
      invariant writer == start + PutChunks(cs[..i], [])
      invariant seek == SeekTable(cs[..i], HEADER_LEN)
      invariant |writer| == HEADER_LEN + ChunksLength(cs[..i])
    {
      ChunksSnoc(cs, i);
      SeekSnoc(cs, i, HEADER_LEN);
      seek := seek + [SeekEntry(cs[i].identity, Wrap64(|writer|))];
      writer := writer + PutChunk(cs[i], []);
      assert writer == start + PutChunks(cs[..i + 1], []);
    }
    assert cs[..|cs|] == cs;
    HeaderAppends(h, [], PutChunks(cs, []));
    assert [] + PutChunks(cs, []) == PutChunks(cs, []);
  }

  method WriteSections(writer0: Bytes, m: Bytes, seek: seq<SeekEntry>, ghost h: ArchiveHeader, ghost cs: seq<Chunk>)
    returns (writer: Bytes, s: Sections)
    requires writer0 == PutArchiveHeader(h, PutChunks(cs, []))
    requires |writer0| == HEADER_LEN + ChunksLength(cs)
    ensures s == Sections(HEADER_LEN, Wrap64(|writer0|), Wrap64(|writer0| + 8 + |m|))
    ensures writer == PutBody(h, cs, m, seek, s, [])
  {
    hide PutArchiveHeader, PutChunks, PutManifest, PutSeek, PutIndex, ChunksLength;
    var manifestOffset := |writer0|;
    ManifestAppends(m, [], []);
    writer := writer0 + PutManifest(m, []);
    var seekOffset := |writer|;
    writer := writer + PutSeek(seek, []);
    s := Sections(HEADER_LEN, Wrap64(manifestOffset), Wrap64(seekOffset));
    writer := writer + PutIndex(s, []);
    var i := PutIndex(s, []);
    var k := PutSeek(seek, i);
    var n := PutManifest(m, k);
    assert [] + i == i && [] + k == k && [] + n == n;
    SeekAppends(seek, [], i);
    ManifestAppends(m, [], k);
    ChunksAppend(cs, [], n);
    HeaderAppends(h, PutChunks(cs, []), n);
    assert writer == writer0 + (PutManifest(m, []) + (PutSeek(seek, []) + i));
  }

  lemma {:induction false} BodyAppends(
    h: ArchiveHeader, cs: seq<Chunk>, m: Bytes, es: seq<SeekEntry>, s: Sections, rest: Bytes)
    ensures PutBody(h, cs, m, es, s, rest) == PutBody(h, cs, m, es, s, []) + rest
  {
    hide PutBody, PutIndex, PutSeek, PutManifest, PutChunks;
    BodySuffixes(h, cs, m, es, s, rest);
  }

  /** `Archive::encode`. */
  method EncodeArchive(C: Codecs, a: Archive) returns (b: Bytes)
    ensures b == Encoded(C, a)
  {
    hide HeaderOf, ManifestBytes, SeekTable, ChunksLength, PutBody, PutHash, PutU32, PutArchiveHeader, PutChunks;
    var h, m := HeaderOf(C, a), ManifestBytes(a);
    var writer, seek := WriteRecords(h, a.chunks);
    var body, s := WriteSections(writer, m, seek, h, a.chunks);
    var trailer := PutHash(C.H(body), PutU32(TRAILER_MAGIC, []));
    b := body + trailer;
    BodyAppends(h, a.chunks, m, seek, s, trailer);
  }

  method ReadChunks(C: Codecs, b: Bytes, h: ArchiveHeader) returns (r: Result<seq<Chunk>>)
    ensures r == match GetChunks(C, b, h.chunkCount, h.chunkMax, [])
      case Refused(e) => Err(e)
      case Got(cs, _) => if TotalsMatch(h, cs) then Ok(cs) else Err(TotalsMismatch)
  {
    hide GetChunk;
    var cur, chunks: seq<Chunk> := b, [];
    var rawTotal, storedTotal := 0, 0;
    for i := 0 to h.chunkCount
      invariant |chunks| == i
      invariant GetChunks(C, b, h.chunkCount, h.chunkMax, []) == GetChunks(C, cur, h.chunkCount - i, h.chunkMax, chunks)
      invariant rawTotal == Min(RawTotal(chunks), U64_MAX)
      invariant storedTotal == Min(StoredTotal(chunks), U64_MAX)
    {
      var read := GetChunk(C, cur, i, h.chunkMax);
      if read.Refused? {
        return Err(read.error);
      }
      assert (chunks + [read.value])[..i] == chunks;
      chunks, cur := chunks + [read.value], read.rest;
      rawTotal := Min(rawTotal + read.value.rawLen, U64_MAX);
      storedTotal := Min(storedTotal + read.value.storedLen, U64_MAX);
    }
    if rawTotal != h.rawBytes || storedTotal != h.storedBytes {
      return Err(TotalsMismatch);
    }
    return Ok(chunks);
  }

  method ReadManifest(C: Codecs, m: Bytes, manifestHash: Hash) returns (r: Result<(NodeMeta, Node)>)
    ensures r == DecodedManifest(C, m, manifestHash)
  {
    hide GetMeta, Manifest.Decoded, ManifestIdentity, Canonical, Encode;
    var meta := ManifestReader.ReadMeta(m);
    if meta.Refused? {
      return Err(ManifestHashMismatch);
    }
    var tree := ManifestReader.Decode(meta.rest);
    if tree.Err? {
      return Err(ManifestHashMismatch);
    }
    if ManifestIdentity(C.H, meta.value, tree.value) != manifestHash {
      return Err(ManifestHashMismatch);
    }
    return Ok((meta.value, tree.value));
  }

  /** `Archive::decode`, with what an accepted archive is known to be. */
  method DecodeArchive(C: Codecs, b: Bytes) returns (r: Result<Archive>)
    ensures r == DecodedArchive(C, b)
    ensures r.Ok? ==> Verified(C, r.value)
  {
    hide GetArchiveHeader, HashVerified, GetSections, GetChunks, GetManifest, DecodedManifest, GetU32, TotalsMatch,
      Verified;
    if DecodedArchive(C, b).Ok? {
      DecodedIsVerified(C, b);
    }
    var h :- ToResult(GetArchiveHeader(b));
    var _ :- HashVerified(C, b);
    var s :- GetSections(b);
    var atChunks :- At(b, s.chunks);
    var readChunks := ReadChunks(C, atChunks, h);
    var chunks :- readChunks;
    var atManifest :- At(b, s.manifest);
    var m :- ToResult(GetManifest(atManifest));
    var readTree := ReadManifest(C, m, h.manifestHash);
    var tree :- readTree;
    var atSeek :- At(b, s.seek);
    var magic :- ToResult(GetU32(atSeek));
    if magic != SEEK_TABLE_MAGIC {
      return Err(BadSeekTable);
    }
    return Ok(Archive(h.basePageSize, h.chunkMin, h.chunkMax, h.createdUnix, h.volumeId, h.snapshotId,
      h.namePolicyId, h.unicodeVersion, tree.0, tree.1, chunks));
  }

  /** `Archive::chunk_by_identity`. */
  method ChunkByIdentity(C: Codecs, b: Bytes, id: Hash) returns (r: Result<Option<Chunk>>)
    ensures r == ByIdentity(C, b, id)
  {
    hide GetArchiveHeader, HashVerified, GetSections, GetSeekHeader, GetHash, GetU64, GetChunk;
    var h :- ToResult(GetArchiveHeader(b));
    var _ :- HashVerified(C, b);
    var s :- GetSections(b);
    var atSeek :- At(b, s.seek);
    var table := GetSeekHeader(atSeek);
    if table.Refused? {
      return Err(table.error);
    }
    var count, seek := table.value, table.rest;
    for i := 0 to count
      invariant ByIdentity(C, b, id) == SeekFor(C, b, seek, count - i, id, h.chunkMax)
    {
      var entry := GetHash(seek);
      if entry.Refused? {
        return Err(entry.error);
      }
      var offset := GetU64(entry.rest);
      if offset.Refused? {
        return Err(offset.error);
      }
      if entry.value == id {
        var record :- At(b, offset.value);
        var chunk :- ToResult(GetChunk(C, record, 0, h.chunkMax));
        return Ok(Some(chunk));
      }
      seek := offset.rest;
    }
    return Ok(None);
  }
}
