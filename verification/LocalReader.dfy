// LocalBlockReader: reading a block from its data file, with a buffer, and with
// the checksums of its meta file read alongside.

module LocalReaders {
  import opened Bytes
  import opened Geometry
  import opened Packets
  import opened WriteLog

  function CeilDiv(x: nat, d: nat): nat
    requires 0 < d
  {
    (x + d - 1) / d
  }

  lemma CeilDivExact(q: nat, d: nat)
    requires 0 < d
    ensures CeilDiv(q * d, d) == q
  {
    DivModUnique(q * d + d - 1, d, q, d - 1);
  }

  lemma CeilDivPartial(q: nat, r: nat, d: nat)
    requires 0 < r <= d
    ensures CeilDiv(q * d + r, d) == q + 1
  {
    assert (q + 1) * d == q * d + d;
    DivModUnique(q * d + r + d - 1, d, q + 1, r - 1);
  }

  // The bytes of chunk c in a block of the given length.
  function ChunkBytes(data: Vec, length: nat, c: nat, chunkSize: nat): Vec
    requires c * chunkSize <= length <= |data|
  {
    data[c * chunkSize..Min(c * chunkSize + chunkSize, length)]
  }

  const BM_VERSION: int := 1
  const CHECKSUM_NULL: nat := 0
  const CHECKSUM_CRC32C: nat := 2      // CHECKSUM_CRC32 is 1

  datatype MetaHeader = MetaHeader(version: int, checksumType: nat, bytesPerChecksum: int)

  lemma RoundedUp(x: nat, d: nat)
    requires 0 < x && 0 < d
    ensures 0 < (x + d - 1) / d * d && (x + d - 1) / d * d % d == 0
  {
    var q, r := Divided(x + d - 1, d);
    MixedRadix(0, 0, q, 0, d);
    DivModUnique(q * d, d, q, 0);
  }

  class LocalBlockReader {
    const verify: bool
    const chunkSize: nat
    const localBufferSize: nat
    const length: nat
    const data: Vec                    // the data file
    const sums: seq<Sum>               // the meta file behind its header
    const crc: Crc
    var buffer: Vec
    var position: nat
    var size: nat
    var cursor: nat
    var dataPos: nat                   // file positions; the meta file's in checksums
    var metaPos: nat

    // Chunk c's bytes match its checksum.
    ghost predicate Verified(c: nat) {
      && c * chunkSize <= length <= |data| && c < |sums|
      && sums[c] == crc(ChunkBytes(data, length, c, chunkSize))
    }

    // Nothing in the block is corrupt.
    ghost predicate Intact() {
      forall c: nat :: c * chunkSize < length ==> Verified(c)
    }

    ghost predicate Opened() {
      && 0 < localBufferSize && length <= |data|
      && (verify ==> 0 < chunkSize && localBufferSize % chunkSize == 0)
    }

    // The buffer holds the bytes just before the data file's position.
    ghost predicate Valid()
      reads this
    {
      && Opened() && position <= size && dataPos == cursor + (size - position) <= length
      && (position < size ==> Holding()) && (verify ==> Aligned())
    }

    // Unread bytes: the buffer ends where the data file stands.
    ghost predicate Holding()
      requires dataPos == cursor + (size - position) <= length <= |data| && position <= size
      requires verify ==> 0 < chunkSize
      reads this
    {
      && size == |buffer| && position <= cursor && buffer == data[cursor - position..dataPos]
      && (verify ==> Checked())
    }

    // Both files stand at a chunk boundary, or at the end of the block.
    ghost predicate Aligned()
      requires 0 < chunkSize
      reads this
    {
      (dataPos % chunkSize == 0 || dataPos == length) && metaPos == CeilDiv(dataPos, chunkSize)
    }

    // Every buffered byte lies in a chunk that was verified.
    ghost predicate Checked()
      requires 0 < chunkSize
      reads this
    {
      forall q: nat :: cursor <= q + position && q < dataPos ==> ByteChecked(q)
    }

    ghost predicate ByteChecked(q: nat)
      requires 0 < chunkSize
    {
      Verified(q / chunkSize)
    }

    constructor (verify: bool, chunkSize: nat, localBufferSize: nat, length: nat, data: Vec, sums: seq<Sum>, crc: Crc)
      requires 0 < localBufferSize && length <= |data| && (verify ==> 0 < chunkSize && localBufferSize % chunkSize == 0)
      ensures Valid() && cursor == 0
      ensures this.verify == verify && this.length == length && this.data == data && this.sums == sums &&
              this.crc == crc
      ensures this.chunkSize == chunkSize
    {
      this.verify, this.chunkSize, this.localBufferSize, this.length := verify, chunkSize, localBufferSize, length;
      this.data, this.sums, this.crc := data, sums, crc;
      buffer, position, size, cursor, dataPos, metaPos := [], 0, 0, 0, 0, 0;
      new;
      if verify { CeilDivExact(0, chunkSize); }
    }

    // Opening a block from its meta file's header; None stands for an exception. A
    // block without checksums is refused exactly when verification is asked for:
    // the chunk size is tested under the caller's wish, not under the decision the
    // checksum type led to.
    static method Open(header: MetaHeader, verify: bool, bufferSize: nat, length: nat, data: Vec, sums: seq<Sum>,
                       crc: Crc)
      returns (r: Option<LocalBlockReader>)
      requires 0 < bufferSize && length <= |data|
      ensures r.Some? <==> header.version == BM_VERSION && header.checksumType <= CHECKSUM_CRC32C &&
                           (verify ==> header.checksumType != CHECKSUM_NULL && 0 < header.bytesPerChecksum)
      ensures r.Some? ==> r.value.Valid() && r.value.cursor == 0 && r.value.verify == verify && r.value.data == data
      ensures r.Some? ==> r.value.length == length && r.value.sums == sums && r.value.crc == crc
      ensures r.Some? && verify ==> r.value.chunkSize == header.bytesPerChecksum
    {
      if header.version != BM_VERSION || header.checksumType > CHECKSUM_CRC32C {
        return None;
      }
      var chunkSize := if header.checksumType == CHECKSUM_NULL then 0 else header.bytesPerChecksum;
      if verify && chunkSize <= 0 {
        return None;
      }
      var localBufferSize := bufferSize;
      if verify {
        localBufferSize := (bufferSize + chunkSize - 1) / chunkSize * chunkSize;
        RoundedUp(bufferSize, chunkSize);
      }
      var reader := new LocalBlockReader(verify, if chunkSize < 0 then 0 else chunkSize, localBufferSize, length, data,
          sums, crc);
      return Some(reader);
    }

    // The refill of the buffer, from both files. False stands for an exception: a
    // file too short, or a checksum that does not match.
    method Fill() returns (ok: bool)
      requires Valid() && position == size && cursor < length
      modifies `buffer, `position, `size, `dataPos, `metaPos
      ensures ok ==> Valid() && position == 0 && size == Min(localBufferSize, length - cursor)
      ensures !verify || Intact() ==> ok
    {
      hide Intact, ByteChecked, CeilDiv;
      var bufferSize := Min(localBufferSize, length - cursor);
      if verify {
        ok := ReadAndVerify(bufferSize);
        if !ok {
          return;
        }
      } else {
        buffer := data[dataPos..dataPos + bufferSize];
        dataPos := dataPos + bufferSize;
      }
      position, size := 0, bufferSize;
      return true;
    }

    // readAndVerify.
    method ReadAndVerify(bufferSize: nat) returns (ok: bool)
      requires Valid() && verify && position == size && cursor < length
      requires bufferSize == Min(localBufferSize, length - cursor)
      modifies `buffer, `dataPos, `metaPos
      ensures ok ==> buffer == data[cursor..cursor + bufferSize] && dataPos == cursor + bufferSize
      ensures ok ==> Aligned() && forall q: nat :: cursor <= q < cursor + bufferSize ==> ByteChecked(q)
      ensures Intact() ==> ok
    {
      hide Verified, CeilDiv, Intact;
      // assert(cursor % chunkSize == 0)
      assert cursor % chunkSize == 0;
      StandsAt(cursor, chunkSize);
      var chunks := CeilDiv(bufferSize, chunkSize);
      buffer := data[dataPos..dataPos + bufferSize];
      dataPos := dataPos + bufferSize;
      ghost var c0 := metaPos;
      if metaPos + chunks > |sums| {
        if Intact() { SumsThere(bufferSize, chunks, c0); }
        return false;
      }
      ok := VerifyChunks(bufferSize, chunks, c0);
      metaPos := metaPos + chunks;
      if ok {
        Advanced(cursor, bufferSize, localBufferSize, length, chunkSize, c0);
        forall q: nat | cursor <= q < cursor + bufferSize ensures ByteChecked(q) {
          InChunk(q, cursor, bufferSize, chunkSize, c0);
        }
      }
    }

    // Its loop.
    method VerifyChunks(bufferSize: nat, chunks: nat, ghost c0: nat) returns (ok: bool)
      requires Opened() && verify && cursor == c0 * chunkSize && cursor < length && metaPos == c0
      requires bufferSize == Min(localBufferSize, length - cursor) && chunks == CeilDiv(bufferSize, chunkSize)
      requires buffer == data[cursor..cursor + bufferSize] && c0 + chunks <= |sums|
      ensures ok ==> forall c: nat :: c0 <= c < c0 + chunks ==> Verified(c)
      ensures Intact() ==> ok
    {
      hide CeilDiv, ChunkBytes;
      for i := 0 to chunks
        invariant forall c: nat :: c0 <= c < c0 + i ==> Verified(c)
      {
        var chunk := chunkSize;
        if chunkSize * (i + 1) > bufferSize {
          chunk := bufferSize % chunkSize;
        }
        ChunkSlice(data, length, cursor, bufferSize, localBufferSize, chunkSize, c0, i, chunk);
        assert Intact() ==> Verified(c0 + i);
        if sums[metaPos + i] != crc(buffer[i * chunkSize..i * chunkSize + chunk]) {
          return false;
        }
      }
      return true;
    }

    // An intact block has a checksum for every chunk.
    lemma SumsThere(bufferSize: nat, chunks: nat, c0: nat)
      requires Opened() && verify && Intact() && cursor == c0 * chunkSize && cursor < length
      requires bufferSize == Min(localBufferSize, length - cursor) && chunks == CeilDiv(bufferSize, chunkSize)
      ensures c0 + chunks <= |sums|
    {
      hide CeilDiv, ChunkBytes;
      var n := CeilForm(bufferSize, chunkSize, 0, 0);
      var chunk := if chunkSize * chunks > bufferSize then bufferSize % chunkSize else chunkSize;
      ChunkSlice(data, length, cursor, bufferSize, localBufferSize, chunkSize, c0, chunks - 1, chunk);
      assert Verified(c0 + chunks - 1);
    }

    // readInternal. Bytes come from the buffer, straight from the file, or from the
    // buffer once it has been filled.
    method ReadInternal(len: nat) returns (ok: bool, bytes: Vec)
      requires Valid()
      modifies this
      ensures ok ==> Valid() && cursor == old(cursor) + |bytes| && bytes == data[old(cursor)..cursor] && |bytes| <= len
      ensures ok && 0 < len && old(cursor) < length ==> 0 < |bytes|
      ensures ok && verify ==> forall q: nat :: old(cursor) <= q < cursor ==> ByteChecked(q)
      ensures !verify || Intact() ==> ok
      decreases if position < size then 0 else 1
    {
      hide Intact, ByteChecked, CeilDiv;
      if position < size {
        var todo := Min(len, size - position);
        bytes := buffer[position..position + todo];
        SliceOfSlice(data, cursor - position, dataPos, position, todo);
        position := position + todo;
        cursor := cursor + todo;
        return true, bytes;
      }
      var todo := Min(len, length - cursor);
      if todo == 0 {
        return true, [];
      }
      if !verify && (todo > localBufferSize || todo == length - cursor) {
        bytes := data[dataPos..dataPos + todo];
        dataPos := dataPos + todo;
        cursor := cursor + todo;
        return true, bytes;
      }
      ok := Fill();
      if !ok {
        return false, [];
      }
      ok, bytes := ReadInternal(todo);
    }

    // skip, for a distance that ends inside the block. Verifying, it moves both
    // files to the chunk it ends in and reads that chunk.
    method Skip(len: nat) returns (ok: bool)
      requires Valid() && len < length - cursor
      modifies this
      ensures ok ==> Valid() && cursor == old(cursor) + len
      ensures !verify || Intact() ==> ok
    {
      hide Intact, ByteChecked, CeilDiv;
      var todo := len;
      while todo > 0
        invariant 0 <= todo && Valid() && cursor + todo == old(cursor) + len < length
        decreases todo, if position < size then 0 else 1
      {
        if size - position > 0 {
          var batch := Min(todo, size - position);
          position := position + batch;
          todo := todo - batch;
          cursor := cursor + batch;
        } else if verify {
          todo := SeekToChunk(todo);
          if todo > 0 {
            ok := Fill();
            if !ok {
              return;
            }
          }
        } else {
          cursor := cursor + todo;
          todo := 0;
          dataPos := cursor;
        }
      }
      return true;
    }

    // Both files go to the start of the chunk the target is in.
    method SeekToChunk(todo: nat) returns (rest: nat)
      requires Valid() && verify && position == size && 0 < todo && cursor + todo < length
      modifies `cursor, `dataPos, `metaPos
      ensures Valid() && position == size && cursor + rest == old(cursor) + todo && rest < chunkSize
      ensures rest <= todo
    {
      hide CeilDiv, Holding;
      ChunkBelow(cursor, todo, chunkSize);
      rest := (cursor + todo) % chunkSize;
      cursor := StartOfChunk(cursor + todo, chunkSize);
      metaPos := cursor / chunkSize;
      if cursor > 0 {
        dataPos := cursor;
      }
    }
  }

  function StartOfChunk(x: nat, chunkSize: nat): nat
    requires 0 < chunkSize
  {
    x / chunkSize * chunkSize
  }

  // Going forward from a chunk boundary, the target's chunk is not behind.
  lemma ChunkBelow(cursor: nat, todo: nat, chunkSize: nat)
    requires 0 < chunkSize && cursor % chunkSize == 0
    ensures var c := StartOfChunk(cursor + todo, chunkSize);
            && cursor <= c && c + (cursor + todo) % chunkSize == cursor + todo && c % chunkSize == 0
            && c / chunkSize == CeilDiv(c, chunkSize)
  {
    hide CeilDiv;
    var q, r := Divided(cursor + todo, chunkSize);
    var p, z := Divided(cursor, chunkSize);
    MixedRadix(q, r, p, 0, chunkSize);
    CeilDivExact(q, chunkSize);
    DivModUnique(q * chunkSize, chunkSize, q, 0);
    if p < q { MulAtLeast(q - p, chunkSize); assert (q - p) * chunkSize == q * chunkSize - p * chunkSize; }
  }

  lemma StandsAt(cursor: nat, chunkSize: nat)
    requires 0 < chunkSize && cursor % chunkSize == 0
    ensures cursor == CeilDiv(cursor, chunkSize) * chunkSize
  {
    hide CeilDiv;
    var q := cursor / chunkSize;
    assert cursor == q * chunkSize;
    CeilDivExact(q, chunkSize);
  }

  // The slice of the buffer that is checked is the chunk.
  lemma ChunkSlice(data: Vec, length: nat, cursor: nat, bufferSize: nat, localBufferSize: nat, chunkSize: nat,
                   c0: nat, i: nat, chunk: nat)
    requires 0 < chunkSize && cursor == c0 * chunkSize && cursor < length <= |data| && 0 < localBufferSize
    requires localBufferSize % chunkSize == 0
    requires bufferSize == Min(localBufferSize, length - cursor) && i < CeilDiv(bufferSize, chunkSize)
    requires chunk == if chunkSize * (i + 1) > bufferSize then bufferSize % chunkSize else chunkSize
    ensures 0 <= i * chunkSize && i * chunkSize + chunk <= bufferSize && (c0 + i) * chunkSize < length
    ensures data[cursor..cursor + bufferSize][i * chunkSize..i * chunkSize + chunk] ==
            ChunkBytes(data, length, c0 + i, chunkSize)
  {
    hide CeilDiv;
    var q, r := Divided(bufferSize, chunkSize);
    ChunkEnd(bufferSize, chunkSize, i, q, r);
    AddChunks(c0, i, chunkSize);
    SliceEnds(length, cursor, bufferSize, localBufferSize, chunkSize, i * chunkSize, chunk);
    SliceOfSlice(data, cursor, cursor + bufferSize, i * chunkSize, chunk);
  }

  lemma AddChunks(a: nat, b: nat, chunkSize: nat)
    ensures (a + b) * chunkSize == a * chunkSize + b * chunkSize
  {}

  lemma SliceEnds(length: nat, cursor: nat, bufferSize: nat, localBufferSize: nat, chunkSize: nat, at: nat, chunk: nat)
    requires 0 < chunkSize && cursor < length && bufferSize == Min(localBufferSize, length - cursor)
    requires localBufferSize % chunkSize == 0 && at < bufferSize
    requires chunk == if at + chunkSize > bufferSize then bufferSize % chunkSize else chunkSize
    requires at + chunkSize > bufferSize ==> 0 < bufferSize % chunkSize && at + chunk == bufferSize
    ensures cursor + at + chunk == Min(cursor + at + chunkSize, length)
  {}

  lemma ChunkEnd(bufferSize: nat, chunkSize: nat, i: nat, q: nat, r: nat)
    requires 0 < chunkSize && bufferSize == q * chunkSize + r && r < chunkSize
    requires i < CeilDiv(bufferSize, chunkSize)
    ensures 0 <= i * chunkSize < bufferSize && chunkSize * (i + 1) == i * chunkSize + chunkSize
    ensures chunkSize * (i + 1) > bufferSize ==> 0 < r && i * chunkSize + r == bufferSize
    ensures r == 0 ==> chunkSize * (i + 1) <= bufferSize
  {
    hide CeilDiv;
    if r == 0 { CeilDivExact(q, chunkSize); } else { CeilDivPartial(q, r, chunkSize); }
    var whole, done := q * chunkSize, i * chunkSize;
    NextMultiple(i, chunkSize);
    if i < q {
      Multiples(i, q, chunkSize);
    }
  }

  lemma NextMultiple(i: nat, d: nat)
    ensures 0 <= i * d && d * (i + 1) == i * d + d
  {}

  lemma Multiples(i: nat, q: nat, d: nat)
    requires i < q
    ensures i * d + d <= q * d
  {
    MulAtLeast(q - i, d);
    assert (q - i) * d == q * d - i * d;
  }

  // After a refill both files stand where they should.
  lemma Advanced(cursor: nat, bufferSize: nat, localBufferSize: nat, length: nat, chunkSize: nat, c0: nat)
    requires 0 < chunkSize && cursor == c0 * chunkSize && cursor < length && localBufferSize % chunkSize == 0
    requires bufferSize == Min(localBufferSize, length - cursor)
    ensures (cursor + bufferSize) % chunkSize == 0 || cursor + bufferSize == length
    ensures CeilDiv(cursor + bufferSize, chunkSize) == c0 + CeilDiv(bufferSize, chunkSize)
  {
    hide CeilDiv;
    var q, r := Divided(bufferSize, chunkSize);
    AddChunks(c0, q, chunkSize);
    CeilSum(c0, q, r, chunkSize);
    if r == 0 { DivModUnique(cursor + bufferSize, chunkSize, c0 + q, 0); }
  }

  lemma CeilSum(c0: nat, q: nat, r: nat, d: nat)
    requires 0 < d && r < d
    ensures CeilDiv(c0 * d + q * d + r, d) == c0 + CeilDiv(q * d + r, d)
  {
    hide CeilDiv;
    AddChunks(c0, q, d);
    if r == 0 {
      CeilDivExact(q, d);
      CeilDivExact(c0 + q, d);
    } else {
      CeilDivPartial(q, r, d);
      CeilDivPartial(c0 + q, r, d);
    }
  }

  lemma InChunk(x: nat, cursor: nat, bufferSize: nat, chunkSize: nat, c0: nat)
    requires 0 < chunkSize && cursor == c0 * chunkSize && cursor <= x < cursor + bufferSize
    ensures c0 <= x / chunkSize < c0 + CeilDiv(bufferSize, chunkSize)
  {
    hide CeilDiv;
    var q, r := Divided(x - cursor, chunkSize);
    var n := CeilForm(bufferSize, chunkSize, q, r);
    AddChunks(c0, q, chunkSize);
    DivModUnique(x, chunkSize, c0 + q, r);
  }

  lemma Divided(x: nat, d: nat) returns (q: nat, r: nat)
    requires 0 < d
    ensures x == q * d + r && r < d && q == x / d && r == x % d
  {
    q, r := x / d, x % d;
  }

  // Chunks needed for size bytes: more than the whole chunks before any of them.
  lemma CeilForm(size: nat, d: nat, q: nat, r: nat) returns (n: nat)
    requires 0 < d && r < d && q * d + r < size
    ensures n == CeilDiv(size, d) && q < n
  {
    hide CeilDiv;
    var bq, br := Divided(size, d);
    n := CeilDiv(size, d);
    if br == 0 { CeilDivExact(bq, d); } else { CeilDivPartial(bq, br, d); }
    MixedRadix(q, r, bq, br, d);
  }
}
