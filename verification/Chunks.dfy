/** Pieces of a file with their offsets, as dump and export print them. */
module Chunks {
  import opened Basics
  import opened FileWorld

  datatype Chunk = Chunk(offset: nat, data: seq<byte>)

  /** The bytes of the chunks, in order. */
  function Concat(chunks: seq<Chunk>): seq<byte> {
    if chunks == [] then []
    else Concat(chunks[..|chunks| - 1]) + chunks[|chunks| - 1].data
  }

  /** Chunk by chunk from `start`: each begins where the previous ended, and none
      is empty or longer than the chunk size. */
  predicate Tiles(chunks: seq<Chunk>, start: nat, chunkSize: nat) {
    chunks == [] ||
    (var last, front := chunks[|chunks| - 1], chunks[..|chunks| - 1];
     && Tiles(front, start, chunkSize)
     && last.offset == start + |Concat(front)|
     && 0 < |last.data| <= chunkSize)
  }

  /** The chunk was read from a world in which the captured object was still
      there: same instance, stream access, same pathname. */
  predicate ReadFrom(t: Transfer, c: Chunk, w: World) {
    && t.instance in w.files && w.files[t.instance].stream
    && w.files[t.instance].pathname == Some(t.pathname)
    && c.data == Slice(Content(w, t.pathname), c.offset, |c.data|)
  }

  predicate HasSource(t: Transfer, c: Chunk, worlds: seq<World>) {
    exists j :: 0 <= j < |worlds| && ReadFrom(t, c, worlds[j])
  }

  predicate Provenance(t: Transfer, chunks: seq<Chunk>, worlds: seq<World>) {
    forall i :: 0 <= i < |chunks| ==> HasSource(t, chunks[i], worlds)
  }

  lemma ReadFromHere(t: Transfer, c: Chunk, w: World, requested: nat)
    requires TransferRead(t, w, c.offset, requested) == Success(c.data) && |c.data| == requested
    ensures ReadFrom(t, c, w)
  {
  }

  lemma ConcatSnoc(chunks: seq<Chunk>, c: Chunk)
    ensures Concat(chunks + [c]) == Concat(chunks) + c.data
  {
  }

  lemma ProvenanceGrows(t: Transfer, chunks: seq<Chunk>, worlds: seq<World>, w: World)
    requires Provenance(t, chunks, worlds)
    ensures Provenance(t, chunks, worlds + [w])
  {
    var all := worlds + [w];
    forall i | 0 <= i < |chunks|
      ensures HasSource(t, chunks[i], all)
    {
      assert HasSource(t, chunks[i], worlds);
      var j :| 0 <= j < |worlds| && ReadFrom(t, chunks[i], worlds[j]);
      assert all[j] == worlds[j];
    }
  }

  /** One more chunk, read from the latest world at the next offset. */
  lemma ChunkAppends(
      t: Transfer, chunks: seq<Chunk>, start: nat, chunkSize: nat, c: Chunk, worlds: seq<World>, w: World)
    requires Tiles(chunks, start, chunkSize) && Provenance(t, chunks, worlds)
    requires c.offset == start + |Concat(chunks)| && 0 < |c.data| <= chunkSize && ReadFrom(t, c, w)
    ensures Tiles(chunks + [c], start, chunkSize) && Provenance(t, chunks + [c], worlds + [w])
    ensures Concat(chunks + [c]) == Concat(chunks) + c.data
  {
    ConcatSnoc(chunks, c);
    assert (chunks + [c])[..|chunks|] == chunks;
    ProvenanceGrows(t, chunks, worlds, w);
    assert (worlds + [w])[|worlds|] == w;
    assert HasSource(t, c, worlds + [w]);
  }

  lemma SliceExtends(file: seq<byte>, start: nat, at: nat, data: seq<byte>)
    requires data != [] && data == Slice(file, at, |data|) && start <= at
    ensures at + |data| <= |file| && file[start..at] + data == file[start..at + |data|]
  {
  }

  /** Every chunk is the file's slice at its offset. */
  predicate SlicesOf(chunks: seq<Chunk>, file: seq<byte>) {
    forall i :: 0 <= i < |chunks| ==> chunks[i].data == Slice(file, chunks[i].offset, |chunks[i].data|)
  }

  lemma TileParts(chunks: seq<Chunk>, start: nat, chunkSize: nat, file: seq<byte>)
    requires chunks != [] && Tiles(chunks, start, chunkSize) && SlicesOf(chunks, file)
    ensures var last, front := chunks[|chunks| - 1], chunks[..|chunks| - 1];
      && Tiles(front, start, chunkSize) && SlicesOf(front, file)
      && last.offset == start + |Concat(front)|
      && last.data != [] && last.data == Slice(file, last.offset, |last.data|)
      && Concat(chunks) == Concat(front) + last.data
  {
  }

  /** Chunks that tile and are all slices of one file concatenate to that file's
      bytes from where they start. */
  lemma {:induction false} TilesOfOneFile(chunks: seq<Chunk>, start: nat, chunkSize: nat, file: seq<byte>)
    requires Tiles(chunks, start, chunkSize) && SlicesOf(chunks, file) && start <= |file|
    ensures start + |Concat(chunks)| <= |file|
    ensures Concat(chunks) == file[start..start + |Concat(chunks)|]
    decreases |chunks|
  {
    if chunks == [] {
      assert Concat(chunks) == [];
    } else {
      hide *;
      var front, last := chunks[..|chunks| - 1], chunks[|chunks| - 1];
      TileParts(chunks, start, chunkSize, file);
      TilesOfOneFile(front, start, chunkSize, file);
      SliceExtends(file, start, last.offset, last.data);
    }
  }

  /** The worlds all hold this content under this pathname. */
  predicate AllHold(worlds: seq<World>, pathname: Text, file: seq<byte>) {
    forall j :: 0 <= j < |worlds| ==> Content(worlds[j], pathname) == file
  }

  lemma ChunksOfUnwrittenFile(
      t: Transfer, chunks: seq<Chunk>, start: nat, chunkSize: nat, worlds: seq<World>, file: seq<byte>)
    requires Tiles(chunks, start, chunkSize) && Provenance(t, chunks, worlds)
    requires AllHold(worlds, t.pathname, file) && start <= |file|
    ensures start + |Concat(chunks)| <= |file|
    ensures Concat(chunks) == file[start..start + |Concat(chunks)|]
  {
    forall i | 0 <= i < |chunks|
      ensures chunks[i].data == Slice(file, chunks[i].offset, |chunks[i].data|)
    {
      assert HasSource(t, chunks[i], worlds);
    }
    TilesOfOneFile(chunks, start, chunkSize, file);
  }
}
