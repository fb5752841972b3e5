/** What a reader of an export's output gets out of it: the file, byte by byte, its
    CRC, and the names and marks of its object. And what it gets out of the reply
    to an import. */
module ExportedFile {
  import opened Basics
  import opened Numerals
  import opened Json
  import opened FileWorld
  import opened Chunks
  import opened Crc32
  import opened Interleaving
  import opened FileExport
  import opened ExportDocument
  import FileImport
  import DecodeDocument
  import DecodeText

  /** The bytes of one entry. */
  function EntryBytes(v: Json): Option<seq<byte>> {
    match v
    case Object(members) =>
      (match Lookup(members, "data")
       case Some(String(hex)) => Unhex(hex)
       case _ => None)
    case _ => None
  }

  /** The bytes of the entries, in order. */
  function EntriesBytes(vs: seq<Json>): Option<seq<byte>> {
    if vs == [] then Some([])
    else
      match (EntriesBytes(vs[..|vs| - 1]), EntryBytes(vs[|vs| - 1]))
      case (Some(before), Some(data)) => Some(before + data)
      case _ => None
  }

  /** The bytes of a whole document. */
  function FileOf(v: Json): Option<seq<byte>> {
    match v
    case Object(members) =>
      (match Lookup(members, "data")
       case Some(Array(entries)) => EntriesBytes(entries)
       case _ => None)
    case _ => None
  }

  /** The number its CRC member denotes. */
  function CrcOf(v: Json): Option<nat> {
    match v
    case Object(members) =>
      (match Lookup(members, "crc32")
       case Some(String(digits)) => HexValue(digits)
       case _ => None)
    case _ => None
  }

  lemma {:induction false} LookupBehind(members: seq<(string, Json)>, more: seq<(string, Json)>, key: string)
    requires forall i :: 0 <= i < |members| ==> members[i].0 != key
    ensures Lookup(members + more, key) == Lookup(more, key)
  {
    if members == [] {
      assert members + more == more;
    } else {
      assert (members + more)[1..] == members[1..] + more;
      LookupBehind(members[1..], more, key);
    }
  }

  lemma EntryHoldsChunk(instance: uint32, c: Chunk)
    ensures EntryBytes(ChunkValue(instance, c)) == Some(c.data)
  {
    hide Hex, Unhex, Dec;
    HexRoundTrip(c.data);
    var front := [("instance", Numeral(Dec(instance))), ("offset", Numeral(Dec(c.offset)))];
    var data := [("data", String(Hex(c.data)))];
    assert ChunkValue(instance, c) == Object(front + data);
    LookupBehind(front, data, "data");
  }

  lemma {:induction false} EntriesHoldChunks(instance: uint32, chunks: seq<Chunk>)
    ensures EntriesBytes(ChunkValues(instance, chunks)) == Some(Concat(chunks))
    decreases |chunks|
  {
    hide ChunkValue, EntryBytes;
    var vs := ChunkValues(instance, chunks);
    if chunks == [] {
      assert vs == [];
    } else {
      var n := |chunks| - 1;
      assert vs[..n] == ChunkValues(instance, chunks[..n]);
      EntriesHoldChunks(instance, chunks[..n]);
      EntryHoldsChunk(instance, chunks[n]);
    }
  }

  lemma DocumentHoldsChunks(t: Transfer, chunks: seq<Chunk>, crc: Register)
    ensures FileOf(DocumentValue(t, chunks, crc)) == Some(Concat(chunks))
    ensures CrcOf(DocumentValue(t, chunks, crc)) == Some(Number(crc))
  {
    hide ChunkValues, CrcText, EntriesBytes, Number, HexValue, Concat, Dec;
    var data, crc32 := ("data", Array(ChunkValues(t.instance, chunks))), ("crc32", String(CrcText(crc)));
    LookupBehind(Metadata(t), [data, crc32], "data");
    LookupBehind(Metadata(t) + [data], [crc32], "crc32");
    assert Metadata(t) + [data] + [crc32] == Metadata(t) + [data, crc32];
    EntriesHoldChunks(t.instance, chunks);
    CrcTextDenotes(crc);
  }

  lemma CrcTextDenotes(crc: Register)
    ensures HexValue(CrcText(crc)) == Some(Number(crc))
  {
    hide HexValue, HexFixed, Number;
    NumberBound(crc);
    Powers();
    HexFixedRoundTrip(Number(crc), 8);
  }

  /** The law of the export: in every run among other threads that leave the file
      unwritten from its capture on, an export that stops with 0 has printed one
      JSON text whose un-hexed data is the file, byte by byte, and whose CRC is
      the file's. */
  lemma ExportPrintsTheFile(
      instance: uint32, chunkSize: nat, memory: bool, run: seq<Sys<Export, World, Sample>>, k: nat, file: seq<byte>)
    requires chunkSize > 0
    requires IsRun(ExportProgram(chunkSize, memory), Opening(instance), run) && k < |run|
    requires run[k].client.Stopped? && run[k].client.status == Ok
    requires Unwritten(run, k, run[k].client.transfer.pathname, file)
    ensures var read := ReadText(Output(run[k].client));
      read.Some? && FileOf(read.value) == Some(file) && CrcOf(read.value) == Some(Number(Ieee(file)))
  {
    hide Ieee, Output, DocumentValue, FileOf, CrcOf, ReadText, Number, Unwritten;
    var e := run[k].client;
    ExportTilesUnderInterference(instance, chunkSize, memory, run, k);
    ExportRefinesSnapshot(instance, chunkSize, memory, run, k, file);
    ReadDocument(e.transfer, e.chunks, chunkSize, e.crc);
    DocumentHoldsChunks(e.transfer, e.chunks, e.crc);
  }

  // ----- the object's own fields -----

  function TextOrEmpty(s: Option<Text>): string {
    if s.Some? then s.value else ""
  }

  /** A document that says of an object what the object was in this world. */
  ghost predicate Describes(v: Json, instance: uint32, w: World) {
    && v.Object? && instance in w.files && w.files[instance].pathname.Some?
    && var f := w.files[instance];
       && Lookup(v.members, "instance") == Some(Numeral(Dec(instance)))
       && Lookup(v.members, "name") == Some(String(TextOrEmpty(f.name)))
       && Lookup(v.members, "mime_type") == Some(String(TextOrEmpty(f.mimeType)))
       && Lookup(v.members, "size") == Some(Numeral(Dec(|Content(w, f.pathname.value)|)))
       && Lookup(v.members, "read_only") == Some(Bool(f.readOnly))
  }

  lemma MetadataOf(t: Transfer, chunks: seq<Chunk>, crc: Register)
    ensures var ms := DocumentValue(t, chunks, crc).members;
      && Lookup(ms, "instance") == Some(Numeral(Dec(t.instance)))
      && Lookup(ms, "name") == Some(String(t.name))
      && Lookup(ms, "mime_type") == Some(String(t.mimeType))
      && Lookup(ms, "size") == Some(Numeral(Dec(t.fileSize)))
      && Lookup(ms, "read_only") == Some(Bool(t.readOnly))
  {
    hide Dec, ChunkValues, CrcText;
    var ms := DocumentValue(t, chunks, crc).members;
    LookupAt(ms, 0);
    LookupAt(ms, 1);
    LookupAt(ms, 2);
    LookupAt(ms, 3);
    LookupAt(ms, 4);
  }

  lemma {:induction false} LookupAt(members: seq<(string, Json)>, i: nat)
    requires i < |members| && forall j :: 0 <= j < i ==> members[j].0 != members[i].0
    ensures Lookup(members, members[i].0) == Some(members[i].1)
    decreases i
  {
    if i > 0 {
      assert forall j :: 0 <= j < |members| - 1 ==> members[1..][j] == members[j + 1];
      LookupAt(members[1..], i - 1);
    }
  }

  /** Whatever worlds the passes sampled, a finished export prints the fields of its
      object as they were in the first of them: each under its own name. */
  lemma ExportDescribesItsObject(instance: uint32, chunkSize: nat, memory: bool, worlds: seq<World>)
    requires chunkSize > 0
    requires var e := ExportProgram(chunkSize, memory).Fold(Opening(instance), worlds); e.Stopped? && e.status == Ok
    ensures worlds != []
    ensures var read := ReadText(Output(ExportProgram(chunkSize, memory).Fold(Opening(instance), worlds)));
      read.Some? && Describes(read.value, instance, worlds[0])
  {
    hide Update, Output, DocumentValue, ReadText, Capture, Program.Fold, ExportProgram, Dec;
    var e := ExportProgram(chunkSize, memory).Fold(Opening(instance), worlds);
    FoldKeepsInv(instance, chunkSize, memory, worlds);
    RefusedExactly(instance, chunkSize, memory, worlds);
    CaptureOutcome(worlds[0], instance, memory);
    ReadDocument(e.transfer, e.chunks, chunkSize, e.crc);
    MetadataOf(e.transfer, e.chunks, e.crc);
    DocumentIsObject(e.transfer, e.chunks, e.crc);
  }

  lemma DocumentIsObject(t: Transfer, chunks: seq<Chunk>, crc: Register)
    ensures DocumentValue(t, chunks, crc).Object?
  {
  }

  /** The same in every run among other threads: the first world is the one in which
      the command held the lock first. */
  lemma ExportDescribesItsObjectInRun(
      instance: uint32, chunkSize: nat, memory: bool, run: seq<Sys<Export, World, Sample>>, k: nat)
    requires chunkSize > 0
    requires IsRun(ExportProgram(chunkSize, memory), Opening(instance), run) && k < |run|
    requires run[k].client.Stopped? && run[k].client.status == Ok
    ensures run[k].seen != [] && HeldOver(run, k, run[k].seen[0])
    ensures var read := ReadText(Output(run[k].client));
      read.Some? && Describes(read.value, instance, run[k].seen[0])
  {
    hide Update, Output, ReadText, ExportProgram, Describes, Program.Fold;
    var p := ExportProgram(chunkSize, memory);
    RunReduces(p, Opening(instance), run, k);
    SeenUnderLock(p, Opening(instance), run, k);
    ExportDescribesItsObject(instance, chunkSize, memory, Digested(run[k]));
    assert Digested(run[k])[0] == run[k].seen[0];
  }

  // ----- the reply to an import -----

  /** The reply to an import that succeeded reads as its instance, offset and
      length. */
  lemma ReplyReads(instance: uint32, offset: nat, length: nat)
    ensures ReadText(FileImport.Reply(Ok, instance, offset, length)) ==
      Some(Object([("instance", Numeral(Dec(instance))), ("offset", Numeral(Dec(offset))),
                   ("length", Numeral(Dec(length)))]))
    ensures forall e: Errno :: FileImport.Reply(Err(e), instance, offset, length) == ""
  {
    hide Dec, DecodeDocument.ReadsIn, DecodeDocument.FieldsRead, ReadText, DecodeText.ObjectText;
    DecodeDocument.NumberReadsIn(instance);
    DecodeDocument.NumberReadsIn(offset);
    DecodeDocument.NumberReadsIn(length);
    var rest := DecodeText.More("offset", Dec(offset), DecodeText.Last("length", Dec(length)));
    var ms := [("offset", Numeral(Dec(offset))), ("length", Numeral(Dec(length)))];
    DecodeDocument.TwoFields("offset", Dec(offset), Numeral(Dec(offset)), "length", Dec(length), Numeral(Dec(length)));
    DecodeDocument.MoreFields("instance", Dec(instance), Numeral(Dec(instance)), rest, ms);
    assert [("instance", Numeral(Dec(instance)))] + ms
        == [("instance", Numeral(Dec(instance))), ("offset", Numeral(Dec(offset))), ("length", Numeral(Dec(length)))];
    DecodeDocument.ObjectReads(DecodeText.More("instance", Dec(instance), rest), [("instance", Numeral(Dec(instance)))] + ms);
  }

  /** An undisturbed export, as far as a reader sees it: an object that stays and is
      not written is printed, whole and as what it is, by every run that has read
      often enough. */
  lemma UndisturbedExportIsPrinted(
      instance: uint32, chunkSize: nat, run: seq<Sys<Export, World, Sample>>, k: nat, pathname: Text, file: seq<byte>)
    requires chunkSize > 0
    requires IsRun(ExportProgram(chunkSize, true), Opening(instance), run) && k < |run|
    requires forall i :: 0 <= i < k && run[i].pc.Holding? ==> IsThere(run[i].world, instance, pathname, file)
    requires Digested(run[k]) != [] && (|Digested(run[k])| - 1) * chunkSize >= |file|
    ensures var read := ReadText(Output(run[k].client));
      read.Some? && Describes(read.value, instance, run[k].seen[0])
      && FileOf(read.value) == Some(file) && CrcOf(read.value) == Some(Number(Ieee(file)))
  {
    hide Update, Ieee, Output, DocumentValue, ReadText, ExportProgram, Describes, FileOf, CrcOf, Number, IsThere;
    var e, worlds := run[k].client, Digested(run[k]);
    UndisturbedExportSucceeds(instance, chunkSize, run, k, pathname, file);
    ExportDescribesItsObjectInRun(instance, chunkSize, true, run, k);
    RunReduces(ExportProgram(chunkSize, true), Opening(instance), run, k);
    FoldKeepsInv(instance, chunkSize, true, worlds);
    FoldKeepsCrc(instance, chunkSize, true, worlds);
    UpdateIsIeee(file);
    ReadDocument(e.transfer, e.chunks, chunkSize, e.crc);
    DocumentHoldsChunks(e.transfer, e.chunks, e.crc);
  }
}
