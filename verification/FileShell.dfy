/** The file commands as they run: one shell thread, the recursive task lock, the
    heap its snapshots live on, and the text it prints. Each command is proved
    against its program over sampled worlds, returns with the lock as it found
    it, and frees every string it allocated exactly once. */
module FileShell {
  import opened Basics
  import opened Numerals
  import opened Json
  import opened FileWorld
  import opened Chunks
  import opened Interleaving
  import opened Records
  import Crc = Crc32
  import FileExport
  import ExportDocument
  import FileImport
  import FileDump
  import DecodeText
  import FileDecode

  datatype Block = Block(id: nat, text: Text)

  /** `struct file_transfer`: numbers, and three owned strings or null. */
  class FileTransfer {
    var instance: uint32
    var fileSize: Offset31
    var readOnly: bool
    var pathname: Option<Block>
    var name: Option<Block>
    var mimeType: Option<Block>

    constructor ()
      ensures Empty()
    {
      instance, fileSize, readOnly := 0, 0, false;
      pathname, name, mimeType := None, None, None;
    }

    predicate Empty()
      reads this
    {
      pathname.None? && name.None? && mimeType.None?
    }

    /** No two of the strings held share a block. */
    predicate Distinct()
      reads this
    {
      && (pathname.Some? && name.Some? ==> pathname.value.id != name.value.id)
      && (pathname.Some? && mimeType.Some? ==> pathname.value.id != mimeType.value.id)
      && (name.Some? && mimeType.Some? ==> name.value.id != mimeType.value.id)
    }

    /** All three strings are held. */
    predicate Full()
      reads this
    {
      pathname.Some? && name.Some? && mimeType.Some? && Distinct()
    }

    function Owned(): set<nat>
      reads this
    {
      (if pathname.Some? then {pathname.value.id} else {}) +
      (if name.Some? then {name.value.id} else {}) +
      (if mimeType.Some? then {mimeType.value.id} else {})
    }

    lemma ValueFields()
      requires Full()
      ensures Value().fileSize == fileSize && Value().instance == instance
    {
    }

    function Value(): Transfer
      requires Full()
      reads this
    {
      Transfer(instance, fileSize, readOnly, pathname.value.text, name.value.text, mimeType.value.text)
    }
  }

  class Shell {
    /** What other threads have made of the shared world by this thread's n-th
        acquisition of the free lock. */
    const others: nat -> World
    /** Whether the n-th allocation fails. */
    const exhausted: nat -> bool
    const chunkSize: nat

    var world: World
    var turn: nat
    var depth: nat
    var allocations: nat
    var live: set<nat>
    var out: string
    /** The worlds found by acquiring the free lock, in order. */
    ghost var seen: seq<World>

    constructor (others: nat -> World, exhausted: nat -> bool, chunkSize: nat, world: World)
      ensures Valid() && depth == 0 && live == {} && out == "" && seen == []
      ensures this.others == others && this.exhausted == exhausted && this.chunkSize == chunkSize
    {
      this.others, this.exhausted, this.chunkSize, this.world := others, exhausted, chunkSize, world;
      turn, depth, allocations, live, out, seen := 0, 0, 0, {}, "", [];
    }

    predicate Valid()
      reads this
    {
      forall b :: b in live ==> b < allocations
    }

    // ----- the lock, the heap, the console -----

    /** `bacnet_lock`: taking the free lock admits everything the other threads
        did meanwhile; the owner only counts. */
    method Lock()
      modifies this`depth, this`world, this`turn, this`seen
      ensures depth == old(depth) + 1
      ensures if old(depth) == 0
        then world == others(old(turn)) && turn == old(turn) + 1 && seen == old(seen) + [world]
        else world == old(world) && turn == old(turn) && seen == old(seen)
    {
      if depth == 0 {
        world, turn := others(turn), turn + 1;
        seen := seen + [world];
      }
      depth := depth + 1;
    }

    /** `bacnet_unlock` */
    method Unlock()
      requires depth > 0
      modifies this`depth
      ensures depth == old(depth) - 1
    {
      depth := depth - 1;
    }

    /** `file_cstring_own` */
    method Own(value: Option<Text>) returns (owned: Option<Block>)
      requires Valid()
      modifies this`allocations, this`live
      ensures Valid() && allocations == old(allocations) + 1
      ensures if exhausted(old(allocations))
        then owned.None? && live == old(live)
        else owned == Some(Block(old(allocations), OrEmpty(value))) && live == old(live) + {old(allocations)}
    {
      var id := allocations;
      allocations := allocations + 1;
      if exhausted(id) {
        return None;
      }
      live := live + {id};
      return Some(Block(id, OrEmpty(value)));
    }

    /** `k_free`: null, or a block that is allocated and not yet freed. */
    method Free(block: Option<Block>)
      requires block.Some? ==> block.value.id in live
      modifies this`live
      ensures live == old(live) - (if block.Some? then {block.value.id} else {})
    {
      if block.Some? {
        live := live - {block.value.id};
      }
    }

    /** `file_transfer_release`: frees what the transfer owns, once. */
    method Release(t: FileTransfer)
      requires Valid() && t.Owned() <= live && t.Distinct()
      modifies this`live, t`pathname, t`name, t`mimeType
      ensures Valid() && t.Empty() && live == old(live) - old(t.Owned())
    {
      Free(t.pathname);
      Free(t.name);
      Free(t.mimeType);
      t.pathname, t.name, t.mimeType := None, None, None;
    }

    method Print(text: string)
      modifies this`out
      ensures out == old(out) + text
    {
      out := out + text;
    }

    // ----- the transfer -----

    /** Whether the three allocations of a capture would succeed from here. */
    predicate Memory(first: nat)
      reads this
    {
      !exhausted(first) && !exhausted(first + 1) && !exhausted(first + 2)
    }

    /** After opening: the snapshot is held, or nothing is. */
    twostate predicate Opened(t: FileTransfer, result: Result<Transfer>, status: Status)
      reads this, t
    {
      && status == result.Code()
      && (result.Success? ==>
            && t.Full() && t.Value() == result.result
            && live == old(live) + t.Owned() && t.Owned() !! old(live))
      && (result.Failure? ==> t.Empty() && live == old(live))
    }

    /** The three copies of a capture: all of them, or none is left behind. */
    method OwnStrings(pathname: Option<Text>, name: Option<Text>, mimeType: Option<Text>, t: FileTransfer)
      returns (copied: bool)
      requires Valid() && t.Empty()
      modifies this`allocations, this`live, t`pathname, t`name, t`mimeType
      ensures Valid() && (copied <==> Memory(old(allocations)))
      ensures copied ==>
        && t.Full() && live == old(live) + t.Owned() && t.Owned() !! old(live)
        && t.pathname.value.text == OrEmpty(pathname)
        && t.name.value.text == OrEmpty(name) && t.mimeType.value.text == OrEmpty(mimeType)
      ensures !copied ==> t.Empty() && live == old(live)
    {
      t.pathname := Own(pathname);
      if t.pathname.None? {
        return false;
      }
      t.name := Own(name);
      if t.name.None? {
        Release(t);
        return false;
      }
      t.mimeType := Own(mimeType);
      if t.mimeType.None? {
        Release(t);
        return false;
      }
      return true;
    }

    /** `file_transfer_capture`; the caller holds the lock. */
    method CaptureTransfer(instance: uint32, t: FileTransfer) returns (status: Status)
      requires Valid() && depth > 0 && t.Empty()
      modifies this`allocations, this`live, t
      ensures Valid() && Opened(t, Capture(world, instance, Memory(old(allocations))), status)
    {
      if instance !in world.files {
        return Err(ENOENT);
      }
      var pathname := Pathname(world, instance);
      if pathname.None? || pathname.value == "" {
        return Err(EINVAL);
      }
      if !IsStream(world, instance) {
        return Err(ENOTSUP);
      }
      var size := FileSize(world, instance);
      if size > INT32_MAX {
        return Err(EOVERFLOW);
      }
      var copied := OwnStrings(pathname, world.files[instance].name, world.files[instance].mimeType, t);
      if !copied {
        return Err(ENOMEM);
      }
      t.instance, t.fileSize, t.readOnly := instance, size, world.files[instance].readOnly;
      return Ok;
    }

    /** One locked section was entered from outside the lock, and left. */
    twostate predicate SampledOnce()
      reads this
    {
      && depth == old(depth) == 0
      && seen == old(seen) + [world]
      && out == old(out)
    }

    /** `file_transfer_open` */
    method Open(instance: uint32, t: FileTransfer) returns (status: Status)
      requires Valid() && depth == 0 && t.Empty()
      modifies this, t
      ensures Valid() && SampledOnce()
      ensures Opened(t, Capture(world, instance, Memory(old(allocations))), status)
    {
      Lock();
      status := CaptureTransfer(instance, t);
      Unlock();
    }

    /** `file_backup_open` */
    method OpenBackup(instance: uint32, t: FileTransfer) returns (status: Status)
      requires Valid() && depth == 0 && t.Empty()
      modifies this, t
      ensures Valid() && SampledOnce()
      ensures Opened(t, FileDecode.BackupCapture(world, instance, Memory(old(allocations))), status)
    {
      Lock();
      status := CaptureTransfer(instance, t);
      if status == Ok && instance !in world.configured {
        Release(t);
        status := Err(EPERM);
      }
      Unlock();
    }

    /** `file_transfer_read` */
    method ReadTransfer(t: FileTransfer, offset: nat, requested: nat) returns (read: Result<seq<byte>>)
      requires Valid() && depth == 0 && t.Full()
      modifies this`depth, this`world, this`turn, this`seen
      ensures SampledOnce() && read == TransferRead(t.Value(), world, offset, requested)
    {
      Lock();
      var status := Revalidate(t.Value(), world);
      if status == Ok {
        read := Success(ReadOffset(world, t.instance, offset, requested));
      } else {
        read := Failure(status.errno);
      }
      Unlock();
    }

    /** What every command leaves behind: the lock free again, the heap as it was,
        and the worlds it sampled appended to the history. */
    twostate predicate CleanExit()
      reads this
    {
      && Valid() && depth == 0 && live == old(live)
      && |seen| >= |old(seen)| && seen[..|old(seen)|] == old(seen)
    }

    // ----- export -----

    method PrintHeader(t: Transfer)
      modifies this`out
      ensures out == old(out) + ExportDocument.HeaderThen(t, "")
    {
      hide Dec, Quote;
      var name := JsonStringData(t.name);
      var mimeType := JsonStringData(t.mimeType);
      Print("{\n" + Member("instance", Dec(t.instance) + (",\n" +
        Member("name", name + (",\n" +
          Member("mime_type", mimeType + (",\n" +
            Member("size", Dec(t.fileSize) + (",\n" +
              Member("read_only", (if t.readOnly then "true" else "false") + (",\n" +
                Member("data", "[\n" + ""))))))))))));
    }

    /** The end of a pass: running register, hex text, and the chunk entry, which
        continues the entries already on the console. */
    method PrintChunk(t: Transfer, offset: nat, data: seq<byte>, crc: Crc.Register,
                      ghost chunks: seq<Chunk>, ghost console: string)
      returns (next: Crc.Register)
      requires out == console + ExportDocument.LinesThen(t, chunks, "")
      modifies this`out
      ensures next == Crc.Update(crc, data)
      ensures out == console + ExportDocument.LinesThen(t, chunks + [Chunk(offset, data)], "")
    {
      hide Dec, Hex, Crc.Update, ExportDocument.LinesThen;
      next := Crc.Update(crc, data);
      var hex := Hex(data);
      HexRoundTrip(data);
      if |hex| != 2 * |data| {
        assert false;
      }
      ExportDocument.LinesSnoc(t, chunks, Chunk(offset, data));
      Print(("{" + Member("instance", Dec(t.instance) + ("," +
        Member("offset", Dec(offset) + ("," +
          Member("data", "\"" + (hex + ("\"" + ("}" + ""))))))))) +
        (if offset + |data| < t.fileSize then ",\n" else "\n"));
    }

    method PrintFooter(crc: Crc.Register)
      modifies this`out
      ensures out == old(out) + ExportDocument.Footer(crc)
    {
      Print("],\n" + Member("crc32", "\"" + (HexFixed(Crc.Number(crc), 8) + ("\"" + "\n}\n"))));
    }

    /** The loop of `cmd_file_export`. It leaves the transfer held only when it
        has copied everything. */
    method CopyChunks(transfer: FileTransfer, ghost memory: bool, ghost start: FileExport.Export, ghost before: seq<World>)
      returns (status: Status, crc: Crc.Register, ghost chunks: seq<Chunk>, ghost worlds: seq<World>)
      requires Valid() && depth == 0 && chunkSize > 0
      requires transfer.Full() && transfer.Owned() <= live
      requires FileExport.ExportProgram(chunkSize, memory).Fold(start, before)
            == FileExport.Continue(transfer.Value(), [], Crc.ZEROS)
      modifies this`depth, this`world, this`turn, this`seen, this`out, this`live
      modifies transfer`pathname, transfer`name, transfer`mimeType
      ensures Valid() && depth == 0 && seen == old(seen) + worlds
      ensures FileExport.ExportProgram(chunkSize, memory).Fold(start, before + worlds)
           == FileExport.Stopped(old(transfer.Value()), chunks, crc, status)
      ensures out == old(out) + ExportDocument.LinesThen(old(transfer.Value()), chunks, "")
      ensures status == Ok ==> transfer.Full() && transfer.Owned() == old(transfer.Owned()) && live == old(live)
      ensures status != Ok ==> live == old(live) - old(transfer.Owned())
    {
      hide Crc.Update, ExportDocument.LinesThen, ExportDocument.Line, ExportDocument.Separator;
      hide TransferRead, Hex, Concat, Program.Fold, Program.Advance, FileExport.ExportProgram;
      hide FileTransfer.Value, FileTransfer.Owned;
      ghost var p := FileExport.ExportProgram(chunkSize, memory);
      var t := transfer.Value();
      var offset := 0;
      crc, chunks, worlds := Crc.ZEROS, [], [];
      assert before + [] == before;
      ExportDocument.NothingYet(t);
      while offset < t.fileSize
        invariant Valid() && depth == 0 && transfer.Full() && transfer.Value() == t
        invariant live == old(live) && transfer.Owned() == old(transfer.Owned())
        invariant seen == old(seen) + worlds
        invariant offset == |Concat(chunks)| <= t.fileSize
        invariant p.Fold(start, before + worlds) == FileExport.Continue(t, chunks, crc)
        invariant out == old(out) + ExportDocument.LinesThen(t, chunks, "")
      {
        var requested := Min(t.fileSize - offset, chunkSize);
        var read := ReadTransfer(transfer, offset, requested);
        FoldSnoc(p, start, before + worlds, world);
        FileExport.AfterRead(t, chunks, crc, chunkSize, memory, world);
        assert before + (worlds + [world]) == (before + worlds) + [world];
        worlds := worlds + [world];
        if read.Failure? {
          Release(transfer);
          return Err(read.error), crc, chunks, worlds;
        }
        var data := read.result;
        if |data| != requested {
          Release(transfer);
          return Err(EIO), crc, chunks, worlds;
        }
        ghost var more := chunks + [Chunk(offset, data)];
        ConcatSnoc(chunks, Chunk(offset, data));
        crc := PrintChunk(t, offset, data, crc, chunks, old(out));
        chunks := more;
        offset := offset + |data|;
      }
      status := Ok;
    }

    /** `cmd_file_export`: the state and the text are those of the export program
        over the worlds this run sampled. */
    method CmdFileExport(instance: uint32) returns (status: Status)
      requires Valid() && depth == 0 && chunkSize > 0
      modifies this
      ensures CleanExit()
      ensures var p := FileExport.ExportProgram(chunkSize, Memory(old(allocations)));
        var e := p.Fold(FileExport.Opening(instance), seen[|old(seen)|..]);
        (e.Rejected? || e.Stopped?) && status == e.status && out == old(out) + ExportDocument.Output(e)
    {
      hide ExportDocument.HeaderThen, ExportDocument.LinesThen, ExportDocument.Footer;
      hide Capture, Program.Fold, Program.Advance, FileExport.ExportProgram;
      ghost var memory := Memory(allocations);
      ghost var p, start := FileExport.ExportProgram(chunkSize, memory), FileExport.Opening(instance);
      var transfer := new FileTransfer();
      status := Open(instance, transfer);
      FoldOne(p, start, world);
      FileExport.AfterCapture(instance, chunkSize, memory, world);
      ghost var first := [world];
      assert seen[|old(seen)|..] == first;
      if status != Ok {
        assert ExportDocument.Output(p.Fold(start, first)) == "";
        return;
      }
      status := ExportOpened(transfer, memory, start, first);
      assert seen[|old(seen)|..] == first + seen[|old(seen)| + 1..];
    }

    /** The rest of `cmd_file_export`, once the transfer is open. */
    method ExportOpened(transfer: FileTransfer, ghost memory: bool, ghost start: FileExport.Export, ghost before: seq<World>)
      returns (status: Status)
      requires Valid() && depth == 0 && chunkSize > 0
      requires transfer.Full() && transfer.Owned() <= live
      requires FileExport.ExportProgram(chunkSize, memory).Fold(start, before)
            == FileExport.Continue(transfer.Value(), [], Crc.ZEROS)
      modifies this`depth, this`world, this`turn, this`seen, this`out, this`live
      modifies transfer`pathname, transfer`name, transfer`mimeType
      ensures Valid() && depth == 0 && live == old(live) - old(transfer.Owned())
      ensures |seen| >= |old(seen)| && seen[..|old(seen)|] == old(seen)
      ensures var e := FileExport.ExportProgram(chunkSize, memory).Fold(start, before + seen[|old(seen)|..]);
        e.Stopped? && status == e.status && out == old(out) + ExportDocument.Output(e)
    {
      hide ExportDocument.HeaderThen, ExportDocument.LinesThen, ExportDocument.Footer, ExportDocument.Output;
      hide Program.Fold, FileExport.ExportProgram;
      ghost var t := transfer.Value();
      PrintHeader(transfer.Value());
      var crc;
      ghost var chunks, worlds;
      status, crc, chunks, worlds := CopyChunks(transfer, memory, start, before);
      assert seen[|old(seen)|..] == worlds;
      ExportDocument.OutputAppends(t, chunks, crc, status, old(out));
      if status == Ok {
        PrintFooter(crc);
        Release(transfer);
      }
    }

    // ----- dump -----

    /** The loop of `cmd_file_dump`, which stops at the first short read. */
    method DumpRows(transfer: FileTransfer, start: Offset31, total: nat,
                    ghost memory: bool, ghost initial: FileDump.Dump, ghost before: seq<World>)
      returns (status: Status, ghost rows: seq<Chunk>, ghost worlds: seq<World>)
      requires Valid() && depth == 0 && transfer.Full() && transfer.Owned() <= live
      requires FileDump.DumpProgram(memory).Fold(initial, before)
            == FileDump.Continue(transfer.Value(), start, [], total)
      modifies this`depth, this`world, this`turn, this`seen, this`out, this`live
      modifies transfer`pathname, transfer`name, transfer`mimeType
      ensures Valid() && depth == 0 && seen == old(seen) + worlds && live == old(live) - old(transfer.Owned())
      ensures FileDump.DumpProgram(memory).Fold(initial, before + worlds)
           == FileDump.Stopped(old(transfer.Value()), start, rows, status)
      ensures out == old(out) + FileDump.RowsText(rows)
    {
      hide TransferRead, Concat, Program.Fold, Program.Advance, FileDump.DumpProgram, FileDump.Row, FileDump.RowsText;
      hide FileTransfer.Value, FileTransfer.Owned;
      ghost var p := FileDump.DumpProgram(memory);
      ghost var t := transfer.Value();
      var offset: nat, remaining: nat := start, total;
      rows, worlds, status := [], [], Ok;
      assert before + [] == before;
      FileDump.RowsSnoc([], Chunk(0, []));
      while remaining > 0
        invariant Valid() && depth == 0 && transfer.Full() && transfer.Value() == t
        invariant live == old(live) && transfer.Owned() == old(transfer.Owned())
        invariant seen == old(seen) + worlds && status == Ok
        invariant offset == start + |Concat(rows)|
        invariant p.Fold(initial, before + worlds) == FileDump.Continue(t, start, rows, remaining)
        invariant out == old(out) + FileDump.RowsText(rows)
      {
        var requested := Min(remaining, FileDump.ROW);
        var read := ReadTransfer(transfer, offset, requested);
        FoldSnoc(p, initial, before + worlds, world);
        FileDump.AfterRead(t, start, rows, remaining, memory, world);
        ReadLength(t, world, offset, requested);
        assert before + (worlds + [world]) == (before + worlds) + [world];
        worlds := worlds + [world];
        if read.Failure? {
          Release(transfer);
          return Err(read.error), rows, worlds;
        }
        var data := read.result;
        if data == [] {
          break;
        }
        var line := FileDump.DumpLine(offset, data);
        FileDump.RowsSnoc(rows, Chunk(offset, data));
        Print(line);
        rows := rows + [Chunk(offset, data)];
        offset, remaining := offset + |data|, remaining - |data|;
        if |data| < requested {
          break;
        }
      }
      Release(transfer);
    }

    /** `cmd_file_dump` with its arguments parsed: the state and the text are those
        of the dump program over the worlds this run sampled. */
    method CmdFileDump(instance: uint32, start: Offset31, length: Option<uint32>) returns (status: Status)
      requires Valid() && depth == 0
      modifies this
      ensures CleanExit()
      ensures var p := FileDump.DumpProgram(Memory(old(allocations)));
        var d := p.Fold(FileDump.Opening(instance, start, length), seen[|old(seen)|..]);
        (d.Rejected? || d.Stopped?) && status == d.status && out == old(out) + FileDump.Output(d)
    {
      hide Capture, Program.Fold, Program.Advance, FileDump.DumpProgram, FileDump.RowsText;
      ghost var memory := Memory(allocations);
      ghost var p, initial := FileDump.DumpProgram(memory), FileDump.Opening(instance, start, length);
      var transfer := new FileTransfer();
      status := Open(instance, transfer);
      FoldOne(p, initial, world);
      FileDump.AfterCapture(instance, start, length, memory, world);
      ghost var first := [world];
      assert seen[|old(seen)|..] == first;
      if status != Ok {
        return;
      }
      if start > transfer.fileSize {
        Release(transfer);
        return Err(EINVAL);
      }
      var remaining;
      if length.None? {
        remaining := transfer.fileSize - start;
      } else if length.value > INT32_MAX - start {
        Release(transfer);
        return Err(EOVERFLOW);
      } else {
        remaining := length.value;
      }
      ghost var rows, worlds;
      status, rows, worlds := DumpRows(transfer, start, remaining, memory, initial, first);
      assert seen[|old(seen)|..] == first + worlds;
    }

    // ----- decode -----

    /** The second locked section of a pass: the object again, and the type. */
    method CheckRecordType(t: FileTransfer, objectType: uint32) returns (check: Result<bool>)
      requires Valid() && depth == 0 && t.Full()
      modifies this`depth, this`world, this`turn, this`seen
      ensures SampledOnce() && check == FileDecode.CheckType(t.Value(), world, objectType)
    {
      Lock();
      var status := Revalidate(t.Value(), world);
      check := if status == Ok then Success(objectType in world.supported) else Failure(status.errno);
      Unlock();
    }

    /** One pass of the loop of `cmd_file_decode`, up to its printing. */
    method NextRecord(transfer: FileTransfer, codec: FileDecode.Codec, window: nat, offset: nat, ghost memory: bool,
                      ghost initial: FileDecode.Decode, ghost before: seq<World>,
                      ghost records: seq<Piece<FileDecode.Request>>)
      returns (record: Result<Piece<FileDecode.Request>>, ghost worlds: seq<World>)
      requires Valid() && depth == 0 && transfer.Full() && offset < transfer.fileSize
      requires FileDecode.DecodeProgram(codec, window, memory).Fold(initial, before)
            == FileDecode.Continue(transfer.Value(), records, offset)
      modifies this`depth, this`world, this`turn, this`seen
      ensures depth == 0 && seen == old(seen) + worlds
      ensures FileDecode.DecodeProgram(codec, window, memory).Fold(initial, before + worlds)
        == match record
           case Failure(e) => FileDecode.Stopped(transfer.Value(), records, offset, Err(e))
           case Success(next) => FileDecode.Continue(transfer.Value(), records + [next], offset + next.length)
      ensures record.Success? ==>
        && 0 < record.result.length <= transfer.fileSize - offset
        && FileDecode.InitialValues(codec, record.result.item).Some?
    {
      hide TransferRead, Program.Fold, Program.Advance, FileDecode.DecodeProgram, FileDecode.CheckType;
      hide FileDecode.InitialValues;
      ghost var p, t := FileDecode.DecodeProgram(codec, window, memory), transfer.Value();
      var requested := Min(transfer.fileSize - offset, window);
      var read := ReadTransfer(transfer, offset, requested);
      worlds := [world];
      FoldSnoc(p, initial, before, world);
      FileDecode.AfterRead(codec, t, records, offset, window, memory, world);
      ReadLength(t, world, offset, requested);
      if read.Failure? {
        return Failure(read.error), worlds;
      }
      var apdu := read.result;
      if apdu == [] {
        return Failure(EIO), worlds;
      }
      var decoded := codec.request(apdu);
      if decoded.length <= 0 || decoded.length > |apdu| {
        return Failure(EBADMSG), worlds;
      }
      var next := Piece(offset, decoded.length, decoded.item);
      var check := CheckRecordType(transfer, next.item.objectType);
      FoldSnoc(p, initial, before + worlds, world);
      FileDecode.AfterCheck(codec, t, records, next, window, memory, world);
      assert before + (worlds + [world]) == (before + worlds) + [world];
      worlds := worlds + [world];
      if check.Failure? {
        return Failure(check.error), worlds;
      }
      if !check.result {
        return Failure(ENOTSUP), worlds;
      }
      var status := FileDecode.ValidateInitialValues(codec, next.item);
      if status != Ok {
        return Failure(status.errno), worlds;
      }
      return Success(next), worlds;
    }

    /** The loop of `cmd_file_decode`. */
    method DecodeRecords(transfer: FileTransfer, codec: FileDecode.Codec, names: DecodeText.Names,
                         window: nat, ghost memory: bool, ghost initial: FileDecode.Decode, ghost before: seq<World>)
      returns (status: Status, offset: nat, ghost records: seq<Piece<FileDecode.Request>>, ghost worlds: seq<World>)
      requires Valid() && depth == 0 && transfer.Full() && transfer.Owned() <= live
      requires FileDecode.DecodeProgram(codec, window, memory).Fold(initial, before)
            == FileDecode.Continue(transfer.Value(), [], 0)
      modifies this`depth, this`world, this`turn, this`seen, this`out, this`live
      modifies transfer`pathname, transfer`name, transfer`mimeType
      ensures Valid() && depth == 0 && seen == old(seen) + worlds && live == old(live) - old(transfer.Owned())
      ensures FileDecode.DecodeProgram(codec, window, memory).Fold(initial, before + worlds)
           == FileDecode.Stopped(old(transfer.Value()), records, offset, status)
      ensures out == old(out) + FileDecode.RecordsText(codec, names, records)
    {
      hide Program.Fold, FileDecode.DecodeProgram, FileTransfer.Value, FileTransfer.Owned;
      hide FileDecode.RecordText, FileDecode.RecordsText, FileDecode.InitialValues;
      ghost var p := FileDecode.DecodeProgram(codec, window, memory);
      ghost var t := transfer.Value();
      transfer.ValueFields();
      offset, records, worlds := 0, [], [];
      assert before + [] == before;
      FileDecode.RecordsSnoc(codec, names, [], Piece(0, 0, FileDecode.Request(0, 0, [], 0)));
      while offset < transfer.fileSize
        invariant Valid() && depth == 0 && transfer.Full() && transfer.Value() == t
        invariant live == old(live) && transfer.Owned() == old(transfer.Owned())
        invariant seen == old(seen) + worlds && offset <= t.fileSize == transfer.fileSize
        invariant p.Fold(initial, before + worlds) == FileDecode.Continue(t, records, offset)
        invariant out == old(out) + FileDecode.RecordsText(codec, names, records)
      {
        var record;
        ghost var more;
        record, more := NextRecord(transfer, codec, window, offset, memory, initial, before + worlds, records);
        assert before + (worlds + more) == (before + worlds) + more;
        worlds := worlds + more;
        if record.Failure? {
          Release(transfer);
          return Err(record.error), offset, records, worlds;
        }
        var next := record.result;
        var line := FileDecode.PrintRecord(codec, names, next);
        FileDecode.RecordsSnoc(codec, names, records, next);
        Print(line);
        records := records + [next];
        offset := offset + next.length;
      }
      Release(transfer);
      status := Ok;
    }

    /** `cmd_file_decode`: the state and the text are those of the decode program
        over the worlds this run sampled. */
    method CmdFileDecode(instance: uint32, codec: FileDecode.Codec, names: DecodeText.Names,
                         window: nat)
      returns (status: Status)
      requires Valid() && depth == 0
      modifies this
      ensures CleanExit()
      ensures var p := FileDecode.DecodeProgram(codec, window, Memory(old(allocations)));
        var d := p.Fold(FileDecode.Opening(instance), seen[|old(seen)|..]);
        (d.Rejected? || d.Stopped?) && status == d.status && out == old(out) + FileDecode.Output(codec, names, d)
    {
      hide FileDecode.BackupCapture, Program.Fold, Program.Advance, FileDecode.DecodeProgram, FileDecode.RecordsText;
      ghost var memory := Memory(allocations);
      ghost var p, initial := FileDecode.DecodeProgram(codec, window, memory), FileDecode.Opening(instance);
      var transfer := new FileTransfer();
      status := OpenBackup(instance, transfer);
      FoldOne(p, initial, world);
      FileDecode.AfterCapture(codec, instance, window, memory, world);
      ghost var first := [world];
      assert seen[|old(seen)|..] == first;
      if status != Ok {
        return;
      }
      var offset;
      ghost var records, worlds;
      status, offset, records, worlds :=
        DecodeRecords(transfer, codec, names, window, memory, initial, first);
      assert seen[|old(seen)|..] == first + worlds;
    }

    // ----- import -----

    /** `file_write_hex`; the caller holds the lock. */
    method FileWriteHex(instance: uint32, offset: Offset31, hex: string) returns (status: Status)
      requires depth > 0
      modifies this`world, this`out
      ensures (status, world) == FileImport.WriteHex(old(world), chunkSize, instance, offset, hex)
      ensures out == old(out) + FileImport.Reply(status, instance, offset, |hex| / 2)
    {
      hide Dec;
      if |hex| == 0 {
        return Err(EINVAL);
      }
      if |hex| > 2 * chunkSize {
        return Err(E2BIG);
      }
      if |hex| % 2 != 0 {
        return Err(EINVAL);
      }
      var data := Unhex(hex);
      if data.None? {
        return Err(EINVAL);
      }
      var pathname := Pathname(world, instance);
      if pathname.None? || pathname.value == "" {
        return Err(EINVAL);
      }
      if IsReadOnly(world, instance) {
        return Err(EPERM);
      }
      if !IsStream(world, instance) {
        return Err(ENOTSUP);
      }
      UnhexLength(hex);
      var (written, after) := WriteOffset(world, instance, offset, data.value);
      world := after;
      if written != |data.value| {
        return Err(EIO);
      }
      Print(DecodeText.ObjectText(DecodeText.More("instance", Dec(instance),
        DecodeText.More("offset", Dec(offset), DecodeText.Last("length", Dec(written))))) + "\n");
      return Ok;
    }

    /** `cmd_file_import` with one argument; the caller holds the lock. */
    method CmdFileImport(argument: string) returns (status: Status)
      requires depth > 0
      modifies this`world, this`out
      ensures (status, world) == FileImport.Import(old(world), chunkSize, argument)
      ensures out == old(out) + FileImport.ImportReply(old(world), chunkSize, argument)
    {
      hide FileImport.WriteHex, FileImport.TokenValue;
      var fields := FileImport.ParseFields(argument);
      if fields.None? {
        return Err(EINVAL);
      }
      var instanceOk, instance := FileImport.ParseUint32(Some(fields.value.instance));
      var offsetOk, offset := FileImport.ParseUint32(Some(fields.value.offset));
      if !instanceOk || !offsetOk {
        return Err(EINVAL);
      }
      if instance !in world.files {
        return Err(EINVAL);
      }
      if offset > INT32_MAX {
        return Err(EINVAL);
      }
      status := FileWriteHex(instance, offset, fields.value.data);
    }

    /** The locked handler that the shell registers for import: the write happens
        on the world found under the lock, and the lock ends where it began. */
    method CmdFileImportLocked(argument: string) returns (status: Status)
      modifies this`depth, this`world, this`turn, this`seen, this`out
      ensures depth == old(depth)
      ensures var found := if old(depth) == 0 then others(old(turn)) else old(world);
        (status, world) == FileImport.Import(found, chunkSize, argument)
        && out == old(out) + FileImport.ImportReply(found, chunkSize, argument)
    {
      Lock();
      status := CmdFileImport(argument);
      Unlock();
    }
  }

  lemma ReadLength(t: Transfer, w: World, offset: nat, requested: nat)
    ensures var read := TransferRead(t, w, offset, requested); read.Success? ==> |read.result| <= requested
  {
  }
}
