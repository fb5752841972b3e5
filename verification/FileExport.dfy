/** The file export command: a program over sampled worlds, so that it runs
    interleaved with other threads, and what it guarantees in every run. */
module FileExport {
  import opened Basics
  import opened FileWorld
  import opened Chunks
  import opened Crc32
  import opened Interleaving

  datatype Export =
    | Opening(instance: uint32)
    | Copying(transfer: Transfer, chunks: seq<Chunk>, crc: Register)
    | Rejected(status: Status)
    | Stopped(transfer: Transfer, chunks: seq<Chunk>, crc: Register, status: Status)

  /** The offset of the next chunk: how much has been copied. */
  function Offset(e: Export): nat
    requires e.Copying? || e.Stopped?
  {
    |Concat(e.chunks)|
  }

  function Requested(e: Export, chunkSize: nat): nat
    requires e.Copying?
  {
    if Offset(e) < e.transfer.fileSize then Min(e.transfer.fileSize - Offset(e), chunkSize) else 0
  }

  /** One pass under the lock: the first captures, the others read a chunk. */
  function SampleWorld(e: Export, chunkSize: nat, memory: bool, w: World): Sample {
    match e
    case Opening(instance) => Captured(Capture(w, instance, memory))
    case Copying(t, _, _) => Read(TransferRead(t, w, Offset(e), Requested(e, chunkSize)))
    case _ => Read(Success([]))
  }

  /** The loop guard: an export that has reached the captured size is done. */
  function Continue(t: Transfer, chunks: seq<Chunk>, crc: Register): Export {
    if |Concat(chunks)| < t.fileSize then Copying(t, chunks, crc) else Stopped(t, chunks, crc, Ok)
  }

  /** One pass after its read: a short read is an error. */
  function AfterPass(t: Transfer, chunks: seq<Chunk>, crc: Register, requested: nat, read: Result<seq<byte>>): Export {
    match read
    case Failure(error) => Stopped(t, chunks, crc, Err(error))
    case Success(data) =>
      if |data| != requested then Stopped(t, chunks, crc, Err(EIO))
      else Continue(t, chunks + [Chunk(|Concat(chunks)|, data)], Update(crc, data))
  }

  /** The rest of a pass, after the lock is dropped. */
  function Digest(e: Export, chunkSize: nat, s: Sample): Export {
    match (e, s)
    case (Opening(_), Captured(Failure(error))) => Rejected(Err(error))
    case (Opening(_), Captured(Success(t))) => Continue(t, [], ZEROS)
    case (Copying(t, chunks, crc), Read(read)) => AfterPass(t, chunks, crc, Requested(e, chunkSize), read)
    case _ => e
  }

  function ExportProgram(chunkSize: nat, memory: bool): Program<Export, World, Sample> {
    Program(
      (e: Export) => e.Rejected? || e.Stopped?,
      (e: Export, w: World) => SampleWorld(e, chunkSize, memory, w),
      (e: Export, s: Sample) => Digest(e, chunkSize, s))
  }

  lemma AfterCapture(instance: uint32, chunkSize: nat, memory: bool, w: World)
    ensures ExportProgram(chunkSize, memory).Advance(Opening(instance), w)
      == match Capture(w, instance, memory)
         case Failure(e) => Rejected(Err(e))
         case Success(t) => Continue(t, [], ZEROS)
  {
  }

  lemma AfterRead(t: Transfer, chunks: seq<Chunk>, crc: Register, chunkSize: nat, memory: bool, w: World)
    requires |Concat(chunks)| < t.fileSize
    ensures var n := Min(t.fileSize - |Concat(chunks)|, chunkSize);
      ExportProgram(chunkSize, memory).Advance(Continue(t, chunks, crc), w)
      == AfterPass(t, chunks, crc, n, TransferRead(t, w, |Concat(chunks)|, n))
  {
  }

  // ----- what every pass keeps -----

  ghost predicate ExportInv(instance: uint32, chunkSize: nat, worlds: seq<World>, e: Export) {
    match e
    case Opening(i) => worlds == [] && i == instance
    case Rejected(s) => worlds != [] && s != Ok
    case _ =>
      && worlds != []
      && CaptureCheck(worlds[0], instance) == Ok
      && e.transfer == Snapshot(worlds[0], instance)
      && Tiles(e.chunks, 0, chunkSize)
      && Provenance(e.transfer, e.chunks, worlds)
      && (e.Copying? ==> Offset(e) < e.transfer.fileSize)
      && (e.Stopped? ==> Offset(e) <= e.transfer.fileSize)
      && (e.Stopped? && e.status == Ok ==> Offset(e) == e.transfer.fileSize)
  }

  lemma CaptureKeepsInv(instance: uint32, chunkSize: nat, memory: bool, w: World)
    ensures ExportInv(instance, chunkSize, [w],
      Digest(Opening(instance), chunkSize, SampleWorld(Opening(instance), chunkSize, memory, w)))
  {
  }

  lemma ReadKeepsInv(instance: uint32, chunkSize: nat, memory: bool, worlds: seq<World>, e: Export, w: World)
    requires chunkSize > 0 && e.Copying? && ExportInv(instance, chunkSize, worlds, e)
    ensures ExportInv(instance, chunkSize, worlds + [w], Digest(e, chunkSize, SampleWorld(e, chunkSize, memory, w)))
  {
    hide Update, Tiles, Provenance, Concat, ReadFrom;
    var t, n := e.transfer, Requested(e, chunkSize);
    assert (worlds + [w])[0] == worlds[0];
    ProvenanceGrows(t, e.chunks, worlds, w);
    var read := TransferRead(t, w, Offset(e), n);
    if read.Success? && |read.result| == n {
      var c := Chunk(Offset(e), read.result);
      ReadFromHere(t, c, w, n);
      ChunkAppends(t, e.chunks, 0, chunkSize, c, worlds, w);
    }
  }

  /** Whatever worlds the passes sample, the invariant holds over them. */
  lemma {:induction false} FoldKeepsInv(instance: uint32, chunkSize: nat, memory: bool, worlds: seq<World>)
    requires chunkSize > 0
    ensures ExportInv(instance, chunkSize, worlds, ExportProgram(chunkSize, memory).Fold(Opening(instance), worlds))
    decreases |worlds|
  {
    hide Update;
    if worlds != [] {
      var front, w := worlds[..|worlds| - 1], worlds[|worlds| - 1];
      var e := ExportProgram(chunkSize, memory).Fold(Opening(instance), front);
      FoldKeepsInv(instance, chunkSize, memory, front);
      assert front + [w] == worlds;
      match e
      case Opening(_) => assert worlds == [w]; CaptureKeepsInv(instance, chunkSize, memory, w);
      case Copying(_, _, _) => ReadKeepsInv(instance, chunkSize, memory, front, e, w);
      case Rejected(_) =>
      case Stopped(t, chunks, _, _) => ProvenanceGrows(t, chunks, front, w);
    }
  }

  /** The running register has been fed exactly the bytes copied so far. */
  predicate CrcMatches(e: Export) {
    e.Copying? || e.Stopped? ==> e.crc == Update(ZEROS, Concat(e.chunks))
  }

  lemma DigestKeepsCrc(e: Export, chunkSize: nat, s: Sample)
    requires CrcMatches(e)
    ensures CrcMatches(Digest(e, chunkSize, s))
  {
    hide Update;
    if e.Opening? {
      UpdateNothing(ZEROS);
    } else if e.Copying? && s.Read? && s.read.Success? {
      ConcatSnoc(e.chunks, Chunk(Offset(e), s.read.result));
      UpdateSplits(ZEROS, Concat(e.chunks), s.read.result);
    }
  }

  lemma {:induction false} FoldKeepsCrc(instance: uint32, chunkSize: nat, memory: bool, worlds: seq<World>)
    ensures CrcMatches(ExportProgram(chunkSize, memory).Fold(Opening(instance), worlds))
    decreases |worlds|
  {
    hide Update;
    if worlds != [] {
      var p, front, w := ExportProgram(chunkSize, memory), worlds[..|worlds| - 1], worlds[|worlds| - 1];
      FoldKeepsCrc(instance, chunkSize, memory, front);
      var e := p.Fold(Opening(instance), front);
      DigestKeepsCrc(e, chunkSize, p.sample(e, w));
    }
  }

  /** What has been copied is a beginning of the file, and the running register
      is that beginning's CRC-32; a stop with 0 means the whole file. */
  predicate IsPrefixExport(e: Export, file: seq<byte>)
    requires e.Copying? || e.Stopped?
  {
    && e.transfer.fileSize == |file|
    && Concat(e.chunks) <= file
    && e.crc == Ieee(Concat(e.chunks))
    && (e.Stopped? && e.status == Ok ==> Concat(e.chunks) == file)
  }

  lemma FoldRefinesSnapshot(
      instance: uint32, chunkSize: nat, memory: bool, worlds: seq<World>, file: seq<byte>)
    requires chunkSize > 0
    requires var e := ExportProgram(chunkSize, memory).Fold(Opening(instance), worlds);
      (e.Copying? || e.Stopped?) && AllHold(worlds, e.transfer.pathname, file)
    ensures IsPrefixExport(ExportProgram(chunkSize, memory).Fold(Opening(instance), worlds), file)
  {
    hide Update, Ieee;
    var e := ExportProgram(chunkSize, memory).Fold(Opening(instance), worlds);
    FoldKeepsInv(instance, chunkSize, memory, worlds);
    FoldKeepsCrc(instance, chunkSize, memory, worlds);
    ChunksOfUnwrittenFile(e.transfer, e.chunks, 0, chunkSize, worlds, file);
    UpdateIsIeee(Concat(e.chunks));
  }

  // ----- every interleaving -----

  /** The chunk's bytes were the captured file's, in a world the command held
      the lock over. */
  ghost predicate ReadUnderLock(t: Transfer, c: Chunk, run: seq<Sys<Export, World, Sample>>, k: nat) {
    exists w :: HeldOver(run, k, w) && ReadFrom(t, c, w)
  }

  /** Whatever other threads do to the files between passes, the copied chunks
      tile a prefix of the captured size, each was read under the lock from the
      captured object, and returning 0 means the whole size is tiled. */
  lemma ExportTilesUnderInterference(
      instance: uint32, chunkSize: nat, memory: bool, run: seq<Sys<Export, World, Sample>>, k: nat)
    requires chunkSize > 0
    requires IsRun(ExportProgram(chunkSize, memory), Opening(instance), run) && k < |run|
    ensures var e := run[k].client;
      e.Copying? || e.Stopped? ==>
        && Tiles(e.chunks, 0, chunkSize)
        && |Concat(e.chunks)| <= e.transfer.fileSize
        && (e.Stopped? && e.status == Ok ==> |Concat(e.chunks)| == e.transfer.fileSize)
        && (forall i :: 0 <= i < |e.chunks| ==> ReadUnderLock(e.transfer, e.chunks[i], run, k))
  {
    hide Update;
    var p, e, worlds := ExportProgram(chunkSize, memory), run[k].client, Digested(run[k]);
    RunReduces(p, Opening(instance), run, k);
    FoldKeepsInv(instance, chunkSize, memory, worlds);
    SeenUnderLock(p, Opening(instance), run, k);
    if e.Copying? || e.Stopped? {
      forall i | 0 <= i < |e.chunks|
        ensures ReadUnderLock(e.transfer, e.chunks[i], run, k)
      {
        assert HasSource(e.transfer, e.chunks[i], worlds);
        var j :| 0 <= j < |worlds| && ReadFrom(e.transfer, e.chunks[i], worlds[j]);
        assert worlds[j] == run[k].seen[j];
        assert HeldOver(run, k, worlds[j]);
      }
    }
  }

  /** From the locked section that captures until state k, the file with this
      pathname has these bytes. */
  ghost predicate Unwritten(run: seq<Sys<Export, World, Sample>>, k: nat, pathname: Text, file: seq<byte>) {
    forall i :: 0 <= i < |run| && i <= k && (run[i].pc.Holding? || run[i].seen != [])
      ==> Content(run[i].world, pathname) == file
  }

  /** Snapshot refinement: while the captured file is not written after its capture
      (its object may still be renamed, re-created or deleted), what has been copied is the
      file's beginning and the running register is its CRC-32; a return of 0
      means the whole file at capture and its IEEE 802.3 CRC. */
  lemma ExportRefinesSnapshot(
      instance: uint32, chunkSize: nat, memory: bool, run: seq<Sys<Export, World, Sample>>, k: nat, file: seq<byte>)
    requires chunkSize > 0
    requires IsRun(ExportProgram(chunkSize, memory), Opening(instance), run) && k < |run|
    requires var e := run[k].client; e.Copying? || e.Stopped?
    requires Unwritten(run, k, run[k].client.transfer.pathname, file)
    ensures IsPrefixExport(run[k].client, file)
  {
    hide Update, Ieee;
    var worlds := Digested(run[k]);
    RunReduces(ExportProgram(chunkSize, memory), Opening(instance), run, k);
    SeenUnderLock(ExportProgram(chunkSize, memory), Opening(instance), run, k);
    forall j | 0 <= j < |worlds|
      ensures Content(worlds[j], run[k].client.transfer.pathname) == file
    {
      assert worlds[j] == run[k].seen[j];
      assert HeldOver(run, k, worlds[j]);
    }
    FoldRefinesSnapshot(instance, chunkSize, memory, worlds, file);
  }

  // ----- when an export succeeds, and when it stops -----

  /** Why a pass over this world stops an export at this offset, if it does: the
      captured object is gone or another, its file is past the limit, or it ends
      inside the chunk. */
  function StopReason(t: Transfer, offset: nat, chunkSize: nat, w: World): Option<Errno> {
    if ChangeReason(t, w).Some? then ChangeReason(t, w)
    else if |Content(w, t.pathname)| < Min(offset + chunkSize, t.fileSize) then Some(EIO)
    else None
  }

  /** One pass, in terms of the world it finds: it stops for a reason, or takes the
      next chunk whole, and the chunk that reaches the captured size is the
      last. */
  lemma PassOutcome(t: Transfer, chunks: seq<Chunk>, crc: Register, chunkSize: nat, memory: bool, w: World)
    requires |Concat(chunks)| < t.fileSize && chunkSize > 0
    ensures var offset := |Concat(chunks)|;
      var end := Min(offset + chunkSize, t.fileSize);
      var e := ExportProgram(chunkSize, memory).Advance(Copying(t, chunks, crc), w);
      var reason := StopReason(t, offset, chunkSize, w);
      && (reason.Some? ==> e == Stopped(t, chunks, crc, Err(reason.value)))
      && (reason.None? ==>
            && |Content(w, t.pathname)| >= end
            && var data := Content(w, t.pathname)[offset..end];
               var more := chunks + [Chunk(offset, data)];
               e == if end < t.fileSize then Copying(t, more, Update(crc, data))
                    else Stopped(t, more, Update(crc, data), Ok))
  {
    hide Update, ExportProgram, Program.Advance, Slice, TransferRead, Concat;
    var offset := |Concat(chunks)|;
    var n := Min(t.fileSize - offset, chunkSize);
    var content := Content(w, t.pathname);
    ReadIsFromTheCapturedFile(t, w, offset, n);
    SliceBytes(content, offset, n);
    AfterRead(t, chunks, crc, chunkSize, memory, w);
    if StopReason(t, offset, chunkSize, w).None? {
      var data := content[offset..offset + n];
      assert Slice(content, offset, n) == data;
      ConcatSnoc(chunks, Chunk(offset, data));
    }
  }

  /** An export of an object that stays and is not written, however it is
      scheduled, makes steady progress: after n reads it has copied n chunks, or
      the whole file, and then it has stopped with 0. It never fails. */
  lemma {:induction false} ExportProgress(
      instance: uint32, chunkSize: nat, worlds: seq<World>, pathname: Text, file: seq<byte>)
    requires chunkSize > 0 && worlds != []
    requires forall j :: 0 <= j < |worlds| ==> IsThere(worlds[j], instance, pathname, file)
    ensures var e := ExportProgram(chunkSize, true).Fold(Opening(instance), worlds);
      var copied := Min((|worlds| - 1) * chunkSize, |file|);
      && (e.Copying? || e.Stopped?)
      && e.transfer.instance == instance && e.transfer.pathname == pathname && e.transfer.fileSize == |file|
      && Concat(e.chunks) == file[..copied]
      && (e.Copying? <==> copied < |file|)
      && (e.Stopped? ==> e.status == Ok)
    decreases |worlds|
  {
    hide Update, Capture, Concat, IsThere, Program.Advance, Program.Fold, ExportProgram;
    var n := |worlds| - 1;
    var front, w := worlds[..n], worlds[n];
    var p := ExportProgram(chunkSize, true);
    assert front + [w] == worlds;
    FoldSnoc(p, Opening(instance), front, w);
    assert IsThere(w, instance, pathname, file);
    if n == 0 {
      assert worlds == [w];
      FoldOne(p, Opening(instance), w);
      FirstPass(instance, chunkSize, w, pathname, file);
    } else {
      ExportProgress(instance, chunkSize, front, pathname, file);
      var e := p.Fold(Opening(instance), front);
      assert n * chunkSize == (n - 1) * chunkSize + chunkSize;
      if e.Copying? {
        ProgressOnce(e, chunkSize, w, instance, pathname, file);
      } else {
        StoppedStays(e, chunkSize, true, w);
      }
    }
  }

  lemma FirstPass(instance: uint32, chunkSize: nat, w: World, pathname: Text, file: seq<byte>)
    requires IsThere(w, instance, pathname, file)
    ensures var e := ExportProgram(chunkSize, true).Advance(Opening(instance), w);
      && (e.Copying? || e.Stopped?)
      && e.transfer.instance == instance && e.transfer.pathname == pathname && e.transfer.fileSize == |file|
      && Concat(e.chunks) == [] && (e.Copying? <==> 0 < |file|) && (e.Stopped? ==> e.status == Ok)
  {
    hide Capture, IsThere, ExportProgram, Program.Advance;
    AfterCapture(instance, chunkSize, true, w);
    CapturedThere(w, instance, pathname, file);
  }

  lemma StoppedStays(e: Export, chunkSize: nat, memory: bool, w: World)
    requires e.Stopped? || e.Rejected?
    ensures ExportProgram(chunkSize, memory).Advance(e, w) == e
  {
  }

  lemma ProgressOnce(e: Export, chunkSize: nat, w: World, instance: uint32, pathname: Text, file: seq<byte>)
    requires chunkSize > 0 && e.Copying? && IsThere(w, instance, pathname, file)
    requires e.transfer.instance == instance && e.transfer.pathname == pathname && e.transfer.fileSize == |file|
    requires Offset(e) < |file| && Concat(e.chunks) == file[..Offset(e)]
    ensures var after := ExportProgram(chunkSize, true).Advance(e, w);
      var end := Min(Offset(e) + chunkSize, |file|);
      && (after.Copying? || after.Stopped?) && after.transfer == e.transfer && Concat(after.chunks) == file[..end]
      && (after.Copying? <==> end < |file|) && (after.Stopped? ==> after.status == Ok)
  {
    hide Update, Program.Advance, ExportProgram, Concat;
    PassOutcome(e.transfer, e.chunks, e.crc, chunkSize, true, w);
    var end := Min(Offset(e) + chunkSize, |file|);
    var c := Chunk(Offset(e), file[Offset(e)..end]);
    ConcatSnoc(e.chunks, c);
    assert file[..Offset(e)] + file[Offset(e)..end] == file[..end];
  }

  /** An export of an object that stays and is not written, in any run among other
      threads, is never refused and never stops with an error; and it has stopped
      with the whole file as soon as it has read often enough. */
  lemma UndisturbedExportSucceeds(
      instance: uint32, chunkSize: nat, run: seq<Sys<Export, World, Sample>>, k: nat, pathname: Text, file: seq<byte>)
    requires chunkSize > 0
    requires IsRun(ExportProgram(chunkSize, true), Opening(instance), run) && k < |run|
    requires forall i :: 0 <= i < k && run[i].pc.Holding? ==> IsThere(run[i].world, instance, pathname, file)
    ensures var e := run[k].client;
      && !e.Rejected? && (e.Stopped? ==> e.status == Ok && Concat(e.chunks) == file)
      && (Digested(run[k]) != [] && (|Digested(run[k])| - 1) * chunkSize >= |file| ==> e.Stopped?)
  {
    hide IsThere, ExportProgram, Concat;
    var p, worlds := ExportProgram(chunkSize, true), Digested(run[k]);
    RunReduces(p, Opening(instance), run, k);
    SeenUnderLock(p, Opening(instance), run, k);
    if worlds == [] {
      NothingHandled(instance, chunkSize);
    } else {
      forall j | 0 <= j < |worlds|
        ensures IsThere(worlds[j], instance, pathname, file)
      {
        assert worlds[j] == run[k].seen[j];
        assert HeldOver(run, k, worlds[j]);
      }
      ExportProgress(instance, chunkSize, worlds, pathname, file);
    }
  }

  lemma NothingHandled(instance: uint32, chunkSize: nat)
    ensures ExportProgram(chunkSize, true).Fold(Opening(instance), []) == Opening(instance)
  {
  }

  /** The pass over world j stops the export with this error. */
  predicate StopsAt(instance: uint32, chunkSize: nat, memory: bool, worlds: seq<World>, j: nat, error: Errno)
    requires j < |worlds|
  {
    var e := ExportProgram(chunkSize, memory).Fold(Opening(instance), worlds[..j]);
    e.Copying? && StopReason(e.transfer, Offset(e), chunkSize, worlds[j]) == Some(error)
  }

  /** Exactly when an export stops with an error: some pass found a reason. So EIO
      means a read inside the captured size that came up short, and nothing
      else. */
  lemma {:induction false} StopsExactly(
      instance: uint32, chunkSize: nat, memory: bool, worlds: seq<World>, error: Errno)
    requires chunkSize > 0
    ensures var e := ExportProgram(chunkSize, memory).Fold(Opening(instance), worlds);
      e.Stopped? && e.status == Err(error) <==>
      exists j: nat :: j < |worlds| && StopsAt(instance, chunkSize, memory, worlds, j, error)
    decreases |worlds|
  {
    hide Update, Capture, Program.Advance, StopReason, ExportProgram, Concat, StopsAt;
    var p := ExportProgram(chunkSize, memory);
    if worlds == [] {
      NothingHandledAtAll(instance, chunkSize, memory);
    } else {
      var n := |worlds| - 1;
      var front, w := worlds[..n], worlds[n];
      StopsExactly(instance, chunkSize, memory, front, error);
      FoldKeepsInv(instance, chunkSize, memory, front);
      var e := p.Fold(Opening(instance), front);
      LastPassStops(instance, chunkSize, memory, front, e, w, error);
      forall j: nat | j < n
        ensures StopsAt(instance, chunkSize, memory, front, j, error) <==> StopsAt(instance, chunkSize, memory, worlds, j, error)
      {
        EarlierPassStops(instance, chunkSize, memory, worlds, n, j, error);
      }
      assert StopsAt(instance, chunkSize, memory, worlds, n, error) <==>
             e.Copying? && StopReason(e.transfer, Offset(e), chunkSize, w) == Some(error) by { LastPassIs(instance, chunkSize, memory, worlds, error); }
    }
  }

  lemma EarlierPassStops(
      instance: uint32, chunkSize: nat, memory: bool, worlds: seq<World>, n: nat, j: nat, error: Errno)
    requires j < n <= |worlds|
    ensures StopsAt(instance, chunkSize, memory, worlds[..n], j, error) <==> StopsAt(instance, chunkSize, memory, worlds, j, error)
  {
    hide StopReason, Program.Fold, ExportProgram;
    assert worlds[..n][..j] == worlds[..j];
  }

  lemma LastPassIs(instance: uint32, chunkSize: nat, memory: bool, worlds: seq<World>, error: Errno)
    requires worlds != []
    ensures var n := |worlds| - 1;
      var e := ExportProgram(chunkSize, memory).Fold(Opening(instance), worlds[..n]);
      StopsAt(instance, chunkSize, memory, worlds, n, error) <==>
      e.Copying? && StopReason(e.transfer, Offset(e), chunkSize, worlds[n]) == Some(error)
  {
    hide StopReason, Program.Fold, ExportProgram;
  }

  lemma LastPassStops(
      instance: uint32, chunkSize: nat, memory: bool, front: seq<World>, e: Export, w: World, error: Errno)
    requires chunkSize > 0 && ExportInv(instance, chunkSize, front, e)
    ensures var after := ExportProgram(chunkSize, memory).Advance(e, w);
      after.Stopped? && after.status == Err(error) <==>
      ((e.Stopped? && e.status == Err(error))
       || (e.Copying? && StopReason(e.transfer, Offset(e), chunkSize, w) == Some(error)))
  {
    hide Update, Capture, Program.Advance, StopReason, ExportProgram, Concat, Tiles, Provenance, CaptureCheck;
    match e
    case Opening(i) => AfterCapture(i, chunkSize, memory, w);
    case Copying(t, chunks, crc) => PassOutcome(t, chunks, crc, chunkSize, memory, w);
    case _ => StoppedStays(e, chunkSize, memory, w);
  }

  lemma NothingHandledAtAll(instance: uint32, chunkSize: nat, memory: bool)
    ensures ExportProgram(chunkSize, memory).Fold(Opening(instance), []) == Opening(instance)
  {
  }

  /** Exactly when an export is refused: the capture failed, with its error. */
  lemma {:induction false} RefusedExactly(instance: uint32, chunkSize: nat, memory: bool, worlds: seq<World>)
    requires worlds != []
    ensures var e := ExportProgram(chunkSize, memory).Fold(Opening(instance), worlds);
      match Capture(worlds[0], instance, memory)
      case Failure(error) => e == Rejected(Err(error))
      case Success(t) => (e.Copying? || e.Stopped?) && e.transfer == t
    decreases |worlds|
  {
    hide Update, Capture, ExportProgram, Program.Advance, Program.Fold;
    var n := |worlds| - 1;
    var front, w := worlds[..n], worlds[n];
    var p := ExportProgram(chunkSize, memory);
    assert front + [w] == worlds;
    FoldSnoc(p, Opening(instance), front, w);
    if n == 0 {
      assert worlds == [w];
      FoldOne(p, Opening(instance), w);
      AfterCapture(instance, chunkSize, memory, w);
    } else {
      RefusedExactly(instance, chunkSize, memory, front);
      LaterPassKeeps(p.Fold(Opening(instance), front), chunkSize, memory, w);
    }
  }

  lemma LaterPassKeeps(e: Export, chunkSize: nat, memory: bool, w: World)
    requires !e.Opening?
    ensures var after := ExportProgram(chunkSize, memory).Advance(e, w);
      if e.Rejected? then after == e else (after.Copying? || after.Stopped?) && after.transfer == e.transfer
  {
    hide Update, TransferRead, Capture;
  }

  /** Passes left, at most. */
  function Rank(e: Export): nat {
    match e
    case Opening(_) => INT32_MAX + 2
    case Copying(t, chunks, _) => if Offset(e) < t.fileSize then 1 + t.fileSize - Offset(e) else 1
    case _ => 0
  }

  lemma PassLowersRank(chunkSize: nat, memory: bool, e: Export, w: World)
    requires chunkSize > 0 && (e.Opening? || e.Copying?)
    ensures Rank(Digest(e, chunkSize, SampleWorld(e, chunkSize, memory, w))) < Rank(e)
  {
  }

  /** However the other threads run, an export makes a bounded number of
      passes: one to capture and at most one a byte. */
  lemma ExportTerminates(
      instance: uint32, chunkSize: nat, memory: bool, run: seq<Sys<Export, World, Sample>>, k: nat)
    requires chunkSize > 0
    requires IsRun(ExportProgram(chunkSize, memory), Opening(instance), run) && k < |run|
    ensures |Digested(run[k])| <= INT32_MAX + 2
  {
    hide Update;
    var p := ExportProgram(chunkSize, memory);
    forall e: Export, w: World | !p.finished(e)
      ensures Rank(p.Advance(e, w)) < Rank(e)
    {
      PassLowersRank(chunkSize, memory, e, w);
    }
    PassesAreBounded(p, Opening(instance), Rank, run, k);
  }
}
