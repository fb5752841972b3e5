/** The file dump command: its passes over sampled worlds, the rows it prints,
    and what a fixed-column reader recovers from them. */
module FileDump {
  import opened Basics
  import opened Numerals
  import opened FileWorld
  import opened Chunks
  import opened Interleaving

  const ROW := 16

  datatype Dump =
    | Opening(instance: uint32, start: Offset31, length: Option<uint32>)
    | Dumping(transfer: Transfer, start: Offset31, rows: seq<Chunk>, remaining: nat)
    | Rejected(status: Status)
    | Stopped(transfer: Transfer, start: Offset31, rows: seq<Chunk>, status: Status)

  function SampleWorld(d: Dump, memory: bool, w: World): Sample {
    match d
    case Opening(instance, _, _) => Captured(Capture(w, instance, memory))
    case Dumping(t, start, rows, remaining) =>
      Read(TransferRead(t, w, start + |Concat(rows)|, Min(remaining, ROW)))
    case _ => Read(Success([]))
  }

  function Continue(t: Transfer, start: Offset31, rows: seq<Chunk>, remaining: nat): Dump {
    if remaining > 0 then Dumping(t, start, rows, remaining) else Stopped(t, start, rows, Ok)
  }

  /** How many bytes a dump is to print, or why it refuses. */
  function Total(fileSize: Offset31, start: Offset31, length: Option<uint32>): Result<nat> {
    if start > fileSize then Failure(EINVAL)
    else
      match length
      case None => Success(fileSize - start)
      case Some(n) => if n > INT32_MAX - start then Failure(EOVERFLOW) else Success(n)
  }

  /** The argument checks after the capture. */
  function Begin(t: Transfer, start: Offset31, length: Option<uint32>): Dump {
    match Total(t.fileSize, start, length)
    case Failure(error) => Rejected(Err(error))
    case Success(total) => Continue(t, start, [], total)
  }

  /** One pass after its read: a short row is the last. */
  function AfterPass(t: Transfer, start: Offset31, rows: seq<Chunk>, remaining: nat, read: Result<seq<byte>>): Dump {
    match read
    case Failure(error) => Stopped(t, start, rows, Err(error))
    case Success(data) =>
      if data == [] then Stopped(t, start, rows, Ok)
      else
        var more := rows + [Chunk(start + |Concat(rows)|, data)];
        if |data| < Min(remaining, ROW) then Stopped(t, start, more, Ok)
        else Continue(t, start, more, if |data| <= remaining then remaining - |data| else 0)
  }

  function Digest(d: Dump, s: Sample): Dump {
    match (d, s)
    case (Opening(_, _, _), Captured(Failure(error))) => Rejected(Err(error))
    case (Opening(_, start, length), Captured(Success(t))) => Begin(t, start, length)
    case (Dumping(t, start, rows, remaining), Read(read)) => AfterPass(t, start, rows, remaining, read)
    case _ => d
  }

  function DumpProgram(memory: bool): Program<Dump, World, Sample> {
    Program(
      (d: Dump) => d.Rejected? || d.Stopped?,
      (d: Dump, w: World) => SampleWorld(d, memory, w),
      (d: Dump, s: Sample) => Digest(d, s))
  }

  lemma AfterCapture(instance: uint32, start: Offset31, length: Option<uint32>, memory: bool, w: World)
    ensures DumpProgram(memory).Advance(Opening(instance, start, length), w)
      == match Capture(w, instance, memory)
         case Failure(error) => Rejected(Err(error))
         case Success(t) => Begin(t, start, length)
  {
  }

  lemma AfterRead(t: Transfer, start: Offset31, rows: seq<Chunk>, remaining: nat, memory: bool, w: World)
    requires remaining > 0
    ensures DumpProgram(memory).Advance(Continue(t, start, rows, remaining), w)
      == AfterPass(t, start, rows, remaining, TransferRead(t, w, start + |Concat(rows)|, Min(remaining, ROW)))
  {
    hide TransferRead, AfterPass, Capture;
  }

  // ----- what every pass keeps -----

  /** The rows so far tile from `start`, were read from the captured object, and
      together with what remains make up the requested range, which never passes
      the 31-bit offset limit. A stop with 0 has printed the whole range unless
      a read came up short. */
  ghost predicate DumpInv(start: Offset31, length: Option<uint32>, instance: uint32, worlds: seq<World>, d: Dump) {
    match d
    case Opening(i, s, l) => worlds == [] && i == instance && s == start && l == length
    case Rejected(s) => worlds != [] && s != Ok
    case _ =>
      && worlds != []
      && CaptureCheck(worlds[0], instance) == Ok
      && d.transfer == Snapshot(worlds[0], instance)
      && d.start == start
      && Tiles(d.rows, start, ROW)
      && Provenance(d.transfer, d.rows, worlds)
      && Total(d.transfer.fileSize, start, length).Success?
      && (var total := Total(d.transfer.fileSize, start, length).result;
          && start + total <= INT32_MAX
          && (d.Dumping? ==> 0 < d.remaining && |Concat(d.rows)| + d.remaining == total)
          && (d.Stopped? ==> |Concat(d.rows)| <= total)
          && (d.Stopped? && d.status == Ok ==>
                |Concat(d.rows)| == total || CutShort(d.transfer, d.rows, start, worlds)))
  }

  /** In some sampled world the captured file ends where the rows end. */
  ghost predicate CutShort(t: Transfer, rows: seq<Chunk>, start: nat, worlds: seq<World>) {
    exists j :: 0 <= j < |worlds| && |Content(worlds[j], t.pathname)| <= start + |Concat(rows)|
  }

  lemma CutShortGrows(t: Transfer, rows: seq<Chunk>, start: nat, worlds: seq<World>, w: World)
    requires CutShort(t, rows, start, worlds)
    ensures CutShort(t, rows, start, worlds + [w])
  {
    var j :| 0 <= j < |worlds| && |Content(worlds[j], t.pathname)| <= start + |Concat(rows)|;
    assert (worlds + [w])[j] == worlds[j];
  }

  lemma ShortRead(t: Transfer, w: World, offset: nat, requested: nat, data: seq<byte>)
    requires TransferRead(t, w, offset, requested) == Success(data)
    ensures |data| <= requested
    ensures |data| < requested ==> |Content(w, t.pathname)| <= offset + |data|
    ensures forall c: Chunk :: c == Chunk(offset, data) && data != [] ==> ReadFrom(t, c, w)
  {
  }

  lemma ReadKeepsInv(
      start: Offset31, length: Option<uint32>, instance: uint32, memory: bool, worlds: seq<World>, d: Dump, w: World)
    requires d.Dumping? && DumpInv(start, length, instance, worlds, d)
    ensures DumpInv(start, length, instance, worlds + [w], Digest(d, SampleWorld(d, memory, w)))
  {
    hide Tiles, Provenance, Concat, ReadFrom, TransferRead, Total;
    var t, offset, n := d.transfer, start + |Concat(d.rows)|, Min(d.remaining, ROW);
    var all := worlds + [w];
    assert all[0] == worlds[0] && all[|worlds|] == w;
    ProvenanceGrows(t, d.rows, worlds, w);
    var read := TransferRead(t, w, offset, n);
    if read.Success? {
      ShortRead(t, w, offset, n, read.result);
      if read.result != [] {
        ChunkAppends(t, d.rows, start, ROW, Chunk(offset, read.result), worlds, w);
      }
    }
  }

  lemma CaptureKeepsInv(start: Offset31, length: Option<uint32>, instance: uint32, memory: bool, w: World)
    ensures DumpInv(start, length, instance, [w],
      Digest(Opening(instance, start, length), SampleWorld(Opening(instance, start, length), memory, w)))
  {
  }

  /** For all arguments and whatever worlds the passes sample. */
  lemma {:induction false} FoldKeepsInv(
      start: Offset31, length: Option<uint32>, instance: uint32, memory: bool, worlds: seq<World>)
    ensures DumpInv(start, length, instance, worlds,
      DumpProgram(memory).Fold(Opening(instance, start, length), worlds))
    decreases |worlds|
  {
    if worlds != [] {
      var front, w := worlds[..|worlds| - 1], worlds[|worlds| - 1];
      var d := DumpProgram(memory).Fold(Opening(instance, start, length), front);
      FoldKeepsInv(start, length, instance, memory, front);
      assert front + [w] == worlds;
      if d.Opening? {
        assert worlds == [w];
        CaptureKeepsInv(start, length, instance, memory, w);
      } else if d.Dumping? {
        ReadKeepsInv(start, length, instance, memory, front, d, w);
      } else if d.Stopped? {
        StoppedKeepsInv(start, length, instance, front, d, w);
      }
    }
  }

  lemma StoppedKeepsInv(
      start: Offset31, length: Option<uint32>, instance: uint32, worlds: seq<World>, d: Dump, w: World)
    requires d.Stopped? && DumpInv(start, length, instance, worlds, d)
    ensures DumpInv(start, length, instance, worlds + [w], d)
  {
    hide Tiles, Provenance, CutShort;
    var total := Total(d.transfer.fileSize, start, length).result;
    assert (worlds + [w])[0] == worlds[0];
    ProvenanceGrows(d.transfer, d.rows, worlds, w);
    if d.status == Ok && |Concat(d.rows)| != total {
      CutShortGrows(d.transfer, d.rows, start, worlds, w);
    }
  }

  /** While the captured file is not written, a dump that returns 0 has printed
      exactly the requested range, cut at end of file. */
  lemma DumpPrintsTheRange(
      start: Offset31, length: Option<uint32>, instance: uint32, memory: bool, worlds: seq<World>, file: seq<byte>)
    requires var d := DumpProgram(memory).Fold(Opening(instance, start, length), worlds);
      d.Stopped? && d.status == Ok && AllHold(worlds, d.transfer.pathname, file)
    ensures var d := DumpProgram(memory).Fold(Opening(instance, start, length), worlds);
      && Tiles(d.rows, start, ROW)
      && start <= |file| && d.transfer.fileSize == |file|
      && Concat(d.rows) == file[start..(match length case None => |file| case Some(n) => Min(start + n, |file|))]
  {
    hide Tiles, Provenance, Concat, Digest, SampleWorld, DumpProgram;
    var d := DumpProgram(memory).Fold(Opening(instance, start, length), worlds);
    FoldKeepsInv(start, length, instance, memory, worlds);
    assert Content(worlds[0], d.transfer.pathname) == file;
    ChunksOfUnwrittenFile(d.transfer, d.rows, start, ROW, worlds, file);
    var total := Total(d.transfer.fileSize, start, length).result;
    if |Concat(d.rows)| != total {
      assert CutShort(d.transfer, d.rows, start, worlds);
    }
  }

  // ----- when a dump is accepted, and when it stops -----

  /** Exactly which ranges are refused: one that starts behind the end of the file,
      and one whose end passes the offset limit. */
  lemma RangeOutcome(t: Transfer, start: Offset31, length: Option<uint32>)
    ensures Begin(t, start, length) ==
      if start > t.fileSize then Rejected(Err(EINVAL))
      else if length.Some? && start + length.value > INT32_MAX then Rejected(Err(EOVERFLOW))
      else
        var total := if length.Some? then length.value else t.fileSize - start;
        if total == 0 then Stopped(t, start, [], Ok) else Dumping(t, start, [], total)
  {
  }

  /** One pass, in terms of the world it finds: it stops for a reason, or takes as
      much of the next row as the file still has, and goes on exactly when that
      row is whole and more is asked. */
  lemma PassOutcome(t: Transfer, start: Offset31, rows: seq<Chunk>, remaining: nat, memory: bool, w: World)
    requires remaining > 0
    ensures var offset := start + |Concat(rows)|;
      var content := Content(w, t.pathname);
      var end := Min(offset + Min(remaining, 16), |content|);
      var d := DumpProgram(memory).Advance(Dumping(t, start, rows, remaining), w);
      var reason := ChangeReason(t, w);
      && (reason.Some? ==> d == Stopped(t, start, rows, Err(reason.value)))
      && (reason.None? && offset >= |content| ==> d == Stopped(t, start, rows, Ok))
      && (reason.None? && offset < |content| ==>
            var more := rows + [Chunk(offset, content[offset..end])];
            d == if end == offset + 16 && remaining > 16 then Dumping(t, start, more, remaining - 16)
                 else Stopped(t, start, more, Ok))
  {
    hide DumpProgram, Program.Advance, Slice, TransferRead, Concat;
    var offset, n := start + |Concat(rows)|, Min(remaining, ROW);
    var content := Content(w, t.pathname);
    ReadIsFromTheCapturedFile(t, w, offset, n);
    SliceBytes(content, offset, n);
    AfterRead(t, start, rows, remaining, memory, w);
    if ChangeReason(t, w).None? && offset < |content| {
      assert Slice(content, offset, n) == content[offset..Min(offset + n, |content|)];
    }
  }

  /** The end of the range that can be printed. */
  function RangeEnd(start: Offset31, length: Option<uint32>, size: nat): nat {
    if length.Some? then Min(start + length.value, size) else size
  }

  lemma StoppedStays(d: Dump, memory: bool, w: World)
    requires d.Stopped? || d.Rejected?
    ensures DumpProgram(memory).Advance(d, w) == d
  {
  }

  /** The state of a dump that has printed up to `end`, of a file with these bytes. */
  predicate IsDumped(d: Dump, instance: uint32, pathname: Text, file: seq<byte>, start: Offset31, end: nat, left: int) {
    && (d.Dumping? || d.Stopped?)
    && d.transfer.instance == instance && d.transfer.pathname == pathname && d.start == start
    && start <= end <= |file| && Concat(d.rows) == file[start..end]
    && (d.Dumping? ==> d.remaining == left)
    && (d.Stopped? ==> d.status == Ok)
  }

  /** A dump of an object that stays and is not written makes steady progress: after
      n done it has printed n rows, or the range cut at the end of file. It is
      never refused or stopped with an error, and it stops as soon as the range
      or the file is exceeded. */
  lemma {:induction false} DumpProgress(
      start: Offset31, length: Option<uint32>, instance: uint32, worlds: seq<World>, pathname: Text, file: seq<byte>)
    requires worlds != [] && start <= |file| && (length.Some? ==> start + length.value <= INT32_MAX)
    requires forall j :: 0 <= j < |worlds| ==> IsThere(worlds[j], instance, pathname, file)
    ensures var d := DumpProgram(true).Fold(Opening(instance, start, length), worlds);
      var done := 16 * (|worlds| - 1);
      var total := if length.Some? then length.value else |file| - start;
      && IsDumped(d, instance, pathname, file, start, Min(start + done, RangeEnd(start, length, |file|)), total - done)
      && (d.Stopped? <==> done >= total || start + done > |file|)
    decreases |worlds|
  {
    hide Capture, Concat, IsThere, Program.Advance, Program.Fold, DumpProgram;
    var n := |worlds| - 1;
    var front, w := worlds[..n], worlds[n];
    var p, initial := DumpProgram(true), Opening(instance, start, length);
    assert front + [w] == worlds;
    FoldSnoc(p, initial, front, w);
    assert IsThere(w, instance, pathname, file);
    if n == 0 {
      assert worlds == [w];
      FoldOne(p, initial, w);
      FirstPass(start, length, instance, w, pathname, file);
    } else {
      DumpProgress(start, length, instance, front, pathname, file);
      var d := p.Fold(initial, front);
      if d.Dumping? {
        var total: nat := if length.Some? then length.value else |file| - start;
        ProgressOnce(d, start, total, instance, w, pathname, file, 16 * (n - 1));
      } else {
        StoppedStays(d, true, w);
      }
    }
  }

  lemma FirstPass(
      start: Offset31, length: Option<uint32>, instance: uint32, w: World, pathname: Text, file: seq<byte>)
    requires start <= |file| && (length.Some? ==> start + length.value <= INT32_MAX)
    requires IsThere(w, instance, pathname, file)
    ensures var d := DumpProgram(true).Advance(Opening(instance, start, length), w);
      var total := if length.Some? then length.value else |file| - start;
      IsDumped(d, instance, pathname, file, start, start, total) && (d.Stopped? <==> total == 0)
  {
    hide Capture, IsThere, DumpProgram, Program.Advance, Begin;
    AfterCapture(instance, start, length, true, w);
    CapturedThere(w, instance, pathname, file);
    RangeOutcome(Capture(w, instance, true).result, start, length);
    assert file[start..start] == [];
  }

  lemma ProgressOnce(d: Dump, start: Offset31, total: nat, instance: uint32, w: World, pathname: Text,
                     file: seq<byte>, done: nat)
    requires d.Dumping? && IsThere(w, instance, pathname, file)
    requires done < total && start + done <= |file|
    requires IsDumped(d, instance, pathname, file, start, start + done, total - done)
    ensures var after := DumpProgram(true).Advance(d, w);
      var next := done + 16;
      && IsDumped(after, instance, pathname, file, start, Min(start + next, Min(start + total, |file|)), total - next)
      && (after.Stopped? <==> next >= total || start + next > |file|)
  {
    hide DumpProgram, Program.Advance, Concat, IsThere, ChangeReason, IsDumped;
    DumpedSoFar(d, instance, pathname, file, start, done, total);
    ThereIsNoReason(d.transfer, w, pathname, file);
    PassOutcome(d.transfer, start, d.rows, total - done, true, w);
    RowTaken(d, start, total, instance, pathname, file, done);
  }

  lemma DumpedSoFar(d: Dump, instance: uint32, pathname: Text, file: seq<byte>, start: Offset31, done: nat, total: nat)
    requires d.Dumping? && done < total && start + done <= |file|
    requires IsDumped(d, instance, pathname, file, start, start + done, total - done)
    ensures |Concat(d.rows)| == done && d.start == start && d.remaining == total - done
    ensures d.transfer.instance == instance && d.transfer.pathname == pathname
  {
    hide Concat;
  }

  lemma ThereIsNoReason(t: Transfer, w: World, pathname: Text, file: seq<byte>)
    requires IsThere(w, t.instance, pathname, file) && t.pathname == pathname
    ensures ChangeReason(t, w) == None && Content(w, t.pathname) == file
  {
  }

  lemma RowTaken(d: Dump, start: Offset31, total: nat, instance: uint32, pathname: Text, file: seq<byte>, done: nat)
    requires d.Dumping? && done < total && start + done <= |file|
    requires IsDumped(d, instance, pathname, file, start, start + done, total - done)
    ensures var offset := start + done;
      var left := total - done - 16;
      var end := Min(offset + 16, Min(start + total, |file|));
      var more := d.rows + [Chunk(offset, file[offset..end])];
      && (left > 0 ==> IsDumped(Dumping(d.transfer, start, more, left), instance, pathname, file, start, end, left))
      && IsDumped(Stopped(d.transfer, start, more, Ok), instance, pathname, file, start, end, left)
      && (offset == |file| ==>
            IsDumped(Stopped(d.transfer, start, d.rows, Ok), instance, pathname, file, start, end, left))
  {
    hide Concat, IsThere;
    var offset := start + done;
    var end := Min(offset + 16, Min(start + total, |file|));
    assert start <= offset <= end <= |file|;
    ConcatSnoc(d.rows, Chunk(offset, file[offset..end]));
    SlicesJoin(file, start, offset, end);
  }

  lemma SlicesJoin(file: seq<byte>, a: nat, b: nat, c: nat)
    requires a <= b <= c <= |file|
    ensures file[a..b] + file[b..c] == file[a..c]
  {
  }

  /** A dump of an object that stays and is not written, in any run among other
      threads: with a range that is not refused it never fails, and it has
      printed the range, cut at the end of file, when it stops. */
  lemma UndisturbedDumpSucceeds(
      start: Offset31, length: Option<uint32>, instance: uint32, run: seq<Sys<Dump, World, Sample>>, k: nat,
      pathname: Text, file: seq<byte>)
    requires IsRun(DumpProgram(true), Opening(instance, start, length), run) && k < |run|
    requires start <= |file| && (length.Some? ==> start + length.value <= INT32_MAX)
    requires forall i :: 0 <= i < k && run[i].pc.Holding? ==> IsThere(run[i].world, instance, pathname, file)
    ensures var d := run[k].client;
      && !d.Rejected?
      && (d.Stopped? ==> d.status == Ok && Concat(d.rows) == file[start..RangeEnd(start, length, |file|)])
      && (Digested(run[k]) != [] && start + 16 * (|Digested(run[k])| - 1) > |file| ==> d.Stopped?)
  {
    hide IsThere, DumpProgram, Concat;
    var p, initial, worlds := DumpProgram(true), Opening(instance, start, length), Digested(run[k]);
    RunReduces(p, initial, run, k);
    SeenUnderLock(p, initial, run, k);
    if worlds == [] {
      NothingHandled(initial);
    } else {
      forall j | 0 <= j < |worlds|
        ensures IsThere(worlds[j], instance, pathname, file)
      {
        assert worlds[j] == run[k].seen[j];
        assert HeldOver(run, k, worlds[j]);
      }
      DumpProgress(start, length, instance, worlds, pathname, file);
    }
  }

  lemma NothingHandled(initial: Dump)
    ensures DumpProgram(true).Fold(initial, []) == initial
  {
  }

  /** Exactly when a dump is refused: the capture failed, or the range is refused. */
  lemma {:induction false} RefusedExactly(
      start: Offset31, length: Option<uint32>, instance: uint32, memory: bool, worlds: seq<World>)
    requires worlds != []
    ensures var d := DumpProgram(memory).Fold(Opening(instance, start, length), worlds);
      match Capture(worlds[0], instance, memory)
      case Failure(error) => d == Rejected(Err(error))
      case Success(t) =>
        if Begin(t, start, length).Rejected? then d == Begin(t, start, length)
        else (d.Dumping? || d.Stopped?) && d.transfer == t
    decreases |worlds|
  {
    hide Capture, DumpProgram, Program.Advance, Program.Fold, Total;
    var n := |worlds| - 1;
    var front, w := worlds[..n], worlds[n];
    var p, initial := DumpProgram(memory), Opening(instance, start, length);
    assert front + [w] == worlds;
    FoldSnoc(p, initial, front, w);
    if n == 0 {
      assert worlds == [w];
      FoldOne(p, initial, w);
      AfterCapture(instance, start, length, memory, w);
    } else {
      RefusedExactly(start, length, instance, memory, front);
      LaterPassKeeps(p.Fold(initial, front), memory, w);
    }
  }

  lemma LaterPassKeeps(d: Dump, memory: bool, w: World)
    requires !d.Opening?
    ensures var after := DumpProgram(memory).Advance(d, w);
      if d.Rejected? then after == d else (after.Dumping? || after.Stopped?) && after.transfer == d.transfer
  {
    hide TransferRead, Capture;
  }

  // ----- rows -----

  /** Two hexadecimal digits, or two blanks past the end of the row. */
  function Cell(data: seq<byte>, k: nat): (text: string)
    ensures |text| == 2
  {
    if k < |data| then HexByte(data[k]) else "  "
  }

  /** The cells of two columns and the blanks after them, one more in the middle
      of the row. */
  function Pair(data: seq<byte>, index: nat): (text: string)
    ensures |text| == if index == 6 then 6 else 5
  {
    Cell(data, index) + (Cell(data, index + 1) + (if index == 6 then "  " else " "))
  }

  function Cells(data: seq<byte>, index: nat): string
    decreases ROW - index
  {
    if index >= ROW then "" else Pair(data, index) + Cells(data, index + 2)
  }

  function Printable(data: seq<byte>, k: nat): char {
    if k < |data| && 0x20 <= data[k] <= 0x7e then data[k] as char else '.'
  }

  function Ascii(data: seq<byte>, index: nat): string
    decreases ROW - index
  {
    if index >= ROW then "" else [Printable(data, index)] + Ascii(data, index + 1)
  }

  function Row(c: Chunk): string {
    HexFixed(c.offset, 8) + (": " + (Cells(c.data, 0) + (" |" + (Ascii(c.data, 0) + "|\n"))))
  }

  lemma CellsStep(data: seq<byte>, index: nat, before: string)
    requires index < ROW
    ensures (before + Pair(data, index)) + Cells(data, index + 2) == before + Cells(data, index)
  {
  }

  lemma AsciiStep(data: seq<byte>, index: nat, before: string)
    requires index < ROW
    ensures (before + [Printable(data, index)]) + Ascii(data, index + 1) == before + Ascii(data, index)
  {
  }

  /** `file_dump_line` */
  method DumpLine(offset: nat, data: seq<byte>) returns (text: string)
    ensures text == Row(Chunk(offset, data))
  {
    hide Cells, Ascii, HexByte, HexFixed;
    var cells, ascii, index := "", "", 0;
    while index < ROW
      invariant 0 <= index <= ROW && index % 2 == 0
      invariant cells + Cells(data, index) == Cells(data, 0)
    {
      var first := if index < |data| then HexByte(data[index]) else "  ";
      var second := if index + 1 < |data| then HexByte(data[index + 1]) else "  ";
      var gap := if index == 6 then "  " else " ";
      CellsStep(data, index, cells);
      cells := cells + (first + (second + gap));
      index := index + 2;
    }
    NothingAfterRow(data);
    assert cells == Cells(data, 0);
    index := 0;
    while index < ROW
      invariant 0 <= index <= ROW
      invariant ascii + Ascii(data, index) == Ascii(data, 0)
    {
      AsciiStep(data, index, ascii);
      ascii := ascii + [if index < |data| && 0x20 <= data[index] <= 0x7e then data[index] as char else '.'];
      index := index + 1;
    }
    assert ascii == Ascii(data, 0);
    text := HexFixed(offset, 8) + (": " + (cells + (" |" + (ascii + "|\n"))));
  }

  lemma NothingAfterRow(data: seq<byte>)
    ensures Cells(data, ROW) == "" && Ascii(data, ROW) == ""
  {
  }

  // ----- a fixed-column reader -----

  /** The column of byte k in a row. */
  function Column(k: nat): nat {
    10 + 5 * (k / 2) + 2 * (k % 2) + (if k >= 8 then 1 else 0)
  }

  function ByteAt(row: string, k: nat): Option<byte> {
    if Column(k) + 2 > |row| then None
    else
      match (NibbleValue(row[Column(k)]), NibbleValue(row[Column(k) + 1]))
      case (Some(h), Some(l)) => if h < 16 && l < 16 then Some(16 * h + l) else None
      case _ => None
  }

  /** The bytes from column k on, up to the first blank cell. */
  function BytesFrom(row: string, k: nat): seq<byte>
    decreases ROW - k
  {
    if k >= ROW then []
    else
      match ByteAt(row, k)
      case Some(b) => [b] + BytesFrom(row, k + 1)
      case None => []
  }

  function ReadRow(row: string): Option<Chunk> {
    if |row| < 8 then None
    else
      match HexValue(row[..8])
      case Some(offset) => Some(Chunk(offset, BytesFrom(row, 0)))
      case None => None
  }

  lemma ColumnStep(index: nat)
    requires index % 2 == 0
    ensures Column(index + 1) == Column(index) + 2
    ensures Column(index + 2) == Column(index) + (if index == 6 then 6 else 5)
  {
  }

  lemma {:induction false} CellsLength(data: seq<byte>, index: nat)
    requires index % 2 == 0 && index <= ROW
    ensures |Cells(data, index)| == Column(ROW) - Column(index)
    decreases ROW - index
  {
    if index < ROW {
      hide Column;
      ColumnStep(index);
      CellsLength(data, index + 2);
    }
  }

  lemma FirstColumn()
    ensures Column(0) == 10
  {
  }

  /** Where the cell of byte k stands in the text of the cells. */
  predicate CellAt(text: string, at: int, cell: string)
    requires |cell| == 2
  {
    0 <= at && at + 2 <= |text| && text[at] == cell[0] && text[at + 1] == cell[1]
  }

  lemma CellShifted(before: string, text: string, at: int, cell: string)
    requires |cell| == 2 && CellAt(text, at, cell)
    ensures CellAt(before + text, |before| + at, cell)
  {
  }

  lemma CellsInPair(data: seq<byte>, index: nat, tail: string)
    ensures CellAt(Pair(data, index) + tail, 0, Cell(data, index))
    ensures CellAt(Pair(data, index) + tail, 2, Cell(data, index + 1))
  {
  }

  lemma {:induction false} CellAtColumn(data: seq<byte>, index: nat, k: nat)
    requires index % 2 == 0 && index <= k < ROW
    ensures CellAt(Cells(data, index), Column(k) - Column(index), Cell(data, k))
    decreases ROW - index
  {
    hide Column, Pair, Cell, CellAt;
    ColumnStep(index);
    if k >= index + 2 {
      CellAtColumn(data, index + 2, k);
      CellShifted(Pair(data, index), Cells(data, index + 2), Column(k) - Column(index + 2), Cell(data, k));
    } else {
      CellsInPair(data, index, Cells(data, index + 2));
    }
  }

  lemma EightDigits(n: nat)
    requires n <= INT32_MAX
    ensures |HexFixed(n, 8)| == 8 && HexValue(HexFixed(n, 8)) == Some(n)
  {
    assert Pow16(4) == 65536;
    assert Pow16(8) == 0x1_0000_0000;
    HexFixedRoundTrip(n, 8);
  }

  lemma CellReads(data: seq<byte>, k: nat)
    ensures k < |data| ==> NibbleValue(Cell(data, k)[0]) == Some(data[k] / 16)
    ensures k < |data| ==> NibbleValue(Cell(data, k)[1]) == Some(data[k] % 16)
    ensures k >= |data| ==> NibbleValue(Cell(data, k)[0]) == None
  {
  }

  lemma ByteAtColumn(c: Chunk, k: nat)
    requires c.offset <= INT32_MAX && |c.data| <= ROW && k < ROW
    ensures ByteAt(Row(c), k) == if k < |c.data| then Some(c.data[k]) else None
  {
    hide Cells, Cell, Ascii, HexFixed, Column, NibbleValue;
    EightDigits(c.offset);
    CellAtColumn(c.data, 0, k);
    CellReads(c.data, k);
    FirstColumn();
    var tail := " |" + (Ascii(c.data, 0) + "|\n");
    var head := HexFixed(c.offset, 8) + ": ";
    assert Row(c) == head + (Cells(c.data, 0) + tail);
    var at := Column(k) - 10;
    assert Row(c)[10 + at] == Cells(c.data, 0)[at];
    assert Row(c)[10 + at + 1] == Cells(c.data, 0)[at + 1];
  }

  lemma {:induction false} BytesFromRow(c: Chunk, k: nat)
    requires c.offset <= INT32_MAX && k <= |c.data| <= ROW
    ensures BytesFrom(Row(c), k) == c.data[k..]
    decreases ROW - k
  {
    hide Row, ByteAt;
    if k < ROW {
      ByteAtColumn(c, k);
      if k < |c.data| { BytesFromRow(c, k + 1); }
    }
  }

  /** A fixed-column reader recovers each row's offset, length and bytes. */
  lemma RowRoundTrip(c: Chunk)
    requires c.offset <= INT32_MAX && |c.data| <= ROW
    ensures ReadRow(Row(c)) == Some(c)
  {
    hide HexFixed, Cells, Ascii;
    EightDigits(c.offset);
    assert Row(c)[..8] == HexFixed(c.offset, 8);
    BytesFromRow(c, 0);
  }

  lemma {:induction false} AsciiAt(data: seq<byte>, index: nat, k: nat)
    requires index <= k < 16
    ensures |Ascii(data, index)| == 16 - index && Ascii(data, index)[k - index] == Printable(data, k)
    decreases 16 - index
  {
    if index < k {
      AsciiAt(data, index + 1, k);
    } else {
      AsciiLength(data, index);
    }
  }

  lemma {:induction false} AsciiLength(data: seq<byte>, index: nat)
    requires index <= 16
    ensures |Ascii(data, index)| == 16 - index
    decreases 16 - index
  {
    if index < 16 { AsciiLength(data, index + 1); }
  }

  /** The layout of a row: 71 characters, and in column 53 + k the k-th byte itself
      where it can be printed, and a point where it cannot or there is none. */
  lemma AsciiColumn(c: Chunk, k: nat)
    requires c.offset <= INT32_MAX && |c.data| <= 16 && k < 16
    ensures |Row(c)| == 71 && Row(c)[8..10] == ": " && Row(c)[51..53] == " |" && Row(c)[69..] == "|\n"
    ensures Row(c)[53 + k] == if k < |c.data| && 32 <= c.data[k] <= 126 then c.data[k] as char else '.'
  {
    hide Cells, Ascii, HexFixed;
    EightDigits(c.offset);
    CellsLength(c.data, 0);
    AsciiAt(c.data, 0, k);
    AsciiLength(c.data, 0);
    assert Column(16) - Column(0) == 41;
  }

  // ----- the text of a dump -----

  function RowsText(rows: seq<Chunk>): string {
    if rows == [] then "" else RowsText(rows[..|rows| - 1]) + Row(rows[|rows| - 1])
  }

  lemma RowsSnoc(rows: seq<Chunk>, c: Chunk)
    ensures RowsText([]) == "" && Concat([]) == []
    ensures RowsText(rows + [c]) == RowsText(rows) + Row(c)
    ensures Concat(rows + [c]) == Concat(rows) + c.data
  {
    hide Row;
    assert (rows + [c])[..|rows|] == rows;
  }

  function Output(d: Dump): string {
    if d.Dumping? || d.Stopped? then RowsText(d.rows) else ""
  }

  /** Passes left, at most. */
  function Rank(d: Dump): nat {
    match d
    case Opening(_, _, _) => INT32_MAX + 2
    case Dumping(_, _, _, remaining) => 1 + remaining
    case _ => 0
  }

  /** However the other threads run, a dump makes a bounded number of passes. */
  lemma DumpTerminates(
      start: Offset31, length: Option<uint32>, instance: uint32, memory: bool,
      run: seq<Sys<Dump, World, Sample>>, k: nat)
    requires IsRun(DumpProgram(memory), Opening(instance, start, length), run) && k < |run|
    ensures |Digested(run[k])| <= INT32_MAX + 2
  {
    var p := DumpProgram(memory);
    forall d: Dump, w: World | !p.finished(d)
      ensures Rank(p.Advance(d, w)) < Rank(d)
    {
    }
    PassesAreBounded(p, Opening(instance, start, length), Rank, run, k);
  }

  /** In every run among other threads, the rows are as for the worlds the dump
      sampled while it held the lock. */
  lemma DumpUnderInterference(
      start: Offset31, length: Option<uint32>, instance: uint32, memory: bool,
      run: seq<Sys<Dump, World, Sample>>, k: nat)
    requires IsRun(DumpProgram(memory), Opening(instance, start, length), run) && k < |run|
    ensures DumpInv(start, length, instance, Digested(run[k]), run[k].client)
    ensures forall j :: 0 <= j < |run[k].seen| ==> HeldOver(run, k, run[k].seen[j])
  {
    var p := DumpProgram(memory);
    RunReduces(p, Opening(instance, start, length), run, k);
    FoldKeepsInv(start, length, instance, memory, Digested(run[k]));
    SeenUnderLock(p, Opening(instance, start, length), run, k);
  }
}
