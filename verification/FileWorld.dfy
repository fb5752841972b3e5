/** The File objects and the files behind them, as the bacfile library presents
    them to the shell, and the transfer snapshot taken under the task lock. */
module FileWorld {
  import opened Basics

  datatype FileObject = FileObject(
    pathname: Option<Text>, name: Option<Text>, mimeType: Option<Text>, stream: bool, readOnly: bool)

  /** Everything the task lock protects here: the File objects, file contents by
      pathname, how many bytes the backend takes in one write where it does not
      take them all, the Device's configuration files and the object types it
      supports. */
  datatype World = World(
    files: map<uint32, FileObject>,
    disk: map<Text, seq<byte>>,
    room: map<Text, nat>,
    configured: set<uint32>,
    supported: set<uint32>)

  function Pathname(w: World, instance: uint32): Option<Text> {
    if instance in w.files then w.files[instance].pathname else None
  }

  predicate IsStream(w: World, instance: uint32) {
    instance in w.files && w.files[instance].stream
  }

  predicate IsReadOnly(w: World, instance: uint32) {
    instance in w.files && w.files[instance].readOnly
  }

  function Content(w: World, pathname: Text): seq<byte> {
    if pathname in w.disk then w.disk[pathname] else []
  }

  function FileSize(w: World, instance: uint32): nat {
    match Pathname(w, instance)
    case Some(p) => |Content(w, p)|
    case None => 0
  }

  /** The bytes of a file from an offset, at most `requested`, cut at its end. */
  function Slice(content: seq<byte>, offset: nat, requested: nat): (data: seq<byte>)
    ensures |data| <= requested
  {
    if offset >= |content| then [] else content[offset..Min(offset + requested, |content|)]
  }

  /** `bacfile_read_offset` */
  function ReadOffset(w: World, instance: uint32, offset: nat, requested: nat): (data: seq<byte>)
    ensures |data| <= requested
  {
    match Pathname(w, instance)
    case Some(p) => Slice(Content(w, p), offset, requested)
    case None => []
  }

  function Zeros(n: nat): (z: seq<byte>)
    ensures |z| == n
  {
    if n == 0 then [] else [0] + Zeros(n - 1)
  }

  /** Data written over a file at an offset; a gap reads as zeros. */
  function Overlay(content: seq<byte>, offset: nat, data: seq<byte>): seq<byte> {
    var before := if offset <= |content| then content[..offset] else content + Zeros(offset - |content|);
    var after := if offset + |data| < |content| then content[offset + |data|..] else [];
    before + data + after
  }

  /** `bacfile_write_offset`: how many bytes the backend took, from the front, and
      the world afterwards. */
  function WriteOffset(w: World, instance: uint32, offset: nat, data: seq<byte>): (nat, World) {
    match Pathname(w, instance)
    case None => (0, w)
    case Some(p) =>
      var taken := if p in w.room then Min(|data|, w.room[p]) else |data|;
      if taken == 0 then (0, w)
      else (taken, w.(disk := w.disk[p := Overlay(Content(w, p), offset, data[..taken])]))
  }

  // ----- the transfer snapshot -----

  type Offset31 = n: int | 0 <= n <= INT32_MAX

  datatype Transfer = Transfer(
    instance: uint32, fileSize: Offset31, readOnly: bool, pathname: Text, name: Text, mimeType: Text)

  /** The checks `file_transfer_capture` makes before it allocates. */
  function CaptureCheck(w: World, instance: uint32): Status {
    if instance !in w.files then Err(ENOENT)
    else if Pathname(w, instance).None? || Pathname(w, instance).value == "" then Err(EINVAL)
    else if !IsStream(w, instance) then Err(ENOTSUP)
    else if FileSize(w, instance) > INT32_MAX then Err(EOVERFLOW)
    else Ok
  }

  function OrEmpty(s: Option<Text>): Text {
    match s
    case Some(text) => text
    case None => ""
  }

  function Snapshot(w: World, instance: uint32): Transfer
    requires CaptureCheck(w, instance) == Ok
  {
    var f := w.files[instance];
    Transfer(instance, FileSize(w, instance), f.readOnly, f.pathname.value, OrEmpty(f.name), OrEmpty(f.mimeType))
  }

  /** `file_transfer_capture`; `memory` says whether its three allocations
      succeed. */
  function Capture(w: World, instance: uint32, memory: bool): Result<Transfer> {
    match CaptureCheck(w, instance)
    case Err(e) => Failure(e)
    case Ok => if memory then Success(Snapshot(w, instance)) else Failure(ENOMEM)
  }

  /** `file_transfer_revalidate` */
  function Revalidate(t: Transfer, w: World): Status {
    if t.instance !in w.files then Err(ENOENT)
    else if Pathname(w, t.instance) != Some(t.pathname) then Err(ENOENT)
    else if !IsStream(w, t.instance) then Err(ENOENT)
    else if FileSize(w, t.instance) > INT32_MAX then Err(EOVERFLOW)
    else Ok
  }

  /** What `file_transfer_read` obtains while it holds the lock. */
  function TransferRead(t: Transfer, w: World, offset: nat, requested: nat): Result<seq<byte>> {
    match Revalidate(t, w)
    case Err(e) => Failure(e)
    case Ok => Success(ReadOffset(w, t.instance, offset, requested))
  }

  /** What one section under the lock obtains: the snapshot, a chunk, or (for
      decode) whether the object type of a record is supported. */
  datatype Sample =
    | Captured(capture: Result<Transfer>)
    | Read(read: Result<seq<byte>>)
    | Checked(check: Result<bool>)

  /** What a capture finds, check by check: the first that fails decides the error,
      and a snapshot holds the object's own fields, empty texts for null. */
  lemma CaptureOutcome(w: World, instance: uint32, memory: bool)
    ensures Capture(w, instance, memory) ==
      if instance !in w.files then Failure(ENOENT)
      else
        var f := w.files[instance];
        if f.pathname.None? || f.pathname.value == "" then Failure(EINVAL)
        else if !f.stream then Failure(ENOTSUP)
        else if |Content(w, f.pathname.value)| > INT32_MAX then Failure(EOVERFLOW)
        else if !memory then Failure(ENOMEM)
        else Success(Transfer(instance, |Content(w, f.pathname.value)|, f.readOnly, f.pathname.value,
                      if f.name.Some? then f.name.value else "",
                      if f.mimeType.Some? then f.mimeType.value else ""))
  {
  }

  /** A read that succeeds found the captured object: present, stream access,
      under the captured pathname. It returned that file's bytes. A failed one
      found another object or none, or the file grown past the limit. */
  lemma ReadIsFromTheCapturedFile(t: Transfer, w: World, offset: nat, requested: nat)
    ensures var r := TransferRead(t, w, offset, requested);
      r.Success? <==>
        && t.instance in w.files && w.files[t.instance].stream
        && w.files[t.instance].pathname == Some(t.pathname)
        && |Content(w, t.pathname)| <= INT32_MAX
    ensures var r := TransferRead(t, w, offset, requested);
      r.Success? ==> r.result == Slice(Content(w, t.pathname), offset, requested)
    ensures var r := TransferRead(t, w, offset, requested);
      r.Failure? ==>
        r.error == if t.instance in w.files && w.files[t.instance].stream
                      && w.files[t.instance].pathname == Some(t.pathname) then EOVERFLOW else ENOENT
  {
  }

  /** Why the captured object is not there any more, if it is not: gone or another,
      or its file past the limit. */
  function ChangeReason(t: Transfer, w: World): Option<Errno> {
    if !(t.instance in w.files && w.files[t.instance].stream && w.files[t.instance].pathname == Some(t.pathname))
    then Some(ENOENT)
    else if |Content(w, t.pathname)| > INT32_MAX then Some(EOVERFLOW)
    else None
  }

  /** A slice has as many of the requested bytes as the file still has, each from
      its place. */
  lemma SliceBytes(content: seq<byte>, offset: nat, requested: nat)
    ensures var data := Slice(content, offset, requested);
      && |data| == (if offset >= |content| then 0 else Min(requested, |content| - offset))
      && forall i :: 0 <= i < |data| ==> data[i] == content[offset + i]
  {
  }

  /** Writing over a file: the data at its place, everything else as it was, and
      zeros between. */
  lemma OverlayBytes(content: seq<byte>, offset: nat, data: seq<byte>)
    ensures var after := Overlay(content, offset, data);
      && |after| == (if |content| > offset + |data| then |content| else offset + |data|)
      && forall i :: 0 <= i < |after| ==>
           after[i] == if offset <= i < offset + |data| then data[i - offset]
                       else if i < |content| then content[i] else 0
  {
    if offset > |content| { ZerosAreZero(offset - |content|); }
  }

  lemma {:induction false} ZerosAreZero(n: nat)
    ensures forall i :: 0 <= i < n ==> Zeros(n)[i] == 0
  {
    if n > 0 { ZerosAreZero(n - 1); }
  }

  /** A write overlays what the backend took of the data, all of it unless it has no
      room, and touches nothing else. */
  lemma WriteTouchesOneFile(w: World, instance: uint32, offset: nat, data: seq<byte>)
    requires instance in w.files && w.files[instance].pathname.Some?
    ensures var (taken, after) := WriteOffset(w, instance, offset, data);
      var p := w.files[instance].pathname.value;
      && taken == (if p in w.room && w.room[p] < |data| then w.room[p] else |data|)
      && (taken == 0 ==> after == w)
      && (taken > 0 ==> after == w.(disk := w.disk[p := Overlay(Content(w, p), offset, data[..taken])]))
  {
  }

  /** Writing data at the end of a file appends it. */
  lemma OverlayAtEnd(content: seq<byte>, data: seq<byte>)
    ensures Overlay(content, |content|, data) == content + data
  {
  }

  /** The object is there to be captured, and its file has these bytes. */
  predicate IsThere(w: World, instance: uint32, pathname: Text, file: seq<byte>) {
    && instance in w.files && w.files[instance].stream && w.files[instance].pathname == Some(pathname)
    && pathname != "" && Content(w, pathname) == file && |file| <= INT32_MAX
  }

  lemma CapturedThere(w: World, instance: uint32, pathname: Text, file: seq<byte>)
    requires IsThere(w, instance, pathname, file)
    ensures var c := Capture(w, instance, true);
      c.Success? && c.result.instance == instance && c.result.pathname == pathname && c.result.fileSize == |file|
  {
    CaptureOutcome(w, instance, true);
  }
}
