/** The file import command: parsing one exported chunk entry and writing its
    bytes, and the law that importing every entry of an export rebuilds the
    exported file. */
module FileImport {
  import opened Basics
  import opened Numerals
  import opened Json
  import opened DecodeText
  import opened FileWorld
  import opened Chunks
  import opened FileExport
  import opened ExportDocument

  // ----- unsigned 32-bit tokens -----

  /** One to ten digits, of a number that fits 32 bits. */
  predicate IsUint32(s: string) {
    1 <= |s| <= 10 && (forall i :: 0 <= i < |s| ==> '0' <= s[i] <= '9') && DecValue(s) <= 4_294_967_295
  }

  /** The number a token stands for, when it is one to ten digits and fits. */
  function TokenValue(token: Option<string>): Option<uint32> {
    match token
    case None => None
    case Some(s) =>
      if 1 <= |s| <= 10 && AllDigits(s) && DecValue(s) <= UINT32_MAX then Some(DecValue(s)) else None
  }

  /** `file_import_uint32_parse`, with 32-bit arithmetic that would wrap. It
      accepts exactly the tokens of one to ten digits with a value of at most
      2^32 - 1, and no step wraps. */
  method ParseUint32(token: Option<string>) returns (ok: bool, value: uint32)
    ensures ok <==> token.Some? && IsUint32(token.value)
    ensures ok ==> value == DecValue(token.value)
    ensures if ok then TokenValue(token) == Some(value) else TokenValue(token) == None
  {
    ok, value := false, 0;
    if token.None? || |token.value| == 0 || |token.value| > 10 {
      return;
    }
    var s := token.value;
    var parsed: uint32 := 0;
    var index := 0;
    while index < |s|
      invariant 0 <= index <= |s|
      invariant AllDigits(s[..index]) && parsed == DecValue(s[..index])
    {
      if s[index] < '0' || s[index] > '9' {
        assert !IsDigit(s[index]);
        return;
      }
      OneDigitMore(s, index);
      var digit := s[index] as int - '0' as int;
      FitsBeforeMultiplying(parsed, digit);
      if parsed > (UINT32_MAX - digit) / 10 {
        if AllDigits(s) { DecValuePrefix(s, index + 1); }
        return;
      }
      parsed := (parsed * 10 + digit) % 0x1_0000_0000;
      index := index + 1;
    }
    assert s[..|s|] == s;
    ok, value := true, parsed;
  }

  lemma OneDigitMore(s: string, index: nat)
    requires index < |s| && AllDigits(s[..index]) && IsDigit(s[index])
    ensures AllDigits(s[..index + 1])
    ensures DecValue(s[..index + 1]) == 10 * DecValue(s[..index]) + (s[index] as int - '0' as int)
  {
    assert s[..index + 1][..index] == s[..index];
  }

  lemma FitsBeforeMultiplying(parsed: nat, digit: nat)
    requires digit < 10
    ensures parsed > (UINT32_MAX - digit) / 10 <==> parsed * 10 + digit > UINT32_MAX
  {
  }

  // ----- one import command -----

  /** What `json_obj_parse` stores for the three described fields: number tokens
      as text, and a string. A field that is absent or of the wrong type makes
      the command fail. */
  datatype Fields = Fields(instance: string, offset: string, data: string)

  function ParseFields(text: string): Option<Fields> {
    match ReadText(text)
    case Some(Object(members)) =>
      (match (Lookup(members, "instance"), Lookup(members, "offset"), Lookup(members, "data"))
       case (Some(Numeral(i)), Some(Numeral(o)), Some(String(d))) => Some(Fields(i, o, d))
       case _ => None)
    case _ => None
  }

  /** The checks and the write of `file_write_hex`. */
  function WriteHex(w: World, chunkSize: nat, instance: uint32, offset: Offset31, hex: string): (Status, World) {
    if hex == "" then (Err(EINVAL), w)
    else if |hex| > 2 * chunkSize then (Err(E2BIG), w)
    else if |hex| % 2 != 0 then (Err(EINVAL), w)
    else
      match Unhex(hex)
      case None => (Err(EINVAL), w)
      case Some(data) =>
        if Pathname(w, instance).None? || Pathname(w, instance).value == "" then (Err(EINVAL), w)
        else if IsReadOnly(w, instance) then (Err(EPERM), w)
        else if !IsStream(w, instance) then (Err(ENOTSUP), w)
        else
          var (written, after) := WriteOffset(w, instance, offset, data);
          (if written == |data| then Ok else Err(EIO), after)
  }

  /** What a successful write prints. */
  function Reply(status: Status, instance: uint32, offset: nat, length: nat): string {
    if status != Ok then ""
    else
      ObjectText(More("instance", Dec(instance), More("offset", Dec(offset), Last("length", Dec(length))))) + "\n"
  }

  /** `cmd_file_import` with one argument. */
  function Import(w: World, chunkSize: nat, argument: string): (Status, World) {
    match ParseFields(argument)
    case None => (Err(EINVAL), w)
    case Some(fields) =>
      match (TokenValue(Some(fields.instance)), TokenValue(Some(fields.offset)))
      case (Some(instance), Some(offset)) =>
        if instance !in w.files then (Err(EINVAL), w)
        else if offset > INT32_MAX then (Err(EINVAL), w)
        else WriteHex(w, chunkSize, instance, offset, fields.data)
      case _ => (Err(EINVAL), w)
  }

  /** What an import prints: the reply of the write, if there is one and it
      succeeds. */
  function ImportReply(w: World, chunkSize: nat, argument: string): string {
    match ParseFields(argument)
    case None => ""
    case Some(fields) =>
      match (TokenValue(Some(fields.instance)), TokenValue(Some(fields.offset)))
      case (Some(instance), Some(offset)) =>
        Reply(Import(w, chunkSize, argument).0, instance, offset, |fields.data| / 2)
      case _ => ""
  }

  /** The object accepts imports: stream access, writable, with a pathname whose
      backend takes writes. */
  predicate Accepts(w: World, instance: uint32) {
    && instance in w.files && IsStream(w, instance) && !IsReadOnly(w, instance)
    && Pathname(w, instance).Some? && Pathname(w, instance).value != ""
    && Pathname(w, instance).value !in w.room
  }

  // ----- exactly what is accepted -----

  /** Two to twice the chunk size of hexadecimal digits, in pairs. */
  predicate IsHexData(hex: string, chunkSize: nat) {
    2 <= |hex| <= 2 * chunkSize && |hex| % 2 == 0 && forall i :: 0 <= i < |hex| ==> IsHexDigit(hex[i])
  }

  /** The object the number names exists, with stream access, a pathname, and not
      read-only. */
  predicate IsWritable(w: World, instance: nat) {
    && instance in w.files && w.files[instance].stream && !w.files[instance].readOnly
    && w.files[instance].pathname.Some? && w.files[instance].pathname.value != ""
  }

  /** An import that gets as far as the write. */
  predicate IsAcceptable(w: World, chunkSize: nat, f: Fields) {
    && IsUint32(f.instance) && IsUint32(f.offset) && DecValue(f.offset) <= 2_147_483_647
    && IsWritable(w, DecValue(f.instance)) && IsHexData(f.data, chunkSize)
  }

  /** Why an import that is not acceptable is refused, by the first check that
      fails. */
  function Refusal(w: World, chunkSize: nat, f: Fields): Errno {
    if !(IsUint32(f.instance) && IsUint32(f.offset)) then EINVAL
    else if DecValue(f.instance) !in w.files || DecValue(f.offset) > 2_147_483_647 || f.data == "" then EINVAL
    else if |f.data| > 2 * chunkSize then E2BIG
    else if |f.data| % 2 != 0 || exists i :: 0 <= i < |f.data| && !IsHexDigit(f.data[i]) then EINVAL
    else
      var o := w.files[DecValue(f.instance)];
      if o.pathname.None? || o.pathname.value == "" then EINVAL
      else if o.readOnly then EPERM
      else ENOTSUP
  }

  /** How many of the bytes the backend takes. */
  function Taken(w: World, pathname: Text, length: nat): nat {
    if pathname in w.room && w.room[pathname] < length then w.room[pathname] else length
  }

  lemma TokenIs(s: string)
    ensures TokenValue(Some(s)) == if IsUint32(s) then Some(DecValue(s)) else None
  {
  }

  lemma WriteOutcome(w: World, chunkSize: nat, instance: uint32, offset: Offset31, hex: string)
    requires IsWritable(w, instance) && IsHexData(hex, chunkSize)
    ensures Unhex(hex).Some? && 2 * |Unhex(hex).value| == |hex|
    ensures var (status, after) := WriteHex(w, chunkSize, instance, offset, hex);
      var data, pathname := Unhex(hex).value, w.files[instance].pathname.value;
      var taken := Taken(w, pathname, |data|);
      && status == (if taken == |data| then Ok else Err(EIO))
      && after == if taken == 0 then w
                  else w.(disk := w.disk[pathname := Overlay(Content(w, pathname), offset, data[..taken])])
  {
    hide Unhex, Overlay, WriteOffset;
    UnhexAccepts(hex);
    UnhexLength(hex);
    WriteTouchesOneFile(w, instance, offset, Unhex(hex).value);
  }

  lemma WriteRefused(w: World, chunkSize: nat, f: Fields)
    requires IsUint32(f.instance) && IsUint32(f.offset) && DecValue(f.offset) <= 2_147_483_647
    requires DecValue(f.instance) in w.files && !IsAcceptable(w, chunkSize, f)
    ensures WriteHex(w, chunkSize, DecValue(f.instance), DecValue(f.offset), f.data)
         == (Err(Refusal(w, chunkSize, f)), w)
  {
    hide Unhex, WriteOffset, DecValue;
    UnhexAccepts(f.data);
  }

  /** What an import does, for every world and argument. One that is not a JSON
      object with the three members, or not acceptable, is refused with the error
      of its first failing check and changes nothing. An acceptable one overlays
      its bytes at its offset, as many as the backend takes, in the file of its
      object alone; it returns 0 exactly when that is all of them. */
  lemma ImportOutcome(w: World, chunkSize: nat, argument: string)
    ensures var (status, after) := Import(w, chunkSize, argument);
      var fields := ParseFields(argument);
      if fields.None? then status == Err(EINVAL) && after == w
      else if !IsAcceptable(w, chunkSize, fields.value) then status == Err(Refusal(w, chunkSize, fields.value)) && after == w
      else
        var f := fields.value;
        && Unhex(f.data).Some? && 2 * |Unhex(f.data).value| == |f.data|
        && var data, pathname := Unhex(f.data).value, w.files[DecValue(f.instance)].pathname.value;
           var taken := Taken(w, pathname, |data|);
           && (status == Ok <==> taken == |data|) && (status != Ok ==> status == Err(EIO))
           && after == if taken == 0 then w
                       else w.(disk := w.disk[pathname := Overlay(Content(w, pathname), DecValue(f.offset), data[..taken])])
  {
    hide Unhex, Overlay, WriteHex, DecValue, ParseFields, TokenValue;
    var fields := ParseFields(argument);
    if fields.Some? {
      var f := fields.value;
      TokenIs(f.instance);
      TokenIs(f.offset);
      if IsAcceptable(w, chunkSize, f) {
        WriteOutcome(w, chunkSize, DecValue(f.instance), DecValue(f.offset), f.data);
      } else if IsUint32(f.instance) && IsUint32(f.offset) && DecValue(f.instance) in w.files
                && DecValue(f.offset) <= 2_147_483_647 {
        WriteRefused(w, chunkSize, f);
      }
    }
  }

  /** An import that returns 0, or changes anything, met a writable stream object. */
  lemma OnlyWritableFilesChange(w: World, chunkSize: nat, argument: string)
    ensures var (status, after) := Import(w, chunkSize, argument);
      status == Ok || after != w ==>
        && ParseFields(argument).Some? && IsAcceptable(w, chunkSize, ParseFields(argument).value)
        && after.files == w.files
        && forall p :: p != w.files[DecValue(ParseFields(argument).value.instance)].pathname.value
             ==> Content(after, p) == Content(w, p)
  {
    hide Import, ParseFields, IsAcceptable, DecValue, Overlay, Unhex, Refusal;
    ImportOutcome(w, chunkSize, argument);
    if ParseFields(argument).Some? && IsAcceptable(w, chunkSize, ParseFields(argument).value) {
      AcceptableHasPath(w, chunkSize, ParseFields(argument).value);
    }
  }

  lemma AcceptableHasPath(w: World, chunkSize: nat, f: Fields)
    requires IsAcceptable(w, chunkSize, f)
    ensures DecValue(f.instance) in w.files && w.files[DecValue(f.instance)].pathname.Some?
  {
  }

  function FileOf(w: World, instance: uint32): seq<byte>
    requires Pathname(w, instance).Some?
  {
    Content(w, Pathname(w, instance).value)
  }

  lemma PowersOfTen()
    ensures Pow10(10) == 10_000_000_000
  {
  }

  lemma TokenOfNumber(n: uint32)
    ensures TokenValue(Some(Dec(n))) == Some(n)
  {
    PowersOfTen();
    DecRoundTrip(n);
    DecLength(n, 10);
  }

  lemma ParseLine(instance: uint32, c: Chunk)
    ensures ParseFields(Line(instance, c)) == Some(Fields(Dec(instance), Dec(c.offset), Hex(c.data)))
  {
    hide ReadValue, LineThen, Dec, Hex;
    ReadLine(instance, c, "");
    var i, o, d := ("instance", Numeral(Dec(instance))), ("offset", Numeral(Dec(c.offset))), ("data", String(Hex(c.data)));
    assert ReadText(Line(instance, c)) == Some(Object([i, o, d]));
    LookupThree(i, o, d);
  }

  lemma LookupThree(a: (string, Json), b: (string, Json), c: (string, Json))
    requires a.0 != b.0 && a.0 != c.0 && b.0 != c.0
    ensures Lookup([a, b, c], a.0) == Some(a.1)
    ensures Lookup([a, b, c], b.0) == Some(b.1)
    ensures Lookup([a, b, c], c.0) == Some(c.1)
  {
    assert [a, b, c][1..] == [b, c] && [b, c][1..] == [c];
    assert Lookup([c], c.0) == Some(c.1);
    assert Lookup([b, c], c.0) == Lookup([c], c.0);
  }

  /** Every entry the export prints is accepted, and overlays its bytes at its
      offset. */
  lemma ImportLine(w: World, chunkSize: nat, instance: uint32, c: Chunk)
    requires Accepts(w, instance) && 0 < |c.data| <= chunkSize && c.offset <= INT32_MAX
    ensures var (status, after) := Import(w, chunkSize, Line(instance, c));
      && status == Ok
      && after.files == w.files && after.room == w.room
      && FileOf(after, instance) == Overlay(FileOf(w, instance), c.offset, c.data)
  {
    hide ParseFields, Line, Dec, Hex, TokenValue, Unhex, Overlay;
    assert c.data[..|c.data|] == c.data;
    ParseLine(instance, c);
    TokenOfNumber(instance);
    TokenOfNumber(c.offset);
    HexRoundTrip(c.data);
  }

  /** Re-issuing the entries in order. */
  function ImportAll(w: World, chunkSize: nat, instance: uint32, chunks: seq<Chunk>): (Status, World)
    decreases |chunks|
  {
    if chunks == [] then (Ok, w)
    else
      var (status, after) := ImportAll(w, chunkSize, instance, chunks[..|chunks| - 1]);
      if status != Ok then (status, after)
      else Import(after, chunkSize, Line(instance, chunks[|chunks| - 1]))
  }

  lemma {:induction false} ImportRebuilds(w: World, chunkSize: nat, instance: uint32, chunks: seq<Chunk>)
    requires Accepts(w, instance) && FileOf(w, instance) == []
    requires Tiles(chunks, 0, chunkSize) && |Concat(chunks)| <= INT32_MAX
    ensures var (status, after) := ImportAll(w, chunkSize, instance, chunks);
      && status == Ok && after.files == w.files && after.room == w.room
      && FileOf(after, instance) == Concat(chunks)
    decreases |chunks|
  {
    hide Import, Overlay;
    if chunks != [] {
      var front, last := chunks[..|chunks| - 1], chunks[|chunks| - 1];
      ImportRebuilds(w, chunkSize, instance, front);
      var (_, middle) := ImportAll(w, chunkSize, instance, front);
      ImportLine(middle, chunkSize, instance, last);
      OverlayAtEnd(Concat(front), last.data);
    }
  }

  /** Export then import is the identity. Whatever worlds the export sampled, if
      the captured file held these bytes throughout and the export returned 0,
      importing its entries in order into an empty writable stream file (of any
      object of any world) rebuilds exactly those bytes. For the exported object
      itself these are the entries as printed; for another target they carry
      its instance in place of the printed one. */
  lemma ExportImportIdentity(
      source: uint32, chunkSize: nat, memory: bool, worlds: seq<World>, file: seq<byte>, w: World, target: uint32)
    requires chunkSize > 0
    requires var e := ExportProgram(chunkSize, memory).Fold(Opening(source), worlds);
      e.Stopped? && e.status == Ok && AllHold(worlds, e.transfer.pathname, file)
    requires Accepts(w, target) && FileOf(w, target) == []
    ensures var e := ExportProgram(chunkSize, memory).Fold(Opening(source), worlds);
      var (status, after) := ImportAll(w, chunkSize, target, e.chunks);
      status == Ok && after.files == w.files && FileOf(after, target) == file
  {
    hide Crc32.Update, Crc32.Ieee, ImportAll;
    var e := ExportProgram(chunkSize, memory).Fold(Opening(source), worlds);
    FoldKeepsInv(source, chunkSize, memory, worlds);
    FoldRefinesSnapshot(source, chunkSize, memory, worlds, file);
    ImportRebuilds(w, chunkSize, target, e.chunks);
  }

  // ----- the length of a re-issued command -----

  function ImportCommand(instance: uint32, c: Chunk): string {
    "bacnet file import '" + (Line(instance, c) + "'")
  }

  lemma LineLength(instance: uint32, c: Chunk)
    ensures |Line(instance, c)| == 33 + |Dec(instance)| + |Dec(c.offset)| + 2 * |c.data|
  {
    hide Dec, Hex;
    HexRoundTrip(c.data);
  }

  /** The command that re-issues an exported entry fits the overhead the build
      asserts, and the bound is met: ten-digit instance and offset and a full
      chunk use all of it. */
  lemma ImportCommandFits(instance: uint32, c: Chunk, chunkSize: nat)
    requires |c.data| <= chunkSize && c.offset <= INT32_MAX
    ensures |ImportCommand(instance, c)| <= 2 * chunkSize + 74
    ensures |ImportCommand(instance, c)| == 2 * chunkSize + 74
      <==> instance >= 1_000_000_000 && c.offset >= 1_000_000_000 && |c.data| == chunkSize
  {
    hide Line, Dec;
    LineLength(instance, c);
    PowersOfTen();
    assert Pow10(9) == 1_000_000_000;
    DecLength(instance, 10);
    DecLength(c.offset, 10);
    DecLength(instance, 9);
    DecLength(c.offset, 9);
  }
}
