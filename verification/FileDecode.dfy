/** The file decode command: a backup file read through a sliding window, one
    CreateObject record at a time, against a reference that parses the whole
    file at once. */
module FileDecode {
  import opened Basics
  import opened Numerals
  import opened Json
  import opened DecodeText
  import opened FileWorld
  import opened Interleaving
  import opened Records

  /** A decoded CreateObject request: the buffer of initial values and how many of
      its bytes the decoder says are used. */
  datatype Request = Request(objectType: uint32, instance: uint32, buffer: seq<byte>, used: int)

  datatype InitialValue = InitialValue(property: uint32, arrayIndex: uint32, priority: uint32, data: seq<byte>)

  /** The decoders of the BACnet library. */
  datatype Codec = Codec(
    request: seq<byte> -> Decoded<Request>,
    initial: seq<byte> -> Decoded<InitialValue>,
    value: seq<byte> -> Decoded<ApplicationValue>)

  /** The initial values of a request, when they all decode. */
  function InitialValues(codec: Codec, r: Request): Option<seq<Piece<InitialValue>>> {
    if r.used < 0 || r.used > |r.buffer| then None else Scan(codec.initial, r.buffer[..r.used], 0)
  }

  /** `file_initial_values_validate` */
  method ValidateInitialValues(codec: Codec, r: Request) returns (status: Status)
    ensures status == if InitialValues(codec, r).Some? then Ok else Err(EBADMSG)
  {
    if r.used < 0 || r.used > |r.buffer| {
      return Err(EBADMSG);
    }
    var ok := Check(codec.initial, r.buffer[..r.used]);
    return if ok then Ok else Err(EBADMSG);
  }

  // ----- printing a record: both unchecked passes -----

  function Join(texts: seq<string>): string {
    if texts == [] then ""
    else if |texts| == 1 then texts[0]
    else Join(texts[..|texts| - 1]) + ("," + texts[|texts| - 1])
  }

  function ValueTexts(names: Names, pieces: seq<Piece<ApplicationValue>>): seq<string> {
    seq(|pieces|, i requires 0 <= i < |pieces| => ValueText(names, pieces[i].item))
  }

  /** Bytes that do not all decode as primitive values. */
  function EncodedText(data: seq<byte>): string {
    ObjectText(More("type", Plain("encoded"), Last("data_hex", Plain(Hex(data)))))
  }

  /** The JSON array for a property's value: its primitive values, or its bytes
      when some of it is not primitive. */
  function ValuesText(codec: Codec, names: Names, data: seq<byte>): string {
    match Scan(codec.value, data, 0)
    case Some(pieces) => "[" + (Join(ValueTexts(names, pieces)) + "]")
    case None => "[" + (EncodedText(data) + "]")
  }

  /** One initial value. */
  function InitialText(codec: Codec, names: Names, v: InitialValue): string {
    ObjectText(
      More("property_identifier", Dec(v.property),
        More("property_name", Quote(names.property(v.property)),
          More("array_index", OrNull(v.arrayIndex, UINT32_MAX),
            More("priority", OrNull(v.priority, 0),
              Last("value", ValuesText(codec, names, v.data)))))))
  }

  function InitialTexts(codec: Codec, names: Names, pieces: seq<Piece<InitialValue>>): seq<string> {
    seq(|pieces|, i requires 0 <= i < |pieces| => InitialText(codec, names, pieces[i].item))
  }

  /** Prints items separated by commas: the `first` flag of both loops. */
  method JoinTexts(texts: seq<string>) returns (text: string)
    ensures text == Join(texts)
  {
    text := "";
    var first, i := true, 0;
    while i < |texts|
      invariant 0 <= i <= |texts| && (first <==> i == 0)
      invariant text == Join(texts[..i])
    {
      assert texts[..i + 1][..i] == texts[..i];
      if !first {
        text := text + ("," + texts[i]);
      } else {
        text := texts[i];
      }
      first, i := false, i + 1;
    }
    assert texts[..i] == texts;
  }

  /** `file_json_application_values` */
  method PrintApplicationValues(codec: Codec, names: Names, data: seq<byte>) returns (text: string)
    ensures text == ValuesText(codec, names, data)
  {
    hide ValueText, Join, ObjectText, Plain, Hex;
    var primitive := Check(codec.value, data);
    if !primitive {
      var hex := PrintHex(data);
      return "[" + (ObjectText(More("type", Plain("encoded"), Last("data_hex", hex))) + "]");
    }
    var pieces := Replay(codec.value, data);
    var texts: seq<string>, i := [], 0;
    while i < |pieces|
      invariant 0 <= i <= |pieces| && |texts| == i
      invariant forall k :: 0 <= k < i ==> texts[k] == ValueText(names, pieces[k].item)
    {
      var printed := PrintApplicationValue(names, pieces[i].item);
      texts := texts + [printed];
      i := i + 1;
    }
    assert texts == ValueTexts(names, pieces);
    var body := JoinTexts(texts);
    return "[" + (body + "]");
  }

  method PrintInitialValue(codec: Codec, names: Names, v: InitialValue) returns (text: string)
    ensures text == InitialText(codec, names, v)
  {
    hide ValuesText, Quote, ObjectText;
    var value := PrintApplicationValues(codec, names, v.data);
    var name := JsonStringData(names.property(v.property));
    text := ObjectText(
      More("property_identifier", Dec(v.property),
        More("property_name", name,
          More("array_index", OrNull(v.arrayIndex, UINT32_MAX),
            More("priority", OrNull(v.priority, 0),
              Last("value", value))))));
  }

  /** `file_json_initial_values`, called only on validated requests: it prints
      exactly the values the validation found. */
  method PrintInitialValues(codec: Codec, names: Names, r: Request) returns (text: string)
    requires InitialValues(codec, r).Some?
    ensures text == "[" + (Join(InitialTexts(codec, names, InitialValues(codec, r).value)) + "]")
  {
    hide InitialText, Join;
    var pieces := Replay(codec.initial, r.buffer[..r.used]);
    var texts: seq<string>, i := [], 0;
    while i < |pieces|
      invariant 0 <= i <= |pieces| && |texts| == i
      invariant forall k :: 0 <= k < i ==> texts[k] == InitialText(codec, names, pieces[k].item)
    {
      var printed := PrintInitialValue(codec, names, pieces[i].item);
      texts := texts + [printed];
      i := i + 1;
    }
    assert texts == InitialTexts(codec, names, pieces);
    var body := JoinTexts(texts);
    return "[" + (body + "]");
  }

  /** The JSON array of a request's initial values. */
  function InitialsText(codec: Codec, names: Names, r: Request): string {
    match InitialValues(codec, r)
    case Some(pieces) => "[" + (Join(InitialTexts(codec, names, pieces)) + "]")
    case None => ""
  }

  /** One record's JSON line. */
  function RecordText(codec: Codec, names: Names, p: Piece<Request>): string {
    ObjectText(
      More("offset", Dec(p.offset),
        More("object_type", Dec(p.item.objectType),
          More("object_type_name", Quote(names.objectType(p.item.objectType)),
            More("object_instance", Dec(p.item.instance),
              Last("initial_values", InitialsText(codec, names, p.item))))))) + "\n"
  }

  /** `file_json_create_object` */
  method PrintRecord(codec: Codec, names: Names, p: Piece<Request>) returns (text: string)
    requires InitialValues(codec, p.item).Some?
    ensures text == RecordText(codec, names, p)
  {
    hide InitialTexts, Join, Quote, ObjectText;
    var values := PrintInitialValues(codec, names, p.item);
    var name := JsonStringData(names.objectType(p.item.objectType));
    text := ObjectText(
      More("offset", Dec(p.offset),
        More("object_type", Dec(p.item.objectType),
          More("object_type_name", name,
            More("object_instance", Dec(p.item.instance),
              Last("initial_values", values)))))) + "\n";
  }

  // ----- the command -----

  datatype Decode =
    | Opening(instance: uint32)
    | Reading(transfer: Transfer, records: seq<Piece<Request>>, offset: nat)
    | Checking(transfer: Transfer, records: seq<Piece<Request>>, offset: nat, next: Piece<Request>)
    | Rejected(status: Status)
    | Stopped(transfer: Transfer, records: seq<Piece<Request>>, offset: nat, status: Status)

  /** `file_backup_open`: a capture, of a configured backup file only. */
  function BackupCapture(w: World, instance: uint32, memory: bool): Result<Transfer> {
    match Capture(w, instance, memory)
    case Failure(e) => Failure(e)
    case Success(t) => if instance in w.configured then Success(t) else Failure(EPERM)
  }

  /** The second section under the lock: the object again, and its type. */
  function CheckType(t: Transfer, w: World, objectType: uint32): Result<bool> {
    match Revalidate(t, w)
    case Err(e) => Failure(e)
    case Ok => Success(objectType in w.supported)
  }

  function SampleWorld(d: Decode, window: nat, memory: bool, w: World): Sample {
    match d
    case Opening(instance) => Captured(BackupCapture(w, instance, memory))
    case Reading(t, _, offset) =>
      Read(TransferRead(t, w, offset, if offset < t.fileSize then Min(t.fileSize - offset, window) else 0))
    case Checking(t, _, _, next) => Checked(CheckType(t, w, next.item.objectType))
    case _ => Read(Success([]))
  }

  function Continue(t: Transfer, records: seq<Piece<Request>>, offset: nat): Decode {
    if offset < t.fileSize then Reading(t, records, offset) else Stopped(t, records, offset, Ok)
  }

  function Digest(codec: Codec, d: Decode, s: Sample): Decode {
    match (d, s)
    case (Opening(_), Captured(Failure(e))) => Rejected(Err(e))
    case (Opening(_), Captured(Success(t))) => Continue(t, [], 0)
    case (Reading(t, records, offset), Read(Failure(e))) => Stopped(t, records, offset, Err(e))
    case (Reading(t, records, offset), Read(Success(data))) =>
      if data == [] then Stopped(t, records, offset, Err(EIO))
      else
        var r := codec.request(data);
        if !Fits(r, |data|) then Stopped(t, records, offset, Err(EBADMSG))
        else Checking(t, records, offset, Piece(offset, r.length, r.item))
    case (Checking(t, records, offset, _), Checked(Failure(e))) => Stopped(t, records, offset, Err(e))
    case (Checking(t, records, offset, next), Checked(Success(supported))) =>
      if !supported then Stopped(t, records, offset, Err(ENOTSUP))
      else if InitialValues(codec, next.item).None? then Stopped(t, records, offset, Err(EBADMSG))
      else Continue(t, records + [next], offset + next.length)
    case _ => d
  }

  function DecodeProgram(codec: Codec, window: nat, memory: bool): Program<Decode, World, Sample> {
    Program(
      (d: Decode) => d.Rejected? || d.Stopped?,
      (d: Decode, w: World) => SampleWorld(d, window, memory, w),
      (d: Decode, s: Sample) => Digest(codec, d, s))
  }

  lemma AfterCapture(codec: Codec, instance: uint32, window: nat, memory: bool, w: World)
    ensures DecodeProgram(codec, window, memory).Advance(Opening(instance), w)
      == match BackupCapture(w, instance, memory)
         case Failure(e) => Rejected(Err(e))
         case Success(t) => Continue(t, [], 0)
  {
  }

  lemma AfterRead(codec: Codec, t: Transfer, records: seq<Piece<Request>>, offset: nat, window: nat, memory: bool, w: World)
    requires offset < t.fileSize
    ensures var read := TransferRead(t, w, offset, Min(t.fileSize - offset, window));
      DecodeProgram(codec, window, memory).Advance(Continue(t, records, offset), w)
      == match read
         case Failure(e) => Stopped(t, records, offset, Err(e))
         case Success(data) =>
           if data == [] then Stopped(t, records, offset, Err(EIO))
           else if !Fits(codec.request(data), |data|) then Stopped(t, records, offset, Err(EBADMSG))
           else Checking(t, records, offset, Piece(offset, codec.request(data).length, codec.request(data).item))
  {
  }

  lemma AfterCheck(codec: Codec, t: Transfer, records: seq<Piece<Request>>, next: Piece<Request>,
                   window: nat, memory: bool, w: World)
    ensures DecodeProgram(codec, window, memory).Advance(Checking(t, records, next.offset, next), w)
      == match CheckType(t, w, next.item.objectType)
         case Failure(e) => Stopped(t, records, next.offset, Err(e))
         case Success(supported) =>
           if !supported then Stopped(t, records, next.offset, Err(ENOTSUP))
           else if InitialValues(codec, next.item).None? then Stopped(t, records, next.offset, Err(EBADMSG))
           else Continue(t, records + [next], next.offset + next.length)
  {
  }

  // ----- the text of a decode -----

  function RecordsText(
      codec: Codec, names: Names, records: seq<Piece<Request>>): string {
    if records == [] then ""
    else
      RecordsText(codec, names, records[..|records| - 1])
      + RecordText(codec, names, records[|records| - 1])
  }

  function Output(codec: Codec, names: Names, d: Decode): string {
    if d.Opening? || d.Rejected? then "" else RecordsText(codec, names, d.records)
  }

  lemma RecordsSnoc(
      codec: Codec, names: Names, records: seq<Piece<Request>>, p: Piece<Request>)
    ensures RecordsText(codec, names, []) == ""
    ensures RecordsText(codec, names, records + [p])
         == RecordsText(codec, names, records) + RecordText(codec, names, p)
  {
    hide RecordText;
    assert (records + [p])[..|records|] == records;
  }

  // ----- the reference -----

  datatype Outcome = Outcome(records: seq<Piece<Request>>, offset: nat, status: Status)

  function Prepend(first: seq<Piece<Request>>, o: Outcome): Outcome {
    o.(records := first + o.records)
  }

  /** What a whole-file parse makes of a boundary: the record there, unless it is
      undecodable, longer than `limit`, unsupported or has bad initial values. */
  function Verdict(codec: Codec, supported: set<uint32>, limit: nat, rest: seq<byte>): Result<Decoded<Request>> {
    var r := codec.request(rest);
    if !Fits(r, |rest|) || r.length > limit then Failure(EBADMSG)
    else if r.item.objectType !in supported then Failure(ENOTSUP)
    else if InitialValues(codec, r.item).None? then Failure(EBADMSG)
    else Success(r)
  }

  /** Parsing the whole file from a boundary: the records up to the first
      boundary without a good record, and that boundary. */
  function WholeParse(codec: Codec, supported: set<uint32>, limit: nat, file: seq<byte>, offset: nat): Outcome
    decreases |file| - offset
  {
    if offset >= |file| then Outcome([], offset, Ok)
    else
      match Verdict(codec, supported, limit, file[offset..])
      case Failure(e) => Outcome([], offset, Err(e))
      case Success(r) =>
        Prepend([Piece(offset, r.length, r.item)],
                WholeParse(codec, supported, limit, file, offset + r.length))
  }

  /** In every sampled world the captured object is there, its file has these
      bytes, and these object types are supported. */
  predicate Unchanged(worlds: seq<World>, t: Transfer, file: seq<byte>, supported: set<uint32>) {
    forall j :: 0 <= j < |worlds| ==>
      Revalidate(t, worlds[j]) == Ok && Content(worlds[j], t.pathname) == file && worlds[j].supported == supported
  }

  ghost predicate MatchesReference(
      codec: Codec, window: nat, file: seq<byte>, supported: set<uint32>, d: Decode)
    requires !d.Opening? && !d.Rejected?
  {
    var whole := WholeParse(codec, supported, window, file, 0);
    && d.transfer.fileSize == |file|
    && match d
       case Reading(_, records, offset) =>
         offset < |file| && whole == Prepend(records, WholeParse(codec, supported, window, file, offset))
       case Checking(_, records, offset, next) =>
         && offset < |file| && whole == Prepend(records, WholeParse(codec, supported, window, file, offset))
         && Fits(codec.request(file[offset..]), |file| - offset)
         && codec.request(file[offset..]) == Decoded(next.length, next.item)
         && next.offset == offset && next.length <= window
       case Stopped(_, records, offset, status) => whole == Outcome(records, offset, status)
  }

  lemma ReadOfUnchanged(t: Transfer, w: World, file: seq<byte>, supported: set<uint32>, offset: nat, window: nat)
    requires Unchanged([w], t, file, supported) && offset < |file| && t.fileSize == |file| && window > 0
    ensures var rest := file[offset..];
      var read := TransferRead(t, w, offset, Min(t.fileSize - offset, window));
      read == Success(rest[..Min(|rest|, window)]) && read.result != []
  {
    assert [w][0] == w;
    var n := Min(|file| - offset, window);
    ReadIsFromTheCapturedFile(t, w, offset, n);
    assert Slice(file, offset, n) == file[offset..][..n];
  }

  lemma WholeStops(codec: Codec, supported: set<uint32>, limit: nat, file: seq<byte>, offset: nat,
                   records: seq<Piece<Request>>, e: Errno)
    requires offset < |file| && Verdict(codec, supported, limit, file[offset..]) == Failure(e)
    ensures Prepend(records, WholeParse(codec, supported, limit, file, offset)) == Outcome(records, offset, Err(e))
  {
  }

  lemma WholeGoesOn(codec: Codec, supported: set<uint32>, limit: nat, file: seq<byte>, offset: nat,
                    records: seq<Piece<Request>>, next: Piece<Request>)
    requires offset < |file| && next.offset == offset
    requires Verdict(codec, supported, limit, file[offset..]) == Success(Decoded(next.length, next.item))
    ensures offset + next.length <= |file|
    ensures Prepend(records, WholeParse(codec, supported, limit, file, offset))
         == Prepend(records + [next], WholeParse(codec, supported, limit, file, offset + next.length))
  {
  }

  lemma WholeEnds(codec: Codec, supported: set<uint32>, limit: nat, file: seq<byte>, records: seq<Piece<Request>>)
    ensures Prepend(records, WholeParse(codec, supported, limit, file, |file|)) == Outcome(records, |file|, Ok)
  {
  }

  lemma ReadingMatches(
      codec: Codec, window: nat, memory: bool, file: seq<byte>, supported: set<uint32>, d: Decode, w: World)
    requires window > 0 && SelfDelimiting(codec.request) && d.Reading?
    requires MatchesReference(codec, window, file, supported, d) && Unchanged([w], d.transfer, file, supported)
    ensures MatchesReference(codec, window, file, supported, Digest(codec, d, SampleWorld(d, window, memory, w)))
  {
    hide WholeParse, InitialValues, TransferRead, Unchanged, SelfDelimiting, Prepend;
    var rest := file[d.offset..];
    ReadOfUnchanged(d.transfer, w, file, supported, d.offset, window);
    WindowDecodes(codec.request, rest, window);
    if !Fits(codec.request(rest), |rest|) || codec.request(rest).length > window {
      WholeStops(codec, supported, window, file, d.offset, d.records, EBADMSG);
    }
  }

  lemma CheckingMatches(
      codec: Codec, window: nat, memory: bool, file: seq<byte>, supported: set<uint32>, d: Decode, w: World)
    requires d.Checking?
    requires MatchesReference(codec, window, file, supported, d) && Unchanged([w], d.transfer, file, supported)
    ensures MatchesReference(codec, window, file, supported, Digest(codec, d, SampleWorld(d, window, memory, w)))
  {
    hide WholeParse, InitialValues, Prepend;
    assert [w][0] == w;
    match Verdict(codec, supported, window, file[d.offset..])
    case Failure(e) => WholeStops(codec, supported, window, file, d.offset, d.records, e);
    case Success(r) =>
      WholeGoesOn(codec, supported, window, file, d.offset, d.records, d.next);
      WholeEnds(codec, supported, window, file, d.records + [d.next]);
  }

  /** Decoding an unchanged file through the window is parsing the whole file,
      up to the first record that is longer than the window. */
  lemma {:induction false} WindowedDecodeIsWholeParse(
      codec: Codec, window: nat, memory: bool, instance: uint32, worlds: seq<World>,
      t: Transfer, file: seq<byte>, supported: set<uint32>)
    requires window > 0 && SelfDelimiting(codec.request)
    requires worlds != [] && BackupCapture(worlds[0], instance, memory) == Success(t)
    requires Unchanged(worlds, t, file, supported)
    ensures var d := DecodeProgram(codec, window, memory).Fold(Opening(instance), worlds);
      !d.Opening? && !d.Rejected? && d.transfer == t && MatchesReference(codec, window, file, supported, d)
    decreases |worlds|
  {
    var p := DecodeProgram(codec, window, memory);
    var front, w := worlds[..|worlds| - 1], worlds[|worlds| - 1];
    var d := p.Fold(Opening(instance), front);
    if front == [] {
      CapturedMatches(codec, window, memory, instance, w, t, file, supported);
    } else {
      hide MatchesReference, Digest, SampleWorld, Revalidate;
      assert front[0] == worlds[0];
      WindowedDecodeIsWholeParse(codec, window, memory, instance, front, t, file, supported);
      assert Unchanged([w], t, file, supported);
      OnePassMatches(codec, window, memory, file, supported, d, w);
    }
  }

  lemma CapturedMatches(
      codec: Codec, window: nat, memory: bool, instance: uint32, w: World,
      t: Transfer, file: seq<byte>, supported: set<uint32>)
    requires BackupCapture(w, instance, memory) == Success(t) && Content(w, t.pathname) == file
    ensures var d := Digest(codec, Opening(instance), SampleWorld(Opening(instance), window, memory, w));
      !d.Opening? && !d.Rejected? && d.transfer == t && MatchesReference(codec, window, file, supported, d)
  {
  }

  lemma OnePassMatches(
      codec: Codec, window: nat, memory: bool, file: seq<byte>, supported: set<uint32>, d: Decode, w: World)
    requires window > 0 && SelfDelimiting(codec.request)
    requires !d.Opening? && !d.Rejected? && MatchesReference(codec, window, file, supported, d)
    requires Unchanged([w], d.transfer, file, supported)
    ensures var e := Digest(codec, d, SampleWorld(d, window, memory, w));
      !e.Opening? && !e.Rejected? && e.transfer == d.transfer && MatchesReference(codec, window, file, supported, e)
  {
    hide MatchesReference, InitialValues, TransferRead, Unchanged, SelfDelimiting, SampleWorld;
    if d.Reading? {
      ReadingMatches(codec, window, memory, file, supported, d, w);
    } else if d.Checking? {
      CheckingMatches(codec, window, memory, file, supported, d, w);
    }
  }

  // ----- a file that is a concatenation of good records -----

  datatype Encoded = Encoded(bytes: seq<byte>, request: Request)

  predicate GoodRecord(codec: Codec, supported: set<uint32>, limit: nat, e: Encoded) {
    && e.bytes != [] && |e.bytes| <= limit
    && codec.request(e.bytes) == Decoded(|e.bytes|, e.request)
    && e.request.objectType in supported
    && InitialValues(codec, e.request).Some?
  }

  function Flatten(records: seq<Encoded>): seq<byte> {
    if records == [] then [] else records[0].bytes + Flatten(records[1..])
  }

  /** The records at their prefix-sum offsets. */
  function Placed(records: seq<Encoded>, offset: nat): seq<Piece<Request>> {
    if records == [] then []
    else [Piece(offset, |records[0].bytes|, records[0].request)] + Placed(records[1..], offset + |records[0].bytes|)
  }

  lemma {:induction false} ConcatenationParses(
      codec: Codec, supported: set<uint32>, limit: nat, before: seq<byte>, records: seq<Encoded>)
    requires SelfDelimiting(codec.request)
    requires forall i :: 0 <= i < |records| ==> GoodRecord(codec, supported, limit, records[i])
    ensures WholeParse(codec, supported, limit, before + Flatten(records), |before|)
         == Outcome(Placed(records, |before|), |before + Flatten(records)|, Ok)
    decreases |records|
  {
    hide InitialValues, SelfDelimiting, Verdict;
    var file := before + Flatten(records);
    if records != [] {
      var e := records[0];
      var rest, after := file[|before|..], before + e.bytes;
      assert GoodRecord(codec, supported, limit, e);
      GoodRecordHere(codec, supported, limit, e, Flatten(records[1..]));
      assert rest == e.bytes + Flatten(records[1..]);
      assert after + Flatten(records[1..]) == file;
      ConcatenationParses(codec, supported, limit, after, records[1..]);
    }
  }

  lemma GoodRecordHere(codec: Codec, supported: set<uint32>, limit: nat, e: Encoded, more: seq<byte>)
    requires SelfDelimiting(codec.request) && GoodRecord(codec, supported, limit, e)
    ensures Verdict(codec, supported, limit, e.bytes + more) == Success(Decoded(|e.bytes|, e.request))
  {
    hide InitialValues, SelfDelimiting;
    assert e.bytes[..|e.bytes|] == e.bytes;
    DecodesTheSame(codec.request, e.bytes, e.bytes + more);
  }

  /** Decoding an unchanged concatenation of supported records, none longer than
      the window, that returns at all returns 0 and prints exactly those records
      at their prefix-sum offsets. */
  lemma DecodePrintsTheRecords(
      codec: Codec, window: nat, memory: bool, instance: uint32, worlds: seq<World>,
      t: Transfer, records: seq<Encoded>, supported: set<uint32>)
    requires window > 0 && SelfDelimiting(codec.request)
    requires worlds != [] && BackupCapture(worlds[0], instance, memory) == Success(t)
    requires Unchanged(worlds, t, Flatten(records), supported)
    requires forall i :: 0 <= i < |records| ==> GoodRecord(codec, supported, window, records[i])
    requires DecodeProgram(codec, window, memory).Fold(Opening(instance), worlds).Stopped?
    ensures var d := DecodeProgram(codec, window, memory).Fold(Opening(instance), worlds);
      d.status == Ok && d.records == Placed(records, 0) && d.offset == t.fileSize
  {
    hide WholeParse, Placed, Revalidate;
    WindowedDecodeIsWholeParse(codec, window, memory, instance, worlds, t, Flatten(records), supported);
    ConcatenationParses(codec, supported, window, [], records);
    assert [] + Flatten(records) == Flatten(records);
  }

  // ----- any run among other threads -----

  /** The request decoder finds this record at its offset, in a window read from
      the captured object in this world. */
  predicate IsReadFrom(codec: Codec, window: nat, t: Transfer, p: Piece<Request>, w: World) {
    && Revalidate(t, w) == Ok && p.offset < t.fileSize
    && codec.request(Slice(Content(w, t.pathname), p.offset, Min(t.fileSize - p.offset, window)))
       == Decoded(p.length, p.item)
  }

  /** The captured object is there, and the record's type is supported. */
  predicate IsTypeChecked(t: Transfer, p: Piece<Request>, w: World) {
    Revalidate(t, w) == Ok && p.item.objectType in w.supported
  }

  ghost predicate HasSource(codec: Codec, window: nat, t: Transfer, p: Piece<Request>, worlds: seq<World>) {
    exists i :: 0 <= i < |worlds| && IsReadFrom(codec, window, t, p, worlds[i])
  }

  /** It was read from one world and its type checked in a later one. */
  ghost predicate IsFound(codec: Codec, window: nat, t: Transfer, p: Piece<Request>, worlds: seq<World>) {
    exists i, j :: 0 <= i < j < |worlds|
      && IsReadFrom(codec, window, t, p, worlds[i]) && IsTypeChecked(t, p, worlds[j])
  }

  ghost predicate AllFound(codec: Codec, window: nat, t: Transfer, records: seq<Piece<Request>>, worlds: seq<World>) {
    forall p :: p in records ==> IsFound(codec, window, t, p, worlds)
  }

  /** The captured object is one of the Device's configuration files, a stream file
      of this pathname and size. */
  predicate IsBackupFile(t: Transfer, instance: uint32, w: World) {
    && instance in w.configured && instance in w.files && t.instance == instance
    && w.files[instance].stream && w.files[instance].pathname == Some(t.pathname) && t.pathname != ""
    && t.fileSize == |Content(w, t.pathname)|
  }

  /** Why a decode is refused: no such file can be captured, with the error of that,
      or it is not a configuration file, with EPERM. */
  predicate IsRefused(s: Status, instance: uint32, memory: bool, w: World) {
    match Capture(w, instance, memory)
    case Failure(error) => s == Err(error)
    case Success(_) => instance !in w.configured && s == Err(EPERM)
  }

  /** The records chain from 0 to the current boundary inside the captured size,
      each has good initial values and was found in the captured file, which is a
      configuration file; 0 means the whole size is covered. */
  ghost predicate DecodeInv(
      codec: Codec, window: nat, memory: bool, instance: uint32, worlds: seq<World>, d: Decode) {
    match d
    case Opening(i) => worlds == [] && i == instance
    case Rejected(s) => worlds != [] && IsRefused(s, instance, memory, worlds[0])
    case Reading(t, records, offset) =>
      && worlds != [] && IsBackupFile(t, instance, worlds[0]) && AllFound(codec, window, t, records, worlds)
      && offset < t.fileSize && Chained(codec, records, offset)
    case Checking(t, records, offset, next) =>
      && worlds != [] && IsBackupFile(t, instance, worlds[0]) && AllFound(codec, window, t, records, worlds)
      && Chained(codec, records, offset)
      && HasSource(codec, window, t, next, worlds)
      && next.offset == offset && 0 < next.length && offset + next.length <= t.fileSize
    case Stopped(t, records, offset, status) =>
      && worlds != [] && IsBackupFile(t, instance, worlds[0]) && AllFound(codec, window, t, records, worlds)
      && Chained(codec, records, offset) && offset <= t.fileSize
      && (status == Ok ==> offset == t.fileSize)
  }

  ghost predicate Chained(codec: Codec, records: seq<Piece<Request>>, end: nat)
    decreases |records|
  {
    if records == [] then end == 0
    else
      var last := records[|records| - 1];
      && last.length > 0 && last.offset + last.length == end
      && InitialValues(codec, last.item).Some?
      && Chained(codec, records[..|records| - 1], last.offset)
  }

  lemma {:induction false} FoldKeepsInv(
      codec: Codec, window: nat, memory: bool, instance: uint32, worlds: seq<World>)
    ensures DecodeInv(codec, window, memory, instance, worlds,
      DecodeProgram(codec, window, memory).Fold(Opening(instance), worlds))
    decreases |worlds|
  {
    hide DecodeInv, Digest, SampleWorld;
    if worlds != [] {
      var front, w := worlds[..|worlds| - 1], worlds[|worlds| - 1];
      assert front + [w] == worlds;
      FoldKeepsInv(codec, window, memory, instance, front);
      PassKeepsInv(codec, window, memory, instance, front,
        DecodeProgram(codec, window, memory).Fold(Opening(instance), front), w);
    } else {
      NothingDecoded(codec, window, memory, instance);
    }
  }

  lemma NothingDecoded(codec: Codec, window: nat, memory: bool, instance: uint32)
    ensures DecodeInv(codec, window, memory, instance, [], Opening(instance))
  {
  }

  lemma FoundLater(
      codec: Codec, window: nat, t: Transfer, records: seq<Piece<Request>>, worlds: seq<World>, w: World)
    requires AllFound(codec, window, t, records, worlds)
    ensures AllFound(codec, window, t, records, worlds + [w])
  {
    hide IsReadFrom, IsTypeChecked;
    forall p | p in records
      ensures IsFound(codec, window, t, p, worlds + [w])
    {
      var i, j :| 0 <= i < j < |worlds|
        && IsReadFrom(codec, window, t, p, worlds[i]) && IsTypeChecked(t, p, worlds[j]);
      assert (worlds + [w])[i] == worlds[i] && (worlds + [w])[j] == worlds[j];
    }
  }

  lemma PassKeepsInv(
      codec: Codec, window: nat, memory: bool, instance: uint32, worlds: seq<World>, d: Decode, w: World)
    requires DecodeInv(codec, window, memory, instance, worlds, d)
    ensures DecodeInv(codec, window, memory, instance, worlds + [w], Digest(codec, d, SampleWorld(d, window, memory, w)))
  {
    hide InitialValues, Revalidate, CaptureCheck, AllFound, HasSource, IsReadFrom, IsTypeChecked, TransferRead;
    hide IsBackupFile, IsRefused, Chained;
    assert worlds != [] ==> (worlds + [w])[0] == worlds[0];
    if d.Opening? {
      CapturedKeepsInv(codec, window, memory, d, w);
      assert worlds + [w] == [w];
    } else if d.Checking? {
      CheckingKeepsInv(codec, window, memory, instance, worlds, d, w);
    } else if !d.Rejected? {
      FoundLater(codec, window, d.transfer, d.records, worlds, w);
      if d.Reading? {
        ReadIsSource(codec, window, memory, worlds, d, w);
      }
    }
  }

  lemma CheckingKeepsInv(
      codec: Codec, window: nat, memory: bool, instance: uint32, worlds: seq<World>, d: Decode, w: World)
    requires d.Checking? && DecodeInv(codec, window, memory, instance, worlds, d)
    ensures DecodeInv(codec, window, memory, instance, worlds + [w], Digest(codec, d, SampleWorld(d, window, memory, w)))
  {
    hide InitialValues, Revalidate, CaptureCheck, AllFound, HasSource, IsReadFrom, IsTypeChecked, TransferRead;
    hide IsBackupFile, IsRefused;
    assert (worlds + [w])[0] == worlds[0];
    FoundLater(codec, window, d.transfer, d.records, worlds, w);
    assert (d.records + [d.next])[..|d.records|] == d.records;
    CheckedIsFound(codec, window, memory, worlds, d, w);
  }

  lemma CapturedKeepsInv(codec: Codec, window: nat, memory: bool, d: Decode, w: World)
    requires d.Opening?
    ensures DecodeInv(codec, window, memory, d.instance, [w], Digest(codec, d, SampleWorld(d, window, memory, w)))
  {
    hide Capture;
    CaptureOutcome(w, d.instance, memory);
    assert [w][0] == w;
  }

  lemma ReadIsSource(codec: Codec, window: nat, memory: bool, worlds: seq<World>, d: Decode, w: World)
    requires d.Reading? && d.offset < d.transfer.fileSize
    ensures var e := Digest(codec, d, SampleWorld(d, window, memory, w));
      e.Checking? ==>
        && HasSource(codec, window, d.transfer, e.next, worlds + [w])
        && e.next.offset == d.offset && 0 < e.next.length && d.offset + e.next.length <= d.transfer.fileSize
  {
    hide Revalidate;
    var t, n := d.transfer, Min(d.transfer.fileSize - d.offset, window);
    var read := TransferRead(t, w, d.offset, n);
    ReadIsFromTheCapturedFile(t, w, d.offset, n);
    assert (worlds + [w])[|worlds|] == w;
    var e := Digest(codec, d, SampleWorld(d, window, memory, w));
    if e.Checking? {
      assert read.Success? && |read.result| <= n;
      assert IsReadFrom(codec, window, t, e.next, w);
    }
  }

  lemma CheckedIsFound(codec: Codec, window: nat, memory: bool, worlds: seq<World>, d: Decode, w: World)
    requires d.Checking? && HasSource(codec, window, d.transfer, d.next, worlds)
    requires AllFound(codec, window, d.transfer, d.records, worlds + [w])
    ensures var e := Digest(codec, d, SampleWorld(d, window, memory, w));
      e.transfer == d.transfer && !e.Checking? && !e.Opening? && !e.Rejected?
      && AllFound(codec, window, d.transfer, e.records, worlds + [w])
  {
    hide IsReadFrom, Revalidate, InitialValues;
    var e := Digest(codec, d, SampleWorld(d, window, memory, w));
    if e.records != d.records {
      var i :| 0 <= i < |worlds| && IsReadFrom(codec, window, d.transfer, d.next, worlds[i]);
      assert (worlds + [w])[i] == worlds[i] && (worlds + [w])[|worlds|] == w;
      assert IsTypeChecked(d.transfer, d.next, w);
      assert IsFound(codec, window, d.transfer, d.next, worlds + [w]);
    }
  }

  function Rank(d: Decode): nat {
    match d
    case Opening(_) => 2 * INT32_MAX + 3
    case Reading(t, _, offset) => if offset < t.fileSize then 2 * (t.fileSize - offset) + 1 else 1
    case Checking(t, _, offset, next) =>
      2 + 2 * (if offset + next.length < t.fileSize then t.fileSize - offset - next.length else 0)
    case _ => 0
  }

  /** The record was read from the captured file in a world the command held the
      lock over, and its type supported in one it held the lock over later. */
  ghost predicate FoundUnderLock(
      codec: Codec, window: nat, t: Transfer, p: Piece<Request>, run: seq<Sys<Decode, World, Sample>>, k: nat) {
    exists w, later :: HeldInOrder(run, k, w, later)
      && IsReadFrom(codec, window, t, p, w) && IsTypeChecked(t, p, later)
  }

  /** In every run among other threads the decode makes a bounded number of
      locked sections; its records chain from the beginning of the file, and each
      one is what the library decodes there, read under the lock from the
      captured object and type-checked under the lock after that. */
  lemma DecodeUnderInterference(
      codec: Codec, window: nat, memory: bool, instance: uint32, run: seq<Sys<Decode, World, Sample>>, k: nat)
    requires IsRun(DecodeProgram(codec, window, memory), Opening(instance), run) && k < |run|
    ensures DecodeInv(codec, window, memory, instance, Digested(run[k]), run[k].client)
    ensures var d := run[k].client;
      d.Reading? || d.Checking? || d.Stopped? ==>
        forall p :: p in d.records ==> FoundUnderLock(codec, window, d.transfer, p, run, k)
    ensures |Digested(run[k])| <= 2 * INT32_MAX + 3
  {
    hide IsReadFrom, IsTypeChecked, DecodeProgram, FoundUnderLock, IsFound;
    var p, worlds, d := DecodeProgram(codec, window, memory), Digested(run[k]), run[k].client;
    RunReduces(p, Opening(instance), run, k);
    FoldKeepsInv(codec, window, memory, instance, worlds);
    DecodeTerminates(codec, window, memory, instance, run, k);
    if d.Reading? || d.Checking? || d.Stopped? {
      SeenUnderLock(p, Opening(instance), run, k);
      forall r | r in d.records
        ensures FoundUnderLock(codec, window, d.transfer, r, run, k)
      {
        assert IsFound(codec, window, d.transfer, r, worlds);
        FoundInRun(codec, window, d.transfer, r, run, k);
      }
    }
  }

  lemma FoundInRun(
      codec: Codec, window: nat, t: Transfer, p: Piece<Request>, run: seq<Sys<Decode, World, Sample>>, k: nat)
    requires k < |run| && IsFound(codec, window, t, p, Digested(run[k]))
    requires forall i, j :: 0 <= i < j < |run[k].seen| ==> HeldInOrder(run, k, run[k].seen[i], run[k].seen[j])
    ensures FoundUnderLock(codec, window, t, p, run, k)
  {
    hide IsReadFrom, IsTypeChecked, HeldInOrder;
    var worlds, seen := Digested(run[k]), run[k].seen;
    var i, j :| 0 <= i < j < |worlds| && IsReadFrom(codec, window, t, p, worlds[i]) && IsTypeChecked(t, p, worlds[j]);
    assert worlds[i] == seen[i] && worlds[j] == seen[j];
    assert HeldInOrder(run, k, seen[i], seen[j]);
  }

  lemma DecodeTerminates(
      codec: Codec, window: nat, memory: bool, instance: uint32, run: seq<Sys<Decode, World, Sample>>, k: nat)
    requires IsRun(DecodeProgram(codec, window, memory), Opening(instance), run) && k < |run|
    ensures |Digested(run[k])| <= 2 * INT32_MAX + 3
  {
    hide Digest, SampleWorld, IsRun;
    var p := DecodeProgram(codec, window, memory);
    forall d: Decode, w: World | !p.finished(d)
      ensures Rank(p.Advance(d, w)) < Rank(d)
    {
      PassLowersRank(codec, window, memory, d, w);
    }
    PassesAreBounded(p, Opening(instance), Rank, run, k);
  }

  lemma PassLowersRank(codec: Codec, window: nat, memory: bool, d: Decode, w: World)
    requires !d.Rejected? && !d.Stopped?
    ensures Rank(Digest(codec, d, SampleWorld(d, window, memory, w))) < Rank(d)
  {
  }

  // ----- when a decode stops, and why -----

  /** The bytes the window holds at an offset: no more than the captured size, nor
      than the file has now. */
  function WindowAt(t: Transfer, offset: nat, window: nat, w: World): seq<byte> {
    var file := Content(w, t.pathname);
    var end := Min(Min(offset + window, t.fileSize), |file|);
    if offset < end then file[offset..end] else []
  }

  /** Why the first section of a record stops a decode, if it does: the captured
      object is not there, the file ends before the record, or no record decodes
      inside the window. */
  function ReadReason(codec: Codec, window: nat, t: Transfer, offset: nat, w: World): Option<Errno> {
    var bytes := WindowAt(t, offset, window, w);
    if ChangeReason(t, w).Some? then ChangeReason(t, w)
    else if bytes == [] then Some(EIO)
    else if codec.request(bytes).length <= 0 || codec.request(bytes).length > |bytes| then Some(EBADMSG)
    else None
  }

  /** Why the second section stops it: the captured object is not there, the type
      is not supported, or the initial values are bad. */
  function CheckReason(codec: Codec, t: Transfer, r: Request, w: World): Option<Errno> {
    if ChangeReason(t, w).Some? then ChangeReason(t, w)
    else if r.objectType !in w.supported then Some(ENOTSUP)
    else if r.used < 0 || r.used > |r.buffer| || Scan(codec.initial, r.buffer[..r.used], 0).None? then Some(EBADMSG)
    else None
  }

  lemma ReadOutcome(codec: Codec, window: nat, memory: bool, t: Transfer, records: seq<Piece<Request>>,
                    offset: nat, w: World)
    requires offset < t.fileSize
    ensures var d := DecodeProgram(codec, window, memory).Advance(Reading(t, records, offset), w);
      var reason := ReadReason(codec, window, t, offset, w);
      var r := codec.request(WindowAt(t, offset, window, w));
      if reason.Some? then d == Stopped(t, records, offset, Err(reason.value))
      else r.length > 0 && d == Checking(t, records, offset, Piece(offset, r.length, r.item))
  {
    hide TransferRead, Slice;
    var n := Min(t.fileSize - offset, window);
    ReadIsFromTheCapturedFile(t, w, offset, n);
    WindowIsSlice(t, offset, window, w);
    AfterRead(codec, t, records, offset, window, memory, w);
  }

  lemma WindowIsSlice(t: Transfer, offset: nat, window: nat, w: World)
    requires offset < t.fileSize
    ensures Slice(Content(w, t.pathname), offset, Min(t.fileSize - offset, window)) == WindowAt(t, offset, window, w)
  {
    SliceBytes(Content(w, t.pathname), offset, Min(t.fileSize - offset, window));
  }

  lemma CheckOutcome(codec: Codec, window: nat, memory: bool, t: Transfer, records: seq<Piece<Request>>,
                     offset: nat, next: Piece<Request>, w: World)
    requires next.offset == offset
    ensures var d := DecodeProgram(codec, window, memory).Advance(Checking(t, records, offset, next), w);
      var reason := CheckReason(codec, t, next.item, w);
      var more, end := records + [next], offset + next.length;
      d == if reason.Some? then Stopped(t, records, offset, Err(reason.value))
           else if end < t.fileSize then Reading(t, more, end)
           else Stopped(t, more, end, Ok)
  {
    hide Scan;
    ReadIsFromTheCapturedFile(t, w, 0, 0);
    AfterCheck(codec, t, records, next, window, memory, w);
  }

  /** The section over this world stops the decode with this error. */
  predicate StopsOver(codec: Codec, window: nat, d: Decode, w: World, error: Errno) {
    || (d.Reading? && ReadReason(codec, window, d.transfer, d.offset, w) == Some(error))
    || (d.Checking? && CheckReason(codec, d.transfer, d.next.item, w) == Some(error))
  }

  predicate StopsAt(codec: Codec, window: nat, memory: bool, instance: uint32, worlds: seq<World>, j: nat, error: Errno)
    requires j < |worlds|
  {
    var d := DecodeProgram(codec, window, memory).Fold(Opening(instance), worlds[..j]);
    StopsOver(codec, window, d, worlds[j], error)
  }

  /** Exactly when a decode that opened its file stops with an error: the section
      over some world found that reason. */
  lemma {:induction false} StopsExactly(
      codec: Codec, window: nat, memory: bool, instance: uint32, worlds: seq<World>, error: Errno)
    ensures var d := DecodeProgram(codec, window, memory).Fold(Opening(instance), worlds);
      d.Stopped? && d.status == Err(error) <==>
      exists j: nat :: j < |worlds| && StopsAt(codec, window, memory, instance, worlds, j, error)
    decreases |worlds|
  {
    hide Program.Advance, DecodeProgram, StopsOver, StopsAt, DecodeInv;
    var p := DecodeProgram(codec, window, memory);
    if worlds == [] {
      NothingHandled(codec, window, memory, instance);
    } else {
      var n := |worlds| - 1;
      var front, w := worlds[..n], worlds[n];
      StopsExactly(codec, window, memory, instance, front, error);
      FoldKeepsInv(codec, window, memory, instance, front);
      var d := p.Fold(Opening(instance), front);
      LastSectionStops(codec, window, memory, instance, front, d, w, error);
      forall j: nat | j < n
        ensures StopsAt(codec, window, memory, instance, front, j, error)
           <==> StopsAt(codec, window, memory, instance, worlds, j, error)
      {
        EarlierSectionStops(codec, window, memory, instance, worlds, n, j, error);
      }
      assert StopsAt(codec, window, memory, instance, worlds, n, error) <==> StopsOver(codec, window, d, w, error) by {
        LastSectionIs(codec, window, memory, instance, worlds, error);
      }
    }
  }

  lemma NothingHandled(codec: Codec, window: nat, memory: bool, instance: uint32)
    ensures DecodeProgram(codec, window, memory).Fold(Opening(instance), []) == Opening(instance)
  {
  }

  lemma EarlierSectionStops(
      codec: Codec, window: nat, memory: bool, instance: uint32, worlds: seq<World>, n: nat, j: nat, error: Errno)
    requires j < n <= |worlds|
    ensures StopsAt(codec, window, memory, instance, worlds[..n], j, error)
       <==> StopsAt(codec, window, memory, instance, worlds, j, error)
  {
    hide StopsOver, Program.Fold, DecodeProgram;
    assert worlds[..n][..j] == worlds[..j];
  }

  lemma LastSectionIs(
      codec: Codec, window: nat, memory: bool, instance: uint32, worlds: seq<World>, error: Errno)
    requires worlds != []
    ensures var n := |worlds| - 1;
      var d := DecodeProgram(codec, window, memory).Fold(Opening(instance), worlds[..n]);
      StopsAt(codec, window, memory, instance, worlds, n, error) <==> StopsOver(codec, window, d, worlds[n], error)
  {
    hide StopsOver, Program.Fold, DecodeProgram;
  }

  lemma LastSectionStops(
      codec: Codec, window: nat, memory: bool, instance: uint32, worlds: seq<World>, d: Decode, w: World, error: Errno)
    requires DecodeInv(codec, window, memory, instance, worlds, d)
    ensures var after := DecodeProgram(codec, window, memory).Advance(d, w);
      after.Stopped? && after.status == Err(error) <==>
      ((d.Stopped? && d.status == Err(error)) || StopsOver(codec, window, d, w, error))
  {
    hide Program.Advance, DecodeProgram, ReadReason, CheckReason, BackupCapture, AllFound, Chained, IsBackupFile;
    match d
    case Opening(i) => AfterCapture(codec, i, window, memory, w);
    case Reading(t, records, offset) => ReadOutcome(codec, window, memory, t, records, offset, w);
    case Checking(t, records, offset, next) => CheckOutcome(codec, window, memory, t, records, offset, next, w);
    case _ => FinishedAdvances(codec, window, memory, d, w);
  }

  lemma FinishedAdvances(codec: Codec, window: nat, memory: bool, d: Decode, w: World)
    requires d.Rejected? || d.Stopped?
    ensures DecodeProgram(codec, window, memory).Advance(d, w) == d
  {
    hide Digest, SampleWorld;
    FinishedStays(codec, window, memory, d, w);
  }

  /** A decode is finished once it has handled enough worlds, whatever they are. */
  lemma DecodeFinishes(codec: Codec, window: nat, memory: bool, instance: uint32, worlds: seq<World>)
    requires |worlds| > 2 * INT32_MAX + 3
    ensures var d := DecodeProgram(codec, window, memory).Fold(Opening(instance), worlds); d.Rejected? || d.Stopped?
  {
    hide Digest, SampleWorld;
    var p := DecodeProgram(codec, window, memory);
    forall d: Decode, w: World | !p.finished(d)
      ensures Rank(p.Advance(d, w)) < Rank(d)
    {
      PassLowersRank(codec, window, memory, d, w);
    }
    forall d: Decode, w: World | p.finished(d)
      ensures p.Advance(d, w) == d
    {
      FinishedStays(codec, window, memory, d, w);
    }
    FoldFinishes(p, Opening(instance), Rank, worlds);
  }

  lemma FinishedStays(codec: Codec, window: nat, memory: bool, d: Decode, w: World)
    requires d.Rejected? || d.Stopped?
    ensures Digest(codec, d, SampleWorld(d, window, memory, w)) == d
  {
  }
}
