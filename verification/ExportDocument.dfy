/** The JSON document the export command prints, and what a JSON reader makes
    of it. Texts are written as "this, followed by that tail". */
module ExportDocument {
  import opened Basics
  import opened Numerals
  import opened Json
  import opened FileWorld
  import opened Chunks
  import opened Crc32
  import opened FileExport

  /** One chunk entry, `{"instance":..,"offset":..,"data":".."}`. */
  function LineThen(instance: uint32, c: Chunk, tail: string): string {
    "{" + Member("instance", Dec(instance) + ("," +
      Member("offset", Dec(c.offset) + ("," +
        Member("data", "\"" + (Hex(c.data) + ("\"" + ("}" + tail))))))))
  }

  function Line(instance: uint32, c: Chunk): string {
    LineThen(instance, c, "")
  }

  /** A comma unless the chunk reaches the captured size, and the newline. */
  function Separator(t: Transfer, c: Chunk): string {
    if c.offset + |c.data| < t.fileSize then ",\n" else "\n"
  }

  function LinesThen(t: Transfer, chunks: seq<Chunk>, tail: string): string
    decreases |chunks|
  {
    if chunks == [] then tail
    else
      var last := chunks[|chunks| - 1];
      LinesThen(t, chunks[..|chunks| - 1], LineThen(t.instance, last, Separator(t, last) + tail))
  }

  function HeaderThen(t: Transfer, tail: string): string {
    "{\n" + Member("instance", Dec(t.instance) + (",\n" +
      Member("name", Quote(t.name) + (",\n" +
        Member("mime_type", Quote(t.mimeType) + (",\n" +
          Member("size", Dec(t.fileSize) + (",\n" +
            Member("read_only", BoolText(t.readOnly) + (",\n" +
              Member("data", "[\n" + tail)))))))))))
  }

  /** `%08x` of the register. */
  function CrcText(crc: Register): string {
    HexFixed(Number(crc), 8)
  }

  function Footer(crc: Register): string {
    "],\n" + Member("crc32", "\"" + (CrcText(crc) + ("\"" + "\n}\n")))
  }

  /** Everything an export has printed, apart from error messages. */
  function Output(e: Export): string {
    match e
    case Opening(_) => ""
    case Rejected(_) => ""
    case Copying(t, chunks, _) => HeaderThen(t, LinesThen(t, chunks, ""))
    case Stopped(t, chunks, crc, status) =>
      HeaderThen(t, LinesThen(t, chunks, if status == Ok then Footer(crc) else ""))
  }

  // ----- texts grow at their tail -----

  lemma MemberGrows(key: string, text: string, more: string)
    ensures Member(key, text + more) == Member(key, text) + more
  {
  }

  lemma LineGrows(instance: uint32, c: Chunk, tail: string)
    ensures LineThen(instance, c, tail) == Line(instance, c) + tail
  {
  }

  lemma {:induction false} LinesGrow(t: Transfer, chunks: seq<Chunk>, tail: string)
    ensures LinesThen(t, chunks, tail) == LinesThen(t, chunks, "") + tail
    decreases |chunks|
  {
    hide LineThen;
    if chunks != [] {
      var front, last := chunks[..|chunks| - 1], chunks[|chunks| - 1];
      LinesGrow(t, front, LineThen(t.instance, last, Separator(t, last) + tail));
      LinesGrow(t, front, LineThen(t.instance, last, Separator(t, last) + ""));
      LineGrows(t.instance, last, Separator(t, last) + tail);
      LineGrows(t.instance, last, Separator(t, last) + "");
    }
  }

  lemma LinesSnoc(t: Transfer, chunks: seq<Chunk>, c: Chunk)
    ensures LinesThen(t, chunks + [c], "") == LinesThen(t, chunks, "") + (Line(t.instance, c) + Separator(t, c))
  {
    hide LineThen;
    assert (chunks + [c])[..|chunks|] == chunks;
    LinesGrow(t, chunks, LineThen(t.instance, c, Separator(t, c) + ""));
    LineGrows(t.instance, c, Separator(t, c) + "");
    assert Separator(t, c) + "" == Separator(t, c);
  }

  lemma NothingYet(t: Transfer)
    ensures Concat([]) == [] && LinesThen(t, [], "") == ""
  {
  }

  lemma HeaderGrows(t: Transfer, tail: string)
    ensures HeaderThen(t, tail) == HeaderThen(t, "") + tail
  {
    hide Dec, Quote, BoolText;
    var d := "[\n" + "";
    assert "[\n" + tail == d + tail;
    MemberGrows("data", d, tail);
    var r := BoolText(t.readOnly) + (",\n" + Member("data", d));
    assert BoolText(t.readOnly) + (",\n" + (Member("data", d) + tail)) == r + tail;
    MemberGrows("read_only", r, tail);
    var s := Dec(t.fileSize) + (",\n" + Member("read_only", r));
    assert Dec(t.fileSize) + (",\n" + (Member("read_only", r) + tail)) == s + tail;
    MemberGrows("size", s, tail);
    var m := Quote(t.mimeType) + (",\n" + Member("size", s));
    assert Quote(t.mimeType) + (",\n" + (Member("size", s) + tail)) == m + tail;
    MemberGrows("mime_type", m, tail);
    var n := Quote(t.name) + (",\n" + Member("mime_type", m));
    assert Quote(t.name) + (",\n" + (Member("mime_type", m) + tail)) == n + tail;
    MemberGrows("name", n, tail);
    var i := Dec(t.instance) + (",\n" + Member("name", n));
    assert Dec(t.instance) + (",\n" + (Member("name", n) + tail)) == i + tail;
    MemberGrows("instance", i, tail);
  }

  /** The document as it is printed: header, entries, footer, onto whatever the
      console already shows. */
  lemma OutputAppends(t: Transfer, chunks: seq<Chunk>, crc: Register, status: Status, console: string)
    ensures console + Output(Stopped(t, chunks, crc, status))
         == ((console + HeaderThen(t, "")) + LinesThen(t, chunks, "")) + (if status == Ok then Footer(crc) else "")
  {
    hide HeaderThen, LinesThen, Footer;
    var end := if status == Ok then Footer(crc) else "";
    var lines := LinesThen(t, chunks, "");
    LinesGrow(t, chunks, end);
    HeaderGrows(t, lines + end);
    assert (console + HeaderThen(t, "")) + (lines + end) == ((console + HeaderThen(t, "")) + lines) + end;
    assert console + (HeaderThen(t, "") + (lines + end)) == (console + HeaderThen(t, "")) + (lines + end);
  }

  // ----- reading the document -----

  function ChunkValue(instance: uint32, c: Chunk): Json {
    Object([("instance", Numeral(Dec(instance))), ("offset", Numeral(Dec(c.offset))),
            ("data", String(Hex(c.data)))])
  }

  function ChunkValues(instance: uint32, chunks: seq<Chunk>): seq<Json> {
    seq(|chunks|, i requires 0 <= i < |chunks| => ChunkValue(instance, chunks[i]))
  }

  function DocumentValue(t: Transfer, chunks: seq<Chunk>, crc: Register): Json {
    Object(Metadata(t) + [("data", Array(ChunkValues(t.instance, chunks))), ("crc32", String(CrcText(crc)))])
  }

  lemma ReadPlain(value: string, rest: string)
    requires IsPlain(value)
    ensures ReadValue("\"" + (value + ("\"" + rest))) == Some((String(value), rest))
  {
    hide ReadValue;
    EscapePlain(value);
    ReadQuoted(value, rest);
    assert Quote(value) + rest == "\"" + (value + ("\"" + rest));
  }

  lemma HexIsPlain(data: seq<byte>)
    ensures IsPlain(Hex(data))
  {
  }

  lemma MemberStarts(key: string, text: string)
    ensures Member(key, text) != "" && Member(key, text)[0] == '"'
  {
  }

  lemma ReadDataMember(c: Chunk, tail: string)
    ensures ReadMembers(Member("data", "\"" + (Hex(c.data) + ("\"" + ("}" + tail)))))
         == Some(([("data", String(Hex(c.data)))], tail))
  {
    hide Hex, ReadValue, ReadMembers, Member;
    var hex, after := Hex(c.data), "}" + tail;
    HexIsPlain(c.data);
    ReadPlain(hex, after);
    assert SkipSpace(after) == after && after[1..] == tail;
    ReadMemberLast("data", "\"" + (hex + ("\"" + after)), String(hex), after);
  }

  /** A printed chunk entry is a JSON object with its three fields. */
  lemma ReadLine(instance: uint32, c: Chunk, tail: string)
    ensures ReadValue(LineThen(instance, c, tail)) == Some((ChunkValue(instance, c), tail))
  {
    hide Hex, ReadValue, ReadMembers, Member, Dec;
    var ms3 := [("data", String(Hex(c.data)))];
    var m3 := Member("data", "\"" + (Hex(c.data) + ("\"" + ("}" + tail))));
    ReadDataMember(c, tail);
    var ms2 := [("offset", Numeral(Dec(c.offset)))] + ms3;
    var m2 := Member("offset", Dec(c.offset) + ("," + m3));
    ReadNumberMember("offset", c.offset, ",", m3, ms3, tail);
    var ms1 := [("instance", Numeral(Dec(instance)))] + ms2;
    var m1 := Member("instance", Dec(instance) + ("," + m2));
    ReadNumberMember("instance", instance, ",", m2, ms2, tail);
    MemberStarts("instance", Dec(instance) + ("," + m2));
    ReadObject(m1, ms1, tail);
    assert ms1 == ChunkValue(instance, c).members;
  }

  lemma ReadObject(members: string, ms: seq<(string, Json)>, rest: string)
    requires members != "" && members[0] == '"' && ReadMembers(members) == Some((ms, rest))
    ensures ReadValue("{" + members) == Some((Object(ms), rest))
  {
    hide ReadMembers, ReadBody;
    var s := "{" + members;
    assert SkipSpace(s) == s && s[1..] == members && SkipSpace(members) == members;
  }

  /** `"key":value`, a separator whose first character is a comma, then members. */
  lemma ReadMemberAndMore(key: string, valueText: string, v: Json, comma: string, more: string,
                          ms: seq<(string, Json)>, rest: string)
    requires IsPlain(key) && (comma == "," || comma == ",\n")
    requires ReadValue(valueText + (comma + more)) == Some((v, comma + more))
    requires ReadMembers(more) == Some((ms, rest))
    ensures ReadMembers(Member(key, valueText + (comma + more))) == Some(([(key, v)] + ms, rest))
  {
    hide ReadValue, Member;
    var after := comma + more;
    assert after[0] == ',' && SkipSpace(after) == after;
    if comma == "," {
      assert after[1..] == more;
    } else {
      assert after[1..] == "\n" + more;
      ReadMembersSpace(more);
    }
    ReadMemberThen(key, valueText + after, v, after, ms, rest);
  }

  lemma ReadMembersSpace(s: string)
    ensures ReadMembers("\n" + s) == ReadMembers(s)
  {
  }

  lemma ReadElementsSpace(s: string)
    ensures ReadElements("\n" + s) == ReadElements(s)
  {
    assert ("\n" + s)[1..] == s;
    assert SkipSpace("\n" + s) == SkipSpace(s);
    assert ReadValue("\n" + s) == ReadValue(s);
  }

  lemma ReadNumberMember(key: string, n: nat, comma: string, more: string, ms: seq<(string, Json)>, rest: string)
    requires IsPlain(key) && (comma == "," || comma == ",\n")
    requires ReadMembers(more) == Some((ms, rest))
    ensures ReadMembers(Member(key, Dec(n) + (comma + more))) == Some(([(key, Numeral(Dec(n)))] + ms, rest))
  {
    hide ReadValue, ReadMembers, Dec, Member;
    assert (comma + more)[0] == ',';
    ReadDec(n, comma + more);
    ReadMemberAndMore(key, Dec(n), Numeral(Dec(n)), comma, more, ms, rest);
  }

  /** Entries that each end in a comma, in front of readable elements. */
  lemma {:induction false} ReadLines(t: Transfer, chunks: seq<Chunk>, tail: string, vs: seq<Json>, rest: string)
    requires forall i :: 0 <= i < |chunks| ==> chunks[i].offset + |chunks[i].data| < t.fileSize
    requires ReadElements(tail) == Some((vs, rest))
    ensures ReadElements(LinesThen(t, chunks, tail)) == Some((ChunkValues(t.instance, chunks) + vs, rest))
    decreases |chunks|
  {
    hide ReadElements, LineThen, ChunkValue;
    if chunks == [] {
      assert ChunkValues(t.instance, chunks) + vs == vs;
    } else {
      var front, last := chunks[..|chunks| - 1], chunks[|chunks| - 1];
      var v := ChunkValue(t.instance, last);
      ReadLineComma(t.instance, last, tail, vs, rest);
      ReadLines(t, front, LineThen(t.instance, last, ",\n" + tail), [v] + vs, rest);
      assert ChunkValues(t.instance, chunks) + vs == ChunkValues(t.instance, front) + ([v] + vs);
    }
  }

  lemma ReadLineComma(instance: uint32, c: Chunk, tail: string, vs: seq<Json>, rest: string)
    requires ReadElements(tail) == Some((vs, rest))
    ensures ReadElements(LineThen(instance, c, ",\n" + tail)) == Some(([ChunkValue(instance, c)] + vs, rest))
  {
    hide LineThen, ChunkValue, ReadValue;
    var after := ",\n" + tail;
    ReadLine(instance, c, after);
    assert SkipSpace(after) == after && after[1..] == "\n" + tail;
    ReadElementsSpace(tail);
  }

  lemma ReadLineLast(instance: uint32, c: Chunk, tail: string)
    ensures ReadElements(LineThen(instance, c, "\n" + ("]" + tail))) == Some(([ChunkValue(instance, c)], tail))
  {
    hide LineThen, ChunkValue, ReadValue;
    var after := "\n" + ("]" + tail);
    ReadLine(instance, c, after);
    assert after[1..] == "]" + tail && SkipSpace(after) == "]" + tail;
  }

  /** Every chunk but the last ends before the captured size. */
  lemma {:induction false} EarlierChunksEndEarlier(chunks: seq<Chunk>, chunkSize: nat)
    requires Tiles(chunks, 0, chunkSize)
    ensures forall i :: 0 <= i < |chunks| ==> chunks[i].offset + |chunks[i].data| <= |Concat(chunks)|
    ensures forall i :: 0 <= i < |chunks| - 1 ==> chunks[i].offset + |chunks[i].data| < |Concat(chunks)|
    decreases |chunks|
  {
    if chunks != [] {
      var front := chunks[..|chunks| - 1];
      EarlierChunksEndEarlier(front, chunkSize);
      forall i | 0 <= i < |chunks| - 1
        ensures chunks[i].offset + |chunks[i].data| < |Concat(chunks)|
      {
        assert front[i] == chunks[i];
      }
    }
  }

  lemma LastLine(t: Transfer, chunks: seq<Chunk>, tail: string)
    requires chunks != [] && chunks[|chunks| - 1].offset + |chunks[|chunks| - 1].data| == t.fileSize
    ensures var front, last := chunks[..|chunks| - 1], chunks[|chunks| - 1];
      LinesThen(t, chunks, tail) == LinesThen(t, front, LineThen(t.instance, last, "\n" + tail))
  {
  }

  /** The data array of a finished export, with one comma between entries and
      none after the last. */
  lemma ReadData(t: Transfer, chunks: seq<Chunk>, chunkSize: nat, tail: string)
    requires Tiles(chunks, 0, chunkSize) && |Concat(chunks)| == t.fileSize
    ensures ReadValue("[\n" + LinesThen(t, chunks, "]" + tail)) == Some((Array(ChunkValues(t.instance, chunks)), tail))
  {
    hide LineThen, ChunkValue, Separator;
    var body := LinesThen(t, chunks, "]" + tail);
    var s := "[\n" + body;
    assert s[1..] == "\n" + body;
    assert SkipSpace(s) == s && ("\n" + body)[1..] == body;
    if chunks == [] {
      assert SkipSpace("\n" + body) == "]" + tail;
      assert ChunkValues(t.instance, chunks) == [];
    } else {
      var front, last := chunks[..|chunks| - 1], chunks[|chunks| - 1];
      EarlierChunksEndEarlier(chunks, chunkSize);
      LastLine(t, chunks, "]" + tail);
      ReadLineLast(t.instance, last, tail);
      forall i | 0 <= i < |front|
        ensures front[i].offset + |front[i].data| < t.fileSize
      {
        assert front[i] == chunks[i];
      }
      ReadLines(t, front, LineThen(t.instance, last, "\n" + ("]" + tail)), [ChunkValue(t.instance, last)], tail);
      assert ChunkValues(t.instance, front) + [ChunkValue(t.instance, last)] == ChunkValues(t.instance, chunks);
      ReadElementsSpace(body);
      LineStartsWithBrace(t.instance, last, "\n" + ("]" + tail));
      LinesStartWithBrace(t, front, LineThen(t.instance, last, "\n" + ("]" + tail)));
    }
  }

  lemma LineStartsWithBrace(instance: uint32, c: Chunk, tail: string)
    ensures LineThen(instance, c, tail) != "" && LineThen(instance, c, tail)[0] == '{'
  {
  }

  lemma {:induction false} LinesStartWithBrace(t: Transfer, chunks: seq<Chunk>, tail: string)
    requires tail != "" && tail[0] == '{'
    ensures LinesThen(t, chunks, tail) != "" && LinesThen(t, chunks, tail)[0] == '{'
    decreases |chunks|
  {
    if chunks != [] {
      var last := chunks[|chunks| - 1];
      LinesStartWithBrace(t, chunks[..|chunks| - 1], LineThen(t.instance, last, Separator(t, last) + tail));
    }
  }

  lemma CrcTextIsPlain(crc: Register)
    ensures |CrcText(crc)| == 8 && IsPlain(CrcText(crc))
    ensures HexValue(CrcText(crc)) == Some(Number(crc))
  {
    NumberBound(crc);
    Powers();
    HexFixedRoundTrip(Number(crc), 8);
  }

  lemma Powers()
    ensures Pow2(32) == Pow16(8)
  {
    assert Pow2(8) == Pow16(2) && Pow2(16) == Pow16(4);
    assert Pow2(24) == Pow16(6);
    assert Pow2(32) == Pow16(8);
  }

  lemma ReadFooter(crc: Register)
    ensures ReadMembers("\n" + Member("crc32", "\"" + (CrcText(crc) + ("\"" + "\n}\n"))))
         == Some(([("crc32", String(CrcText(crc)))], "\n"))
  {
    hide ReadValue, Member, CrcText;
    CrcTextIsPlain(crc);
    ReadPlain(CrcText(crc), "\n}\n");
    var after := "\n}\n";
    assert after[1..] == "}\n" && SkipSpace(after) == "}\n" && "}\n"[1..] == "\n";
    ReadMemberLast("crc32", "\"" + (CrcText(crc) + ("\"" + after)), String(CrcText(crc)), after);
    ReadMembersSpace(Member("crc32", "\"" + (CrcText(crc) + ("\"" + after))));
  }

  function Metadata(t: Transfer): seq<(string, Json)> {
    [("instance", Numeral(Dec(t.instance))), ("name", String(t.name)), ("mime_type", String(t.mimeType)),
     ("size", Numeral(Dec(t.fileSize))), ("read_only", Bool(t.readOnly))]
  }

  /** The header in front of a readable data member reads as the captured
      metadata. */
  lemma ReadHeader(t: Transfer, tail: string, ms6: seq<(string, Json)>, rest: string)
    requires ReadMembers(Member("data", "[\n" + tail)) == Some((ms6, rest))
    ensures ReadValue(HeaderThen(t, tail)) == Some((Object(Metadata(t) + ms6), rest))
  {
    hide ReadValue, ReadMembers, Member, Quote, Dec, BoolText;
    var m6 := Member("data", "[\n" + tail);
    ReadBool(t.readOnly, ",\n" + m6);
    ReadMemberAndMore("read_only", BoolText(t.readOnly), Bool(t.readOnly), ",\n", m6, ms6, rest);
    var m5, ms5 := Member("read_only", BoolText(t.readOnly) + (",\n" + m6)), [("read_only", Bool(t.readOnly))] + ms6;
    ReadNumberMember("size", t.fileSize, ",\n", m5, ms5, rest);
    var m4, ms4 := Member("size", Dec(t.fileSize) + (",\n" + m5)), [("size", Numeral(Dec(t.fileSize)))] + ms5;
    ReadQuoted(t.mimeType, ",\n" + m4);
    ReadMemberAndMore("mime_type", Quote(t.mimeType), String(t.mimeType), ",\n", m4, ms4, rest);
    var m3, ms3 := Member("mime_type", Quote(t.mimeType) + (",\n" + m4)), [("mime_type", String(t.mimeType))] + ms4;
    ReadQuoted(t.name, ",\n" + m3);
    ReadMemberAndMore("name", Quote(t.name), String(t.name), ",\n", m3, ms3, rest);
    var m2, ms2 := Member("name", Quote(t.name) + (",\n" + m3)), [("name", String(t.name))] + ms3;
    ReadNumberMember("instance", t.instance, ",\n", m2, ms2, rest);
    var m1 := Member("instance", Dec(t.instance) + (",\n" + m2));
    MemberStarts("instance", Dec(t.instance) + (",\n" + m2));
    ReadBrokenObject(m1, [("instance", Numeral(Dec(t.instance)))] + ms2, rest);
    assert [("instance", Numeral(Dec(t.instance)))] + ms2 == Metadata(t) + ms6;
  }

  /** The whole document of an export that returned 0 is one JSON object with
      the captured metadata, every chunk, and the CRC. */
  lemma ReadDocument(t: Transfer, chunks: seq<Chunk>, chunkSize: nat, crc: Register)
    requires Tiles(chunks, 0, chunkSize) && |Concat(chunks)| == t.fileSize
    ensures ReadText(Output(Stopped(t, chunks, crc, Ok))) == Some(DocumentValue(t, chunks, crc))
  {
    hide ReadValue, ReadMembers, LinesThen, Member, HeaderThen, CrcText, ChunkValues, Tiles, Concat;
    var last := Member("crc32", "\"" + (CrcText(crc) + ("\"" + "\n}\n")));
    var ms7 := [("crc32", String(CrcText(crc)))];
    ReadFooter(crc);
    var lines, dataValue := LinesThen(t, chunks, Footer(crc)), Array(ChunkValues(t.instance, chunks));
    var footTail := ",\n" + last;
    assert Footer(crc) == "]" + footTail;
    ReadData(t, chunks, chunkSize, footTail);
    assert SkipSpace(footTail) == footTail && footTail[1..] == "\n" + last;
    ReadMemberThen("data", "[\n" + lines, dataValue, footTail, ms7, "\n");
    ReadHeader(t, lines, [("data", dataValue)] + ms7, "\n");
    assert SkipSpace("\n") == "";
    assert Metadata(t) + ([("data", dataValue)] + ms7) == DocumentValue(t, chunks, crc).members;
  }

  lemma ReadBrokenObject(members: string, ms: seq<(string, Json)>, rest: string)
    requires members != "" && members[0] == '"' && ReadMembers(members) == Some((ms, rest))
    ensures ReadValue("{\n" + members) == Some((Object(ms), rest))
  {
    hide ReadMembers, ReadBody;
    var s := "{\n" + members;
    assert SkipSpace(s) == s && s[1..] == "\n" + members;
    assert ("\n" + members)[1..] == members && SkipSpace("\n" + members) == members;
    ReadMembersSpace(members);
  }
}
