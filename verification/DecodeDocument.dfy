/** What a JSON reader makes of the records the decode command prints. */
module DecodeDocument {
  import opened Basics
  import opened Numerals
  import opened Json
  import opened JsonContext
  import opened Records
  import opened DecodeText
  import opened FileDecode

  /** The text is one value wherever a value ends behind it. */
  ghost predicate ReadsIn(text: string, v: Json) {
    forall rest :: EndsValue(rest) ==> ReadValue(text + rest) == Some((v, rest))
  }

  /** The same for the texts of some objects. */
  ghost predicate ObjectsRead(texts: seq<string>, vs: seq<Json>) {
    && |texts| == |vs|
    && forall i :: 0 <= i < |texts| ==> texts[i] != "" && texts[i][0] == '{' && ReadsIn(texts[i], vs[i])
  }

  // ----- arrays -----

  lemma {:induction false} JoinReads(texts: seq<string>, vs: seq<Json>, tail: string)
    requires ObjectsRead(texts, vs) && texts != [] && EndsValue(tail) && AfterElement(tail).Some?
    ensures ReadElements(Join(texts) + tail) == Some((vs + AfterElement(tail).value.0, AfterElement(tail).value.1))
    decreases |texts|
  {
    hide ReadValue, ReadElements, ReadsIn;
    var n := |texts| - 1;
    var front, last := texts[..n], texts[n];
    var (ws, after) := AfterElement(tail).value;
    LastReads(last, vs[n], tail);
    if n == 0 {
      assert [vs[0]] + ws == vs + ws;
    } else {
      var more := "," + (last + tail);
      assert Join(texts) + tail == Join(front) + more;
      assert more[1..] == last + tail;
      JoinReads(front, vs[..n], more);
      assert vs[..n] + ([vs[n]] + ws) == vs + ws;
    }
  }

  lemma LastReads(text: string, v: Json, tail: string)
    requires ReadsIn(text, v) && EndsValue(tail)
    ensures ReadElements(text + tail) == InFront(v, AfterElement(tail))
  {
    hide ReadValue, ReadElements;
    ElementsOf(text + tail);
    assert SkipSpace(tail) == tail;
  }

  lemma ArrayReads(texts: seq<string>, vs: seq<Json>)
    requires ObjectsRead(texts, vs)
    ensures ReadsIn("[" + (Join(texts) + "]"), Array(vs))
  {
    hide ReadElements, ReadValue, ReadsIn, EndsValue;
    forall rest | EndsValue(rest)
      ensures ReadValue("[" + (Join(texts) + "]") + rest) == Some((Array(vs), rest))
    {
      var body, tail := Join(texts) + ("]" + rest), "]" + rest;
      assert "[" + (Join(texts) + "]") + rest == "[" + body;
      assert tail[1..] == rest;
      BracketEndsValue(rest);
      if texts == [] {
        assert body == tail;
        EmptyArray(rest);
      } else {
        JoinReads(texts, vs, tail);
        assert vs + [] == vs;
        JoinStarts(texts, tail);
        ArrayBody(body);
      }
    }
    ReadsInBy("[" + (Join(texts) + "]"), Array(vs));
  }

  lemma ReadsInBy(text: string, v: Json)
    requires forall rest :: EndsValue(rest) ==> ReadValue(text + rest) == Some((v, rest))
    ensures ReadsIn(text, v)
  {
  }

  lemma BracketEndsValue(rest: string)
    ensures EndsValue("]" + rest)
  {
  }

  lemma EmptyArray(rest: string)
    ensures ReadValue("[" + ("]" + rest)) == Some((Array([]), rest))
  {
    hide ReadNumber, ReadBody, ReadElements, ReadMembers;
    assert ("[" + ("]" + rest))[1..] == "]" + rest && ("]" + rest)[1..] == rest;
  }

  lemma {:induction false} JoinStarts(texts: seq<string>, tail: string)
    requires texts != [] && forall i :: 0 <= i < |texts| ==> texts[i] != "" && texts[i][0] == '{'
    ensures Join(texts) != "" && Join(texts)[0] == '{' && (Join(texts) + tail)[0] == '{'
    decreases |texts|
  {
    if |texts| > 1 { JoinStarts(texts[..|texts| - 1], tail); }
  }

  lemma ArrayBody(body: string)
    requires body != "" && body[0] == '{'
    ensures ReadValue("[" + body) ==
      match ReadElements(body) case None => None case Some((vs, rest)) => Some((Array(vs), rest))
  {
    hide ReadNumber, ReadBody, ReadElements, ReadMembers;
    assert ("[" + body)[1..] == body;
  }

  // ----- objects -----

  lemma ObjectBody(members: string)
    requires members != "" && members[0] == '"'
    ensures ReadValue("{" + members) ==
      match ReadMembers(members) case None => None case Some((ms, rest)) => Some((Object(ms), rest))
  {
    hide ReadNumber, ReadBody, ReadElements, ReadMembers;
    assert ("{" + members)[1..] == members;
  }

  /** The printed members of an object read as these. */
  ghost predicate FieldsRead(f: Fields, ms: seq<(string, Json)>) {
    forall after :: ReadMembers(FieldsText(f) + ("}" + after)) == Some((ms, after))
  }

  lemma LastField(key: string, text: string, v: Json)
    requires IsPlain(key) && ReadsIn(text, v)
    ensures FieldsRead(Last(key, text), [(key, v)])
  {
    hide ReadValue, ReadMembers;
    forall after
      ensures ReadMembers(FieldsText(Last(key, text)) + ("}" + after)) == Some(([(key, v)], after))
    {
      var rest := "}" + after;
      assert rest[1..] == after && SkipSpace(rest) == rest;
      ReadMemberLast(key, text + rest, v, rest);
      assert Member(key, text) + rest == Member(key, text + rest);
    }
  }

  lemma MoreFields(key: string, text: string, v: Json, f: Fields, ms: seq<(string, Json)>)
    requires IsPlain(key) && ReadsIn(text, v) && FieldsRead(f, ms)
    ensures FieldsRead(More(key, text, f), [(key, v)] + ms)
  {
    hide ReadValue, ReadMembers;
    forall after
      ensures ReadMembers(FieldsText(More(key, text, f)) + ("}" + after)) == Some(([(key, v)] + ms, after))
    {
      var more := FieldsText(f) + ("}" + after);
      var rest := "," + more;
      assert rest[1..] == more && SkipSpace(rest) == rest;
      ReadMemberThen(key, text + rest, v, rest, ms, after);
      assert FieldsText(More(key, text, f)) + ("}" + after) == Member(key, text + rest);
    }
  }

  lemma ObjectReads(f: Fields, ms: seq<(string, Json)>)
    requires FieldsRead(f, ms)
    ensures ReadsIn(ObjectText(f), Object(ms)) && ObjectText(f) != "" && ObjectText(f)[0] == '{'
    ensures ReadText(ObjectText(f) + "\n") == Some(Object(ms))
  {
    hide ReadValue, ReadMembers;
    forall rest
      ensures ReadValue(ObjectText(f) + rest) == Some((Object(ms), rest))
    {
      var members := FieldsText(f) + ("}" + rest);
      assert ObjectText(f) + rest == "{" + members;
      FieldsStart(f);
      ObjectBody(members);
    }
    assert SkipSpace("\n") == "";
  }

  lemma FieldsStart(f: Fields)
    ensures FieldsText(f) != "" && FieldsText(f)[0] == '"'
  {
  }

  lemma Two<T>(a: T, b: T)
    ensures [a] + [b] == [a, b]
  {
  }

  lemma Three<T>(a: T, b: T, c: T)
    ensures [a] + ([b] + [c]) == [a, b, c]
  {
  }

  lemma Four<T>(a: T, b: T, c: T, d: T)
    ensures [a] + ([b] + ([c] + [d])) == [a, b, c, d]
  {
  }

  lemma Five<T>(a: T, b: T, c: T, d: T, e: T)
    ensures [a] + ([b] + ([c] + ([d] + [e]))) == [a, b, c, d, e]
  {
  }

  lemma TwoFields(k1: string, t1: string, v1: Json, k2: string, t2: string, v2: Json)
    requires IsPlain(k1) && IsPlain(k2) && ReadsIn(t1, v1) && ReadsIn(t2, v2)
    ensures FieldsRead(More(k1, t1, Last(k2, t2)), [(k1, v1), (k2, v2)])
  {
    hide FieldsRead, ReadsIn;
    LastField(k2, t2, v2);
    MoreFields(k1, t1, v1, Last(k2, t2), [(k2, v2)]);
    Two((k1, v1), (k2, v2));
  }

  // ----- scalars -----

  lemma NumberReadsIn(n: nat)
    ensures ReadsIn(Dec(n), Numeral(Dec(n)))
  {
    hide ReadValue, Dec;
    forall rest | EndsValue(rest)
      ensures ReadValue(Dec(n) + rest) == Some((Numeral(Dec(n)), rest))
    {
      ReadDec(n, rest);
    }
  }

  lemma StringReadsIn(s: Text)
    ensures ReadsIn(Quote(s), String(s))
  {
    hide ReadValue, Quote;
    forall rest | EndsValue(rest)
      ensures ReadValue(Quote(s) + rest) == Some((String(s), rest))
    {
      ReadQuoted(s, rest);
    }
  }

  lemma PlainReadsIn(s: string)
    requires IsPlain(s)
    ensures ReadsIn(Plain(s), String(s))
  {
    hide ReadValue;
    EscapePlain(s);
    assert Quote(s) == Plain(s);
    StringReadsIn(s);
  }

  lemma HexReadsIn(data: seq<byte>)
    ensures ReadsIn(Plain(Hex(data)), String(Hex(data)))
  {
    hide ReadsIn, Plain, Hex;
    HexChars(data);
    PlainReadsIn(Hex(data));
  }

  lemma NullReadsIn()
    ensures ReadsIn("null", Null)
  {
    hide ReadNumber, ReadBody, ReadElements, ReadMembers;
    forall rest
      ensures ReadValue("null" + rest) == Some((Null, rest))
    {
      var s := "null" + rest;
      assert s[4..] == rest && s[0] == 'n' && "true"[0] == 't' && "false"[0] == 'f';
    }
  }

  lemma BoolReadsIn(b: bool)
    ensures ReadsIn(BoolText(b), Bool(b))
  {
    hide ReadValue, BoolText;
    forall rest | EndsValue(rest)
      ensures ReadValue(BoolText(b) + rest) == Some((Bool(b), rest))
    {
      ReadBool(b, rest);
    }
  }

  function NumeralOrNull(n: nat, unspecified: nat): Json {
    if n == unspecified then Null else Numeral(Dec(n))
  }

  lemma OrNullReadsIn(n: nat, unspecified: nat)
    ensures ReadsIn(OrNull(n, unspecified), NumeralOrNull(n, unspecified))
  {
    hide ReadsIn, Dec;
    NumberReadsIn(n);
    NullReadsIn();
  }

  /** A number of RFC 8259. */
  predicate IsNumber(lexeme: string) {
    ReadNumber(lexeme) == Some((Numeral(lexeme), ""))
  }

  lemma LexemeReadsIn(lexeme: string)
    requires IsNumber(lexeme)
    ensures ReadsIn(lexeme, Numeral(lexeme))
  {
    hide ReadValue, ReadNumber;
    forall rest | EndsValue(rest)
      ensures ReadValue(lexeme + rest) == Some((Numeral(lexeme), rest))
    {
      NumberInContext(lexeme, rest);
      assert "" + rest == rest;
      NumberStarts(lexeme);
      assert (lexeme + rest)[0] == lexeme[0];
      ReadFromDigit(lexeme + rest);
    }
  }

  lemma NumberStarts(s: string)
    requires ReadNumber(s).Some?
    ensures s != "" && (IsDigit(s[0]) || s[0] == '-')
  {
    hide FractionLength, ExponentLength;
    assert s[0..] == s;
  }

  lemma SignedIsNumber(i: int)
    ensures IsNumber(SignedText(i))
  {
    hide Dec, NumberLength, ReadNumber;
    var n: nat := if i < 0 then -i else i;
    var s, digits := SignedText(i), Dec(n);
    DecRoundTrip(n);
    DecimalLength(n);
    NumberByLength(s);
    assert s[if i < 0 then 1 else 0..] == digits;
    assert s[..|s|] == s;
  }

  lemma DecimalLength(n: nat)
    ensures NumberLength(Dec(n)) == Some(|Dec(n)|)
  {
    hide Dec;
    var digits := Dec(n);
    DecRoundTrip(n);
    DigitSpanIs(digits, "");
    assert digits + "" == digits && digits[|digits|..] == "";
  }

  // ----- application values -----

  /** What a printed application value reads as. */
  function ValueMembers(names: Names, v: ApplicationValue): seq<(string, Json)> {
    match v
    case NullValue => [("type", String("null")), ("value", Null)]
    case BooleanValue(b) => [("type", String("boolean")), ("value", Bool(b))]
    case UnsignedValue(n) => [("type", String("unsigned")), ("value", Numeral(Dec(n)))]
    case SignedValue(i) => [("type", String("signed")), ("value", Numeral(SignedText(i)))]
    case RealValue(double, r) => RealMembers(if double then "double" else "real", r)
    case OctetString(data) => [("type", String("octet-string")), ("value_hex", String(Hex(data)))]
    case CharacterString(encoding, isUtf8, data) =>
      [("type", String("character-string")), ("encoding", Numeral(Dec(encoding))),
       if isUtf8 then ("value", String(TextOf(data))) else ("value_hex", String(Hex(data)))]
    case BitString(bits) => [("type", String("bit-string")), ("bits", String(BitsText(bits)))]
    case EnumeratedValue(n) => [("type", String("enumerated")), ("value", Numeral(Dec(n)))]
    case DateValue(year, month, day, weekday) =>
      [("type", String("date")), ("year", NumeralOrNull(year, 2155)),
       ("month", NumeralOrNull(month, 255)), ("day", NumeralOrNull(day, 255)),
       ("weekday", NumeralOrNull(weekday, 255))]
    case TimeValue(hour, minute, second, hundredths) =>
      [("type", String("time")), ("hour", NumeralOrNull(hour, 255)),
       ("minute", NumeralOrNull(minute, 255)), ("second", NumeralOrNull(second, 255)),
       ("hundredths", NumeralOrNull(hundredths, 255))]
    case ObjectIdentifier(objectType, instance) =>
      [("type", String("object-identifier")), ("object_type", Numeral(Dec(objectType))),
       ("object_type_name", String(names.objectType(objectType))), ("instance", Numeral(Dec(instance)))]
    case UnsupportedValue(tag) => [("type", String("unsupported")), ("tag", Numeral(Dec(tag)))]
  }

  function RealMembers(kind: string, r: RealText): seq<(string, Json)> {
    match r
    case Number(lexeme) => [("type", String(kind)), ("value", Numeral(lexeme))]
    case TooLong => [("type", String(kind)), ("value", Null)]
    case NotANumber => [("type", String(kind)), ("value", Null), ("special", String("nan"))]
    case Infinite(negative) =>
      [("type", String(kind)), ("value", Null), ("special", String(if negative then "-infinity" else "infinity"))]
  }

  /** What `%g` prints is a number of RFC 8259. */
  predicate NumbersAreJson(v: ApplicationValue) {
    v.RealValue? && v.real32.Number? ==> IsNumber(v.real32.lexeme)
  }

  lemma RealReads(kind: string, r: RealText)
    requires IsPlain(kind) && (r.Number? ==> IsNumber(r.lexeme))
    ensures FieldsRead(RealFields(kind, r), RealMembers(kind, r))
  {
    hide FieldsRead, ReadsIn, Plain, Quote, IsNumber;
    PlainReadsIn(kind);
    NullReadsIn();
    match r
    case Number(lexeme) =>
      LexemeReadsIn(lexeme);
      TwoFields("type", Plain(kind), String(kind), "value", lexeme, Numeral(lexeme));
    case TooLong => TwoFields("type", Plain(kind), String(kind), "value", "null", Null);
    case NotANumber => SpecialReads(kind, "nan");
    case Infinite(negative) => SpecialReads(kind, if negative then "-infinity" else "infinity");
  }

  lemma SpecialReads(kind: string, special: Text)
    requires IsPlain(kind)
    ensures FieldsRead(More("type", Plain(kind), More("value", "null", Last("special", Quote(special)))),
              [("type", String(kind)), ("value", Null), ("special", String(special))])
  {
    hide FieldsRead, ReadsIn, Plain, Quote;
    PlainReadsIn(kind);
    NullReadsIn();
    StringReadsIn(special);
    var last := [("special", String(special))];
    LastField("special", Quote(special), String(special));
    MoreFields("value", "null", Null, Last("special", Quote(special)), last);
    MoreFields("type", Plain(kind), String(kind), More("value", "null", Last("special", Quote(special))),
      [("value", Null)] + last);
    Three(("type", String(kind)), ("value", Null), ("special", String(special)));
  }

  lemma StringReads(encoding: byte, key: string, text: string, v: Json)
    requires IsPlain(key) && ReadsIn(text, v)
    ensures FieldsRead(More("type", Plain("character-string"), More("encoding", Dec(encoding), Last(key, text))),
              [("type", String("character-string")), ("encoding", Numeral(Dec(encoding))), (key, v)])
  {
    hide FieldsRead, ReadsIn, Plain, Dec;
    PlainReadsIn("character-string");
    NumberReadsIn(encoding);
    TwoFields("encoding", Dec(encoding), Numeral(Dec(encoding)), key, text, v);
    MoreFields("type", Plain("character-string"), String("character-string"),
      More("encoding", Dec(encoding), Last(key, text)), [("encoding", Numeral(Dec(encoding))), (key, v)]);
    Front(("type", String("character-string")), ("encoding", Numeral(Dec(encoding))), (key, v));
  }

  lemma Front<T>(a: T, b: T, c: T)
    ensures [a] + [b, c] == [a, b, c]
  {
  }

  /** Four numbers or nulls after a type, as dates and times have them. */
  lemma CalendarReads(kind: string, k1: string, n1: nat, u1: nat, k2: string, n2: nat, k3: string, n3: nat,
                      k4: string, n4: nat)
    requires IsPlain(kind) && IsPlain(k1) && IsPlain(k2) && IsPlain(k3) && IsPlain(k4)
    ensures FieldsRead(
              More("type", Plain(kind), More(k1, OrNull(n1, u1), More(k2, OrNull(n2, UNSPECIFIED),
                More(k3, OrNull(n3, UNSPECIFIED), Last(k4, OrNull(n4, UNSPECIFIED)))))),
              [("type", String(kind)), (k1, NumeralOrNull(n1, u1)), (k2, NumeralOrNull(n2, UNSPECIFIED)),
               (k3, NumeralOrNull(n3, UNSPECIFIED)), (k4, NumeralOrNull(n4, UNSPECIFIED))])
  {
    hide FieldsRead, ReadsIn, Plain, OrNull, NumeralOrNull;
    PlainReadsIn(kind);
    OrNullReadsIn(n1, u1);
    OrNullReadsIn(n2, UNSPECIFIED);
    OrNullReadsIn(n3, UNSPECIFIED);
    OrNullReadsIn(n4, UNSPECIFIED);
    var v1, v2 := NumeralOrNull(n1, u1), NumeralOrNull(n2, UNSPECIFIED);
    var v3, v4 := NumeralOrNull(n3, UNSPECIFIED), NumeralOrNull(n4, UNSPECIFIED);
    var f4 := Last(k4, OrNull(n4, UNSPECIFIED));
    LastField(k4, OrNull(n4, UNSPECIFIED), v4);
    var f3 := More(k3, OrNull(n3, UNSPECIFIED), f4);
    MoreFields(k3, OrNull(n3, UNSPECIFIED), v3, f4, [(k4, v4)]);
    var f2 := More(k2, OrNull(n2, UNSPECIFIED), f3);
    MoreFields(k2, OrNull(n2, UNSPECIFIED), v2, f3, [(k3, v3)] + [(k4, v4)]);
    var f1 := More(k1, OrNull(n1, u1), f2);
    MoreFields(k1, OrNull(n1, u1), v1, f2, [(k2, v2)] + ([(k3, v3)] + [(k4, v4)]));
    MoreFields("type", Plain(kind), String(kind), f1, [(k1, v1)] + ([(k2, v2)] + ([(k3, v3)] + [(k4, v4)])));
    Five(("type", String(kind)), (k1, v1), (k2, v2), (k3, v3), (k4, v4));
  }

  lemma IdentifierReads(names: Names, objectType: uint32, instance: uint32)
    ensures FieldsRead(ValueFields(names, ObjectIdentifier(objectType, instance)),
              ValueMembers(names, ObjectIdentifier(objectType, instance)))
  {
    hide FieldsRead, ReadsIn, Plain, Quote, Dec;
    PlainReadsIn("object-identifier");
    NumberReadsIn(objectType);
    NumberReadsIn(instance);
    var name := names.objectType(objectType);
    StringReadsIn(name);
    var kind, number, last := String("object-identifier"), Numeral(Dec(objectType)), Numeral(Dec(instance));
    var f3 := Last("instance", Dec(instance));
    LastField("instance", Dec(instance), last);
    var f2 := More("object_type_name", Quote(name), f3);
    MoreFields("object_type_name", Quote(name), String(name), f3, [("instance", last)]);
    var f1 := More("object_type", Dec(objectType), f2);
    MoreFields("object_type", Dec(objectType), number, f2, [("object_type_name", String(name))] + [("instance", last)]);
    MoreFields("type", Plain("object-identifier"), kind, f1,
      [("object_type", number)] + ([("object_type_name", String(name))] + [("instance", last)]));
    Four(("type", kind), ("object_type", number), ("object_type_name", String(name)), ("instance", last));
  }

  lemma BitsArePlain(bits: seq<bool>)
    ensures IsPlain(BitsText(bits))
  {
  }

  lemma NumericReads(names: Names, v: ApplicationValue)
    requires v.UnsignedValue? || v.SignedValue? || v.EnumeratedValue? || v.UnsupportedValue?
    ensures FieldsRead(ValueFields(names, v), ValueMembers(names, v))
  {
    hide FieldsRead, ReadsIn, Plain, Dec, SignedText, IsNumber;
    match v
    case UnsignedValue(n) =>
      NumberReadsIn(n);
      TypedReads("unsigned", "value", Dec(n), Numeral(Dec(n)));
    case SignedValue(i) =>
      SignedIsNumber(i);
      LexemeReadsIn(SignedText(i));
      TypedReads("signed", "value", SignedText(i), Numeral(SignedText(i)));
    case EnumeratedValue(n) =>
      NumberReadsIn(n);
      TypedReads("enumerated", "value", Dec(n), Numeral(Dec(n)));
    case UnsupportedValue(tag) =>
      NumberReadsIn(tag);
      TypedReads("unsupported", "tag", Dec(tag), Numeral(Dec(tag)));
  }

  lemma BytesRead(names: Names, v: ApplicationValue)
    requires v.OctetString? || v.CharacterString? || v.BitString?
    ensures FieldsRead(ValueFields(names, v), ValueMembers(names, v))
  {
    hide FieldsRead, ReadsIn, Plain, Quote, Hex, Dec, BitsText, TextOf;
    match v
    case OctetString(data) =>
      HexReadsIn(data);
      TypedReads("octet-string", "value_hex", Plain(Hex(data)), String(Hex(data)));
    case CharacterString(encoding, isUtf8, data) =>
      if isUtf8 {
        StringReadsIn(TextOf(data));
        StringReads(encoding, "value", Quote(TextOf(data)), String(TextOf(data)));
      } else {
        HexReadsIn(data);
        StringReads(encoding, "value_hex", Plain(Hex(data)), String(Hex(data)));
      }
    case BitString(bits) =>
      BitsArePlain(bits);
      PlainReadsIn(BitsText(bits));
      TypedReads("bit-string", "bits", Plain(BitsText(bits)), String(BitsText(bits)));
  }

  lemma CalendarValueReads(names: Names, v: ApplicationValue)
    requires v.DateValue? || v.TimeValue?
    ensures FieldsRead(ValueFields(names, v), ValueMembers(names, v))
  {
    hide FieldsRead, Plain, OrNull, NumeralOrNull;
    match v
    case DateValue(year, month, day, weekday) =>
      CalendarReads("date", "year", year, YEAR_UNSPECIFIED, "month", month, "day", day, "weekday", weekday);
    case TimeValue(hour, minute, second, hundredths) =>
      CalendarReads("time", "hour", hour, UNSPECIFIED, "minute", minute, "second", second, "hundredths", hundredths);
  }

  lemma LiteralReads(names: Names, v: ApplicationValue)
    requires v.NullValue? || v.BooleanValue? || (v.RealValue? && NumbersAreJson(v))
    ensures FieldsRead(ValueFields(names, v), ValueMembers(names, v))
  {
    hide FieldsRead, ReadsIn, Plain, BoolText, RealFields, RealMembers, IsNumber;
    match v
    case NullValue =>
      NullReadsIn();
      TypedReads("null", "value", "null", Null);
    case BooleanValue(b) =>
      BoolReadsIn(b);
      TypedReads("boolean", "value", BoolText(b), Bool(b));
    case RealValue(double, r) => RealReads(if double then "double" else "real", r);
  }

  /** Every printed application value is one JSON object of its type and value. */
  lemma ValueReads(names: Names, v: ApplicationValue)
    requires NumbersAreJson(v)
    ensures FieldsRead(ValueFields(names, v), ValueMembers(names, v))
  {
    hide FieldsRead, ValueFields, ValueMembers, NumbersAreJson;
    if v.NullValue? || v.BooleanValue? || v.RealValue? {
      LiteralReads(names, v);
    } else if v.OctetString? || v.CharacterString? || v.BitString? {
      BytesRead(names, v);
    } else if v.DateValue? || v.TimeValue? {
      CalendarValueReads(names, v);
    } else if v.ObjectIdentifier? {
      IdentifierReads(names, v.objectType, v.instance);
    } else {
      NumericReads(names, v);
    }
  }

  lemma TypedReads(kind: string, key: string, text: string, v: Json)
    requires IsPlain(kind) && IsPlain(key) && ReadsIn(text, v)
    ensures FieldsRead(More("type", Plain(kind), Last(key, text)), [("type", String(kind)), (key, v)])
  {
    hide FieldsRead, ReadsIn, Plain;
    PlainReadsIn(kind);
    TwoFields("type", Plain(kind), String(kind), key, text, v);
  }

  // ----- records -----

  /** The library's real numbers are printed as numbers of RFC 8259. */
  ghost predicate RealsAreJson(codec: Codec) {
    forall data: seq<byte> :: NumbersAreJson(codec.value(data).item)
  }

  function Meanings(names: Names, pieces: seq<Piece<ApplicationValue>>): seq<Json> {
    seq(|pieces|, i requires 0 <= i < |pieces| => Object(ValueMembers(names, pieces[i].item)))
  }

  function ValuesOf(codec: Codec, names: Names, data: seq<byte>): Json {
    match Scan(codec.value, data, 0)
    case Some(pieces) => Array(Meanings(names, pieces))
    case None => Array([Object([("type", String("encoded")), ("data_hex", String(Hex(data)))])])
  }

  /** What a scan finds are decoded items. */
  lemma {:induction false} ScannedItems<T>(decode: seq<byte> -> Decoded<T>, data: seq<byte>, offset: nat, i: nat)
    requires offset <= |data| && Scan(decode, data, offset).Some? && i < |Scan(decode, data, offset).value|
    ensures exists at: seq<byte> :: Scan(decode, data, offset).value[i].item == decode(at).item
    decreases |data| - offset
  {
    var d := decode(data[offset..]);
    if i > 0 { ScannedItems(decode, data, offset + d.length, i - 1); }
  }

  lemma EncodedReads(data: seq<byte>)
    ensures ReadsIn(EncodedText(data), Object([("type", String("encoded")), ("data_hex", String(Hex(data)))]))
    ensures EncodedText(data) != "" && EncodedText(data)[0] == '{'
  {
    hide ReadsIn, FieldsRead, Plain, Hex, ObjectText;
    HexReadsIn(data);
    TypedReads("encoded", "data_hex", Plain(Hex(data)), String(Hex(data)));
    ObjectReads(More("type", Plain("encoded"), Last("data_hex", Plain(Hex(data)))),
      [("type", String("encoded")), ("data_hex", String(Hex(data)))]);
  }

  lemma ValuesRead(codec: Codec, names: Names, data: seq<byte>)
    requires RealsAreJson(codec)
    ensures ReadsIn(ValuesText(codec, names, data), ValuesOf(codec, names, data))
  {
    hide ReadsIn, Join, EncodedText, ObjectText, ValueFields, ValueMembers, FieldsRead, NumbersAreJson;
    match Scan(codec.value, data, 0)
    case Some(pieces) =>
      var texts, vs := ValueTexts(names, pieces), Meanings(names, pieces);
      forall i | 0 <= i < |texts|
        ensures texts[i] != "" && texts[i][0] == '{' && ReadsIn(texts[i], vs[i])
      {
        ScannedItems(codec.value, data, 0, i);
        var at: seq<byte> :| pieces[i].item == codec.value(at).item;
        ValueReads(names, pieces[i].item);
        ObjectReads(ValueFields(names, pieces[i].item), ValueMembers(names, pieces[i].item));
      }
      ArrayReads(texts, vs);
    case None =>
      var v := Object([("type", String("encoded")), ("data_hex", String(Hex(data)))]);
      EncodedReads(data);
      ArrayReads([EncodedText(data)], [v]);
      JoinOne(EncodedText(data));
  }

  lemma JoinOne(text: string)
    ensures Join([text]) == text
  {
  }

  function InitialMembers(codec: Codec, names: Names, v: InitialValue): seq<(string, Json)> {
    [("property_identifier", Numeral(Dec(v.property))), ("property_name", String(names.property(v.property))),
     ("array_index", NumeralOrNull(v.arrayIndex, UINT32_MAX)), ("priority", NumeralOrNull(v.priority, 0)),
     ("value", ValuesOf(codec, names, v.data))]
  }

  lemma FiveFields(k1: string, t1: string, v1: Json, k2: string, t2: string, v2: Json, k3: string, t3: string, v3: Json,
                   k4: string, t4: string, v4: Json, k5: string, t5: string, v5: Json)
    requires IsPlain(k1) && IsPlain(k2) && IsPlain(k3) && IsPlain(k4) && IsPlain(k5)
    requires ReadsIn(t1, v1) && ReadsIn(t2, v2) && ReadsIn(t3, v3) && ReadsIn(t4, v4) && ReadsIn(t5, v5)
    ensures FieldsRead(More(k1, t1, More(k2, t2, More(k3, t3, More(k4, t4, Last(k5, t5))))),
              [(k1, v1), (k2, v2), (k3, v3), (k4, v4), (k5, v5)])
  {
    hide FieldsRead, ReadsIn;
    LastField(k5, t5, v5);
    MoreFields(k4, t4, v4, Last(k5, t5), [(k5, v5)]);
    var f4 := More(k4, t4, Last(k5, t5));
    MoreFields(k3, t3, v3, f4, [(k4, v4)] + [(k5, v5)]);
    MoreFields(k2, t2, v2, More(k3, t3, f4), [(k3, v3)] + ([(k4, v4)] + [(k5, v5)]));
    MoreFields(k1, t1, v1, More(k2, t2, More(k3, t3, f4)), [(k2, v2)] + ([(k3, v3)] + ([(k4, v4)] + [(k5, v5)])));
    Five((k1, v1), (k2, v2), (k3, v3), (k4, v4), (k5, v5));
  }

  lemma InitialReads(codec: Codec, names: Names, v: InitialValue)
    requires RealsAreJson(codec)
    ensures ReadsIn(InitialText(codec, names, v), Object(InitialMembers(codec, names, v)))
    ensures InitialText(codec, names, v) != "" && InitialText(codec, names, v)[0] == '{'
  {
    hide ReadsIn, FieldsRead, Dec, Quote, OrNull, NumeralOrNull, ValuesText, ValuesOf, ObjectText, RealsAreJson;
    NumberReadsIn(v.property);
    StringReadsIn(names.property(v.property));
    OrNullReadsIn(v.arrayIndex, UINT32_MAX);
    OrNullReadsIn(v.priority, 0);
    ValuesRead(codec, names, v.data);
    FiveFields("property_identifier", Dec(v.property), Numeral(Dec(v.property)),
      "property_name", Quote(names.property(v.property)), String(names.property(v.property)),
      "array_index", OrNull(v.arrayIndex, UINT32_MAX), NumeralOrNull(v.arrayIndex, UINT32_MAX),
      "priority", OrNull(v.priority, 0), NumeralOrNull(v.priority, 0),
      "value", ValuesText(codec, names, v.data), ValuesOf(codec, names, v.data));
    ObjectReads(
      More("property_identifier", Dec(v.property),
        More("property_name", Quote(names.property(v.property)),
          More("array_index", OrNull(v.arrayIndex, UINT32_MAX),
            More("priority", OrNull(v.priority, 0),
              Last("value", ValuesText(codec, names, v.data)))))),
      InitialMembers(codec, names, v));
  }

  function InitialsOf(codec: Codec, names: Names, pieces: seq<Piece<InitialValue>>): seq<Json> {
    seq(|pieces|, i requires 0 <= i < |pieces| => Object(InitialMembers(codec, names, pieces[i].item)))
  }

  /** The record as a JSON value. */
  function RecordMembers(codec: Codec, names: Names, p: Piece<Request>): seq<(string, Json)>
    requires InitialValues(codec, p.item).Some?
  {
    [("offset", Numeral(Dec(p.offset))), ("object_type", Numeral(Dec(p.item.objectType))),
     ("object_type_name", String(names.objectType(p.item.objectType))),
     ("object_instance", Numeral(Dec(p.item.instance))),
     ("initial_values", Array(InitialsOf(codec, names, InitialValues(codec, p.item).value)))]
  }

  lemma InitialsRead(codec: Codec, names: Names, r: Request)
    requires RealsAreJson(codec) && InitialValues(codec, r).Some?
    ensures ReadsIn(InitialsText(codec, names, r), Array(InitialsOf(codec, names, InitialValues(codec, r).value)))
  {
    hide ReadsIn, InitialText, InitialMembers, Join, InitialValues, RealsAreJson;
    var pieces := InitialValues(codec, r).value;
    var texts, vs := InitialTexts(codec, names, pieces), InitialsOf(codec, names, pieces);
    forall i | 0 <= i < |texts|
      ensures texts[i] != "" && texts[i][0] == '{' && ReadsIn(texts[i], vs[i])
    {
      InitialReads(codec, names, pieces[i].item);
    }
    ArrayReads(texts, vs);
  }

  /** Each printed record is one JSON text: its offset, its object, and all its
      initial values with their names and application values. */
  lemma RecordReads(codec: Codec, names: Names, p: Piece<Request>)
    requires RealsAreJson(codec) && InitialValues(codec, p.item).Some?
    ensures ReadText(RecordText(codec, names, p)) == Some(Object(RecordMembers(codec, names, p)))
  {
    hide ReadsIn, FieldsRead, Dec, Quote, InitialsText, InitialsOf, ObjectText, RealsAreJson, InitialValues, ReadText;
    var r := p.item;
    var name, initials := names.objectType(r.objectType), InitialsText(codec, names, r);
    NumberReadsIn(p.offset);
    NumberReadsIn(r.objectType);
    StringReadsIn(name);
    NumberReadsIn(r.instance);
    InitialsRead(codec, names, r);
    FiveFields("offset", Dec(p.offset), Numeral(Dec(p.offset)), "object_type", Dec(r.objectType), Numeral(Dec(r.objectType)),
      "object_type_name", Quote(name), String(name), "object_instance", Dec(r.instance), Numeral(Dec(r.instance)),
      "initial_values", initials, Array(InitialsOf(codec, names, InitialValues(codec, r).value)));
    ObjectReads(
      More("offset", Dec(p.offset),
        More("object_type", Dec(r.objectType),
          More("object_type_name", Quote(name),
            More("object_instance", Dec(r.instance),
              Last("initial_values", initials))))),
      RecordMembers(codec, names, p));
  }
}
