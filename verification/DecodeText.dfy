/** The text the decode command prints for objects and application values. */
module DecodeText {
  import opened Basics
  import opened Numerals
  import opened Json

  /** The members of a printed object, each with the text of its value. */
  datatype Fields = Last(key: string, text: string) | More(key: string, text: string, rest: Fields)

  function FieldsText(f: Fields): string {
    match f
    case Last(key, text) => Member(key, text)
    case More(key, text, rest) => Member(key, text + ("," + FieldsText(rest)))
  }

  function ObjectText(f: Fields): string {
    "{" + (FieldsText(f) + "}")
  }

  /** The library's names of properties and object types, or "unknown". */
  datatype Names = Names(property: uint32 -> Text, objectType: uint32 -> Text)

  /** A real number as it is printed: in decimal, or not, because it does not fit the
      buffer or is none. */
  datatype RealText = Number(lexeme: string) | TooLong | NotANumber | Infinite(negative: bool)

  /** `BACNET_APPLICATION_DATA_VALUE`. The bytes of a character string are text when
      they are valid UTF-8. */
  datatype ApplicationValue =
    | NullValue
    | BooleanValue(b: bool)
    | UnsignedValue(n: nat)
    | SignedValue(i: int)
    | RealValue(double: bool, real32: RealText)
    | OctetString(data: seq<byte>)
    | CharacterString(encoding: byte, isUtf8: bool, data: seq<byte>)
    | BitString(bits: seq<bool>)
    | EnumeratedValue(n: nat)
    | DateValue(year: nat, month: byte, day: byte, weekday: byte)
    | TimeValue(hour: byte, minute: byte, second: byte, hundredths: byte)
    | ObjectIdentifier(objectType: uint32, instance: uint32)
    | UnsupportedValue(tag: nat)

  const YEAR_UNSPECIFIED := 1900 + 255
  const UNSPECIFIED := 255

  function Plain(s: string): string {
    "\"" + (s + "\"")
  }

  /** `file_json_unsigned_or_null` */
  function OrNull(n: nat, unspecified: nat): string {
    if n == unspecified then "null" else Dec(n)
  }

  function SignedText(i: int): string {
    if i < 0 then "-" + Dec(-i) else Dec(i)
  }

  function TextOf(data: seq<byte>): Text {
    seq(|data|, i requires 0 <= i < |data| => data[i] as char)
  }

  function BitsText(bits: seq<bool>): string {
    seq(|bits|, i requires 0 <= i < |bits| => if bits[i] then '1' else '0')
  }

  function RealFields(kind: string, r: RealText): Fields {
    match r
    case Number(lexeme) => More("type", Plain(kind), Last("value", lexeme))
    case TooLong => More("type", Plain(kind), Last("value", "null"))
    case NotANumber => More("type", Plain(kind), More("value", "null", Last("special", Quote("nan"))))
    case Infinite(negative) =>
      More("type", Plain(kind), More("value", "null",
        Last("special", Quote(if negative then "-infinity" else "infinity"))))
  }

  function ValueFields(names: Names, v: ApplicationValue): Fields {
    match v
    case NullValue => More("type", Plain("null"), Last("value", "null"))
    case BooleanValue(b) => More("type", Plain("boolean"), Last("value", BoolText(b)))
    case UnsignedValue(n) => More("type", Plain("unsigned"), Last("value", Dec(n)))
    case SignedValue(i) => More("type", Plain("signed"), Last("value", SignedText(i)))
    case RealValue(double, r) => RealFields(if double then "double" else "real", r)
    case OctetString(data) => More("type", Plain("octet-string"), Last("value_hex", Plain(Hex(data))))
    case CharacterString(encoding, isUtf8, data) =>
      More("type", Plain("character-string"), More("encoding", Dec(encoding),
        if isUtf8 then Last("value", Quote(TextOf(data))) else Last("value_hex", Plain(Hex(data)))))
    case BitString(bits) => More("type", Plain("bit-string"), Last("bits", Plain(BitsText(bits))))
    case EnumeratedValue(n) => More("type", Plain("enumerated"), Last("value", Dec(n)))
    case DateValue(year, month, day, weekday) =>
      More("type", Plain("date"), More("year", OrNull(year, YEAR_UNSPECIFIED), More("month", OrNull(month, UNSPECIFIED),
        More("day", OrNull(day, UNSPECIFIED), Last("weekday", OrNull(weekday, UNSPECIFIED))))))
    case TimeValue(hour, minute, second, hundredths) =>
      More("type", Plain("time"), More("hour", OrNull(hour, UNSPECIFIED), More("minute", OrNull(minute, UNSPECIFIED),
        More("second", OrNull(second, UNSPECIFIED), Last("hundredths", OrNull(hundredths, UNSPECIFIED))))))
    case ObjectIdentifier(objectType, instance) =>
      More("type", Plain("object-identifier"), More("object_type", Dec(objectType),
        More("object_type_name", Quote(names.objectType(objectType)), Last("instance", Dec(instance)))))
    case UnsupportedValue(tag) => More("type", Plain("unsupported"), Last("tag", Dec(tag)))
  }

  function ValueText(names: Names, v: ApplicationValue): string {
    ObjectText(ValueFields(names, v))
  }

  /** The digits of a bit string. */
  method PrintBits(bits: seq<bool>) returns (text: string)
    ensures text == BitsText(bits)
  {
    text := "";
    var index := 0;
    while index < |bits|
      invariant 0 <= index <= |bits| && |text| == index
      invariant forall k :: 0 <= k < index ==> text[k] == if bits[k] then '1' else '0'
    {
      text := text + [if bits[index] then '1' else '0'];
      index := index + 1;
    }
  }

  /** The two digits of each byte. */
  method PrintHex(data: seq<byte>) returns (text: string)
    ensures text == Plain(Hex(data))
  {
    hide HexByte, Plain;
    var digits, index := "", 0;
    while index < |data|
      invariant 0 <= index <= |data|
      invariant digits + Hex(data[index..]) == Hex(data)
    {
      assert data[index..][1..] == data[index + 1..];
      digits := digits + HexByte(data[index]);
      index := index + 1;
    }
    assert digits + "" == digits;
    return Plain(digits);
  }

  /** `file_json_application_value` */
  method PrintApplicationValue(names: Names, v: ApplicationValue) returns (text: string)
    ensures text == ValueText(names, v)
  {
    hide ObjectText, Quote, Hex, BitsText, Dec;
    var f;
    match v {
      case NullValue => f := More("type", Plain("null"), Last("value", "null"));
      case BooleanValue(b) => f := More("type", Plain("boolean"), Last("value", if b then "true" else "false"));
      case UnsignedValue(n) => f := More("type", Plain("unsigned"), Last("value", Dec(n)));
      case SignedValue(i) => f := More("type", Plain("signed"), Last("value", SignedText(i)));
      case RealValue(double, r) => f := RealFields(if double then "double" else "real", r);
      case OctetString(data) =>
        var hex := PrintHex(data);
        f := More("type", Plain("octet-string"), Last("value_hex", hex));
      case CharacterString(encoding, isUtf8, data) =>
        var last;
        if isUtf8 {
          var value := JsonStringData(TextOf(data));
          last := Last("value", value);
        } else {
          var hex := PrintHex(data);
          last := Last("value_hex", hex);
        }
        f := More("type", Plain("character-string"), More("encoding", Dec(encoding), last));
      case BitString(bits) =>
        var digits := PrintBits(bits);
        f := More("type", Plain("bit-string"), Last("bits", Plain(digits)));
      case EnumeratedValue(n) => f := More("type", Plain("enumerated"), Last("value", Dec(n)));
      case DateValue(year, month, day, weekday) =>
        f := More("type", Plain("date"), More("year", OrNull(year, YEAR_UNSPECIFIED),
          More("month", OrNull(month, UNSPECIFIED), More("day", OrNull(day, UNSPECIFIED),
            Last("weekday", OrNull(weekday, UNSPECIFIED))))));
      case TimeValue(hour, minute, second, hundredths) =>
        f := More("type", Plain("time"), More("hour", OrNull(hour, UNSPECIFIED),
          More("minute", OrNull(minute, UNSPECIFIED), More("second", OrNull(second, UNSPECIFIED),
            Last("hundredths", OrNull(hundredths, UNSPECIFIED))))));
      case ObjectIdentifier(objectType, instance) =>
        var name := JsonStringData(names.objectType(objectType));
        f := More("type", Plain("object-identifier"), More("object_type", Dec(objectType),
          More("object_type_name", name, Last("instance", Dec(instance)))));
      case UnsupportedValue(tag) => f := More("type", Plain("unsupported"), Last("tag", Dec(tag)));
    }
    return ObjectText(f);
  }
}
