/** JSON text: the string printer of the file shell, and a reader of RFC 8259
    text that serves as the independent judge of what the shell prints and as
    the contract of the JSON parser the import command uses. A character stands
    for a byte, 0 to 255. */
module Json {
  import opened Basics
  import opened Numerals

  datatype Json =
    | Null
    | Bool(b: bool)
    | Numeral(lexeme: string)
    | String(text: string)
    | Array(elements: seq<Json>)
    | Object(members: seq<(string, Json)>)

  // ----- printing strings -----

  /** What the printer emits for one byte of a string. */
  function EscapeChar(c: char): string
    requires c as int < 0x100
  {
    if c == '"' || c == '\\' then ['\\', c]
    else if c as int == 8 then "\\b"
    else if c as int == 12 then "\\f"
    else if c == '\n' then "\\n"
    else if c == '\r' then "\\r"
    else if c == '\t' then "\\t"
    else if c as int < 0x20 then "\\u" + HexFixed(c as int, 4)
    else [c]
  }

  function Escape(s: string): string
    requires IsByteText(s)
  {
    if s == "" then "" else EscapeChar(s[0]) + Escape(s[1..])
  }

  function Quote(s: string): string
    requires IsByteText(s)
  {
    "\"" + (Escape(s) + "\"")
  }

  lemma {:induction false} EscapeSnoc(s: string, c: char)
    requires IsByteText(s) && c as int < 0x100
    ensures Escape(s + [c]) == Escape(s) + EscapeChar(c)
  {
    if s == "" {
      assert Escape([c]) == EscapeChar(c) + Escape([c][1..]);
    } else {
      assert (s + [c])[1..] == s[1..] + [c];
      EscapeSnoc(s[1..], c);
    }
  }

  /** `file_json_string_data`: quotes around the bytes, each escaped in turn. */
  method JsonStringData(value: string) returns (text: string)
    requires IsByteText(value)
    ensures text == Quote(value)
  {
    var body, index := "", 0;
    while index < |value|
      invariant index <= |value|
      invariant body == Escape(value[..index])
    {
      EscapeSnoc(value[..index], value[index]);
      assert value[..index + 1] == value[..index] + [value[index]];
      body := body + EscapeChar(value[index]);
      index := index + 1;
    }
    assert value[..|value|] == value;
    text := "\"" + (body + "\"");
  }

  // ----- reading -----

  predicate IsSpace(c: char) {
    c == ' ' || c == '\t' || c == '\n' || c == '\r'
  }

  function SkipSpace(s: string): (r: string)
    ensures |r| <= |s| && (r == "" || !IsSpace(r[0]))
  {
    if s != "" && IsSpace(s[0]) then SkipSpace(s[1..]) else s
  }

  function UnescapeSimple(c: char): Option<char> {
    if c == '"' || c == '\\' || c == '/' then Some(c)
    else if c == 'b' then Some(8 as char)
    else if c == 'f' then Some(12 as char)
    else if c == 'n' then Some('\n')
    else if c == 'r' then Some('\r')
    else if c == 't' then Some('\t')
    else None
  }

  /** The code of an escape in front, by four hexadecimal digits. */
  function EscapeCode(s: string): (r: Option<nat>)
    ensures r.Some? ==> |s| >= 6 && s[0] == '\\'
  {
    if |s| >= 6 && s[0] == '\\' && s[1] == 'u' then HexValue(s[2..6]) else None
  }

  /** The second half of a surrogate pair in front. */
  function LowSurrogate(s: string): (r: Option<nat>)
    ensures r.Some? ==> |s| >= 6 && 0xDC00 <= r.value < 0xE000
  {
    match EscapeCode(s)
    case Some(code) => if 0xDC00 <= code < 0xE000 then Some(code) else None
    case None => None
  }

  /** The character of a code; half a surrogate pair has none. */
  function CharOf(code: nat): char {
    if code < 0xD800 || 0xE000 <= code < 0x11_0000 then code as char else 0xFFFD as char
  }

  /** One escaped code or surrogate pair. */
  function ReadCode(s: string): (r: Option<(char, string)>)
    ensures r.Some? ==> |r.value.1| < |s|
  {
    match EscapeCode(s)
    case None => None
    case Some(code) =>
      var low := LowSurrogate(s[6..]);
      if 0xD800 <= code < 0xDC00 && low.Some?
      then Some((CharOf(0x1_0000 + 0x400 * (code - 0xD800) + (low.value - 0xDC00)), s[12..]))
      else Some((CharOf(code), s[6..]))
  }

  /** One character of a string body, and the text after it: any escape of the
      grammar is accepted. */
  function ReadChar(s: string): (r: Option<(char, string)>)
    requires s != "" && s[0] != '"'
    ensures r.Some? ==> |r.value.1| < |s|
  {
    if s[0] != '\\' then
      if s[0] as int < 0x20 then None else Some((s[0], s[1..]))
    else if |s| < 2 then None
    else if s[1] == 'u' then ReadCode(s)
    else
      match UnescapeSimple(s[1])
      case Some(c) => Some((c, s[2..]))
      case None => None
  }

  /** A string body up to its closing quote, and the text after the quote. */
  function ReadBody(s: string): (r: Option<(string, string)>)
    ensures r.Some? ==> |r.value.1| < |s|
    decreases |s|
  {
    if s == "" then None
    else if s[0] == '"' then Some(("", s[1..]))
    else
      match ReadChar(s)
      case None => None
      case Some((c, rest)) =>
        match ReadBody(rest)
        case None => None
        case Some((body, after)) => Some(([c] + body, after))
  }

  function DigitSpan(s: string): (k: nat)
    ensures k <= |s| && AllDigits(s[..k]) && (k == |s| || !IsDigit(s[k]))
  {
    if s != "" && IsDigit(s[0]) then
      var k := 1 + DigitSpan(s[1..]);
      assert forall i :: 0 < i < k ==> s[i] == s[1..][i - 1];
      k
    else 0
  }

  /** The length of the fraction in front, 0 for none; None when it has no
      digits. */
  function FractionLength(s: string): (r: Option<nat>)
    ensures r.Some? ==> r.value <= |s|
  {
    if s == "" || s[0] != '.' then Some(0)
    else
      var k := DigitSpan(s[1..]);
      if k == 0 then None else Some(1 + k)
  }

  function ExponentLength(s: string): (r: Option<nat>)
    ensures r.Some? ==> r.value <= |s|
  {
    if s == "" || (s[0] != 'e' && s[0] != 'E') then Some(0)
    else
      var sign := if |s| > 1 && (s[1] == '+' || s[1] == '-') then 1 else 0;
      var k := DigitSpan(s[1 + sign..]);
      if k == 0 then None else Some(1 + sign + k)
  }

  /** A number of section 6: sign, integer without leading zeros, fraction,
      exponent. */
  function ReadNumber(s: string): (r: Option<(Json, string)>)
    ensures r.Some? ==> |r.value.1| < |s|
  {
    var sign := if s != "" && s[0] == '-' then 1 else 0;
    var t := s[sign..];
    var k := DigitSpan(t);
    if k == 0 || (k > 1 && t[0] == '0') then None
    else
      match FractionLength(t[k..])
      case None => None
      case Some(f) =>
        match ExponentLength(t[k + f..])
        case None => None
        case Some(e) => Some((Numeral(s[..sign + k + f + e]), s[sign + k + f + e..]))
  }

  function ReadValue(s: string): (r: Option<(Json, string)>)
    ensures r.Some? ==> |r.value.1| < |s|
    decreases |s|, 1
  {
    var t := SkipSpace(s);
    if t == "" then None
    else if t[0] == '"' then
      match ReadBody(t[1..])
      case None => None
      case Some((body, rest)) => Some((String(body), rest))
    else if t[0] == '[' then
      var u := SkipSpace(t[1..]);
      if u != "" && u[0] == ']' then Some((Array([]), u[1..]))
      else
        (match ReadElements(t[1..])
         case None => None
         case Some((vs, rest)) => Some((Array(vs), rest)))
    else if t[0] == '{' then
      var u := SkipSpace(t[1..]);
      if u != "" && u[0] == '}' then Some((Object([]), u[1..]))
      else
        (match ReadMembers(t[1..])
         case None => None
         case Some((ms, rest)) => Some((Object(ms), rest)))
    else if "true" <= t then Some((Bool(true), t[4..]))
    else if "false" <= t then Some((Bool(false), t[5..]))
    else if "null" <= t then Some((Null, t[4..]))
    else ReadNumber(t)
  }

  /** One or more comma-separated values and the closing bracket. */
  function ReadElements(s: string): (r: Option<(seq<Json>, string)>)
    ensures r.Some? ==> |r.value.1| < |s|
    decreases |s|, 2
  {
    match ReadValue(s)
    case None => None
    case Some((v, rest)) =>
      var u := SkipSpace(rest);
      if u == "" then None
      else if u[0] == ']' then Some(([v], u[1..]))
      else if u[0] == ',' then
        (match ReadElements(u[1..])
         case None => None
         case Some((vs, after)) => Some(([v] + vs, after)))
      else None
  }

  /** A quoted key and its colon. */
  function ReadKey(s: string): (r: Option<(string, string)>)
    ensures r.Some? ==> |r.value.1| < |s|
  {
    var t := SkipSpace(s);
    if t == "" || t[0] != '"' then None
    else
      match ReadBody(t[1..])
      case None => None
      case Some((key, rest)) =>
        var u := SkipSpace(rest);
        if u != "" && u[0] == ':' then Some((key, u[1..])) else None
  }

  /** One or more comma-separated members and the closing brace. */
  function ReadMembers(s: string): (r: Option<(seq<(string, Json)>, string)>)
    ensures r.Some? ==> |r.value.1| < |s|
    decreases |s|, 2
  {
    match ReadKey(s)
    case None => None
    case Some((key, valueText)) =>
      match ReadValue(valueText)
      case None => None
      case Some((v, rest)) =>
        var u := SkipSpace(rest);
        if u == "" then None
        else if u[0] == '}' then Some(([(key, v)], u[1..]))
        else if u[0] == ',' then
          (match ReadMembers(u[1..])
           case None => None
           case Some((ms, after)) => Some(([(key, v)] + ms, after)))
        else None
  }

  /** A whole text: one value and nothing after it but white space. */
  function ReadText(s: string): Option<Json> {
    match ReadValue(s)
    case None => None
    case Some((v, rest)) => if SkipSpace(rest) == "" then Some(v) else None
  }

  /** The value of the first member with a key. */
  function Lookup(members: seq<(string, Json)>, key: string): Option<Json> {
    if members == [] then None
    else if members[0].0 == key then Some(members[0].1)
    else Lookup(members[1..], key)
  }

  // ----- a reader undoes the string printer -----

  lemma ReadEscapedChar(c: char, rest: string)
    requires c as int < 0x100
    ensures EscapeChar(c) != "" && EscapeChar(c)[0] != '"'
    ensures ReadChar(EscapeChar(c) + rest) == Some((c, rest))
  {
    var s := EscapeChar(c) + rest;
    if |EscapeChar(c)| == 1 {
      assert s[1..] == rest;
    } else if |EscapeChar(c)| == 2 {
      assert s[2..] == rest;
    } else {
      assert Pow16(4) == 65536;
      HexFixedRoundTrip(c as int, 4);
      assert s[2..6] == HexFixed(c as int, 4);
      assert s[6..] == rest;
    }
  }

  /** For every byte string, reading back the escaped body gives the string. */
  lemma {:induction false} ReadEscaped(value: string, rest: string)
    requires IsByteText(value)
    ensures ReadBody(Escape(value) + ("\"" + rest)) == Some((value, rest))
  {
    hide EscapeChar, ReadChar;
    if value == "" {
      assert Escape(value) + ("\"" + rest) == "\"" + rest;
    } else {
      var tail := Escape(value[1..]) + ("\"" + rest);
      assert Escape(value) + ("\"" + rest) == EscapeChar(value[0]) + tail;
      ReadEscapedChar(value[0], tail);
      ReadEscaped(value[1..], rest);
      assert value == [value[0]] + value[1..];
    }
  }

  /** No control byte, and no quote that is not part of an escape. */
  predicate IsSafeBody(s: string)
    decreases |s|
  {
    if s == "" then true
    else if s[0] == '\\' then |s| >= 2 && s[1] as int >= 0x20 && IsSafeBody(s[2..])
    else s[0] != '"' && s[0] as int >= 0x20 && IsSafeBody(s[1..])
  }

  lemma {:induction false} SafePrefix(s: string, t: string)
    requires forall i :: 0 <= i < |s| ==> IsHexChar(s[i])
    requires IsSafeBody(t)
    ensures IsSafeBody(s + t)
    decreases |s|
  {
    if s == "" {
      assert s + t == t;
    } else {
      var u := s + t;
      assert u[0] == s[0] && IsHexChar(s[0]);
      assert u[1..] == s[1..] + t;
      SafePrefix(s[1..], t);
      assert IsSafeBody(u[1..]);
    }
  }

  lemma ControlEscapeIsSafe(c: char, t: string)
    requires c as int < 0x20 && IsSafeBody(t)
    ensures IsSafeBody("\\u" + HexFixed(c as int, 4) + t)
  {
    hide HexFixed, HexValue;
    var digits := HexFixed(c as int, 4);
    var s := "\\u" + digits + t;
    assert Pow16(4) == 65536;
    HexFixedRoundTrip(c as int, 4);
    SafePrefix(digits, t);
    assert s[0] == '\\' && s[1] == 'u' && s[2..] == digits + t;
  }

  lemma EscapedCharIsSafe(c: char, t: string)
    requires c as int < 0x100 && IsSafeBody(t)
    ensures IsSafeBody(EscapeChar(c) + t)
  {
    var s, n := EscapeChar(c) + t, |EscapeChar(c)|;
    assert s[n..] == t;
    if n > 2 { ControlEscapeIsSafe(c, t); }
  }

  lemma {:induction false} EscapedBodyIsSafe(value: string)
    requires IsByteText(value)
    ensures IsSafeBody(Escape(value))
  {
    if value != "" {
      EscapedBodyIsSafe(value[1..]);
      EscapedCharIsSafe(value[0], Escape(value[1..]));
    }
  }

  /** The printed string, wherever it stands, reads back as the bytes. */
  lemma ReadQuoted(value: string, rest: string)
    requires IsByteText(value)
    ensures ReadValue(Quote(value) + rest) == Some((String(value), rest))
  {
    hide Escape, ReadBody;
    var t := Quote(value) + rest;
    ReadEscaped(value, rest);
    assert t[0] == '"' && SkipSpace(t) == t;
    assert t[1..] == Escape(value) + ("\"" + rest);
  }

  // ----- reading the other texts the shell prints -----

  lemma {:induction false} DigitSpanIs(s: string, rest: string)
    requires AllDigits(s) && (rest == "" || !IsDigit(rest[0]))
    ensures DigitSpan(s + rest) == |s|
    decreases |s|
  {
    if s == "" {
      assert s + rest == rest;
    } else {
      assert (s + rest)[1..] == s[1..] + rest;
      DigitSpanIs(s[1..], rest);
    }
  }

  lemma ReadFromDigit(t: string)
    requires t != "" && (IsDigit(t[0]) || t[0] == '-' || t[0] == '.')
    ensures ReadValue(t) == ReadNumber(t)
  {
    hide ReadNumber, ReadBody, ReadElements, ReadMembers;
    assert "true"[0] == 't' && "false"[0] == 'f' && "null"[0] == 'n';
    assert SkipSpace(t) == t;
  }

  /** What can follow a number's integer part without going on with it. */
  predicate EndsNumber(rest: string) {
    rest == "" || !(IsDigit(rest[0]) || rest[0] == '.' || rest[0] == 'e' || rest[0] == 'E')
  }

  lemma ReadDec(n: nat, rest: string)
    requires EndsNumber(rest)
    ensures ReadValue(Dec(n) + rest) == Some((Numeral(Dec(n)), rest))
  {
    hide Dec;
    var digits := Dec(n);
    var t := digits + rest;
    DecRoundTrip(n);
    DigitSpanIs(digits, rest);
    assert t[0..] == t && t[..|digits|] == digits && t[|digits|..] == rest;
    ReadFromDigit(t);
  }

  function BoolText(b: bool): string {
    if b then "true" else "false"
  }

  lemma ReadBool(b: bool, rest: string)
    ensures ReadValue(BoolText(b) + rest) == Some((Bool(b), rest))
  {
  }

  /** Text a printer may put between quotes as it stands. */
  predicate IsPlain(s: string) {
    forall i :: 0 <= i < |s| ==> 0x20 <= s[i] as int < 0x100 && s[i] != '"' && s[i] != '\\'
  }

  lemma {:induction false} EscapePlain(s: string)
    requires IsPlain(s)
    ensures IsByteText(s) && Escape(s) == s
  {
    hide EscapeChar;
    if s != "" {
      PlainIsNotEscaped(s[0]);
      assert forall i :: 0 <= i < |s| - 1 ==> s[1..][i] == s[i + 1];
      EscapePlain(s[1..]);
      assert Escape(s) == [s[0]] + s[1..] == s;
    }
  }

  lemma PlainIsNotEscaped(c: char)
    requires 0x20 <= c as int < 0x100 && c != '"' && c != '\\'
    ensures EscapeChar(c) == [c]
  {
  }

  /** `"key":text` followed by what comes after the value. */
  function Member(key: string, text: string): string {
    "\"" + (key + ("\":" + text))
  }

  lemma ReadMemberKey(key: string, text: string)
    requires IsPlain(key)
    ensures ReadKey(Member(key, text)) == Some((key, text))
  {
    EscapePlain(key);
    var t := Member(key, text);
    assert t[1..] == Escape(key) + ("\"" + (":" + text));
    ReadEscaped(key, ":" + text);
  }

  lemma ReadMemberThen(key: string, text: string, v: Json, rest: string, ms: seq<(string, Json)>, after: string)
    requires IsPlain(key) && ReadValue(text) == Some((v, rest))
    requires SkipSpace(rest) != "" && SkipSpace(rest)[0] == ','
    requires ReadMembers(SkipSpace(rest)[1..]) == Some((ms, after))
    ensures ReadMembers(Member(key, text)) == Some(([(key, v)] + ms, after))
  {
    ReadMemberKey(key, text);
  }

  lemma ReadMemberLast(key: string, text: string, v: Json, rest: string)
    requires IsPlain(key) && ReadValue(text) == Some((v, rest))
    requires SkipSpace(rest) != "" && SkipSpace(rest)[0] == '}'
    ensures ReadMembers(Member(key, text)) == Some(([(key, v)], SkipSpace(rest)[1..]))
  {
    ReadMemberKey(key, text);
  }
}
