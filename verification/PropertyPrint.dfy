/** Printing a property's value as JSON: when a text is quoted, and the lines of a
    single value and of a list. */
module PropertyPrint {
  import opened Basics
  import opened Numerals

  // ----- quoting -----

  predicate IsKeyword(s: string) {
    s == "true" || s == "false" || s == "null"
  }

  predicate AtMostOneDot(s: string) {
    forall i, j :: 0 <= i < j < |s| ==> !(s[i] == '.' && s[j] == '.')
  }

  /** Digits, with perhaps a sign in front and one decimal point anywhere. */
  predicate NumberLike(s: string) {
    && (forall i :: 0 <= i < |s| ==> IsDigit(s[i]) || s[i] == '.' || (i == 0 && s[i] == '-'))
    && AtMostOneDot(s)
  }

  /** A text printed as it is. */
  predicate IsBare(s: string) {
    IsKeyword(s) || (s != "" && (s[0] == '"' || NumberLike(s)))
  }

  /** `cmd_json_is_quoted`: a scan from the end. */
  method IsQuoted(value: string) returns (quotes: bool)
    ensures quotes <==> !IsBare(value)
    ensures quotes <==>
            (value != "true" && value != "false" && value != "null"
             && (value == ""
                 || (value[0] != '"'
                     && ((exists i :: 0 <= i < |value| && !('0' <= value[i] <= '9') && value[i] != '.'
                                      && !(i == 0 && value[i] == '-'))
                         || exists i, j :: 0 <= i < j < |value| && value[i] == '.' && value[j] == '.'))))
  {
    if value == "true" || value == "false" || value == "null" {
      return false;
    }
    var len := |value|;
    if len > 0 && value[0] == '"' {
      return false;
    } else if len > 0 {
      var digitsOnly, decimalPoints := true, 0;
      while len > 0
        invariant 0 <= len <= |value| && decimalPoints >= 0
        invariant decimalPoints == 0 <==> forall i :: len <= i < |value| ==> value[i] != '.'
        invariant decimalPoints <= 1 <==> AtMostOneDot(value[len..])
        invariant digitsOnly <==>
                  (AtMostOneDot(value[len..])
                   && forall i :: len <= i < |value| ==> IsDigit(value[i]) || value[i] == '.' || (i == 0 && value[i] == '-'))
      {
        ghost var after := value[len..];
        len := len - 1;
        DotInFront(value[len], after);
        assert value[len..] == [value[len]] + after;
        assert (exists i :: len + 1 <= i < |value| && value[i] == '.') <==> (exists i :: 0 <= i < |after| && after[i] == '.') by {
          assert forall i :: len + 1 <= i < |value| ==> value[i] == after[i - (len + 1)];
        }
        var digit := value[len];
        if !IsDigit(digit) {
          if len == 0 && digit == '-' {
          } else if digit == '.' {
            decimalPoints := decimalPoints + 1;
            if decimalPoints > 1 {
              digitsOnly := false;
            }
          } else {
            digitsOnly := false;
          }
        }
      }
      assert value[0..] == value;
      return !digitsOnly;
    }
    return true;
  }

  lemma DotInFront(c: char, s: string)
    ensures AtMostOneDot([c] + s)
       <==> AtMostOneDot(s) && (c == '.' ==> forall i :: 0 <= i < |s| ==> s[i] != '.')
  {
    var t := [c] + s;
    assert forall i :: 0 <= i < |s| ==> t[i + 1] == s[i];
    if AtMostOneDot(t) {
      forall i, j | 0 <= i < j < |s|
        ensures !(s[i] == '.' && s[j] == '.')
      {
        assert t[i + 1] == s[i] && t[j + 1] == s[j];
      }
      if c == '.' {
        forall i | 0 <= i < |s|
          ensures s[i] != '.'
        {
          assert t[0] == c && t[i + 1] == s[i];
        }
      }
    }
  }

  // ----- the value of a property -----

  /** What the decoder makes of the front of a buffer: an error, or the length of
      the first value and its text, empty when it has none. */
  datatype Decoded = Undecodable | Decoded(length: nat, text: string)

  type Decoder = seq<byte> -> Decoded

  /** A decoder stays inside its buffer. */
  ghost predicate IsDecoder(d: Decoder) {
    forall data :: d(data).Decoded? ==> d(data).length <= |data|
  }

  function Show(text: string): string {
    if IsBare(text) then text else "\"" + text + "\""
  }

  /** `{"name": value}`, on a line. */
  function KeyValue(name: string, text: string, append: string): string {
    "{\"" + name + "\": " + Show(text) + "}" + append
  }

  function Header(name: string): string {
    "{\"" + name + "\": ["
  }

  /** The lines of one element of a list. */
  function ListValue(name: string, text: string, first: bool, last: bool, append: string): seq<string> {
    (if first then [Header(name)] else []) +
    [Show(text) + (if last then "]" else ",")] +
    (if last then ["}" + append] else [])
  }

  /** How a property is printed: its name, what follows it, and whether only
      undecodable data is. */
  datatype Style = Style(name: string, append: string, skip: bool)

  /** The lines for the data left, at the first value or a later one. */
  function Lines(d: Decoder, style: Style, data: seq<byte>, first: bool, list: bool): seq<string>
    requires IsDecoder(d)
    decreases |data|
  {
    match d(data)
    case Undecodable => [KeyValue(style.name, Hex(data), style.append)]
    case Decoded(length, text) =>
      Here(style, data[..length], text, first, list || IsList(length, data, first), length >= |data|) +
      (if length >= |data| || length == 0 then []
       else Lines(d, style, data[length..], false, list || IsList(length, data, first)))
  }

  /** The lines of one value. */
  function Here(style: Style, value: seq<byte>, text: string, first: bool, list: bool, last: bool): seq<string> {
    if style.skip then []
    else if text == "" then [KeyValue(style.name, Hex(value), style.append)]
    else if list then ListValue(style.name, text, first, last, style.append)
    else [KeyValue(style.name, text, style.append)]
  }

  /** A first value with more behind it makes a list. */
  predicate IsList(length: nat, data: seq<byte>, first: bool) {
    first && 0 < length < |data|
  }

  lemma LinesOf(d: Decoder, style: Style, data: seq<byte>, first: bool, list: bool)
    requires IsDecoder(d)
    ensures d(data).Undecodable? ==> Lines(d, style, data, first, list) == [KeyValue(style.name, Hex(data), style.append)]
    ensures d(data).Decoded? ==>
      var length := d(data).length;
      var isList := list || IsList(length, data, first);
      Lines(d, style, data, first, list) ==
      Here(style, data[..length], d(data).text, first, isList, length >= |data|) +
      (if length >= |data| || length == 0 then [] else Lines(d, style, data[length..], false, isList))
  {
  }

  /** The printing of one value. */
  method PrintOne(style: Style, value: seq<byte>, text: string, first: bool, list: bool, last: bool)
    returns (out: seq<string>)
    ensures out == Here(style, value, text, first, list, last)
  {
    out := [];
    if !style.skip {
      if |text| > 0 {
        if list {
          out := ListValue(style.name, text, first, last, style.append);
        } else {
          out := [KeyValue(style.name, text, style.append)];
        }
      } else {
        out := [KeyValue(style.name, Hex(value), style.append)];
      }
    }
  }

  lemma Associate<T>(a: seq<T>, b: seq<T>, c: seq<T>)
    ensures a + (b + c) == (a + b) + c
  {
  }

  /** `cmd_value_print`: null for an empty buffer, otherwise one value or a list. */
  method PrintValue(d: Decoder, style: Style, data: seq<byte>) returns (out: seq<string>)
    requires IsDecoder(d)
    ensures data == [] ==> out == [KeyValue(style.name, "null", style.append)]
    ensures data != [] ==> out == Lines(d, style, data, true, false)
  {
    hide Lines, KeyValue, Here, Hex, Show;
    if |data| == 0 {
      return [KeyValue(style.name, "null", style.append)];
    }
    out := [];
    ghost var all := Lines(d, style, data, true, false);
    var apdu, first, last, list := data, true, false, false;
    while true
      invariant apdu != [] && !last
      invariant out + Lines(d, style, apdu, first, list) == all
      decreases |apdu|
    {
      LinesOf(d, style, apdu, first, list);
      var value := d(apdu);
      if value.Undecodable? {
        out := out + [KeyValue(style.name, Hex(apdu), style.append)];
        break;
      }
      var length := value.length;
      if first && length > 0 && length < |apdu| {
        list := true;
      }
      if length >= |apdu| {
        last := true;
      }
      var here := PrintOne(style, apdu[..length], value.text, first, list, last);
      ghost var rest := if last || length == 0 then [] else Lines(d, style, apdu[length..], false, list);
      Associate(out, here, rest);
      out := out + here;
      first := false;
      if last {
        break;
      }
      if length > 0 {
        apdu := apdu[length..];
      } else {
        break;
      }
    }
  }

  /** Without printing, only undecodable data shows: nothing does exactly when
      decoding goes on to the end or to a value of no length. */
  function DecodesThrough(d: Decoder, data: seq<byte>): bool
    requires IsDecoder(d)
    decreases |data|
  {
    match d(data)
    case Undecodable => false
    case Decoded(length, _) => length >= |data| || length == 0 || DecodesThrough(d, data[length..])
  }

  lemma {:induction false} SkippingShowsErrorsOnly(d: Decoder, style: Style, data: seq<byte>, first: bool, list: bool)
    requires IsDecoder(d) && style.skip
    ensures |Lines(d, style, data, first, list)| == if DecodesThrough(d, data) then 0 else 1
    decreases |data|
  {
    match d(data)
    case Undecodable =>
    case Decoded(length, _) =>
      if 0 < length < |data| {
        SkippingShowsErrorsOnly(d, style, data[length..], false, list || (first && 0 < length < |data|));
      }
  }
}
