/** What a JSON reader makes of a printed property, and exactly when it is what
    was meant. */
module PropertyRead {
  import opened Basics
  import opened Numerals
  import opened Json
  import opened JsonContext
  import opened PropertyPrint

  // ----- numbers -----

  /** The text with its sign taken off. */
  function Unsigned(s: string): string {
    if s != "" && s[0] == '-' then s[1..] else s
  }

  /** It starts and ends with a digit, a sign apart, and has no leading zero. */
  predicate IsTidy(s: string) {
    var t := Unsigned(s);
    && t != "" && IsDigit(t[0]) && IsDigit(t[|t| - 1])
    && (t[0] == '0' && |t| > 1 ==> !IsDigit(t[1]))
  }

  lemma SpanOfDigits(s: string)
    requires AllDigits(s)
    ensures DigitSpan(s) == |s|
  {
    DigitSpanIs(s, "");
    assert s + "" == s;
  }

  /** What is not the integer part of a number-like text: nothing, or a point and
      digits. */
  lemma PartsOfNumber(s: string)
    requires s != "" && NumberLike(s)
    ensures var t := Unsigned(s);
      var k := DigitSpan(t);
      k < |t| ==> t[k] == '.' && AllDigits(t[k + 1..])
  {
    hide DigitSpan;
    var t := Unsigned(s);
    var k, sign := DigitSpan(t), |s| - |t|;
    if k < |t| {
      assert t[k] == s[k + sign];
      forall i | k + 1 <= i < |t|
        ensures IsDigit(t[i])
      {
        assert s[k + sign] == '.' && s[i + sign] == t[i];
      }
    }
  }

  lemma TidyFirst(t: string)
    requires DigitSpan(t) > 0
    ensures (t[0] == '0' ==> DigitSpan(t) == 1) <==> (t[0] == '0' && |t| > 1 ==> !IsDigit(t[1]))
  {
    hide DigitSpan;
    if DigitSpan(t) > 1 { assert t[..DigitSpan(t)][1] == t[1]; }
    assert t[..DigitSpan(t)][0] == t[0];
  }

  lemma LengthOfNumber(s: string)
    requires s != "" && NumberLike(s)
    ensures var t := Unsigned(s); NumberLength(t) == if IsTidy(s) then Some(|t|) else None
  {
    hide NumberLike, DigitSpan;
    var t := Unsigned(s);
    var k := DigitSpan(t);
    PartsOfNumber(s);
    assert t[|t|..] == "";
    if k > 0 { TidyFirst(t); assert t[..k][0] == t[0] && t[..k][k - 1] == t[k - 1]; }
    if k < |t| {
      SpanOfDigits(t[k + 1..]);
      assert t[k..][1..] == t[k + 1..];
      if k + 1 < |t| { assert t[k + 1..][|t| - k - 2] == t[|t| - 1]; }
    }
  }

  /** A number-like text is a JSON number exactly when it is tidy, and nothing
      else in JSON. */
  lemma NumberReads(s: string)
    requires s != "" && NumberLike(s)
    ensures ReadText(s) == if IsTidy(s) then Some(Numeral(s)) else None
  {
    hide NumberLength, IsTidy, AtMostOneDot, ReadNumber, ReadValue;
    ReadFromDigit(s);
    NumberByLength(s);
    LengthOfNumber(s);
    var t := Unsigned(s);
    assert s[0..] == s;
    assert s[..|s|] == s;
  }

  /** The numbers of RFC 8259, section 6, without exponent are exactly the tidy
      number-like texts, and so they are never quoted. */
  lemma BareNumbers(s: string)
    ensures ReadNumber(s) == Some((Numeral(s), "")) && 'e' !in s && 'E' !in s
       <==> s != "" && NumberLike(s) && IsTidy(s)
  {
    hide NumberLength, ReadNumber, NumberLike, IsTidy;
    NumberByLength(s);
    if s != "" && NumberLike(s) {
      LengthOfNumber(s);
      NoExponent(s);
      var t := Unsigned(s);
      assert s[0..] == s;
      assert s[..|s|] == s;
    }
    if ReadNumber(s) == Some((Numeral(s), "")) && 'e' !in s && 'E' !in s {
      WholeNumberIsNumberLike(s);
      LengthOfNumber(s);
    }
  }

  lemma NoExponent(s: string)
    requires NumberLike(s)
    ensures 'e' !in s && 'E' !in s
  {
    hide AtMostOneDot;
  }

  lemma NoExponentHere(t: string, n: nat)
    requires n <= |t| && 'e' !in t && 'E' !in t
    ensures ExponentLength(t[n..]) == Some(0)
  {
  }

  lemma WholeNumberIsNumberLike(s: string)
    requires ReadNumber(s) == Some((Numeral(s), "")) && 'e' !in s && 'E' !in s
    ensures s != "" && NumberLike(s)
  {
    hide ReadNumber, NumberLength, NumberLike;
    NumberByLength(s);
    var t := Unsigned(s);
    assert s[0..] == s;
    assert NumberLength(t) == Some(|t|);
    PartsOfLength(t);
    DigitsAreNumberLike(s, t, |s| - |t|, DigitSpan(t));
  }

  lemma PartsOfLength(t: string)
    requires NumberLength(t) == Some(|t|) && 'e' !in t && 'E' !in t
    ensures var k := DigitSpan(t);
      && (k < |t| ==> t[k] == '.')
      && (forall i :: 0 <= i < |t| && i != k ==> IsDigit(t[i]))
  {
    hide DigitSpan, ExponentLength, FractionLength, NumberLength;
    var k := DigitSpan(t);
    SumOfLengths(t);
    NoExponentHere(t, k + FractionLength(t[k..]).value);
    FractionDigits(t[k..]);
    forall i | 0 <= i < |t| && i != k
      ensures IsDigit(t[i])
    {
      assert if i < k then t[i] == t[..k][i] else t[i] == t[k..][i - k];
    }
    assert k < |t| ==> t[k] == t[k..][0];
  }

  lemma SumOfLengths(t: string)
    requires NumberLength(t).Some?
    ensures var k := DigitSpan(t);
      var f := FractionLength(t[k..]);
      f.Some? && ExponentLength(t[k + f.value..]).Some?
      && NumberLength(t) == Some(k + f.value + ExponentLength(t[k + f.value..]).value)
  {
    hide DigitSpan, ExponentLength, FractionLength;
  }

  lemma FractionDigits(s: string)
    requires FractionLength(s) == Some(|s|)
    ensures s != "" ==> s[0] == '.' && forall i :: 1 <= i < |s| ==> IsDigit(s[i])
  {
    hide DigitSpan;
    if s != "" {
      assert forall i :: 1 <= i < |s| ==> s[i] == s[1..][..DigitSpan(s[1..])][i - 1];
    }
  }

  lemma DigitsAreNumberLike(s: string, t: string, sign: nat, n: nat)
    requires s != "" && t == Unsigned(s) && sign + |t| == |s| && n <= |t|
    requires forall i :: 0 <= i < |t| && i != n ==> IsDigit(t[i])
    requires n < |t| ==> t[n] == '.'
    ensures NumberLike(s)
  {
    assert forall i :: 0 <= i < |s| ==> i < sign || s[i] == t[i - sign];
  }

  // ----- a text by itself -----

  /** The value a text stands for in JSON, if it is one as it is shown: a keyword, a
      tidy number, a text that is itself one string, or a text to be quoted
      whose characters are the body of a string. */
  function Meaning(text: string): Option<Json> {
    if text == "true" then Some(Bool(true))
    else if text == "false" then Some(Bool(false))
    else if text == "null" then Some(Null)
    else if text != "" && text[0] == '"' then
      (match ReadBody(text[1..])
       case Some((body, rest)) => if SkipSpace(rest) == "" then Some(String(body)) else None
       case None => None)
    else if text != "" && NumberLike(text) then (if IsTidy(text) then Some(Numeral(text)) else None)
    else
      match ReadBody(text + "\"")
      case Some((body, rest)) => if rest == "" then Some(String(body)) else None
      case None => None
  }

  lemma {:induction false} SpaceBeforeMore(s: string)
    requires s != "" && !IsSpace(s[|s| - 1])
    ensures SkipSpace(s) != ""
  {
    if IsSpace(s[0]) { SpaceBeforeMore(s[1..]); }
  }

  /** What is printed for a text is a JSON value exactly when the text has a
      meaning, and then it is that value. */
  lemma ShowReads(text: string)
    ensures ReadText(Show(text)) == Meaning(text)
    ensures Meaning(text).Some? ==> IsScalar(Meaning(text).value)
    ensures !StartsContainer(Show(text)) && Show(text) != ""
  {
    hide NumberLike, ReadBody, ReadNumber, IsTidy, ReadElements, ReadMembers;
    if IsKeyword(text) {
      KeywordReads(text);
    } else if text != "" && text[0] == '"' {
    } else if text != "" && NumberLike(text) {
      NumberReads(text);
      NumberStart(text);
    } else {
      var s := "\"" + text + "\"";
      assert s[1..] == text + "\"";
      if ReadBody(s[1..]).Some? {
        var rest := ReadBody(s[1..]).value.1;
        BodyLeavesAnEnd(s[1..]);
        if rest != "" {
          assert rest[|rest| - 1] == '"';
          SpaceBeforeMore(rest);
        }
      }
    }
  }

  lemma KeywordReads(text: string)
    requires IsKeyword(text)
    ensures ReadText(text) == Meaning(text) && !StartsContainer(text)
  {
    hide ReadNumber, ReadBody, ReadElements, ReadMembers;
    assert SkipSpace(text) == text;
    assert "true"[4..] == "" && "false"[5..] == "" && "null"[4..] == "";
    assert "true"[0] == 't' && "false"[0] == 'f' && "null"[0] == 'n';
  }

  lemma NumberStart(text: string)
    requires text != "" && NumberLike(text)
    ensures !IsSpace(text[0]) && text[0] != '[' && text[0] != '{'
  {
    hide AtMostOneDot;
  }

  /** Printed bare, and no JSON. */
  lemma BareButNoValue()
    ensures forall text :: text in {"007", "00", ".", "5.", "-"} ==> IsBare(text) && Meaning(text) == None
  {
  }

  // ----- one object -----

  /** The lines as the console shows them. */
  function Printed(lines: seq<string>): string {
    if lines == [] then "" else lines[0] + ("\n" + Printed(lines[1..]))
  }

  /** The one value of a printed object with one member of this name, and what the
      caller asked to append after it. */
  function ReadOne(printed: string, key: string, append: string): Option<Json> {
    match ReadValue(printed)
    case Some((Object(members), after)) =>
      if |members| == 1 && members[0].0 == key && after == append + "\n" then Some(members[0].1) else None
    case _ => None
  }

  /** The name is the body of a string. */
  predicate IsName(name: string, key: string) {
    ReadBody(name + "\"") == Some((key, ""))
  }

  function AfterMember(key: string, v: Json, rest: string): Option<(Json, string)> {
    var u := SkipSpace(rest);
    if u == "" then None
    else if u[0] == '}' then Some((Object([(key, v)]), u[1..]))
    else if u[0] == ',' then
      (match ReadMembers(u[1..])
       case None => None
       case Some((ms, after)) => Some((Object([(key, v)] + ms), after)))
    else None
  }

  lemma ReadNamed(name: string, key: string, value: string)
    requires IsName(name, key)
    ensures ReadValue("{\"" + name + "\": " + value) ==
      match ReadValue(value) case None => None case Some((v, rest)) => AfterMember(key, v, rest)
  {
    hide ReadBody, ReadValue, ReadMembers, ReadKey;
    var members := "\"" + (name + "\"" + (": " + value));
    var s := "{\"" + name + "\": " + value;
    assert s == "{" + members;
    assert s[1..] == members;
    ClosedBody(name + "\"", ": " + value);
    assert members[1..] == (name + "\"") + (": " + value);
    assert "" + (": " + value) == ": " + value;
    KeyReads(members, key, value);
    SpaceInFront(value);
    MembersOf(members, key, " " + value);
    ObjectOf(s, members);
  }

  lemma KeyReads(members: string, key: string, value: string)
    requires members != "" && members[0] == '"' && ReadBody(members[1..]) == Some((key, ": " + value))
    ensures ReadKey(members) == Some((key, " " + value))
  {
    hide ReadBody;
    assert (": " + value)[1..] == " " + value;
  }

  lemma SpaceInFront(value: string)
    ensures ReadValue(" " + value) == ReadValue(value) && ReadValue("\n" + value) == ReadValue(value)
    ensures SkipSpace("\n" + value) == SkipSpace(value)
  {
    hide ReadNumber, ReadBody, ReadElements, ReadMembers;
    assert (" " + value)[1..] == value && ("\n" + value)[1..] == value;
  }

  lemma MembersOf(members: string, key: string, value: string)
    requires ReadKey(members) == Some((key, value))
    ensures ReadMembers(members) ==
      match ReadValue(value)
      case None => None
      case Some((v, rest)) =>
        match AfterMember(key, v, rest)
        case None => None
        case Some((o, after)) => Some((o.members, after))
  {
    hide ReadValue, ReadKey, SkipSpace;
  }

  lemma ObjectOf(s: string, members: string)
    requires s == "{" + members && members != "" && members[0] == '"'
    ensures ReadValue(s) ==
      match ReadMembers(members) case None => None case Some((ms, rest)) => Some((Object(ms), rest))
  {
    hide ReadNumber, ReadBody, ReadElements, ReadMembers;
    assert s[1..] == members;
    assert SkipSpace(s) == s && SkipSpace(members) == members;
  }

  lemma MoreMembers(key: string, v: Json, rest: string, append: string)
    requires AfterMember(key, v, rest).Some?
    ensures var (o, after) := AfterMember(key, v, rest).value;
      o.Object? && (|o.members| == 1 && after == append + "\n" <==> SkipSpace(rest) == "}" + append + "\n")
    ensures AfterMember(key, v, rest).value.0.members[0] == (key, v)
  {
    hide SkipSpace, ReadValue, ReadKey;
    var u := SkipSpace(rest);
    if u[0] == '}' {
      assert ("}" + append + "\n")[1..] == append + "\n";
      assert u == "}" + u[1..];
    }
  }

  lemma BoundaryOfObject(append: string)
    requires IsPlain(append)
    ensures IsBoundary("}" + append + "\n")
  {
    PlainEndsLine(append, "");
    assert ("}" + append + "\n")[1..] == append + ("\n" + "");
  }

  lemma {:induction false} PlainEndsLine(s: string, rest: string)
    requires IsPlain(s)
    ensures EndsLine(s + ("\n" + rest))
  {
    if s == "" {
      assert s + ("\n" + rest) == "\n" + rest;
    } else {
      assert (s + ("\n" + rest))[1..] == s[1..] + ("\n" + rest);
      PlainEndsLine(s[1..], rest);
    }
  }

  /** An object with one value, for every text: it reads as an object with that one
      member exactly when the text has a meaning, and its value is that. */
  lemma ObjectReads(name: string, key: string, text: string, append: string)
    requires IsName(name, key) && IsPlain(append)
    ensures ReadOne(Printed([KeyValue(name, text, append)]), key, append) == Meaning(text)
  {
    hide IsName, Show, Meaning, ReadValue, AfterMember, IsBoundary, SkipSpace, StartsContainer, IsPlain;
    var u, sep := Show(text), "}" + append + "\n";
    PrintedOne(KeyValue(name, text, append));
    assert KeyValue(name, text, append) + ("\n" + "") == "{\"" + name + "\": " + (u + sep);
    ReadNamed(name, key, u + sep);
    BoundaryOfObject(append);
    ShowReads(text);
    ScalarInContext(u, sep);
    if ReadValue(u).Some? {
      var (v, left) := ReadValue(u).value;
      SpaceInContext(left, sep);
      BoundaryIsNoSpace(sep);
      if AfterMember(key, v, left + sep).Some? { MoreMembers(key, v, left + sep, append); }
      if SkipSpace(left) == "" { ClosesHere(key, v, left + sep, append); }
    }
  }

  lemma BoundaryIsNoSpace(sep: string)
    requires IsBoundary(sep)
    ensures sep != "" && !IsSpace(sep[0]) && "" + sep == sep
  {
  }

  lemma ClosesHere(key: string, v: Json, rest: string, append: string)
    requires SkipSpace(rest) == "}" + append + "\n"
    ensures AfterMember(key, v, rest) == Some((Object([(key, v)]), append + "\n"))
  {
    hide SkipSpace, ReadMembers;
    assert ("}" + append + "\n")[1..] == append + "\n";
  }

  /** The text a single value is printed by: its own, or its bytes. */
  function SingleText(d: Decoder, data: seq<byte>): string
    requires IsDecoder(d)
  {
    match d(data)
    case Undecodable => Hex(data)
    case Decoded(length, text) => if text == "" then Hex(data[..length]) else text
  }

  predicate IsListData(d: Decoder, data: seq<byte>) {
    d(data).Decoded? && 0 < d(data).length < |data|
  }

  /** A property that is no list is printed as one object, and that is the JSON of
      its text exactly when the text has a meaning. */
  lemma SingleReadsBack(d: Decoder, style: Style, key: string, data: seq<byte>)
    requires IsDecoder(d) && !style.skip && !IsListData(d, data) && data != []
    requires IsName(style.name, key) && IsPlain(style.append)
    ensures ReadOne(Printed(Lines(d, style, data, true, false)), key, style.append) == Meaning(SingleText(d, data))
  {
    hide IsName, IsPlain, Meaning, ReadOne, Printed, KeyValue;
    LinesOf(d, style, data, true, false);
    assert Lines(d, style, data, true, false) == [KeyValue(style.name, SingleText(d, data), style.append)];
    ObjectReads(style.name, key, SingleText(d, data), style.append);
  }

  // ----- a list -----

  /** The texts of a buffer that is a concatenation of decodable values with
      texts. */
  function Elements(d: Decoder, data: seq<byte>): Option<seq<string>>
    requires IsDecoder(d)
    decreases |data|
  {
    if data == [] then Some([])
    else
      match d(data)
      case Undecodable => None
      case Decoded(length, text) =>
        if length == 0 || text == "" then None
        else
          match Elements(d, data[length..])
          case Some(rest) => Some([text] + rest)
          case None => None
  }

  /** The texts that are printed, as far as the loop gets. */
  function PrintedTexts(d: Decoder, data: seq<byte>): seq<string>
    requires IsDecoder(d)
    decreases |data|
  {
    match d(data)
    case Undecodable => []
    case Decoded(length, text) =>
      (if text == "" then [] else [text]) +
      (if length == 0 || length >= |data| then [] else PrintedTexts(d, data[length..]))
  }

  predicate AllMean(texts: seq<string>) {
    forall i :: 0 <= i < |texts| ==> Meaning(texts[i]).Some?
  }

  function Meanings(texts: seq<string>): seq<Json>
    requires AllMean(texts)
  {
    if texts == [] then [] else [Meaning(texts[0]).value] + Meanings(texts[1..])
  }

  /** The elements of a printed object whose one member, of this name, is an array
      of strings, numbers and literals. */
  function ReadFlat(printed: string, key: string, append: string): Option<seq<Json>> {
    match ReadOne(printed, key, append)
    case Some(Array(vs)) => if AllScalar(vs) then Some(vs) else None
    case _ => None
  }

  /** Elements read to where the object closes. */
  function Closed(read: Option<(seq<Json>, string)>, close: string): Option<seq<Json>> {
    match read
    case Some((vs, after)) => if AllScalar(vs) && SkipSpace(after) == close then Some(vs) else None
    case None => None
  }

  lemma ElementsInFront(s: string)
    ensures ReadElements("\n" + s) == ReadElements(s)
  {
    hide ReadValue, SkipSpace;
    SpaceInFront(s);
  }

  /** One element line: a text with a meaning is one element; any other spoils the
      list or makes it longer. */
  lemma LineReads(text: string, rest: string, close: string)
    ensures var read := Closed(ReadElements(Show(text) + (",\n" + rest)), close);
      var after := Closed(ReadElements(rest), close);
      && (Meaning(text).Some? ==>
            read == (if after.Some? then Some([Meaning(text).value] + after.value) else None))
      && (Meaning(text).None? && read.Some? && !EndsWith(close, ",\n" + rest) ==>
            after.Some? && |read.value| > 1 + |after.value|)
  {
    hide Show, Meaning, ReadValue, ReadElements, SkipSpace, IsScalar, ReadText;
    var u, sep := Show(text), ",\n" + rest;
    LineBoundary(rest);
    assert sep[1..] == "\n" + rest;
    ElementsInFront(rest);
    ShowReads(text);
    if Meaning(text).Some? {
      ScalarIsOneElement(u, sep);
      if ReadElements(rest).Some? { ScalarInFront(Meaning(text).value, ReadElements(rest).value.0); }
    } else if Closed(ReadElements(u + sep), close).Some? {
      ElementInContext(u, sep);
    }
  }

  lemma LineBoundary(rest: string)
    ensures IsBoundary(",\n" + rest) && IsBoundary("]\n" + rest)
  {
    assert (",\n" + rest)[1..] == "\n" + rest && ("]\n" + rest)[1..] == "\n" + rest;
  }

  lemma AllScalarNothing()
    ensures AllScalar([]) && forall v: Json :: [v] + [] == [v]
  {
  }

  lemma ScalarInFront(v: Json, vs: seq<Json>)
    requires IsScalar(v)
    ensures AllScalar([v] + vs) <==> AllScalar(vs)
  {
    TailScalars(v, vs);
  }

  /** The last element line. */
  lemma LastLineReads(text: string, close: string)
    requires close != "" && !IsSpace(close[0])
    ensures var read := Closed(ReadElements(Show(text) + ("]\n" + close)), close);
      && (Meaning(text).Some? ==> read == Some([Meaning(text).value]))
      && (Meaning(text).None? && read.Some? ==> |read.value| > 1)
  {
    hide Show, Meaning, ReadValue, ReadElements, IsScalar, ReadText;
    var u, sep := Show(text), "]\n" + close;
    LineBoundary(close);
    AllScalarNothing();
    assert sep[1..] == "\n" + close;
    SpaceInFront(close);
    ShowReads(text);
    if Meaning(text).Some? {
      ScalarIsOneElement(u, sep);
    } else if Closed(ReadElements(u + sep), close).Some? {
      ElementInContext(u, sep);
    }
  }

  /** An object in the place of an element. */
  lemma ObjectLineReads(name: string, text: string, append: string, rest: string, close: string)
    ensures Closed(ReadElements(KeyValue(name, text, append) + ("\n" + rest)), close) == None
  {
    hide Show, ReadValue, ReadElements;
    var s := KeyValue(name, text, append) + ("\n" + rest);
    assert s[0] == '{' && SkipSpace(s) == s;
    ContainerIsNoScalar(s);
    if ReadElements(s).Some? { FirstElement(s); }
  }

  function Close(append: string): string {
    "}" + append + "\n"
  }

  /** The loop gets to a value with a text and no length, which ends the output
      behind a comma. */
  predicate StopsAtNothing(d: Decoder, data: seq<byte>)
    requires IsDecoder(d)
    decreases |data|
  {
    match d(data)
    case Undecodable => false
    case Decoded(length, text) =>
      if length == 0 then text != "" else length < |data| && StopsAtNothing(d, data[length..])
  }

  predicate EndsWithComma(append: string) {
    append != "" && append[|append| - 1] == ','
  }

  /** Output that stops behind a comma may be taken for a list only where a comma
      is appended to one, and by a text that closes the list itself. */
  predicate MayCloseItself(d: Decoder, append: string, data: seq<byte>)
    requires IsDecoder(d)
  {
    EndsWithComma(append) && StopsAtNothing(d, data)
  }

  /** What a list's lines have to read as. */
  predicate ReadsAs(d: Decoder, append: string, data: seq<byte>, read: Option<seq<Json>>)
    requires IsDecoder(d)
  {
    match Elements(d, data)
    case Some(texts) =>
      if AllMean(texts) then read == Some(Meanings(texts)) else read.Some? ==> |read.value| > |texts|
    case None => AllMean(PrintedTexts(d, data)) || !MayCloseItself(d, append, data) ==> read == None
  }

  /** No text in front of these lines can close the list itself. */
  predicate IsGuarded(d: Decoder, append: string, data: seq<byte>, printed: string)
    requires IsDecoder(d)
  {
    Elements(d, data).Some? || !MayCloseItself(d, append, data) ==> !EndsWith(Close(append), ",\n" + printed)
  }

  lemma StepReads(d: Decoder, append: string, data: seq<byte>, after: Option<seq<Json>>, read: Option<seq<Json>>)
    requires IsDecoder(d) && IsListData(d, data) && d(data).text != ""
    requires ReadsAs(d, append, data[d(data).length..], after)
    requires Meaning(d(data).text).Some? ==>
      read == (if after.Some? then Some([Meaning(d(data).text).value] + after.value) else None)
    requires Meaning(d(data).text).None? && read.Some? && (Elements(d, data).Some? || !MayCloseItself(d, append, data)) ==>
      after.Some? && |read.value| > 1 + |after.value|
    ensures ReadsAs(d, append, data, read)
  {
    hide Meaning;
    var text, rest := d(data).text, data[d(data).length..];
    match Elements(d, rest)
    case Some(texts) => MeaningsInFront(text, texts);
    case None => MeaningsInFront(text, PrintedTexts(d, rest));
  }

  lemma MeaningsInFront(text: string, texts: seq<string>)
    ensures AllMean([text] + texts) <==> Meaning(text).Some? && AllMean(texts)
    ensures AllMean([text] + texts) ==> Meanings([text] + texts) == [Meaning(text).value] + Meanings(texts)
    ensures AllMean(texts) ==> |Meanings(texts)| == |texts|
  {
    hide Meaning;
    var all := [text] + texts;
    assert all[1..] == texts;
    if AllMean(all) {
      forall i | 0 <= i < |texts|
        ensures Meaning(texts[i]).Some?
      {
        assert all[i + 1] == texts[i];
      }
      assert all[0] == text;
    }
    if AllMean(texts) { CountMeanings(texts); }
  }

  lemma {:induction false} CountMeanings(texts: seq<string>)
    requires AllMean(texts)
    ensures |Meanings(texts)| == |texts|
  {
    hide Meaning;
    if texts != [] { CountMeanings(texts[1..]); }
  }

  /** From a later value on. */
  lemma {:induction false} TailReads(d: Decoder, style: Style, data: seq<byte>)
    requires IsDecoder(d) && !style.skip && data != []
    ensures var printed := Printed(Lines(d, style, data, false, true));
      && ReadsAs(d, style.append, data, Closed(ReadElements(printed), Close(style.append)))
      && IsGuarded(d, style.append, data, printed)
    decreases |data|
  {
    hide Lines, Show, KeyValue, Hex, Here, Meaning, ReadElements, Closed, Close, ReadsAs, IsGuarded, Elements, Printed;
    LinesOf(d, style, data, false, true);
    var lines := Lines(d, style, data, false, true);
    match d(data)
    case Undecodable =>
      assert lines == [KeyValue(style.name, Hex(data), style.append)] + [];
      DumpTail(d, style, data, Hex(data), []);
    case Decoded(length, text) =>
      LaterLines(style, data[..length], text, length >= |data|);
      var rest := if 0 < length < |data| then Lines(d, style, data[length..], false, true) else [];
      if 0 < length < |data| { TailReads(d, style, data[length..]); }
      if text == "" {
        DumpTail(d, style, data, Hex(data[..length]), rest);
      } else if length >= |data| {
        assert lines == [Show(text) + "]", "}" + style.append];
        LastTail(d, style, data);
      } else {
        assert lines == [Show(text) + ","] + rest;
        if length == 0 { StopTail(d, style, data); } else { ElementTail(d, style, data, rest); }
      }
  }

  lemma DumpTail(d: Decoder, style: Style, data: seq<byte>, text: string, rest: seq<string>)
    requires IsDecoder(d) && data != [] && (d(data).Undecodable? || d(data).text == "")
    ensures var printed := Printed([KeyValue(style.name, text, style.append)] + rest);
      && ReadsAs(d, style.append, data, Closed(ReadElements(printed), Close(style.append)))
      && IsGuarded(d, style.append, data, printed)
  {
    hide KeyValue, ReadElements, Closed, Close, ReadsAs, Elements, Printed;
    var line := KeyValue(style.name, text, style.append);
    PrintedFirst(line, rest);
    ObjectLineReads(style.name, text, style.append, Printed(rest), Close(style.append));
    NotElements(d, style.append, data, None);
    ObjectIsLong(style.name, text, style.append);
  }

  lemma ObjectIsLong(name: string, text: string, append: string)
    ensures |KeyValue(name, text, append)| + 1 >= |Close(append)|
  {
    hide Show;
  }

  lemma LastTail(d: Decoder, style: Style, data: seq<byte>)
    requires IsDecoder(d) && data != [] && d(data).Decoded? && d(data).text != "" && d(data).length >= |data|
    ensures var printed := Printed([Show(d(data).text) + "]", "}" + style.append]);
      && ReadsAs(d, style.append, data, Closed(ReadElements(printed), Close(style.append)))
      && IsGuarded(d, style.append, data, printed)
  {
    hide Show, Meaning, ReadElements, Closed, Close, ReadsAs, Printed;
    var text, close := d(data).text, Close(style.append);
    PrintedLast(text, style.append);
    LastLineReads(text, close);
    LastReads(d, style.append, data, text, Closed(ReadElements(Show(text) + ("]\n" + close)), close));
  }

  lemma StopTail(d: Decoder, style: Style, data: seq<byte>)
    requires IsDecoder(d) && data != [] && d(data).Decoded? && d(data).text != "" && d(data).length == 0
    ensures var printed := Printed([Show(d(data).text) + ","] + []);
      && ReadsAs(d, style.append, data, Closed(ReadElements(printed), Close(style.append)))
      && IsGuarded(d, style.append, data, printed)
  {
    hide Show, Meaning, ReadElements, Closed, Close, ReadsAs, Printed, EndsWith, EndsWithComma;
    var text, close := d(data).text, Close(style.append);
    ElementPrinted(text, []);
    NothingReads(close);
    LineReads(text, "", close);
    EndsThere(Show(text), ",\n");
    assert ",\n" + "" == ",\n";
    if !EndsWithComma(style.append) {
      CommaAtTheEnd(style.append, "");
      CommaAtTheEnd(style.append, Show(text) + ",\n");
    }
    StopReads(d, style.append, data, Closed(ReadElements(Show(text) + (",\n" + "")), close));
  }

  /** What closes a list ends behind a comma only where a comma is appended. */
  lemma CommaAtTheEnd(append: string, printed: string)
    requires !EndsWithComma(append) && (printed == "" || EndsWith(printed, ",\n"))
    ensures !EndsWith(Close(append), ",\n" + printed)
  {
    var close, end := Close(append), ",\n" + printed;
    assert end[|end| - 2] == ',';
    assert close[|close| - 2] == (if append == "" then '}' else append[|append| - 1]);
    if EndsWith(close, end) { LastButOne(close, end); }
  }

  lemma LastButOne(s: string, end: string)
    requires EndsWith(s, end) && |end| >= 2
    ensures s[|s| - 2] == end[|end| - 2]
  {
    assert s[|s| - |end|..][|end| - 2] == s[|s| - 2];
  }

  lemma EndsThere(s: string, end: string)
    ensures EndsWith(s + end, end)
  {
  }

  lemma ElementTail(d: Decoder, style: Style, data: seq<byte>, rest: seq<string>)
    requires IsDecoder(d) && IsListData(d, data) && d(data).text != ""
    requires ReadsAs(d, style.append, data[d(data).length..], Closed(ReadElements(Printed(rest)), Close(style.append)))
    requires IsGuarded(d, style.append, data[d(data).length..], Printed(rest))
    ensures var printed := Printed([Show(d(data).text) + ","] + rest);
      && ReadsAs(d, style.append, data, Closed(ReadElements(printed), Close(style.append)))
      && IsGuarded(d, style.append, data, printed)
  {
    hide Show, Meaning, ReadElements, Closed, Close, ReadsAs, Printed, EndsWith;
    var text, close := d(data).text, Close(style.append);
    ElementPrinted(text, rest);
    LineReads(text, Printed(rest), close);
    if EndsWith(close, ",\n" + (Show(text) + (",\n" + Printed(rest)))) { EndOfEnd(close, Show(text), Printed(rest)); }
    StepReads(d, style.append, data, Closed(ReadElements(Printed(rest)), close),
              Closed(ReadElements(Show(text) + (",\n" + Printed(rest))), close));
  }

  lemma EndOfEnd(close: string, line: string, rest: string)
    requires EndsWith(close, ",\n" + (line + (",\n" + rest)))
    ensures EndsWith(close, ",\n" + rest)
  {
  }

  lemma ElementPrinted(text: string, rest: seq<string>)
    ensures Printed([Show(text) + ","] + rest) == Show(text) + (",\n" + Printed(rest))
  {
    hide Show, Printed;
    PrintedFirst(Show(text) + ",", rest);
    assert (Show(text) + ",") + ("\n" + Printed(rest)) == Show(text) + (",\n" + Printed(rest));
  }

  lemma PrintedOne(line: string)
    ensures Printed([line]) == line + ("\n" + "")
  {
  }

  lemma PrintedFirst(line: string, rest: seq<string>)
    ensures Printed([line] + rest) == line + ("\n" + Printed(rest))
  {
    assert ([line] + rest)[1..] == rest;
  }

  lemma PrintedLast(text: string, append: string)
    ensures Printed([Show(text) + "]", "}" + append]) == Show(text) + ("]\n" + Close(append))
    ensures Close(append) != "" && !IsSpace(Close(append)[0])
  {
    hide Show;
    var first, last := Show(text) + "]", "}" + append;
    PrintedFirst(first, [last]);
    PrintedOne(last);
    assert [first] + [last] == [first, last];
    assert first + ("\n" + (last + ("\n" + ""))) == Show(text) + ("]\n" + Close(append));
  }

  /** A value without text, or none: no list. */
  lemma NotElements(d: Decoder, append: string, data: seq<byte>, read: Option<seq<Json>>)
    requires IsDecoder(d) && data != [] && (d(data).Undecodable? || d(data).text == "") && read == None
    ensures ReadsAs(d, append, data, read) && Elements(d, data) == None
  {
  }

  lemma LastReads(d: Decoder, append: string, data: seq<byte>, text: string, read: Option<seq<Json>>)
    requires IsDecoder(d) && data != [] && d(data).Decoded? && d(data).text == text != "" && d(data).length >= |data|
    requires Meaning(text).Some? ==> read == Some([Meaning(text).value])
    requires Meaning(text).None? && read.Some? ==> |read.value| > 1
    ensures ReadsAs(d, append, data, read)
  {
    hide Meaning;
    assert data[d(data).length..] == [] && [text] + [] == [text];
    assert Elements(d, data) == Some([text]);
    MeaningsInFront(text, []);
    assert AllMean([text]) <==> Meaning(text).Some?;
    if Meaning(text).Some? { assert Meanings([text]) == [Meaning(text).value] + [] == [Meaning(text).value]; }
  }

  lemma NothingReads(close: string)
    ensures Printed([]) == "" && Closed(ReadElements(""), close) == None
  {
  }

  lemma StopReads(d: Decoder, append: string, data: seq<byte>, read: Option<seq<Json>>)
    requires IsDecoder(d) && data != [] && d(data).Decoded? && d(data).length == 0 && d(data).text != ""
    requires Meaning(d(data).text).Some? || !EndsWithComma(append) ==> read == None
    ensures ReadsAs(d, append, data, read) && Elements(d, data) == None
  {
    var texts := PrintedTexts(d, data);
    assert texts == [d(data).text];
    if AllMean(texts) { assert Meaning(texts[0]).Some? && texts[0] == d(data).text; }
    assert AllMean(PrintedTexts(d, data)) ==> read == None;
  }

  lemma LaterLines(style: Style, value: seq<byte>, text: string, last: bool)
    requires !style.skip
    ensures Here(style, value, text, false, true, last) ==
      if text == "" then [KeyValue(style.name, Hex(value), style.append)]
      else if last then [Show(text) + "]", "}" + style.append]
      else [Show(text) + ","]
  {
  }

  /** The list form, for every buffer and every text. When the whole buffer decodes
      and every value has a text, the printed text is one JSON object with the
      array of the texts' meanings, in order, if every text has one; otherwise
      it is no such object, or its array is longer than the list. When the
      buffer does not decode to its end, it is none; except that one cut short by
      a value of no length, with a comma to append, may look finished when some
      text has no meaning (see TextThatCloses). */
  lemma ListReadsBack(d: Decoder, style: Style, key: string, data: seq<byte>)
    requires IsDecoder(d) && !style.skip && IsListData(d, data)
    requires IsName(style.name, key) && IsPlain(style.append)
    ensures ReadsAs(d, style.append, data, ReadFlat(Printed(Lines(d, style, data, true, false)), key, style.append))
  {
    hide Lines, Show, KeyValue, Hex, IsName, IsPlain, Meaning, ReadElements, ReadsAs, ReadFlat, Closed, Close, Header;
    hide Elements, Printed;
    LinesOf(d, style, data, true, false);
    var lines := Lines(d, style, data, true, false);
    var length, text := d(data).length, d(data).text;
    var rest := Lines(d, style, data[length..], false, true);
    TailReads(d, style, data[length..]);
    if text == "" {
      assert lines == [KeyValue(style.name, Hex(data[..length]), style.append)] + rest;
      PrintedFirst(lines[0], rest);
      DumpIsNoArray(style.name, key, Hex(data[..length]), style.append, Printed(rest));
      NotElements(d, style.append, data, None);
    } else {
      var elements := [Show(text) + ","] + rest;
      assert lines == [Header(style.name)] + elements;
      PrintedFirst(Header(style.name), elements);
      ElementPrinted(text, rest);
      ListOpens(style.name, key, style.append, text, ",\n" + Printed(rest));
      ElementTail(d, style, data, rest);
    }
  }

  /** The header, and the elements behind it. */
  lemma ListOpens(name: string, key: string, append: string, text: string, more: string)
    requires IsName(name, key)
    ensures var body := Show(text) + more;
      ReadFlat(Header(name) + ("\n" + body), key, append) == Closed(ReadElements(body), Close(append))
  {
    hide IsName, Show, ReadValue, ReadElements, AfterMember, SkipSpace, AllScalar;
    var body := Show(text) + more;
    var value := "[" + ("\n" + body);
    assert Header(name) + ("\n" + body) == "{\"" + name + "\": " + value;
    ReadNamed(name, key, value);
    ElementsInFront(body);
    ShowStart(text);
    assert body[0] == Show(text)[0];
    ArrayOf(body);
    var e := ReadElements(body);
    if e.Some? {
      var (vs, after) := e.value;
      if AfterMember(key, Array(vs), after).Some? { MoreMembers(key, Array(vs), after, append); }
      if SkipSpace(after) == Close(append) { ClosesHere(key, Array(vs), after, append); }
    }
  }

  lemma ShowStart(text: string)
    ensures Show(text) != "" && Show(text)[0] != ']' && !IsSpace(Show(text)[0])
  {
    hide AtMostOneDot;
  }

  lemma ArrayOf(body: string)
    requires body != "" && body[0] != ']' && !IsSpace(body[0])
    ensures ReadValue("[" + ("\n" + body)) ==
      match ReadElements(body) case None => None case Some((vs, rest)) => Some((Array(vs), rest))
  {
    hide ReadNumber, ReadBody, ReadElements, ReadMembers;
    var s := "[" + ("\n" + body);
    assert s[1..] == "\n" + body;
    SpaceInFront(body);
    ElementsInFront(body);
    assert SkipSpace(s) == s && SkipSpace(body) == body;
  }

  /** An object line in front is an object, and its value no array. */
  lemma DumpIsNoArray(name: string, key: string, text: string, append: string, rest: string)
    requires IsName(name, key)
    ensures ReadFlat(KeyValue(name, text, append) + ("\n" + rest), key, append) == None
  {
    hide IsName, Show, ReadValue, AfterMember, SkipSpace, StartsContainer;
    var value := Show(text) + ("}" + append + "\n" + rest);
    var s := KeyValue(name, text, append) + ("\n" + rest);
    assert s == "{\"" + name + "\": " + value;
    ReadNamed(name, key, value);
    StartsLikeShow(text, "}" + append + "\n" + rest);
    ContainerIsNoScalar(value);
    if ReadValue(value).Some? {
      var (v, left) := ReadValue(value).value;
      if AfterMember(key, v, left).Some? { MoreMembers(key, v, left, append); }
    }
  }

  lemma StartsLikeShow(text: string, more: string)
    ensures !StartsContainer(Show(text) + more)
  {
    hide Show;
    ShowReads(text);
    ShowStart(text);
    var s := Show(text);
    assert (s + more)[0] == s[0] && SkipSpace(s) == s && SkipSpace(s + more) == s + more;
  }

  /** Escapes are read whatever their code: one from behind the surrogates, a pair
      of surrogates, and one half of a pair. */
  lemma EscapesHaveMeaning()
    ensures Meaning("\"\\uE000\"") == Some(String([0xE000 as char]))
    ensures Meaning("\"\\ud83d\\ude00\"") == Some(String([0x1F600 as char]))
    ensures Meaning("\"\\ud83d\"") == Some(String([0xFFFD as char]))
  {
    hide HexValue, Meaning, ReadBody, EscapeCode;
    var end := "\"";
    CodesOfEscapes();
    EscapeInFront("E000", end);
    EscapeInFront("d83d", end);
    EscapeInFront("de00", end);
    var low := "\\u" + "de00" + end;
    EscapeInFront("d83d", low);
    EndOfString(end);
    OneEscape("\\u" + "E000" + end, end);
    OneEscape("\\u" + "d83d" + low, end);
    OneEscape("\\u" + "d83d" + end, end);
    assert "\"" + ("\\u" + "E000" + end) == "\"\\uE000\"";
    assert "\"" + ("\\u" + "d83d" + low) == "\"\\ud83d\\ude00\"";
    assert "\"" + ("\\u" + "d83d" + end) == "\"\\ud83d\"";
  }

  /** A string of one escape. */
  lemma OneEscape(body: string, end: string)
    requires end == "\"" && body != "" && body[0] == '\\' && |body| > 1 && body[1] == 'u'
    requires ReadCode(body).Some? && ReadCode(body).value.1 == end
    ensures Meaning("\"" + body) == Some(String([ReadCode(body).value.0]))
  {
    hide ReadCode;
    EndOfString(end);
    var text := "\"" + body;
    assert text[1..] == body;
    assert ReadChar(body) == ReadCode(body);
    assert ReadBody(body) == Some(([ReadCode(body).value.0] + "", ""));
    assert text[0] == '"' && "true"[0] == 't' && "false"[0] == 'f' && "null"[0] == 'n';
    assert !IsKeyword(text) && SkipSpace("") == "";
    assert [ReadCode(body).value.0] + "" == [ReadCode(body).value.0];
  }

  lemma EndOfString(end: string)
    requires end == "\""
    ensures ReadBody(end) == Some(("", "")) && LowSurrogate(end) == None
  {
  }

  lemma EscapeInFront(digits: string, rest: string)
    requires |digits| == 4
    ensures EscapeCode("\\u" + digits + rest) == HexValue(digits)
  {
    hide HexValue;
    assert ("\\u" + digits + rest)[2..6] == digits;
  }

  lemma CodesOfEscapes()
    ensures HexValue("E000") == Some(0xE000) && HexValue("d83d") == Some(0xD83D) && HexValue("de00") == Some(0xDE00)
  {
    HexOfFour("E000");
    HexOfFour("d83d");
    HexOfFour("de00");
  }

  lemma HexOfFour(s: string)
    requires |s| == 4 && forall i :: 0 <= i < 4 ==> NibbleValue(s[i]).Some?
    ensures HexValue(s) == Some(0x1000 * NibbleValue(s[0]).value + 0x100 * NibbleValue(s[1]).value
                                + 0x10 * NibbleValue(s[2]).value + NibbleValue(s[3]).value)
  {
    hide NibbleValue;
    assert s[..3][..2] == s[..2] && s[..2][..1] == s[..1] && s[..1][..0] == "";
    assert HexValue(s[..1]) == Some(NibbleValue(s[0]).value);
    assert HexValue(s[..2]) == Some(16 * NibbleValue(s[0]).value + NibbleValue(s[1]).value);
    assert HexValue(s[..3]) == Some(16 * HexValue(s[..2]).value + NibbleValue(s[2]).value);
  }

  // ----- where it is not what was meant -----

  /** A decoder of two bytes, a value each, or of two values of which the last has
      no length. */
  function TwoValues(first: Decoded, last: Decoded): Decoder {
    (data: seq<byte>) => if |data| == 2 then first else if |data| == 1 then last else Undecodable
  }

  lemma LinesOfTwo(text: string, length: nat, last: string, style: Style)
    requires text != "" && last != "" && length <= 1 && !style.skip
    ensures var d := TwoValues(Decoded(1, text), Decoded(length, last));
      && IsDecoder(d) && IsListData(d, [0, 0])
      && Lines(d, style, [0, 0], true, false) ==
         [Header(style.name), Show(text) + ","] +
         (if length == 0 then [Show(last) + ","] else [Show(last) + "]", "}" + style.append])
      && Elements(d, [0, 0]) == (if length == 0 then None else Some([text, last]))
  {
    hide Lines, Elements, Show, Header;
    LinesOfPair(text, length, last, style);
    ElementsOfPair(text, length, last);
  }

  lemma LinesOfPair(text: string, length: nat, last: string, style: Style)
    requires text != "" && last != "" && length <= 1 && !style.skip
    ensures var d := TwoValues(Decoded(1, text), Decoded(length, last));
      && IsDecoder(d) && IsListData(d, [0, 0])
      && Lines(d, style, [0, 0], true, false) ==
         [Header(style.name), Show(text) + ","] +
         (if length == 0 then [Show(last) + ","] else [Show(last) + "]", "}" + style.append])
  {
    hide Lines, Show, Header, Here;
    var d: Decoder := TwoValues(Decoded(1, text), Decoded(length, last));
    var data: seq<byte> := [0, 0];
    assert data[1..] == [0];
    LinesOf(d, style, data, true, false);
    LinesOf(d, style, data[1..], false, true);
    FirstLines(style, data[..1], text);
    LaterLines(style, data[1..][..length], last, length == 1);
  }

  lemma FirstLines(style: Style, value: seq<byte>, text: string)
    requires !style.skip && text != ""
    ensures Here(style, value, text, true, true, false) == [Header(style.name), Show(text) + ","]
  {
    hide Show, Header;
  }

  lemma ElementsOfPair(text: string, length: nat, last: string)
    requires text != "" && last != "" && length <= 1
    ensures var d := TwoValues(Decoded(1, text), Decoded(length, last));
      IsDecoder(d) && Elements(d, [0, 0]) == (if length == 0 then None else Some([text, last]))
  {
    var d: Decoder := TwoValues(Decoded(1, text), Decoded(length, last));
    var data: seq<byte> := [0, 0];
    assert data[1..] == [0] && data[1..][1..] == [];
    assert Elements(d, data[1..]) == if length == 0 then None else Some([last] + []);
    assert [text] + ([last] + []) == [text, last];
  }

  const CLOSING := "\"a\"]\n}"

  /** The exception happens: `true`, and then a value of no length with the text
      `"a"]`, newline, `}`, with a comma to append, look like a finished list. */
  lemma TextThatCloses(name: string, key: string)
    requires IsName(name, key)
    ensures Show(CLOSING) == CLOSING && Meaning(CLOSING) == None
    ensures var d := TwoValues(Decoded(1, "true"), Decoded(0, CLOSING));
      var style := Style(name, ",", false);
      && IsDecoder(d) && IsListData(d, [0, 0]) && Elements(d, [0, 0]) == None
      && ReadFlat(Printed(Lines(d, style, [0, 0], true, false)), key, ",") == Some([Bool(true), String("a")])
  {
    hide ReadElements, ReadValue, ReadFlat, IsName, Closed, Header, Printed, Lines, Meaning, Elements, IsDecoder;
    LinesOfTwo("true", 0, CLOSING, Style(name, ",", false));
    var lines := [CLOSING + ","];
    PrintedFirst(Header(name), [Show("true") + ","] + lines);
    assert [Header(name), Show("true") + ","] + lines == [Header(name)] + ([Show("true") + ","] + lines);
    ElementPrinted("true", lines);
    PrintedOne(CLOSING + ",");
    var rest := "\"" + "a" + "\"" + "]\n},\n";
    assert (CLOSING + ",") + ("\n" + "") == rest;
    ListOpens(name, key, ",", "true", ",\n" + rest);
    LineReads("true", rest, Close(","));
    ClosingReads();
    ClosingHasNoMeaning();
    assert Meaning("true") == Some(Bool(true)) by { KeywordReads("true"); TrueReads(); }
    assert [Bool(true)] + [String("a")] == [Bool(true), String("a")];
  }

  lemma TrueReads()
    ensures Meaning("true") == Some(Bool(true))
  {
  }

  lemma ClosingReads()
    ensures Closed(ReadElements("\"" + "a" + "\"" + "]\n},\n"), Close(",")) == Some([String("a")])
  {
    hide ReadElements, ReadValue;
    var more := "]\n},\n";
    PlainString("a", more);
    ElementsOf("\"" + "a" + "\"" + more);
    assert more[1..] == "\n},\n" && SkipSpace(more) == more;
    assert SkipSpace("\n},\n") == "},\n" by { assert "\n},\n"[1..] == "},\n"; }
    assert [String("a")] + [] == [String("a")];
  }

  lemma ClosingHasNoMeaning()
    ensures Meaning(CLOSING) == None
  {
    hide ReadBody;
    var rest := "]\n}";
    ReadEscaped("a", rest);
    EscapePlain("a");
    assert "a" + ("\"" + rest) == CLOSING[1..];
    assert SkipSpace(rest) == rest;
  }

  const TWO_STRINGS := "\"a\",\"b\""

  /** The text `"a","b"` has no meaning, and two values with it are printed as an
      array of four. */
  lemma TwoValuesMakeFour(name: string, key: string, append: string)
    requires IsName(name, key)
    ensures Show(TWO_STRINGS) == TWO_STRINGS && Meaning(TWO_STRINGS) == None
    ensures var d := TwoValues(Decoded(1, TWO_STRINGS), Decoded(1, TWO_STRINGS));
      var style := Style(name, append, false);
      && IsDecoder(d) && IsListData(d, [0, 0]) && Elements(d, [0, 0]) == Some([TWO_STRINGS, TWO_STRINGS])
      && ReadFlat(Printed(Lines(d, style, [0, 0], true, false)), key, append)
         == Some([String("a"), String("b"), String("a"), String("b")])
  {
    hide ReadElements, ReadValue, ReadFlat, IsName, Closed, Printed, Header, Close, Meaning, Lines, Elements, IsDecoder;
    LinesOfTwo(TWO_STRINGS, 1, TWO_STRINGS, Style(name, append, false));
    var close := Close(append);
    var last := TWO_STRINGS + ("]\n" + close);
    var lines := [TWO_STRINGS + "]", "}" + append];
    PrintedLast(TWO_STRINGS, append);
    ElementPrinted(TWO_STRINGS, lines);
    PrintedFirst(Header(name), [TWO_STRINGS + ","] + lines);
    assert [Header(name)] + ([TWO_STRINGS + ","] + lines) == [Header(name), TWO_STRINGS + ","] + lines;
    ListOpens(name, key, append, TWO_STRINGS, ",\n" + last);
    FourStringsRead(close);
    ClosedIs([String("a"), String("b"), String("a"), String("b")], "\n" + close, close);
    TwoStringsHaveNoMeaning();
  }

  lemma FourStringsRead(close: string)
    requires close != "" && !IsSpace(close[0])
    ensures ReadElements(TWO_STRINGS + (",\n" + (TWO_STRINGS + ("]\n" + close))))
         == Some(([String("a"), String("b"), String("a"), String("b")], "\n" + close))
    ensures SkipSpace("\n" + close) == close
  {
    hide ReadElements, ReadValue;
    var last := TWO_STRINGS + ("]\n" + close);
    var two := [String("a"), String("b")];
    TwoStringsRead("]\n" + close);
    AfterSeparator("]", close);
    assert "]" + "\n" + close == "]\n" + close && "," + "\n" + last == ",\n" + last;
    assert two + [] == two;
    assert ReadElements(last) == Some((two, "\n" + close));
    TwoStringsRead(",\n" + last);
    AfterSeparator(",", last);
    SpaceInFront(close);
    assert two + two == [String("a"), String("b"), String("a"), String("b")];
  }

  lemma ClosedIs(vs: seq<Json>, after: string, close: string)
    requires AllScalar(vs) && SkipSpace(after) == close
    ensures Closed(Some((vs, after)), close) == Some(vs)
  {
  }

  lemma TwoStringsHaveNoMeaning()
    ensures Meaning(TWO_STRINGS) == None
  {
    hide ReadBody;
    var rest := ",\"b\"";
    ReadEscaped("a", rest);
    EscapePlain("a");
    assert "a" + ("\"" + rest) == TWO_STRINGS[1..];
    assert SkipSpace(rest) == rest;
  }

  lemma TwoStringsRead(more: string)
    requires more != "" && (more[0] == ',' || more[0] == ']')
    ensures ReadElements(TWO_STRINGS + more) ==
      match AfterElement(more)
      case None => None
      case Some((vs, after)) => Some(([String("a"), String("b")] + vs, after))
  {
    hide ReadValue, ReadElements;
    var second := "\"b\"" + more;
    PlainString("a", "," + second);
    PlainString("b", more);
    assert "\"" + "a" + "\"" + ("," + second) == TWO_STRINGS + more && "\"" + "b" + "\"" + more == second;
    assert ("," + second)[1..] == second;
    assert SkipSpace("," + second) == "," + second && SkipSpace(more) == more;
    ElementsOf(TWO_STRINGS + more);
    ElementsOf(second);
    assert ReadElements(TWO_STRINGS + more) == InFront(String("a"), InFront(String("b"), AfterElement(more)));
    InFrontTwo(String("a"), String("b"), AfterElement(more));
  }

  lemma InFrontTwo(a: Json, b: Json, more: Option<(seq<Json>, string)>)
    ensures InFront(a, InFront(b, more)) ==
      match more case None => None case Some((vs, after)) => Some(([a, b] + vs, after))
  {
    if more.Some? {
      var vs := more.value.0;
      assert [a] + ([b] + vs) == [a, b] + vs;
    }
  }

  lemma AfterSeparator(separator: string, rest: string)
    requires separator == "]" || separator == ","
    ensures AfterElement(separator + "\n" + rest)
         == if separator == "]" then Some(([], "\n" + rest)) else ReadElements(rest)
  {
    hide ReadElements;
    assert (separator + "\n" + rest)[1..] == "\n" + rest;
    ElementsInFront(rest);
  }

  lemma PlainString(text: string, rest: string)
    requires IsPlain(text)
    ensures ReadValue("\"" + text + "\"" + rest) == Some((String(text), rest))
  {
    hide ReadValue;
    EscapePlain(text);
    ReadQuoted(text, rest);
    assert Quote(text) == "\"" + text + "\"";
  }

  /** The text `x"y` is quoted and has no meaning, so the object it is printed in is
      none. */
  lemma QuoteInside(name: string, key: string, append: string)
    requires IsName(name, key) && IsPlain(append)
    ensures ReadOne(Printed([KeyValue(name, "x\"y", append)]), key, append) == None
  {
    hide IsName, IsPlain, ReadOne, Meaning;
    ObjectReads(name, key, "x\"y", append);
    QuoteInsideHasNoMeaning();
  }

  lemma QuoteInsideHasNoMeaning()
    ensures Meaning("x\"y") == None && !IsBare("x\"y")
  {
    hide ReadBody;
    ReadEscaped("x", "y\"");
    EscapePlain("x");
    assert "x" + ("\"" + "y\"") == "x\"y" + "\"";
    assert "x\"y"[0] == 'x';
  }
}
