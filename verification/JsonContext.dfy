/** Reading JSON in a context: what a reader makes of a piece of text when a
    separator and more text follow. */
module JsonContext {
  import opened Basics
  import opened Numerals
  import opened Json

  predicate IsScalar(v: Json) {
    !v.Array? && !v.Object?
  }

  predicate AllScalar(vs: seq<Json>) {
    forall i :: 0 <= i < |vs| ==> IsScalar(vs[i])
  }

  /** There is a newline, and neither a quote nor an escape before it. */
  predicate EndsLine(s: string) {
    s != "" && (s[0] == '\n' || (s[0] != '"' && s[0] != '\\' && EndsLine(s[1..])))
  }

  /** A separator, or a closing bracket or brace: what can follow a value inside an
      array or an object. */
  predicate EndsValue(sep: string) {
    sep != "" && (sep[0] == ',' || sep[0] == ']' || sep[0] == '}')
  }

  /** The same, and more text whose first line holds no quote. */
  predicate IsBoundary(sep: string) {
    EndsValue(sep) && EndsLine(sep)
  }

  /** The same result with more text left over. */
  function Extend<T>(read: Option<(T, string)>, more: string): Option<(T, string)> {
    match read
    case Some((v, rest)) => Some((v, rest + more))
    case None => None
  }

  // ----- strings -----

  lemma {:induction false} NotHex(s: string, i: nat)
    requires i < |s| && NibbleValue(s[i]) == None
    ensures HexValue(s) == None
  {
    if i < |s| - 1 { NotHex(s[..|s| - 1], i); }
  }

  lemma EscapeInContext(u: string, sep: string)
    requires IsBoundary(sep)
    ensures EscapeCode(u + sep) == EscapeCode(u)
  {
    hide HexValue, EndsLine;
    var s := u + sep;
    if |u| < 6 {
      assert s[|u|] == sep[0];
      if 2 <= |u| && |s| >= 6 {
        assert s[2..6][|u| - 2] == sep[0];
        NotHex(s[2..6], |u| - 2);
      }
    } else {
      assert s[2..6] == u[2..6];
    }
  }

  lemma CodeInContext(u: string, sep: string)
    requires IsBoundary(sep)
    ensures ReadCode(u + sep) == Extend(ReadCode(u), sep)
  {
    hide EscapeCode, EndsLine;
    EscapeInContext(u, sep);
    if EscapeCode(u).Some? {
      assert (u + sep)[6..] == u[6..] + sep;
      EscapeInContext(u[6..], sep);
      assert |u| >= 12 ==> (u + sep)[12..] == u[12..] + sep;
    }
  }

  lemma CharInContext(u: string, sep: string)
    requires u != "" && u[0] != '"' && IsBoundary(sep)
    ensures ReadChar(u + sep) == Extend(ReadChar(u), sep)
  {
    hide ReadCode, EndsLine;
    var s := u + sep;
    if u[0] != '\\' {
      assert s[1..] == u[1..] + sep;
    } else if |u| == 1 {
      assert s[1] == sep[0];
    } else if u[1] != 'u' {
      assert s[2..] == u[2..] + sep;
    } else {
      CodeInContext(u, sep);
    }
  }

  lemma {:induction false} LineEndsString(s: string)
    requires EndsLine(s)
    ensures ReadBody(s) == None
  {
    if s[0] != '\n' { LineEndsString(s[1..]); }
  }

  /** A string that is not closed before a boundary is none. */
  lemma {:induction false} BodyInContext(u: string, sep: string)
    requires IsBoundary(sep)
    ensures ReadBody(u + sep) == Extend(ReadBody(u), sep)
    decreases |u|
  {
    hide ReadChar, IsBoundary;
    var s := u + sep;
    if u == "" {
      assert s == sep;
      BoundaryEndsString(sep);
    } else if u[0] == '"' {
      assert s[1..] == u[1..] + sep;
    } else {
      CharInContext(u, sep);
      if ReadChar(u).Some? { BodyInContext(ReadChar(u).value.1, sep); }
    }
  }

  lemma BoundaryEndsString(sep: string)
    requires IsBoundary(sep)
    ensures ReadBody(sep) == None
  {
    LineEndsString(sep);
  }

  /** A closed string stays what it is in front of anything. */
  lemma {:induction false} ClosedBody(u: string, more: string)
    requires ReadBody(u).Some?
    ensures ReadBody(u + more) == Extend(ReadBody(u), more)
    decreases |u|
  {
    hide ReadChar;
    var s := u + more;
    if u[0] == '"' {
      assert s[1..] == u[1..] + more;
    } else {
      ReadCharThen(u, more);
      ClosedBody(ReadChar(u).value.1, more);
    }
  }

  /** No escape begins where a string goes on to its end and ends elsewhere. */
  lemma EscapeThen(u: string, more: string)
    requires ReadBody(u).Some?
    ensures EscapeCode(u + more) == EscapeCode(u)
  {
    hide HexValue;
    if |u| >= 6 { assert (u + more)[2..6] == u[2..6]; }
  }

  lemma CodeThen(u: string, more: string)
    requires ReadCode(u).Some? && ReadBody(ReadCode(u).value.1).Some?
    ensures ReadCode(u + more) == Extend(ReadCode(u), more)
  {
    hide HexValue, ReadBody;
    var s := u + more;
    assert s[2..6] == u[2..6] && s[6..] == u[6..] + more;
    if LowSurrogate(u[6..]).Some? {
      assert s[6..][2..6] == u[6..][2..6];
      assert s[12..] == u[12..] + more;
    } else if ReadCode(u).value.1 == u[6..] {
      EscapeThen(u[6..], more);
    }
  }

  lemma ReadCharThen(u: string, more: string)
    requires u != "" && u[0] != '"' && ReadChar(u).Some? && ReadBody(ReadChar(u).value.1).Some?
    ensures ReadChar(u + more) == Extend(ReadChar(u), more)
  {
    hide ReadCode, ReadBody;
    var s := u + more;
    if u[0] != '\\' {
      assert s[1..] == u[1..] + more;
    } else if u[1] != 'u' {
      assert s[2..] == u[2..] + more;
    } else {
      CodeThen(u, more);
    }
  }

  /** What is left after a string is an end of the text. */
  lemma {:induction false} BodyLeavesAnEnd(s: string)
    requires ReadBody(s).Some?
    ensures var rest := ReadBody(s).value.1; rest == s[|s| - |rest|..]
    decreases |s|
  {
    hide ReadChar;
    if s[0] != '"' {
      ReadCharLeavesAnEnd(s);
      var rest := ReadChar(s).value.1;
      BodyLeavesAnEnd(rest);
      var after := ReadBody(s).value.1;
      assert rest[|rest| - |after|..] == s[|s| - |after|..];
    }
  }

  lemma ReadCharLeavesAnEnd(s: string)
    requires s != "" && s[0] != '"' && ReadChar(s).Some?
    ensures var rest := ReadChar(s).value.1; rest == s[|s| - |rest|..]
  {
  }

  // ----- numbers and literals -----

  lemma {:induction false} DigitsInContext(u: string, sep: string)
    requires sep == "" || !IsDigit(sep[0])
    ensures DigitSpan(u + sep) == DigitSpan(u)
  {
    if u == "" {
      assert u + sep == sep;
    } else {
      assert (u + sep)[1..] == u[1..] + sep;
      DigitsInContext(u[1..], sep);
    }
  }

  lemma FractionInContext(u: string, sep: string)
    requires EndsValue(sep)
    ensures FractionLength(u + sep) == FractionLength(u)
  {
    if u == "" {
      assert u + sep == sep;
    } else {
      assert (u + sep)[1..] == u[1..] + sep;
      DigitsInContext(u[1..], sep);
    }
  }

  lemma ExponentInContext(u: string, sep: string)
    requires EndsValue(sep)
    ensures ExponentLength(u + sep) == ExponentLength(u)
  {
    hide DigitSpan;
    var s := u + sep;
    if u == "" {
      assert s == sep;
    } else if u[0] == 'e' || u[0] == 'E' {
      var sign := if |u| > 1 && (u[1] == '+' || u[1] == '-') then 1 else 0;
      assert |u| == 1 ==> s[1] == sep[0];
      assert s[1 + sign..] == u[1 + sign..] + sep;
      DigitsInContext(u[1 + sign..], sep);
    }
  }

  /** The length of the number in front, if any. */
  function NumberLength(t: string): (r: Option<nat>)
    ensures r.Some? ==> r.value <= |t|
  {
    var k := DigitSpan(t);
    if k == 0 || (k > 1 && t[0] == '0') then None
    else
      match FractionLength(t[k..])
      case None => None
      case Some(f) =>
        match ExponentLength(t[k + f..])
        case None => None
        case Some(e) => Some(k + f + e)
  }

  lemma LengthInContext(t: string, sep: string)
    requires EndsValue(sep)
    ensures NumberLength(t + sep) == NumberLength(t)
  {
    hide FractionLength, ExponentLength, DigitSpan;
    var s, k := t + sep, DigitSpan(t);
    DigitsInContext(t, sep);
    if k > 0 && !(k > 1 && t[0] == '0') {
      assert s[k..] == t[k..] + sep;
      FractionInContext(t[k..], sep);
      var f := FractionLength(t[k..]);
      if f.Some? {
        assert s[k + f.value..] == t[k + f.value..] + sep;
        ExponentInContext(t[k + f.value..], sep);
      }
    }
  }

  lemma NumberByLength(s: string)
    ensures var sign := if s != "" && s[0] == '-' then 1 else 0;
      ReadNumber(s) ==
      match NumberLength(s[sign..])
      case Some(n) => Some((Numeral(s[..sign + n]), s[sign + n..]))
      case None => None
  {
    hide FractionLength, ExponentLength, DigitSpan;
  }

  lemma NumberInContext(u: string, sep: string)
    requires EndsValue(sep)
    ensures ReadNumber(u + sep) == Extend(ReadNumber(u), sep)
  {
    hide NumberLength, ReadNumber;
    var s, sign := u + sep, if u != "" && u[0] == '-' then 1 else 0;
    NumberByLength(u);
    NumberByLength(s);
    assert s[sign..] == u[sign..] + sep;
    LengthInContext(u[sign..], sep);
    var n := NumberLength(u[sign..]);
    if n.Some? {
      assert s[..sign + n.value] == u[..sign + n.value] && s[sign + n.value..] == u[sign + n.value..] + sep;
    }
  }

  lemma WordInContext(word: string, u: string, sep: string)
    requires EndsValue(sep)
    requires forall i :: 0 <= i < |word| ==> 'a' <= word[i] <= 'z'
    ensures word <= u + sep <==> word <= u
  {
    assert (u + sep)[|u|] == sep[0];
  }

  // ----- values -----

  lemma {:induction false} SpaceInContext(u: string, sep: string)
    requires sep != "" && !IsSpace(sep[0])
    ensures SkipSpace(u + sep) == SkipSpace(u) + sep
  {
    if u == "" {
      assert u + sep == sep;
    } else {
      assert (u + sep)[1..] == u[1..] + sep;
      SpaceInContext(u[1..], sep);
    }
  }

  predicate StartsContainer(u: string) {
    SkipSpace(u) != "" && (SkipSpace(u)[0] == '[' || SkipSpace(u)[0] == '{')
  }

  lemma ContainerIsNoScalar(u: string)
    ensures ReadValue(u).Some? ==> (IsScalar(ReadValue(u).value.0) <==> !StartsContainer(u))
  {
    hide ReadBody, ReadElements, ReadMembers, SkipSpace;
  }

  /** A scalar in front of a boundary is read as without it. */
  lemma ScalarInContext(u: string, sep: string)
    requires IsBoundary(sep)
    ensures StartsContainer(u + sep) <==> StartsContainer(u)
    ensures !StartsContainer(u) ==> ReadValue(u + sep) == Extend(ReadValue(u), sep)
  {
    hide ReadNumber, ReadBody, ReadElements, ReadMembers, EndsLine, SkipSpace, ReadToken;
    SpaceInContext(u, sep);
    if !StartsContainer(u) {
      ValueIsToken(u + sep);
      if SkipSpace(u) != "" { ValueIsToken(u); }
    }
    var t := SkipSpace(u);
    if t == "" {
      assert t + sep == sep;
      NothingBeforeBoundary(sep);
    } else {
      TokenInContext(t, sep);
    }
  }

  /** What a value that starts here is, without the white space in front. */
  function ReadToken(t: string): Option<(Json, string)>
    requires t != ""
  {
    if t[0] == '"' then
      match ReadBody(t[1..])
      case None => None
      case Some((body, rest)) => Some((String(body), rest))
    else if "true" <= t then Some((Bool(true), t[4..]))
    else if "false" <= t then Some((Bool(false), t[5..]))
    else if "null" <= t then Some((Null, t[4..]))
    else ReadNumber(t)
  }

  lemma ValueIsToken(u: string)
    requires SkipSpace(u) != "" && !StartsContainer(u)
    ensures ReadValue(u) == ReadToken(SkipSpace(u))
  {
    hide ReadNumber, ReadBody, ReadElements, ReadMembers, SkipSpace;
  }

  lemma TokenInContext(t: string, sep: string)
    requires t != "" && IsBoundary(sep)
    ensures ReadToken(t + sep) == Extend(ReadToken(t), sep)
  {
    hide ReadNumber, ReadBody, EndsLine;
    assert (t + sep)[1..] == t[1..] + sep;
    BodyInContext(t[1..], sep);
    NumberInContext(t, sep);
    WordInContext("true", t, sep);
    WordInContext("false", t, sep);
    WordInContext("null", t, sep);
    assert |t| >= 4 ==> (t + sep)[4..] == t[4..] + sep;
    assert |t| >= 5 ==> (t + sep)[5..] == t[5..] + sep;
  }

  lemma NothingBeforeBoundary(sep: string)
    requires IsBoundary(sep)
    ensures ReadToken(sep) == None
  {
    hide EndsLine;
    assert sep[0..] == sep;
    assert "true"[0] == 't' && "false"[0] == 'f' && "null"[0] == 'n';
  }

  // ----- elements of an array -----

  /** What follows an element: the end of the array, or more elements. */
  function AfterElement(sep: string): Option<(seq<Json>, string)>
    requires sep != ""
  {
    if sep[0] == ']' then Some(([], sep[1..]))
    else if sep[0] == ',' then ReadElements(sep[1..])
    else None
  }

  function InFront(v: Json, more: Option<(seq<Json>, string)>): Option<(seq<Json>, string)> {
    match more
    case Some((vs, after)) => Some(([v] + vs, after))
    case None => None
  }

  /** A text that is one scalar by itself is one element. */
  lemma ScalarIsOneElement(u: string, sep: string)
    requires IsBoundary(sep) && ReadText(u).Some? && IsScalar(ReadText(u).value)
    ensures ReadElements(u + sep) == InFront(ReadText(u).value, AfterElement(sep))
  {
    hide ReadValue, EndsLine, AfterElement, ReadElements, SkipSpace, IsScalar, StartsContainer;
    ContainerIsNoScalar(u);
    ScalarInContext(u, sep);
    var (v, left) := ReadValue(u).value;
    SpaceInContext(left, sep);
    assert "" + sep == sep;
    ElementsOf(u + sep);
    assert ReadValue(u + sep) == Some((v, left + sep)) && SkipSpace(left + sep) == sep;
  }

  lemma ElementsOf(s: string)
    ensures ReadElements(s) ==
      match ReadValue(s)
      case None => None
      case Some((v, rest)) =>
        if SkipSpace(rest) == "" then None else InFront(v, AfterElement(SkipSpace(rest)))
  {
    hide ReadValue, SkipSpace;
    if ReadValue(s).Some? {
      var v := ReadValue(s).value.0;
      assert [v] + [] == [v];
    }
  }

  predicate EndsWith(s: string, end: string) {
    |end| <= |s| && s[|s| - |end|..] == end
  }

  /** Any text in the place of an element, read as scalars: it closes the array
      itself, before the separator, or it is one scalar by itself, or it makes more than one element. */
  lemma {:induction false} ElementInContext(u: string, sep: string)
    requires IsBoundary(sep)
    requires ReadElements(u + sep).Some? && AllScalar(ReadElements(u + sep).value.0)
    ensures var (vs, after) := ReadElements(u + sep).value;
      || EndsWith(SkipSpace(after), sep)
      || (AfterElement(sep).Some?
          && var (ws, end) := AfterElement(sep).value;
          end == after && AllScalar(ws)
          && (|vs| > 1 + |ws| || (ReadText(u).Some? && vs == [ReadText(u).value] + ws)))
    decreases |u|
  {
    hide ReadValue, EndsLine, IsScalar;
    var s := u + sep;
    var (vs, after) := ReadElements(s).value;
    var (v, rest) := ReadValue(s).value;
    FirstElement(s);
    assert vs[0] == v;
    ContainerIsNoScalar(s);
    ScalarInContext(u, sep);
    var left := ReadValue(u).value.1;
    SpaceInContext(left, sep);
    var t := SkipSpace(left);
    if t == "" {
      assert "" + sep == sep;
      if sep[0] == ',' { TailScalars(v, ReadElements(sep[1..]).value.0); }
    } else {
      assert (t + sep)[1..] == t[1..] + sep;
      if t[0] == ',' {
        TailScalars(v, ReadElements(t[1..] + sep).value.0);
        ElementInContext(t[1..], sep);
      } else {
        SpaceInContext(t[1..], sep);
      }
    }
  }

  lemma FirstElement(s: string)
    requires ReadElements(s).Some?
    ensures ReadValue(s).Some? && ReadElements(s).value.0 != [] && ReadElements(s).value.0[0] == ReadValue(s).value.0
  {
    hide ReadValue, SkipSpace;
  }

  lemma TailScalars(v: Json, vs: seq<Json>)
    ensures AllScalar([v] + vs) ==> AllScalar(vs)
  {
    if AllScalar([v] + vs) {
      forall i | 0 <= i < |vs|
        ensures IsScalar(vs[i])
      {
        assert ([v] + vs)[i + 1] == vs[i];
      }
    }
  }
}
