/** Storage keys and their settings names: encoding, decoding with the C library's
    `strtoul`, and exactly when a name determines its key. */
module StorageKey {
  import opened Basics
  import opened Numerals

  const NONE: uint32 := UINT32_MAX

  /** A property of an object; index NONE means the property as a whole. */
  datatype Key = Key(objectType: uint16, instance: uint32, property: uint32, index: uint32)

  // ----- encoding -----

  /** The part of a name below the base. */
  function Tail(k: Key): string {
    Dec(k.objectType) + ("/" + (Dec(k.instance) + ("/" + (Dec(k.property) +
      (if k.index == NONE then "" else "/" + Dec(k.index))))))
  }

  function Name(base: string, k: Key): string {
    base + ("/" + Tail(k))
  }

  /** `bacnet_storage_key_encode` into a buffer of `limit` characters and a
      terminator: a longer name is cut, and that is not an error. */
  function EncodedName(base: string, limit: nat, k: Key): string {
    var full := Name(base, k);
    full[..Min(|full|, limit)]
  }

  // ----- the settings name helpers -----

  /** `settings_name_next`: the length of the first component, and what follows
      its separator. */
  function NameNext(name: Option<string>): (nat, Option<string>)
    decreases if name.None? then 0 else |name.value|
  {
    match name
    case None => (0, None)
    case Some(s) =>
      if s == "" || s[0] == '=' then (0, None)
      else if s[0] == '/' then (0, Some(s[1..]))
      else
        var (n, next) := NameNext(Some(s[1..]));
        (n + 1, next)
  }

  /** `settings_name_steq`: whether a name is a key or below it, and what follows
      the separator. */
  function NameSteq(name: string, key: string): (bool, Option<string>) {
    if key == "" then
      if name == "" || name[0] == '=' then (true, None)
      else if name[0] == '/' then (true, Some(name[1..]))
      else (false, None)
    else if name == "" || name[0] != key[0] || name[0] == '=' then (false, None)
    else NameSteq(name[1..], key[1..])
  }

  // ----- numbers -----

  predicate IsSpace(c: char) {
    c == ' ' || 9 <= c as int <= 13
  }

  function SkipSpaces(s: string): string {
    if s != "" && IsSpace(s[0]) then SkipSpaces(s[1..]) else s
  }

  function DigitIn(c: char, base: nat): Option<nat> {
    var v :=
      if '0' <= c <= '9' then c as int - '0' as int
      else if 'a' <= c <= 'z' then c as int - 'a' as int + 10
      else if 'A' <= c <= 'Z' then c as int - 'A' as int + 10
      else 36;
    if v < base then Some(v) else None
  }

  /** The leading digits of a base, as a number continuing `sofar`, and the rest. */
  function Digits(s: string, base: nat, sofar: nat): (nat, string)
    decreases |s|
  {
    if s != "" && DigitIn(s[0], base).Some?
    then Digits(s[1..], base, base * sofar + DigitIn(s[0], base).value)
    else (sofar, s)
  }

  /** `strtoul` with base 0: the value, cut at `ulongMax` or negated modulo
      `ulongMax + 1`, and the rest; None when there is no number. */
  function StrtoulBase0(s: string, ulongMax: nat): Option<(nat, string)> {
    var t := SkipSpaces(s);
    var negative := t != "" && t[0] == '-';
    var u := if t != "" && (t[0] == '-' || t[0] == '+') then t[1..] else t;
    var hex := |u| >= 3 && u[0] == '0' && (u[1] == 'x' || u[1] == 'X') && DigitIn(u[2], 16).Some?;
    var base := if hex then 16 else if u != "" && u[0] == '0' then 8 else 10;
    var digits := if hex then u[2..] else u;
    if digits == "" || DigitIn(digits[0], base).None? then None
    else
      var (value, rest) := Digits(digits, base, 0);
      if value > ulongMax then Some((ulongMax, rest))
      else if negative && value > 0 then Some((ulongMax + 1 - value, rest))
      else Some((value, rest))
  }

  /** `bacnet_storage_strtoul`: the whole string is a number other than
      `ulongMax`. */
  function Strtoul(s: string, ulongMax: nat): Option<nat> {
    match StrtoulBase0(s, ulongMax)
    case Some((value, rest)) => if value != ulongMax && rest == "" then Some(value) else None
    case None => None
  }

  // ----- decoding -----

  /** One numeric component held in a buffer of `width` characters and a
      terminator, and the rest of the name. */
  function Component(name: Option<string>, width: nat, ulongMax: nat): Option<(nat, Option<string>)> {
    match name
    case None => None
    case Some(s) =>
      var (n, next) := NameNext(name);
      if n > width || n > |s| then None
      else
        match Strtoul(s[..n], ulongMax)
        case Some(value) => Some((value, next))
        case None => None
  }

  function Narrow16(n: nat): uint16 { n % 0x1_0000 }

  function Narrow32(n: nat): uint32 { n % 0x1_0000_0000 }

  /** The components of a path below the base. */
  function DecodePath(path: string, width: nat, ulongMax: nat): Result<Key> {
    match Component(Some(path), width, ulongMax)
    case None => Failure(EINVAL)
    case Some((objectType, rest1)) =>
      match Component(rest1, width, ulongMax)
      case None => Failure(EINVAL)
      case Some((instance, rest2)) =>
        match Component(rest2, width, ulongMax)
        case None => Failure(EINVAL)
        case Some((property, rest3)) =>
          if rest3.None? then Success(Key(Narrow16(objectType), Narrow32(instance), Narrow32(property), NONE))
          else
            match Component(rest3, width, ulongMax)
            case None => Failure(EINVAL)
            case Some((index, _)) =>
              Success(Key(Narrow16(objectType), Narrow32(instance), Narrow32(property), Narrow32(index)))
  }

  /** `bacnet_storage_key_decode`: the base in front is optional. */
  function Decode(base: string, width: nat, ulongMax: nat, name: string): Result<Key> {
    match NameSteq(name, base)
    case (true, Some(below)) => DecodePath(below, width, ulongMax)
    case _ => DecodePath(name, width, ulongMax)
  }

  // ----- what decoding makes of an encoded name -----

  lemma {:induction false} DigitsOfDecimal(s: string, i: nat)
    requires AllDigits(s) && i <= |s|
    ensures Digits(s[i..], 10, DecValue(s[..i])) == (DecValue(s), "")
    decreases |s| - i
  {
    if i == |s| {
      assert s[..i] == s;
    } else {
      DigitsOfDecimal(s, i + 1);
      assert s[..i + 1][..i] == s[..i] && s[i..][1..] == s[i + 1..];
    }
  }

  /** A canonical decimal is read as its number, unless that is too large. */
  lemma StrtoulOfDecimal(n: nat, ulongMax: nat)
    ensures Strtoul(Dec(n), ulongMax) == if n < ulongMax then Some(n) else None
  {
    var s := Dec(n);
    DecRoundTrip(n);
    assert IsDigit(s[0]) && SkipSpaces(s) == s;
    if s[0] == '0' {
      assert s == "0" && n == 0 by {
        assert "0"[..0] == "";
        assert DecValue("0") == 0;
      }
      assert Digits("0", 8, 0) == (0, "") by { assert "0"[1..] == ""; }
    } else {
      DigitsOfDecimal(s, 0);
      assert s[0..] == s && s[..0] == "";
    }
  }

  lemma {:induction false} NextOfDigits(s: string, rest: string)
    requires AllDigits(s) && (rest == "" || rest[0] == '/')
    ensures NameNext(Some(s + rest)) == (|s|, if rest == "" then None else Some(rest[1..]))
    decreases |s|
  {
    if s == "" {
      assert s + rest == rest;
    } else {
      assert (s + rest)[0] == s[0] && (s + rest)[1..] == s[1..] + rest;
      NextOfDigits(s[1..], rest);
    }
  }

  predicate FieldDecodes(n: nat, width: nat, ulongMax: nat) {
    |Dec(n)| <= width && n < ulongMax
  }

  lemma ComponentOfDecimal(n: nat, rest: string, width: nat, ulongMax: nat)
    requires rest == "" || rest[0] == '/'
    ensures Component(Some(Dec(n) + rest), width, ulongMax)
      == if FieldDecodes(n, width, ulongMax) then Some((n, if rest == "" then None else Some(rest[1..]))) else None
  {
    hide Dec, Strtoul, NameNext;
    DecRoundTrip(n);
    NextOfDigits(Dec(n), rest);
    assert (Dec(n) + rest)[..|Dec(n)|] == Dec(n);
    StrtoulOfDecimal(n, ulongMax);
  }

  /** Every field has at most `width` digits and is not `ULONG_MAX`. */
  predicate KeyDecodes(k: Key, width: nat, ulongMax: nat) {
    && FieldDecodes(k.objectType, width, ulongMax)
    && FieldDecodes(k.instance, width, ulongMax)
    && FieldDecodes(k.property, width, ulongMax)
    && (k.index != NONE ==> FieldDecodes(k.index, width, ulongMax))
  }

  lemma PathRoundTrip(k: Key, width: nat, ulongMax: nat)
    ensures DecodePath(Tail(k), width, ulongMax)
         == if KeyDecodes(k, width, ulongMax) then Success(k) else Failure(EINVAL)
  {
    hide Dec, Component, FieldDecodes;
    var s4 := if k.index == NONE then "" else "/" + Dec(k.index);
    var s3 := "/" + (Dec(k.property) + s4);
    var s2 := "/" + (Dec(k.instance) + s3);
    ComponentOfDecimal(k.objectType, s2, width, ulongMax);
    ComponentOfDecimal(k.instance, s3, width, ulongMax);
    ComponentOfDecimal(k.property, s4, width, ulongMax);
    assert s2[1..] == Dec(k.instance) + s3 && s3[1..] == Dec(k.property) + s4;
    if k.index != NONE {
      assert s4[1..] == Dec(k.index) + "";
      ComponentOfDecimal(k.index, "", width, ulongMax);
    }
  }

  /** Any path of four decimal fields: they are the object's type, instance,
      property and index in that order, cut to 16 and 32 bits, and whatever
      components follow are ignored. */
  lemma AnyFieldsDecode(objectType: nat, instance: nat, property: nat, index: nat, more: string,
                        width: nat, ulongMax: nat)
    requires FieldDecodes(objectType, width, ulongMax) && FieldDecodes(instance, width, ulongMax)
    requires FieldDecodes(property, width, ulongMax) && FieldDecodes(index, width, ulongMax)
    requires more == "" || more[0] == '/'
    ensures DecodePath(Dec(objectType) + ("/" + (Dec(instance) + ("/" + (Dec(property) + ("/" + (Dec(index) + more)))))),
                       width, ulongMax)
         == Success(Key(objectType % 0x1_0000, instance % 0x1_0000_0000,
                        property % 0x1_0000_0000, index % 0x1_0000_0000))
  {
    hide Dec, Component, FieldDecodes;
    var s4 := "/" + (Dec(index) + more);
    var s3 := "/" + (Dec(property) + s4);
    var s2 := "/" + (Dec(instance) + s3);
    ComponentOfDecimal(objectType, s2, width, ulongMax);
    ComponentOfDecimal(instance, s3, width, ulongMax);
    ComponentOfDecimal(property, s4, width, ulongMax);
    ComponentOfDecimal(index, more, width, ulongMax);
    assert s2[1..] == Dec(instance) + s3 && s3[1..] == Dec(property) + s4 && s4[1..] == Dec(index) + more;
  }

  /** The full name of the present value of analog value 1, and of its third
      element. */
  lemma NameOfPresentValue()
    ensures Name(".bacnet", Key(2, 1, 85, NONE)) == ".bacnet/2/1/85"
    ensures Name(".bacnet", Key(2, 1, 85, 3)) == ".bacnet/2/1/85/3"
  {
    assert Dec(85) == "85" by { assert Dec(8) == "8" && 85 / 10 == 8 && 85 % 10 == 5; }
    assert Dec(2) == "2" && Dec(1) == "1" && Dec(3) == "3";
  }

  /** The forms `strtoul` takes besides plain decimals: spaces and a sign in
      front. */
  lemma SignsAreRead(ulongMax: nat)
    requires ulongMax > 32
    ensures Strtoul(" +7", ulongMax) == Some(7)
    ensures Strtoul("-2", ulongMax) == Some(ulongMax - 1)
  {
    assert " +7"[1..] == "+7" && "+7"[1..] == "7" && "7"[1..] == "";
    assert "-2"[1..] == "2" && "2"[1..] == "";
  }

  /** Octal and hexadecimal numbers. */
  lemma PrefixesAreRead(ulongMax: nat)
    requires ulongMax > 32
    ensures Strtoul("010", ulongMax) == Some(8)
    ensures Strtoul("0x1F", ulongMax) == Some(31)
  {
    assert "010"[1..] == "10" && "10"[1..] == "0" && "0"[1..] == "";
    assert Digits("10", 8, 0) == (8, "") && Digits("010", 8, 0) == (8, "");
    assert "0x1F"[2..] == "1F" && "1F"[1..] == "F" && "F"[1..] == "";
    assert Digits("F", 16, 1) == (31, "") && Digits("1F", 16, 0) == (31, "");
  }

  /** What is no number, or has text behind it, or is `ULONG_MAX`. */
  lemma NumbersAreRefused(ulongMax: nat)
    requires ulongMax > 32
    ensures Strtoul("-1", ulongMax) == None
    ensures Strtoul("7 ", ulongMax) == None
    ensures Strtoul("08", ulongMax) == None && Strtoul("0x", ulongMax) == None
    ensures Strtoul("", ulongMax) == None && Strtoul("-", ulongMax) == None
  {
    assert "-1"[1..] == "1" && "1"[1..] == "";
    assert "7 "[1..] == " " && "08"[1..] == "8" && "0x"[1..] == "x" && "-"[1..] == "";
  }

  predicate NoEnd(base: string) {
    forall i :: 0 <= i < |base| ==> base[i] != '='
  }

  lemma {:induction false} SteqBelow(base: string, below: string)
    requires NoEnd(base)
    ensures NameSteq(base + ("/" + below), base) == (true, Some(below))
  {
    if base == "" {
      assert base + ("/" + below) == "/" + below;
      assert ("/" + below)[1..] == below;
    } else {
      assert (base + ("/" + below))[1..] == base[1..] + ("/" + below);
      SteqBelow(base[1..], below);
    }
  }

  /** For every key, decoding its name gives back that key exactly when each field
      fits the component buffer and is not `ULONG_MAX`, and otherwise an error:
      never a different key. */
  lemma KeyRoundTrip(base: string, k: Key, width: nat, ulongMax: nat)
    requires NoEnd(base)
    ensures Decode(base, width, ulongMax, Name(base, k))
         == if KeyDecodes(k, width, ulongMax) then Success(k) else Failure(EINVAL)
  {
    hide DecodePath, Tail, KeyDecodes;
    SteqBelow(base, Tail(k));
    PathRoundTrip(k, width, ulongMax);
  }

  // ----- what decoding makes of a handler's path -----

  /** A path lies below a base, taken as a path itself. */
  predicate LiesBelow(path: string, base: string) {
    base + "/" <= path
  }

  lemma {:induction false} SteqIsPrefix(name: string, key: string)
    ensures NameSteq(name, key).0 && NameSteq(name, key).1.Some?
            ==> LiesBelow(name, key) && NameSteq(name, key).1 == Some(name[|key| + 1..])
  {
    if key != "" && NameSteq(name, key).0 {
      SteqIsPrefix(name[1..], key[1..]);
      assert name == [name[0]] + name[1..] && key == [key[0]] + key[1..];
    }
  }

  lemma FieldHasNoEnd(n: nat, rest: string)
    requires NoEnd(rest)
    ensures NoEnd("/" + rest) && NoEnd(Dec(n) + rest)
  {
    hide Dec;
    DecRoundTrip(n);
  }

  lemma TailHasNoEnd(k: Key)
    ensures NoEnd(Tail(k))
  {
    hide Dec, NoEnd;
    assert NoEnd("") by { EmptyHasNoEnd(); }
    var s4 := if k.index == NONE then "" else "/" + Dec(k.index);
    assert Dec(k.index) + "" == Dec(k.index);
    FieldHasNoEnd(k.index, "");
    FieldHasNoEnd(k.index, Dec(k.index));
    FieldHasNoEnd(k.property, s4);
    FieldHasNoEnd(k.instance, Dec(k.property) + s4);
    FieldHasNoEnd(k.instance, "/" + (Dec(k.property) + s4));
    FieldHasNoEnd(k.objectType, Dec(k.instance) + ("/" + (Dec(k.property) + s4)));
    FieldHasNoEnd(k.objectType, "/" + (Dec(k.instance) + ("/" + (Dec(k.property) + s4))));
  }

  lemma EmptyHasNoEnd()
    ensures NoEnd("")
  {
  }

  /** The path the settings handler receives for a key, from which the handler's
      name is already gone. Unless it lies below the base, it decodes as the full
      name does. */
  lemma HandlerPathRoundTrip(base: string, k: Key, width: nat, ulongMax: nat)
    requires !LiesBelow(Tail(k), base)
    ensures Decode(base, width, ulongMax, Tail(k))
         == if KeyDecodes(k, width, ulongMax) then Success(k) else Failure(EINVAL)
  {
    hide DecodePath, KeyDecodes, Tail;
    SteqIsPrefix(Tail(k), base);
    PathRoundTrip(k, width, ulongMax);
  }

  /** Below which bases a key's path lies: its first field, its first two, or, when
      it has an index, its first three. */
  lemma TailLiesBelow(k: Key, base: string)
    ensures LiesBelow(Tail(k), base) <==>
            (base == Dec(k.objectType)
             || base == Dec(k.objectType) + ("/" + Dec(k.instance))
             || (k.index != NONE && base == Dec(k.objectType) + ("/" + (Dec(k.instance) + ("/" + Dec(k.property))))))
  {
    hide Dec, LiesBelow, Under;
    var t, i, p, x := Dec(k.objectType), Dec(k.instance), Dec(k.property), Dec(k.index);
    DecRoundTrip(k.objectType);
    DecRoundTrip(k.instance);
    DecRoundTrip(k.property);
    DecRoundTrip(k.index);
    var s4 := if k.index == NONE then "" else "/" + x;
    FieldLiesBelow(t, i + ("/" + (p + s4)), base);
    UnderIs(base, t, i);
    UnderIs(base, t, i + ("/" + p));
    if Under(base, t).Some? {
      var base1 := Under(base, t).value;
      FieldLiesBelow(i, p + s4, base1);
      UnderIs(base1, i, p);
      if Under(base1, i).Some? {
        IndexLiesBelow(p, x, k.index == NONE, Under(base1, i).value);
      }
    }
  }

  lemma IndexLiesBelow(p: string, x: string, none: bool, base: string)
    requires AllDigits(p) && AllDigits(x)
    ensures LiesBelow(p + (if none then "" else "/" + x), base) <==> !none && base == p
  {
    hide LiesBelow, Under;
    NothingBelowAField(p, base);
    assert p + "" == p;
    FieldLiesBelow(p, x, base);
    if Under(base, p).Some? { NothingBelowAField(x, Under(base, p).value); }
  }

  /** The part of a base below its first field. */
  function Under(base: string, field: string): Option<string> {
    if field + "/" <= base then Some(base[|field| + 1..]) else None
  }

  lemma UnderIs(base: string, field: string, more: string)
    ensures base == field + ("/" + more) <==> Under(base, field) == Some(more)
  {
    if base == field + ("/" + more) {
      assert base[|field| + 1..] == more;
    }
  }

  lemma NothingBelowAField(field: string, base: string)
    requires AllDigits(field)
    ensures !LiesBelow(field, base)
  {
    assert (base + "/")[|base|] == '/';
  }

  lemma FieldLiesBelow(field: string, rest: string, base: string)
    requires AllDigits(field)
    ensures LiesBelow(field + ("/" + rest), base) <==>
            (base == field || (Under(base, field).Some? && LiesBelow(rest, Under(base, field).value)))
  {
    var path := field + ("/" + rest);
    if LiesBelow(path, base) && base != field {
      assert path[|base|] == '/';
      assert path[..|base|] == base;
      assert |base| > |field|;
      assert rest == path[|field| + 1..];
    }
  }

  function Slashes(s: string): nat {
    if s == "" then 0 else (if s[0] == '/' then 1 else 0) + Slashes(s[1..])
  }

  lemma {:induction false} SlashesAdd(s: string, t: string)
    ensures Slashes(s + t) == Slashes(s) + Slashes(t)
  {
    if s == "" {
      assert s + t == t;
    } else {
      assert (s + t)[1..] == s[1..] + t;
      SlashesAdd(s[1..], t);
    }
  }

  lemma {:induction false} NoSlashes(s: string)
    ensures Slashes(s) == 0 <==> '/' !in s
  {
    if s != "" {
      NoSlashes(s[1..]);
      assert s == [s[0]] + s[1..];
    }
  }

  lemma FieldSlashes(n: nat, rest: string)
    ensures Slashes(Dec(n) + rest) == Slashes(rest)
    ensures Slashes("/" + rest) == 1 + Slashes(rest)
  {
    hide Dec;
    DecRoundTrip(n);
    NoSlashes(Dec(n));
    SlashesAdd(Dec(n), rest);
    assert ("/" + rest)[1..] == rest;
  }

  lemma TailSlashes(k: Key)
    ensures Slashes(Tail(k)) == if k.index == NONE then 2 else 3
  {
    hide Dec, Slashes;
    var s4 := if k.index == NONE then "" else "/" + Dec(k.index);
    assert Slashes("") == 0 by { NoSlashes(""); }
    assert Dec(k.index) + "" == Dec(k.index);
    FieldSlashes(k.index, "");
    FieldSlashes(k.index, Dec(k.index));
    FieldSlashes(k.property, s4);
    FieldSlashes(k.property, Dec(k.property) + s4);
    FieldSlashes(k.instance, "/" + (Dec(k.property) + s4));
    FieldSlashes(k.instance, Dec(k.instance) + ("/" + (Dec(k.property) + s4)));
    FieldSlashes(k.objectType, "/" + (Dec(k.instance) + ("/" + (Dec(k.property) + s4))));
  }

  lemma {:induction false} NextTakesASlash(s: string)
    ensures var (n, next) := NameNext(Some(s));
      n <= |s| && (next.Some? ==> |s| == n + 1 + |next.value| && Slashes(s) == 1 + Slashes(next.value))
  {
    if s != "" && s[0] != '=' && s[0] != '/' { NextTakesASlash(s[1..]); }
  }

  lemma NumberHasDigits(s: string, ulongMax: nat)
    requires Strtoul(s, ulongMax).Some?
    ensures s != ""
  {
  }

  lemma ComponentTakesAField(s: string, width: nat, ulongMax: nat)
    requires Component(Some(s), width, ulongMax).Some?
    ensures var next := Component(Some(s), width, ulongMax).value.1;
      |s| >= 1 && (next.Some? ==> |s| >= 2 + |next.value| && Slashes(s) == 1 + Slashes(next.value))
  {
    hide NameNext, Slashes;
    NextTakesASlash(s);
    NumberHasDigits(s[..NameNext(Some(s)).0], ulongMax);
  }

  lemma NoField(width: nat, ulongMax: nat)
    ensures Component(None, width, ulongMax) == None
  {
  }

  /** A path decodes only with three fields, and with two separators only as a
      property without index. */
  lemma DecodeTakesThreeFields(path: string, width: nat, ulongMax: nat)
    requires DecodePath(path, width, ulongMax).Success?
    ensures |path| >= 5 && Slashes(path) >= 2
    ensures Slashes(path) == 2 ==> DecodePath(path, width, ulongMax).result.index == NONE
  {
    hide Component, Slashes;
    NoField(width, ulongMax);
    ComponentTakesAField(path, width, ulongMax);
    var rest1 := Component(Some(path), width, ulongMax).value.1.value;
    ComponentTakesAField(rest1, width, ulongMax);
    var rest2 := Component(Some(rest1), width, ulongMax).value.1.value;
    ComponentTakesAField(rest2, width, ulongMax);
  }

  /** A key whose handler path lies below the base never comes back as itself:
      decoding takes the base for a name in front. */
  lemma ShadowedKeyIsLost(base: string, k: Key, width: nat, ulongMax: nat)
    requires LiesBelow(Tail(k), base)
    ensures Decode(base, width, ulongMax, Tail(k)) != Success(k)
    ensures '/' in base ==> Decode(base, width, ulongMax, Tail(k)).Failure?
    ensures Decode(base, width, ulongMax, Tail(k)) == DecodePath(Tail(k)[|base| + 1..], width, ulongMax)
  {
    hide Tail, DecodePath, Slashes;
    var rest := Tail(k)[|base| + 1..];
    TailHasNoEnd(k);
    assert Tail(k) == base + ("/" + rest);
    assert NoEnd(base) by {
      forall i | 0 <= i < |base|
        ensures base[i] != '='
      {
        assert base[i] == Tail(k)[i];
      }
    }
    SteqBelow(base, rest);
    TailSlashes(k);
    SlashesAdd(base, "/" + rest);
    FieldSlashes(0, rest);
    NoSlashes(base);
    if DecodePath(rest, width, ulongMax).Success? {
      DecodeTakesThreeFields(rest, width, ulongMax);
    }
  }

  // ----- names identify keys -----

  lemma TailInjective(a: Key, b: Key)
    requires Tail(a) == Tail(b)
    ensures a == b
  {
    hide DecodePath, Tail;
    AllDecode(a);
    AllDecode(b);
    PathRoundTrip(a, 10, UINT32_MAX + 1);
    PathRoundTrip(b, 10, UINT32_MAX + 1);
  }

  lemma AllDecode(k: Key)
    ensures KeyDecodes(k, 10, UINT32_MAX + 1)
  {
    hide Dec;
    TenDigits(k.objectType);
    TenDigits(k.instance);
    TenDigits(k.property);
    TenDigits(k.index);
  }

  lemma TenDigits(n: uint32)
    ensures |Dec(n)| <= 10
  {
    assert Pow10(5) == 100_000;
    assert Pow10(10) == 10_000_000_000;
    DecLength(n, 10);
  }

  lemma NameInjective(base: string, a: Key, b: Key)
    requires Name(base, a) == Name(base, b)
    ensures a == b
  {
    hide Tail;
    assert Name(base, a)[|base| + 1..] == Tail(a);
    assert Name(base, b)[|base| + 1..] == Tail(b);
    TailInjective(a, b);
  }

  const LONGEST_TAIL := 39

  lemma NameLength(base: string, k: Key)
    ensures |Name(base, k)| <= |base| + LONGEST_TAIL
  {
    hide Dec;
    assert Pow10(5) == 100_000;
    DecLength(k.objectType, 5);
    TenDigits(k.instance);
    TenDigits(k.property);
    TenDigits(k.index);
  }

  /** The base leaves room for every key. */
  predicate Fits(base: string, limit: nat) {
    |base| + LONGEST_TAIL <= limit
  }

  lemma NameNotCut(base: string, limit: nat, k: Key)
    requires Fits(base, limit)
    ensures EncodedName(base, limit, k) == Name(base, k)
  {
    hide Name;
    NameLength(base, k);
  }

  /** Two keys whose names are as long as any and differ in the last digit. */
  const TWIN_A := Key(65535, UINT32_MAX, UINT32_MAX, 4294967293)
  const TWIN_B := Key(65535, UINT32_MAX, UINT32_MAX, 4294967294)

  lemma TwinNames(base: string)
    ensures |Name(base, TWIN_A)| == |Name(base, TWIN_B)| == |base| + LONGEST_TAIL
    ensures Name(base, TWIN_A)[..|base| + LONGEST_TAIL - 1] == Name(base, TWIN_B)[..|base| + LONGEST_TAIL - 1]
  {
    hide Dec;
    var head := Dec(65535) + ("/" + (Dec(UINT32_MAX) + ("/" + (Dec(UINT32_MAX) + "/"))));
    assert Pow10(4) == 10_000 && Pow10(5) == 100_000;
    assert Pow10(9) == 1_000_000_000 && Pow10(10) == 10_000_000_000;
    DecLength(65535, 5);
    DecLength(65535, 4);
    DecLength(UINT32_MAX, 10);
    DecLength(UINT32_MAX, 9);
    DecLength(429496729, 9);
    assert Pow10(8) == 100_000_000;
    DecLength(429496729, 8);
    TwinIndex();
    assert Tail(TWIN_A) == head + (Dec(429496729) + "3");
    assert Tail(TWIN_B) == head + (Dec(429496729) + "4");
  }

  lemma DecSnoc(q: nat, r: nat)
    requires q > 0 && r < 10
    ensures Dec(10 * q + r) == Dec(q) + [DigitOf(r)]
  {
  }

  lemma TwinIndex()
    ensures Dec(4294967293) == Dec(429496729) + "3"
    ensures Dec(4294967294) == Dec(429496729) + "4"
  {
    hide Dec;
    DecSnoc(429496729, 3);
    DecSnoc(429496729, 4);
    assert [DigitOf(3)] == "3" && [DigitOf(4)] == "4";
  }

  /** Stored names identify keys if and only if the base leaves room for the
      longest one: because encoding cuts silently, one character less already
      makes two keys share a name. */
  lemma NamesIdentifyKeys(base: string, limit: nat)
    ensures Fits(base, limit)
      <==> forall a: Key, b: Key :: EncodedName(base, limit, a) == EncodedName(base, limit, b) ==> a == b
  {
    hide Name;
    if Fits(base, limit) {
      forall a: Key, b: Key | EncodedName(base, limit, a) == EncodedName(base, limit, b)
        ensures a == b
      {
        NameNotCut(base, limit, a);
        NameNotCut(base, limit, b);
        NameInjective(base, a, b);
      }
    } else {
      TwinNames(base);
      var a, b := Name(base, TWIN_A), Name(base, TWIN_B);
      var n := |base| + LONGEST_TAIL - 1;
      assert a[..limit] == a[..n][..limit] && b[..limit] == b[..n][..limit];
      assert EncodedName(base, limit, TWIN_A) == EncodedName(base, limit, TWIN_B);
    }
  }

  // ----- what can lie below a name -----

  /** Every separator is followed by a digit. */
  predicate WellSeparated(s: string) {
    forall i :: 0 <= i < |s| && s[i] == '/' ==> i + 1 < |s| && IsDigit(s[i + 1])
  }

  lemma NumberThen(n: nat, rest: string)
    requires WellSeparated(rest)
    ensures WellSeparated(Dec(n) + rest) && Dec(n) + rest != "" && IsDigit((Dec(n) + rest)[0])
  {
    hide Dec;
    DecRoundTrip(n);
    var s, k := Dec(n) + rest, |Dec(n)|;
    forall i | 0 <= i < |s| && s[i] == '/'
      ensures i + 1 < |s| && IsDigit(s[i + 1])
    {
      if i >= k {
        assert s[i] == rest[i - k] && s[i + 1] == rest[i - k + 1];
      }
    }
  }

  lemma SeparatorThen(rest: string)
    requires WellSeparated(rest) && rest != "" && IsDigit(rest[0])
    ensures WellSeparated("/" + rest)
  {
  }

  lemma TailIsWellSeparated(k: Key)
    ensures WellSeparated(Tail(k))
  {
    hide Dec, WellSeparated;
    var s4 := if k.index == NONE then "" else "/" + Dec(k.index);
    NothingIsWellSeparated();
    assert WellSeparated(s4) by {
      if k.index != NONE {
        NumberThen(k.index, "");
        assert Dec(k.index) + "" == Dec(k.index);
        SeparatorThen(Dec(k.index));
      }
    }
    NumberThen(k.property, s4);
    SeparatorThen(Dec(k.property) + s4);
    NumberThen(k.instance, "/" + (Dec(k.property) + s4));
    SeparatorThen(Dec(k.instance) + ("/" + (Dec(k.property) + s4)));
    NumberThen(k.objectType, "/" + (Dec(k.instance) + ("/" + (Dec(k.property) + s4))));
  }

  lemma NothingIsWellSeparated()
    ensures WellSeparated("")
  {
  }

  /** What is stored below a key's name starts with a digit, so the exact-match
      test of the loader skips it. */
  lemma DescendantIsSkipped(base: string, k: Key, below: Key, rest: string)
    requires Name(base, below) == Name(base, k) + ("/" + rest)
    ensures NameNext(Some(rest)).0 > 0
  {
    hide Tail;
    var at := |Tail(k)|;
    assert Name(base, below)[|base| + 1 + at] == '/';
    assert Tail(below)[at] == '/';
    TailIsWellSeparated(below);
    assert Name(base, below)[|base| + 1 + at + 1] == Tail(below)[at + 1];
    assert rest != "" && rest[0] == Tail(below)[at + 1];
  }
}
