/** Exactly when stored writes come back: the condition on the store's base name,
    the settings handler's name and the value buffer. */
module Replay {
  import opened Basics
  import opened Numerals
  import opened StorageKey
  import opened Storage
  import opened Settings

  /** Room for one digit in a component, and for writes. */
  predicate HasRoom(c: Config) {
    c.width >= 1 && c.ulongMax >= 3 && c.maxApdu >= 1
  }

  /** Some stored key's path lies below the base, taken as a path itself, and the
      key decodes or the base is a single component. */
  ghost predicate IsAmbiguous(c: Config) {
    exists k: Key :: IsStoreKey(c.rules, k) && LiesBelow(Tail(k), c.base) && IsMistaken(c, k)
  }

  predicate IsMistaken(c: Config, k: Key) {
    KeyDecodes(k, c.width, c.ulongMax) || '/' !in c.base
  }

  // ----- the names -----

  lemma OneDigit(c: Config, n: nat)
    requires HasRoom(c) && 1 <= n <= 2
    ensures FieldDecodes(n, c.width, c.ulongMax) && Dec(n) == [DigitOf(n)]
  {
  }

  /** With one name for both, the entries are right exactly when the base is not
      ambiguous. */
  lemma EqualNames(c: Config)
    requires HasRoom(c) && c.handler == c.base
    ensures NamesAreRight(c) <==> !IsAmbiguous(c)
  {
    hide Name, Tail, Decode, KeyDecodes, LiesBelow, IsStoreKey;
    if !IsAmbiguous(c) {
      forall k: Key | IsStoreKey(c.rules, k)
        ensures IsRightEntry(c, k)
      {
        EntryBelowItsBase(c, k);
        if LiesBelow(Tail(k), c.base) {
          ShadowedKeyIsLost(c.base, k, c.width, c.ulongMax);
        } else {
          HandlerPathRoundTrip(c.base, k, c.width, c.ulongMax);
        }
      }
    } else {
      var k: Key :| IsStoreKey(c.rules, k) && LiesBelow(Tail(k), c.base) && IsMistaken(c, k);
      if KeyDecodes(k, c.width, c.ulongMax) {
        EntryBelowItsBase(c, k);
        ShadowedKeyIsLost(c.base, k, c.width, c.ulongMax);
        assert !IsRightEntry(c, k);
      } else {
        SingleComponentMistakes(c, k);
      }
    }
  }

  lemma EntryBelowItsBase(c: Config, k: Key)
    requires c.handler == c.base
    ensures AtOrBelow(Name(c.base, k), c.handler)
    ensures KeyOfPath(c, Below(Name(c.base, k), c.handler)) == Decode(c.base, c.width, c.ulongMax, Tail(k)).ToOption()
  {
    hide Name, Tail, Decode;
    NameIsBelow(c.base, k);
  }

  /** A base such as `8` makes `8/1/1/1` come back as `1/1/1`. */
  lemma SingleComponentMistakes(c: Config, k: Key)
    requires HasRoom(c) && c.handler == c.base
    requires LiesBelow(Tail(k), c.base) && '/' !in c.base
    ensures !NamesAreRight(c)
  {
    hide Name, Decode, DecodePath, KeyDecodes, Dec;
    var wrong, found := Key(k.objectType, 1, 1, 1), Key(1, 1, 1, NONE);
    assert c.base == Dec(k.objectType) by { BaseIsTheType(c.base, k); }
    assert Tail(wrong) == c.base + ("/" + Tail(found)) by {
      assert Tail(found) == Dec(1) + ("/" + (Dec(1) + ("/" + (Dec(1) + ""))));
    }
    assert Tail(wrong)[|c.base| + 1..] == Tail(found);
    OneDigit(c, 1);
    assert KeyDecodes(found, c.width, c.ulongMax) by { Decodes111(c); }
    PathRoundTrip(found, c.width, c.ulongMax);
    ShadowedKeyIsLost(c.base, wrong, c.width, c.ulongMax);
    EntryBelowItsBase(c, wrong);
    assert IsStoreKey(c.rules, wrong) && !IsRightEntry(c, wrong);
  }

  lemma Decodes111(c: Config)
    requires HasRoom(c)
    ensures KeyDecodes(Key(1, 1, 1, NONE), c.width, c.ulongMax) && KeyDecodes(Key(2, 1, 1, NONE), c.width, c.ulongMax)
  {
    OneDigit(c, 1);
    OneDigit(c, 2);
  }

  lemma BaseIsTheType(base: string, k: Key)
    requires LiesBelow(Tail(k), base) && '/' !in base
    ensures base == Dec(k.objectType)
  {
    hide Dec;
    var d := Dec(k.objectType);
    DecRoundTrip(k.objectType);
    SlashInside(base, d, Tail(k));
    SlashInside(d, base, Tail(k));
    SameLength(base, d, Tail(k));
  }

  lemma SlashInside(a: string, b: string, path: string)
    requires LiesBelow(path, a) && LiesBelow(path, b)
    ensures |a| < |b| ==> b[|a|] == '/'
  {
    assert (a + "/")[|a|] == path[|a|];
    if |a| < |b| { assert (b + "/")[|a|] == path[|a|]; }
  }

  lemma SameLength(a: string, b: string, path: string)
    requires LiesBelow(path, a) && LiesBelow(path, b)
    ensures |a| == |b| ==> a == b
  {
    assert path[..|a|] == a && path[..|b|] == b;
  }

  // ----- different names -----

  const KEY_1 := Key(1, 1, 1, NONE)
  const KEY_2 := Key(2, 1, 1, NONE)

  /** With different names, of the keys 1/1/1 and 2/1/1 one is lost or comes back
      as another. */
  lemma OtherNamesLoseAKey(c: Config)
    requires HasRoom(c) && c.handler != c.base
    ensures !IsRightEntry(c, KEY_1) || !IsRightEntry(c, KEY_2)
  {
    hide Decode, KeyDecodes, Dec, KeyOfPath;
    if IsRightEntry(c, KEY_1) && IsRightEntry(c, KEY_2) {
      Decodes111(c);
      ShortTails(c);
      var n1, n2 := Name(c.base, KEY_1), Name(c.base, KEY_2);
      assert n1 == c.base + "/1/1/1" && n2 == c.base + "/2/1/1";
      assert n1[|c.base| + 1] == '1' && n2[|c.base| + 1] == '2';
      StrictlyBelow(c, n1, n2);
      CommonAncestor(c.handler, c.base, n1, n2);
      var middle := c.base[|c.handler| + 1..];
      PathUnderAncestor(c, n1, middle, "1/1/1", KEY_1);
      PathUnderAncestor(c, n2, middle, "2/1/1", KEY_2);
      SameFirstField(c, middle, "1/1/1", "2/1/1");
      assert false;
    }
  }

  lemma ShortTails(c: Config)
    requires HasRoom(c)
    ensures Tail(KEY_1) == "1/1/1" && Tail(KEY_2) == "2/1/1"
  {
    OneDigit(c, 1);
    OneDigit(c, 2);
  }

  lemma StrictlyBelow(c: Config, n1: string, n2: string)
    requires AtOrBelow(n1, c.handler) && AtOrBelow(n2, c.handler)
    requires |n1| == |n2| && n1 != n2
    ensures c.handler + "/" <= n1 && c.handler + "/" <= n2
  {
  }

  lemma CommonAncestor(handler: string, base: string, n1: string, n2: string)
    requires handler + "/" <= n1 && handler + "/" <= n2 && handler != base
    requires base + "/" <= n1 && base + "/" <= n2
    requires |n1| > |base| + 1 && |n2| > |base| + 1 && n1[|base| + 1] != n2[|base| + 1]
    ensures handler + "/" <= base
  {
    var h := handler + "/";
    PrefixAt(h, n1, |base| + 1);
    PrefixAt(h, n2, |base| + 1);
    SameLength(handler, base, n1);
    assert n1[..|base|] == base;
    assert |h| <= |base| ==> base[..|h|] == n1[..|h|];
  }

  lemma PrefixAt(h: string, n: string, i: nat)
    requires h <= n
    ensures i < |h| ==> h[i] == n[i]
  {
  }

  /** Under a proper ancestor of the base, the path of a key decodes only without
      the base in front. */
  lemma PathUnderAncestor(c: Config, name: string, middle: string, tail: string, k: Key)
    requires c.handler + "/" <= c.base && middle == c.base[|c.handler| + 1..]
    requires name == c.base + ("/" + tail) && |tail| == 5 && AtOrBelow(name, c.handler)
    requires KeyOfPath(c, Below(name, c.handler)) == Some(k)
    ensures DecodePath(middle + ("/" + tail), c.width, c.ulongMax) == Success(k)
  {
    hide DecodePath, NameSteq;
    var path := middle + ("/" + tail);
    assert c.base == c.handler + ("/" + middle);
    assert name == c.handler + ("/" + path);
    assert name[|c.handler| + 1..] == path;
    SteqIsPrefix(path, c.base);
    if LiesBelow(path, c.base) && DecodePath(path[|c.base| + 1..], c.width, c.ulongMax).Success? {
      DecodeTakesThreeFields(path[|c.base| + 1..], c.width, c.ulongMax);
      assert false;
    }
  }

  lemma {:induction false} NextStops(middle: string, rest: string)
    ensures NameNext(Some(middle + ("/" + rest))).0 <= |middle|
    ensures forall other :: NameNext(Some(middle + ("/" + other))).0 == NameNext(Some(middle + ("/" + rest))).0
  {
    if middle != "" {
      forall other
        ensures (middle + ("/" + other))[1..] == middle[1..] + ("/" + other)
      {
      }
      NextStops(middle[1..], rest);
    }
  }

  lemma SameFirstField(c: Config, middle: string, rest1: string, rest2: string)
    ensures var p1, p2 := middle + ("/" + rest1), middle + ("/" + rest2);
      DecodePath(p1, c.width, c.ulongMax).Success? && DecodePath(p2, c.width, c.ulongMax).Success?
      ==> DecodePath(p1, c.width, c.ulongMax).result.objectType == DecodePath(p2, c.width, c.ulongMax).result.objectType
  {
    hide Strtoul, NameNext;
    var p1, p2 := middle + ("/" + rest1), middle + ("/" + rest2);
    NextStops(middle, rest1);
    var n := NameNext(Some(p1)).0;
    assert NameNext(Some(p2)).0 == n;
    assert p1[..n] == middle[..n] == p2[..n];
  }

  // ----- every history -----

  /** The handler gets every stored key right if and only if the store and the
      handler have one name, and it is not ambiguous. */
  lemma NamesAreRightIff(c: Config)
    requires HasRoom(c)
    ensures NamesAreRight(c) <==> c.handler == c.base && !IsAmbiguous(c)
  {
    hide IsRightEntry;
    if c.handler == c.base {
      EqualNames(c);
    } else {
      OtherNamesLoseAKey(c);
      assert IsStoreKey(c.rules, KEY_1) && IsStoreKey(c.rules, KEY_2);
    }
  }

  /** One write, of this data, that is stored under this key. */
  function WriteOf(k: Key, data: Bytes): WriteProperty {
    WriteProperty(k.objectType, k.instance, k.property, k.index, k.index % 0x100, data)
  }

  ghost predicate ReplaysEverything(c: Config) {
    forall history: seq<WriteProperty> :: ReplaysExactly(c, history)
  }

  /** A build in which every history comes back gets every entry right. */
  lemma ReplayNeedsRightEntries(c: Config, k: Key)
    requires HasRoom(c) && ReplaysEverything(c) && IsStoreKey(c.rules, k)
    ensures IsRightEntry(c, k)
  {
    hide Name, KeyDecodes, KeyOfPath, Normal, RestoredWrite, Received, Consistent, StoreKey, StoredEntries, Latest;
    var w, m: Memory := WriteOf(k, [0]), _ => _ => 0;
    var history, name := [w], Name(c.base, k);
    SingleWrite(c, w);
    WriteOfKey(c.rules, k, [0]);
    var names := if AtOrBelow(name, c.handler) then [name] else [];
    var entries := StoredEntries(c, history);
    assert entries == map[name := [0]];
    assert ReplaysExactly(c, history);
    var ds := Deliveries(c, m, entries, names);
    assert IsExactReplay(c, history, ds);
    assert LatestRestorable(c, history, k) <==> KeyDecodes(k, c.width, c.ulongMax);
    if AtOrBelow(name, c.handler) {
      OneDelivery(c, m, entries, name);
      if KeyOfPath(c, Below(name, c.handler)).Some? { assert ds[0].key == KeyOfPath(c, Below(name, c.handler)).value; }
    }
  }

  lemma OneDelivery(c: Config, m: Memory, entries: Entries, name: string)
    requires name in entries && AtOrBelow(name, c.handler)
    ensures Deliveries(c, m, entries, [name]) ==
      match DeliveryOf(c, m(0), Below(name, c.handler), entries[name]) case Some(d) => [d] case None => []
  {
    hide DeliveryOf;
    assert [name][..0] == [];
  }

  lemma WriteOfKey(r: Rules, k: Key, data: Bytes)
    requires IsStoreKey(r, k)
    ensures StoreKey(r, WriteOf(k, data)) == k
  {
  }

  lemma SingleWrite(c: Config, w: WriteProperty)
    ensures StoredEntries(c, [w]) == Saved(map[], Name(c.base, StoreKey(c.rules, w)), w.data)
    ensures forall k: Key :: Latest(c, [w], k) == if k == StoreKey(c.rules, w) then Some(w) else None
  {
    hide Name, StoreKey;
    var history := [w];
    assert history[..0] == [] && history[0] == w;
  }

  lemma ReplayNeedsTheBuffer(c: Config)
    requires HasRoom(c) && Consistent(c.rules) && NamesAreRight(c) && ReplaysEverything(c)
    ensures c.maxApdu <= c.valueSize
  {
    hide KeyDecodes, NamesAreRight, ReplaysExactly, Consistent;
    if c.maxApdu > c.valueSize {
      var w := WriteOf(KEY_1, seq(c.valueSize + 1, i => 0));
      var history := [w];
      SingleWrite(c, w);
      WriteOfKey(c.rules, KEY_1, w.data);
      Decodes111(c);
      assert LatestRestorable(c, history, KEY_1);
      assert !LatestFit(c, history);
      assert ReplaysExactly(c, history);
      ReplaysExactlyIffLatestFit(c, history);
    }
  }

  /** The law of the store for restorable writes: those of every history come back
      exactly, whatever lies behind the value buffer, if and only if the store
      and the settings handler have one name that is not ambiguous, and the
      buffer holds the longest write. */
  lemma ReplaysEverythingIff(c: Config)
    requires HasRoom(c) && Consistent(c.rules)
    ensures ReplaysEverything(c) <==> c.handler == c.base && !IsAmbiguous(c) && c.maxApdu <= c.valueSize
  {
    hide IsRightEntry, ReplaysExactly, LatestRestorable, Consistent;
    NamesAreRightIff(c);
    if ReplaysEverything(c) {
      forall k: Key | IsStoreKey(c.rules, k)
        ensures IsRightEntry(c, k)
      {
        ReplayNeedsRightEntries(c, k);
      }
      ReplayNeedsTheBuffer(c);
    }
    if NamesAreRight(c) && c.maxApdu <= c.valueSize {
      forall history: seq<WriteProperty>
        ensures ReplaysExactly(c, history)
      {
        ReplaysExactlyIffLatestFit(c, history);
        ShortWritesFit(c, history);
      }
    }
  }

  lemma ShortWritesFit(c: Config, history: seq<WriteProperty>)
    requires c.maxApdu <= c.valueSize
    ensures LatestFit(c, history)
  {
    hide Latest;
  }

  // ----- every write, restorable or not -----

  /** The latest write under the key has data, so a value is stored. */
  predicate IsKept(c: Config, history: seq<WriteProperty>, k: Key) {
    Latest(c, history, k).Some? && Latest(c, history, k).value.data != []
  }

  /** Every kept write comes back, in normal form and once, and nothing else. */
  ghost predicate IsFullReplay(c: Config, history: seq<WriteProperty>, ds: seq<Delivery>) {
    && (forall i :: 0 <= i < |ds| ==>
          IsKept(c, history, ds[i].key)
          && ds[i].write == Normal(c.rules, Latest(c, history, ds[i].key).value))
    && (forall k: Key :: IsKept(c, history, k) ==> Delivers(ds, k))
    && NoKeyTwice(ds)
  }

  ghost predicate ReturnsAll(c: Config, history: seq<WriteProperty>) {
    forall m: Memory, names: seq<string> ::
      IsListing(names, StoredEntries(c, history), c.handler)
      ==> IsFullReplay(c, history, Deliveries(c, m, StoredEntries(c, history), names))
  }

  /** The kept writes all decode and fit. */
  ghost predicate KeptFit(c: Config, history: seq<WriteProperty>) {
    forall k: Key :: IsKept(c, history, k) ==>
      KeyDecodes(k, c.width, c.ulongMax)
      && |Latest(c, history, k).value.data| <= c.maxApdu && |Latest(c, history, k).value.data| <= c.valueSize
  }

  /** With right names, every kept write of a history comes back if and only if its
      key decodes and its data fits the value buffer and a WriteProperty. */
  lemma ReturnsAllIffKeptFit(c: Config, history: seq<WriteProperty>)
    requires NamesAreRight(c) && Consistent(c.rules)
    ensures ReturnsAll(c, history) <==> KeptFit(c, history)
  {
    hide Latest, StoredEntries, Deliveries, KeyDecodes, NamesAreRight, Consistent, Normal;
    ReplaysExactlyIffLatestFit(c, history);
    if KeptFit(c, history) {
      assert forall k: Key :: LatestRestorable(c, history, k) <==> IsKept(c, history, k);
      assert LatestFit(c, history);
      forall m: Memory, names: seq<string> | IsListing(names, StoredEntries(c, history), c.handler)
        ensures IsFullReplay(c, history, Deliveries(c, m, StoredEntries(c, history), names))
      {
        assert IsExactReplay(c, history, Deliveries(c, m, StoredEntries(c, history), names));
      }
    }
    if ReturnsAll(c, history) {
      KeptAreRestorable(c, history);
      forall m: Memory, names: seq<string> | IsListing(names, StoredEntries(c, history), c.handler)
        ensures IsExactReplay(c, history, Deliveries(c, m, StoredEntries(c, history), names))
      {
        assert IsFullReplay(c, history, Deliveries(c, m, StoredEntries(c, history), names));
      }
    }
  }

  lemma KeptAreRestorable(c: Config, history: seq<WriteProperty>)
    requires NamesAreRight(c) && Consistent(c.rules) && ReturnsAll(c, history)
    ensures forall k: Key :: IsKept(c, history, k) <==> LatestRestorable(c, history, k)
  {
    hide Latest, StoredEntries, Deliveries, KeyDecodes, NamesAreRight, Consistent, Normal, IsListing, ComesBack;
    var m: Memory := _ => _ => 0;
    var names := SomeListing(StoredEntries(c, history), c.handler);
    var ds := Deliveries(c, m, StoredEntries(c, history), names);
    assert IsFullReplay(c, history, ds);
    RestoreReplaysLatestWrites(c, m, history, names);
    forall k: Key | IsKept(c, history, k)
      ensures LatestRestorable(c, history, k)
    {
      assert Delivers(ds, k);
      var i :| 0 <= i < |ds| && ds[i].key == k;
    }
  }

  /** Every write comes back, of every history of writes that a WriteProperty can
      hold. */
  ghost predicate ReturnsEverything(c: Config) {
    forall history: seq<WriteProperty> :: IsShort(c, history) ==> ReturnsAll(c, history)
  }

  predicate IsShort(c: Config, history: seq<WriteProperty>) {
    forall i :: 0 <= i < |history| ==> |history[i].data| <= c.maxApdu
  }

  /** No stored key's path lies below the base. */
  ghost predicate IsClear(c: Config) {
    forall k: Key :: IsStoreKey(c.rules, k) ==> !LiesBelow(Tail(k), c.base)
  }

  /** A component holds ten digits, and `ULONG_MAX` is above every 32-bit number. */
  predicate HoldsEveryField(c: Config) {
    c.width >= 10 && c.ulongMax > UINT32_MAX
  }

  const LONGEST_KEY := Key(65535, UINT32_MAX, 1, NONE)

  lemma EveryKeyDecodesIff(c: Config)
    ensures HoldsEveryField(c) <==> forall k: Key :: IsStoreKey(c.rules, k) ==> KeyDecodes(k, c.width, c.ulongMax)
  {
    hide Dec;
    if HoldsEveryField(c) {
      forall k: Key
        ensures KeyDecodes(k, c.width, c.ulongMax)
      {
        TenDigits(k.objectType);
        TenDigits(k.instance);
        TenDigits(k.property);
        TenDigits(k.index);
      }
    }
    assert Pow10(5) == 100_000;
    assert Pow10(9) == 1_000_000_000;
    DecLength(UINT32_MAX, 9);
    assert IsStoreKey(c.rules, LONGEST_KEY);
  }

  lemma {:induction false} LatestIsShort(c: Config, history: seq<WriteProperty>, k: Key)
    requires IsShort(c, history) && Latest(c, history, k).Some?
    ensures |Latest(c, history, k).value.data| <= c.maxApdu
    ensures IsStoreKey(c.rules, k)
    decreases |history|
  {
    var n := |history| - 1;
    if StoreKey(c.rules, history[n]) != k { LatestIsShort(c, history[..n], k); }
  }

  /** A write that comes back by itself has its key got right. */
  lemma ReturnedKeyIsRight(c: Config, k: Key)
    requires c.maxApdu >= 1 && ReturnsEverything(c) && IsStoreKey(c.rules, k)
    ensures AtOrBelow(Name(c.base, k), c.handler) && KeyOfPath(c, Below(Name(c.base, k), c.handler)) == Some(k)
  {
    hide Name, KeyOfPath, Normal, RestoredWrite, Received, StoreKey, StoredEntries, Latest;
    var w, m: Memory := WriteOf(k, [0]), _ => _ => 0;
    var history, name := [w], Name(c.base, k);
    SingleWrite(c, w);
    WriteOfKey(c.rules, k, [0]);
    var names := if AtOrBelow(name, c.handler) then [name] else [];
    var entries := StoredEntries(c, history);
    assert entries == map[name := [0]];
    assert IsShort(c, history) && ReturnsAll(c, history);
    var ds := Deliveries(c, m, entries, names);
    assert IsFullReplay(c, history, ds) && IsKept(c, history, k);
    assert Delivers(ds, k);
    if AtOrBelow(name, c.handler) { OneDelivery(c, m, entries, name); }
  }

  /** The law of the store for every write: every write with data, of every
      history, comes back, whatever lies behind the value buffer, if and only if
      the store and the settings handler have one name, no stored key's path lies
      below it, components hold ten digits, `ULONG_MAX` is above 32 bits, and the
      buffer holds the longest write. */
  lemma ReturnsEverythingIff(c: Config)
    requires c.maxApdu >= 1 && Consistent(c.rules)
    ensures ReturnsEverything(c) <==>
            (c.handler == c.base && IsClear(c) && HoldsEveryField(c) && c.maxApdu <= c.valueSize)
  {
    if ReturnsEverything(c) { ReturningNeedsAll(c); }
    if c.handler == c.base && IsClear(c) && HoldsEveryField(c) && c.maxApdu <= c.valueSize { AllReturn(c); }
  }

  lemma ReturningNeedsAll(c: Config)
    requires c.maxApdu >= 1 && Consistent(c.rules) && ReturnsEverything(c)
    ensures c.handler == c.base && IsClear(c) && HoldsEveryField(c) && c.maxApdu <= c.valueSize
  {
    hide Name, Tail, KeyDecodes, Decode, LiesBelow, IsStoreKey, ReturnsAll, KeyOfPath, KeptFit, Consistent, HoldsEveryField;
    ShortKeysAreStored(c.rules);
    ReturnedKeyIsRight(c, KEY_1);
    ReturnedKeyIsRight(c, KEY_2);
    FoundNeedsRoom(c, Below(Name(c.base, KEY_2), c.handler));
    Decodes111(c);
    if c.handler != c.base {
      OtherNamesLoseAKey(c);
      assert false;
    }
    forall k: Key | IsStoreKey(c.rules, k)
      ensures !LiesBelow(Tail(k), c.base) && KeyDecodes(k, c.width, c.ulongMax)
    {
      ReturnedKeyIsRight(c, k);
      EntryBelowItsBase(c, k);
      if LiesBelow(Tail(k), c.base) {
        ShadowedKeyIsLost(c.base, k, c.width, c.ulongMax);
      } else {
        HandlerPathRoundTrip(c.base, k, c.width, c.ulongMax);
      }
    }
    EveryKeyDecodesIff(c);
    assert !IsAmbiguous(c);
    NamesAreRightIff(c);
    LongestWriteFits(c);
  }

  lemma FoundNeedsRoom(c: Config, path: Option<string>)
    requires KeyOfPath(c, path) == Some(KEY_2)
    ensures c.width >= 1 && c.ulongMax >= 3
  {
    hide Component, NameSteq;
    var (below, rest) := NameSteq(path.value, c.base);
    var s := if below && rest.Some? then rest.value else path.value;
    assert DecodePath(s, c.width, c.ulongMax) == Success(KEY_2);
    FieldNeedsRoom(s, c.width, c.ulongMax);
  }

  lemma FieldNeedsRoom(s: string, width: nat, ulongMax: nat)
    requires Component(Some(s), width, ulongMax).Some?
    ensures width >= 1 && Component(Some(s), width, ulongMax).value.0 < ulongMax
  {
    hide NameNext, Digits;
    NumberHasDigits(s[..NameNext(Some(s)).0], ulongMax);
  }

  lemma ShortKeysAreStored(r: Rules)
    ensures IsStoreKey(r, KEY_1) && IsStoreKey(r, KEY_2)
  {
  }

  lemma LongestWriteFits(c: Config)
    requires HasRoom(c) && Consistent(c.rules) && NamesAreRight(c) && ReturnsEverything(c)
    ensures c.maxApdu <= c.valueSize
  {
    hide KeyDecodes, NamesAreRight, ReturnsAll, Consistent, StoreKey, Latest;
    var w := WriteOf(KEY_1, seq(c.maxApdu, i => 0));
    var history := [w];
    SingleWrite(c, w);
    WriteOfKey(c.rules, KEY_1, w.data);
    assert IsShort(c, history) && IsKept(c, history, KEY_1);
    assert ReturnsAll(c, history);
    ReturnsAllIffKeptFit(c, history);
  }

  lemma AllReturn(c: Config)
    requires c.maxApdu >= 1 && Consistent(c.rules)
    requires c.handler == c.base && IsClear(c) && HoldsEveryField(c) && c.maxApdu <= c.valueSize
    ensures ReturnsEverything(c)
  {
    hide Name, Tail, KeyDecodes, LiesBelow, IsStoreKey, ReturnsAll, Latest, Consistent;
    assert !IsAmbiguous(c);
    NamesAreRightIff(c);
    EveryKeyDecodesIff(c);
    forall history: seq<WriteProperty> | IsShort(c, history)
      ensures ReturnsAll(c, history)
    {
      forall k: Key | IsKept(c, history, k)
        ensures IsStoreKey(c.rules, k) && |Latest(c, history, k).value.data| <= c.maxApdu
      {
        LatestIsShort(c, history, k);
      }
      assert KeptFit(c, history);
      ReturnsAllIffKeptFit(c, history);
    }
  }

  /** With the default names, `.bacnet` for the store and `bacnet` for the handler,
      a restore finds none of the stored keys. */
  lemma DefaultNamesRestoreNothing(k: Key)
    ensures !AtOrBelow(Name(".bacnet", k), "bacnet")
  {
    assert Name(".bacnet", k)[0] == '.';
  }

  /** A write one byte longer than the buffer, under right names: it comes back
      with its last byte from behind the buffer. */
  lemma OneByteTooMany(c: Config, m: Memory, w: WriteProperty, names: seq<string>)
    requires NamesAreRight(c) && Consistent(c.rules) && KeyDecodes(StoreKey(c.rules, w), c.width, c.ulongMax)
    requires |w.data| == c.valueSize + 1 <= c.maxApdu
    requires IsListing(names, StoredEntries(c, [w]), c.handler)
    ensures var ds := Deliveries(c, m, StoredEntries(c, [w]), names);
      exists d, n: nat :: d in ds && d.write == Normal(c.rules, w).(data := w.data[..c.valueSize] + [m(n)(0)])
  {
    hide KeyDecodes, NamesAreRight, Normal, StoreKey, Deliveries, StoredEntries, Received, Consistent;
    var history, k := [w], StoreKey(c.rules, w);
    SingleWrite(c, w);
    assert LatestRestorable(c, history, k);
    RestoreReplaysLatestWrites(c, m, history, names);
    var ds := Deliveries(c, m, StoredEntries(c, history), names);
    assert Delivers(ds, k);
    var i :| 0 <= i < |ds| && ds[i].key == k;
    assert ComesBack(c, m, w, ds[i].write);
    var n: nat :| ds[i].write == Normal(c.rules, w).(data := Received(c, m(n), w.data));
    ReceivedOneMore(c, m(n), w.data);
    assert ds[i] in ds;
  }

  lemma ReceivedOneMore(c: Config, behind: nat -> byte, value: Bytes)
    requires |value| == c.valueSize + 1
    ensures Received(c, behind, value) == value[..c.valueSize] + [behind(0)]
  {
  }
}
