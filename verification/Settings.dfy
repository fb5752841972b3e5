/** Persisting WriteProperty requests and replaying them at start-up: how the
    priority of a commandable write is hidden in the storage key, and what a
    restore hands back. */
module Settings {
  import opened Basics
  import opened StorageKey
  import opened Storage

  type uint8 = n: int | 0 <= n < 0x100

  const PRESENT_VALUE: uint32 := 85
  const ARRAY_ALL: uint32 := UINT32_MAX
  const MAX_PRIORITY: uint8 := 16

  datatype WriteProperty = WriteProperty(
    objectType: uint16, instance: uint32, property: uint32, index: uint32, priority: uint8, data: Bytes)

  /** What the library knows of properties: which are BACnet arrays, and which are
      commandable. */
  datatype Rules = Rules(isArray: (uint16, uint32) -> bool, isCommandable: (uint16, uint32) -> bool)

  /** Only present values are commandable, and no array is. */
  ghost predicate Consistent(r: Rules) {
    forall t: uint16, p: uint32 :: r.isCommandable(t, p) ==> p == PRESENT_VALUE && !r.isArray(t, p)
  }

  /** The key `bacnet_settings_write_property_store` stores a write under. */
  function StoreKey(r: Rules, w: WriteProperty): Key {
    var index :=
      if r.isArray(w.objectType, w.property) then w.index
      else if w.property == PRESENT_VALUE then
        if r.isCommandable(w.objectType, w.property) then w.priority else ARRAY_ALL
      else w.index;
    Key(w.objectType, w.instance, w.property, index)
  }

  function Narrow8(n: uint32): uint8 { n % 0x100 }

  /** The write that `bacnet_settings_restore` makes of a stored value. */
  function RestoredWrite(r: Rules, k: Key, data: Bytes): WriteProperty {
    if r.isCommandable(k.objectType, k.property)
    then WriteProperty(k.objectType, k.instance, k.property, ARRAY_ALL, Narrow8(k.index), data)
    else WriteProperty(k.objectType, k.instance, k.property, k.index, MAX_PRIORITY, data)
  }

  /** A write as it comes back: a commandable one keeps its priority and loses its
      index, any other keeps its index (none on a present value that is no
      array) and gets the lowest priority. */
  function Normal(r: Rules, w: WriteProperty): WriteProperty {
    if r.isCommandable(w.objectType, w.property) then w.(index := ARRAY_ALL)
    else if w.property == PRESENT_VALUE && !r.isArray(w.objectType, w.property)
    then w.(index := ARRAY_ALL, priority := MAX_PRIORITY)
    else w.(priority := MAX_PRIORITY)
  }

  /** Storing and restoring a write gives its normal form, and two writes share a
      key exactly when their normal forms address the same slot. */
  lemma StoreThenRestore(r: Rules, w: WriteProperty, v: WriteProperty)
    requires Consistent(r)
    ensures RestoredWrite(r, StoreKey(r, w), w.data) == Normal(r, w)
    ensures Normal(r, Normal(r, w)) == Normal(r, w)
    ensures StoreKey(r, Normal(r, w)) == StoreKey(r, w)
    ensures StoreKey(r, w) == StoreKey(r, v) <==> Normal(r, w).(data := []) == Normal(r, v).(data := [])
  {
  }

  /** In the numbers of the standard: a commandable present value, property 85, is
      stored under its priority and comes back with it and index 2^32 - 1; one
      that is not loses its index; everything else keeps its index and comes back
      with priority 16. */
  lemma InNumbers(r: Rules, w: WriteProperty)
    requires Consistent(r)
    ensures r.isCommandable(w.objectType, w.property) ==>
      && w.property == 85 && StoreKey(r, w).index == w.priority
      && RestoredWrite(r, StoreKey(r, w), w.data).index == 4_294_967_295
      && RestoredWrite(r, StoreKey(r, w), w.data).priority == w.priority
    ensures !r.isCommandable(w.objectType, w.property) ==>
      && RestoredWrite(r, StoreKey(r, w), w.data).priority == 16
      && RestoredWrite(r, StoreKey(r, w), w.data).index == StoreKey(r, w).index
      && StoreKey(r, w).index ==
         if w.property == 85 && !r.isArray(w.objectType, 85) then 4_294_967_295 else w.index
    ensures StoreKey(r, w).objectType == w.objectType && StoreKey(r, w).instance == w.instance
    ensures StoreKey(r, w).property == w.property
  {
  }

  // ----- the replay -----

  /** The names and limits a build fixes: the store's base, the settings handler's
      name, the width of a decoded component, ULONG_MAX, the size of the buffer a
      loaded value is read into, and the longest value a WriteProperty takes. */
  datatype Config = Config(
    base: string, handler: string, width: nat, ulongMax: nat, valueSize: nat, maxApdu: nat, rules: Rules)

  datatype Delivery = Delivery(key: Key, write: WriteProperty)

  /** The bytes in memory behind the handler's value buffer, at its n-th call. */
  type Memory = nat -> nat -> byte

  /** What the restore copies for a loaded value. The value is read into the
      buffer, cut to its size; the copy has the length of the stored value, so
      it goes on behind the buffer when that is longer. */
  function Received(c: Config, behind: nat -> byte, value: Bytes): (data: Bytes)
    ensures |data| == |value|
  {
    if |value| <= c.valueSize then value
    else value[..c.valueSize] + seq(|value| - c.valueSize, i requires 0 <= i < |value| - c.valueSize => behind(i))
  }

  /** The key of a handler's path, if it decodes. */
  function KeyOfPath(c: Config, path: Option<string>): Option<Key> {
    match path
    case None => None
    case Some(p) => Decode(c.base, c.width, c.ulongMax, p).ToOption()
  }

  /** What the settings handler passes on for one loaded entry: nothing when the
      path does not decode or the value is empty or too long. */
  function DeliveryOf(c: Config, behind: nat -> byte, path: Option<string>, value: Bytes): Option<Delivery> {
    match KeyOfPath(c, path)
    case None => None
    case Some(k) =>
      if value == [] || |value| > c.maxApdu then None
      else Some(Delivery(k, RestoredWrite(c.rules, k, Received(c, behind, value))))
  }

  /** Everything handed to the restore callback for the listed entries. */
  function Deliveries(c: Config, m: Memory, entries: Entries, names: seq<string>): seq<Delivery>
    requires forall i :: 0 <= i < |names| ==> names[i] in entries && AtOrBelow(names[i], c.handler)
  {
    if names == [] then []
    else
      var n := |names| - 1;
      Deliveries(c, m, entries, names[..n]) +
      (match DeliveryOf(c, m(n), Below(names[n], c.handler), entries[names[n]])
       case Some(d) => [d]
       case None => [])
  }

  /** The store and the callback a restore calls. */
  class Persistence {
    const config: Config
    const store: Store
    /** What the application's callback answers to each write. */
    const accepts: WriteProperty -> Status
    const memory: Memory

    /** The writes handed to the callback, in order. */
    var delivered: seq<WriteProperty>

    constructor (config: Config, store: Store, accepts: WriteProperty -> Status, memory: Memory)
      requires store.base == config.base
      ensures this.config == config && this.store == store && this.accepts == accepts && this.memory == memory
      ensures delivered == []
    {
      this.config, this.store, this.accepts, this.memory, delivered := config, store, accepts, memory, [];
    }

    /** `bacnet_settings_write_property_store`: the write becomes what its key
        finds; no other key changes. */
    method WritePropertyStore(w: WriteProperty) returns (ok: bool)
      requires store.Valid() && store.base == config.base
      modifies store
      ensures store.Valid()
      ensures ok <==> store.writeStatus(old(store.writes)) == Ok
      ensures store.entries ==
        if ok then Saved(old(store.entries), Name(config.base, StoreKey(config.rules, w)), w.data)
        else old(store.entries)
    {
      hide Name;
      var index;
      if config.rules.isArray(w.objectType, w.property) {
        index := w.index;
      } else if w.property == PRESENT_VALUE {
        if config.rules.isCommandable(w.objectType, w.property) {
          index := w.priority;
        } else {
          index := ARRAY_ALL;
        }
      } else {
        index := w.index;
      }
      var status := store.Set(Key(w.objectType, w.instance, w.property, index), w.data);
      return status == Ok;
    }

    /** `bacnet_settings_restore` with a registered callback: EINVAL, or the
        callback's answer. */
    method RestoreValue(k: Key, data: Bytes) returns (status: Status)
      modifies this`delivered
      ensures var good := 0 < |data| <= config.maxApdu;
        && delivered == (if good then old(delivered) + [RestoredWrite(config.rules, k, data)] else old(delivered))
        && status == (if good then accepts(RestoredWrite(config.rules, k, data)) else Err(EINVAL))
    {
      status := Err(EINVAL);
      if |data| > 0 && |data| <= config.maxApdu {
        var write;
        if config.rules.isCommandable(k.objectType, k.property) {
          write := WriteProperty(k.objectType, k.instance, k.property, ARRAY_ALL, Narrow8(k.index), data);
        } else {
          write := WriteProperty(k.objectType, k.instance, k.property, k.index, MAX_PRIORITY, data);
        }
        delivered := delivered + [write];
        status := accepts(write);
      }
    }

    /** `bacnet_storage_handler_set`, with the bytes behind its buffer. */
    method HandlerSet(path: Option<string>, value: Bytes, behind: nat -> byte) returns (status: Status)
      modifies this`delivered
      ensures delivered == old(delivered) +
        (match DeliveryOf(config, behind, path, value) case Some(d) => [d.write] case None => [])
      ensures status ==
        match DeliveryOf(config, behind, path, value)
        case Some(d) => accepts(d.write)
        case None => if KeyOfPath(config, path).Some? && value == [] then Ok else Err(EINVAL)
    {
      hide Decode;
      if path.None? {
        return Err(EINVAL);
      }
      var key := Decode(config.base, config.width, config.ulongMax, path.value);
      if key.Failure? {
        return Err(EINVAL);
      }
      if |value| == 0 {
        return Ok;
      }
      status := RestoreValue(key.result, Received(config, behind, value));
    }

    /** `bacnet_settings_write_property_restore`: loads the handler's subtree and
        calls back for each stored value; an error on one does not stop the
        walk. */
    method WritePropertyRestore() returns (ghost names: seq<string>)
      modifies this`delivered
      ensures IsListing(names, store.entries, config.handler)
      ensures delivered == old(delivered) + Writes(Deliveries(config, memory, store.entries, names))
    {
      hide DeliveryOf, KeyOfPath, Below, AtOrBelow, IsListing;
      var listing := store.List(config.handler);
      names := listing;
      var i := 0;
      while i < |listing|
        invariant 0 <= i <= |listing|
        invariant delivered == old(delivered) + Writes(Deliveries(config, memory, store.entries, listing[..i]))
      {
        var _ := HandlerSet(Below(listing[i], config.handler), store.entries[listing[i]], memory(i));
        assert listing[..i + 1][..i] == listing[..i];
        i := i + 1;
      }
      assert listing[..i] == listing;
    }
  }

  function Writes(ds: seq<Delivery>): seq<WriteProperty> {
    seq(|ds|, i requires 0 <= i < |ds| => ds[i].write)
  }

  // ----- what a restore hands back -----

  /** A key whose stored value can be restored. */
  predicate Restorable(c: Config, entries: Entries, k: Key) {
    && Find(c.base, entries, k).Some?
    && KeyDecodes(k, c.width, c.ulongMax)
    && 0 < |Find(c.base, entries, k).value| <= c.maxApdu
  }

  /** Some write is stored under this key. */
  predicate IsStoreKey(r: Rules, k: Key) {
    r.isArray(k.objectType, k.property) || k.property != PRESENT_VALUE
    || (if r.isCommandable(k.objectType, k.property) then k.index < 0x100 else k.index == ARRAY_ALL)
  }

  /** The handler gets a key's entry, and as that key, exactly when the key
      decodes. */
  predicate IsRightEntry(c: Config, k: Key) {
    var name := Name(c.base, k);
    if KeyDecodes(k, c.width, c.ulongMax)
    then AtOrBelow(name, c.handler) && KeyOfPath(c, Below(name, c.handler)) == Some(k)
    else AtOrBelow(name, c.handler) ==> KeyOfPath(c, Below(name, c.handler)) == None
  }

  /** The handler gets the entry of every key that is stored right. */
  ghost predicate NamesAreRight(c: Config) {
    forall k: Key :: IsStoreKey(c.rules, k) ==> IsRightEntry(c, k)
  }

  /** Every entry is that of a key some write is stored under. */
  ghost predicate OnlyStoreKeys(c: Config, entries: Entries) {
    forall n :: n in entries ==> exists k: Key :: IsStoreKey(c.rules, k) && n == Name(c.base, k)
  }

  predicate Listed(names: seq<string>, entries: Entries, c: Config) {
    && (forall i :: 0 <= i < |names| ==> names[i] in entries && AtOrBelow(names[i], c.handler))
    && (forall i, j :: 0 <= i < j < |names| ==> names[i] != names[j])
  }

  /** A write that comes back for a stored value, as it was or going on behind the
      buffer. */
  ghost predicate IsRestored(c: Config, m: Memory, k: Key, value: Bytes, w: WriteProperty) {
    exists n: nat :: w == RestoredWrite(c.rules, k, Received(c, m(n), value))
  }

  /** The delivery of a listed key that can be restored. */
  ghost predicate IsDelivery(c: Config, m: Memory, entries: Entries, names: seq<string>, d: Delivery) {
    && Name(c.base, d.key) in names && Restorable(c, entries, d.key)
    && IsRestored(c, m, d.key, Find(c.base, entries, d.key).value, d.write)
  }

  predicate Delivers(ds: seq<Delivery>, k: Key) {
    exists i :: 0 <= i < |ds| && ds[i].key == k
  }

  predicate NoKeyTwice(ds: seq<Delivery>) {
    forall i, j :: 0 <= i < j < |ds| ==> ds[i].key != ds[j].key
  }

  /** One delivery for each restorable key among the names, none twice, and each
      the restored write of its key's value. */
  ghost predicate Exact(c: Config, m: Memory, entries: Entries, names: seq<string>, ds: seq<Delivery>) {
    && (forall d :: d in ds ==> IsDelivery(c, m, entries, names, d))
    && (forall k: Key :: Name(c.base, k) in names && Restorable(c, entries, k) ==> Delivers(ds, k))
    && NoKeyTwice(ds)
  }

  lemma ExactWithout(c: Config, m: Memory, entries: Entries, front: seq<string>, ds: seq<Delivery>, k: Key)
    requires Exact(c, m, entries, front, ds) && !Restorable(c, entries, k)
    ensures Exact(c, m, entries, front + [Name(c.base, k)], ds)
  {
    hide Name, Restorable, IsRestored, Find, Delivers;
    var names := front + [Name(c.base, k)];
    forall other: Key | Name(c.base, other) == Name(c.base, k)
      ensures other == k
    {
      NameInjective(c.base, other, k);
    }
    forall d | d in ds
      ensures IsDelivery(c, m, entries, names, d)
    {
      assert IsDelivery(c, m, entries, front, d);
    }
  }

  lemma ExactWith(c: Config, m: Memory, entries: Entries, front: seq<string>, ds: seq<Delivery>, d: Delivery)
    requires Exact(c, m, entries, front, ds) && Name(c.base, d.key) !in front
    requires Restorable(c, entries, d.key) && IsRestored(c, m, d.key, Find(c.base, entries, d.key).value, d.write)
    ensures Exact(c, m, entries, front + [Name(c.base, d.key)], ds + [d])
  {
    hide Name, Restorable, IsRestored, Find;
    var names, after := front + [Name(c.base, d.key)], ds + [d];
    forall e | e in after
      ensures IsDelivery(c, m, entries, names, e)
    {
      if e in ds { assert IsDelivery(c, m, entries, front, e); }
    }
    forall other: Key | Name(c.base, other) in names && Restorable(c, entries, other)
      ensures Delivers(after, other)
    {
      if Name(c.base, other) in front {
        assert Delivers(ds, other);
        var i :| 0 <= i < |ds| && ds[i].key == other;
        assert after[i].key == other;
      } else {
        NameInjective(c.base, other, d.key);
        assert after[|ds|].key == other;
      }
    }
    forall i | 0 <= i < |ds|
      ensures ds[i].key != d.key
    {
      assert IsDelivery(c, m, entries, front, ds[i]);
    }
  }

  /** A walk over listed entries delivers exactly the restorable keys named there. */
  lemma {:induction false} DeliveriesAreExact(c: Config, m: Memory, entries: Entries, names: seq<string>)
    requires NamesAreRight(c) && OnlyStoreKeys(c, entries) && Listed(names, entries, c)
    ensures Exact(c, m, entries, names, Deliveries(c, m, entries, names))
    decreases |names|
  {
    hide Name, DeliveryOf, Exact, Restorable, IsRightEntry, IsStoreKey;
    if names == [] {
      NothingIsExact(c, m, entries);
    } else {
      var n := |names| - 1;
      var front, last := names[..n], names[n];
      DeliveriesAreExact(c, m, entries, front);
      assert front + [last] == names;
      var before := Deliveries(c, m, entries, front);
      var k: Key :| IsStoreKey(c.rules, k) && last == Name(c.base, k);
      DeliveryOfKey(c, m(n), entries, k);
      if Restorable(c, entries, k) {
        var d := DeliveryOf(c, m(n), Below(last, c.handler), entries[last]).value;
        RestoredHere(c, m, n, k, entries);
        ExactWith(c, m, entries, front, before, d);
      } else {
        ExactWithout(c, m, entries, front, before, k);
        assert Deliveries(c, m, entries, names) == before + [] == before;
      }
    }
  }

  lemma RestoredHere(c: Config, m: Memory, n: nat, k: Key, entries: Entries)
    requires Restorable(c, entries, k)
    ensures Find(c.base, entries, k) == Some(entries[Name(c.base, k)])
    ensures IsRestored(c, m, k, entries[Name(c.base, k)],
              RestoredWrite(c.rules, k, Received(c, m(n), entries[Name(c.base, k)])))
  {
    hide Name, RestoredWrite, Received;
  }

  lemma NothingIsExact(c: Config, m: Memory, entries: Entries)
    ensures Exact(c, m, entries, [], [])
  {
  }

  /** The entry of a key, as the handler sees it. */
  lemma DeliveryOfKey(c: Config, behind: nat -> byte, entries: Entries, k: Key)
    requires IsRightEntry(c, k) && Name(c.base, k) in entries && AtOrBelow(Name(c.base, k), c.handler)
    ensures DeliveryOf(c, behind, Below(Name(c.base, k), c.handler), entries[Name(c.base, k)])
      == if Restorable(c, entries, k)
         then Some(Delivery(k, RestoredWrite(c.rules, k, Received(c, behind, entries[Name(c.base, k)])))) else None
  {
    hide Name, KeyOfPath, KeyDecodes, RestoredWrite;
  }

  // ----- a history of writes -----

  /** The store after a history of successful writes, from an empty one. */
  function StoredEntries(c: Config, history: seq<WriteProperty>): Entries {
    if history == [] then map[]
    else
      var w := history[|history| - 1];
      Saved(StoredEntries(c, history[..|history| - 1]), Name(c.base, StoreKey(c.rules, w)), w.data)
  }

  /** The latest write of a history under a key. */
  function Latest(c: Config, history: seq<WriteProperty>, k: Key): Option<WriteProperty> {
    if history == [] then None
    else if StoreKey(c.rules, history[|history| - 1]) == k then Some(history[|history| - 1])
    else Latest(c, history[..|history| - 1], k)
  }

  lemma {:induction false} StoreHoldsLatest(c: Config, history: seq<WriteProperty>)
    ensures Clean(c.base, StoredEntries(c, history)) && OnlyStoreKeys(c, StoredEntries(c, history))
    ensures forall k: Key :: Find(c.base, StoredEntries(c, history), k) ==
              (match Latest(c, history, k)
               case Some(w) => if w.data == [] then None else Some(w.data)
               case None => None)
    decreases |history|
  {
    hide Name, Clean, Saved, Find, StoreKey, OnlyStoreKeys;
    if history == [] {
      EmptyStore(c);
    } else {
      var front, w := history[..|history| - 1], history[|history| - 1];
      StoreHoldsLatest(c, front);
      SaveKeepsClean(c.base, StoredEntries(c, front), StoreKey(c.rules, w), w.data);
      SaveKeepsStoreKeys(c, StoredEntries(c, front), w);
      forall k: Key {
        SaveChangesOneKey(c.base, StoredEntries(c, front), StoreKey(c.rules, w), w.data, k);
      }
    }
  }

  lemma EmptyStore(c: Config)
    ensures Clean(c.base, map[]) && OnlyStoreKeys(c, map[])
    ensures forall k: Key :: Find(c.base, map[], k) == None
  {
  }

  lemma SaveKeepsStoreKeys(c: Config, entries: Entries, w: WriteProperty)
    requires OnlyStoreKeys(c, entries)
    ensures OnlyStoreKeys(c, Saved(entries, Name(c.base, StoreKey(c.rules, w)), w.data))
  {
    hide Name;
    var k := StoreKey(c.rules, w);
    assert IsStoreKey(c.rules, k);
    forall n | n in Saved(entries, Name(c.base, k), w.data)
      ensures exists k': Key :: IsStoreKey(c.rules, k') && n == Name(c.base, k')
    {
      if n != Name(c.base, k) { assert n in entries; }
    }
  }

  lemma {:induction false} LatestHasKey(c: Config, history: seq<WriteProperty>, k: Key)
    ensures Latest(c, history, k).Some? ==> StoreKey(c.rules, Latest(c, history, k).value) == k
    decreases |history|
  {
    if history != [] { LatestHasKey(c, history[..|history| - 1], k); }
  }

  /** A key whose latest write can be restored. */
  predicate LatestRestorable(c: Config, history: seq<WriteProperty>, k: Key) {
    && Latest(c, history, k).Some?
    && 0 < |Latest(c, history, k).value.data| <= c.maxApdu
    && KeyDecodes(k, c.width, c.ulongMax)
  }

  /** The write that comes back for the latest one under its key: its normal form,
      with the data the restore copied. */
  ghost predicate ComesBack(c: Config, m: Memory, latest: WriteProperty, w: WriteProperty) {
    exists n: nat :: w == Normal(c.rules, latest).(data := Received(c, m(n), latest.data))
  }

  /** Write, store, reload, replay: after any history of writes, a restore hands
      the application one write for each key whose latest write is restorable,
      and nothing else; and that is the latest write in normal form, exactly
      when it fits the value buffer, and otherwise with its length and
      everything but what the buffer does not hold. */
  lemma RestoreReplaysLatestWrites(c: Config, m: Memory, history: seq<WriteProperty>, names: seq<string>)
    requires NamesAreRight(c) && Consistent(c.rules)
    requires IsListing(names, StoredEntries(c, history), c.handler)
    ensures var ds := Deliveries(c, m, StoredEntries(c, history), names);
      && (forall i :: 0 <= i < |ds| ==>
            LatestRestorable(c, history, ds[i].key)
            && ComesBack(c, m, Latest(c, history, ds[i].key).value, ds[i].write))
      && (forall k: Key :: LatestRestorable(c, history, k) ==> Delivers(ds, k))
      && NoKeyTwice(ds)
  {
    hide Name, Clean, StoredEntries, Latest, KeyDecodes, StoreKey, Consistent, Delivers, NoKeyTwice;
    hide NamesAreRight, OnlyStoreKeys, Deliveries, IsRestored, ComesBack;
    var entries := StoredEntries(c, history);
    StoreHoldsLatest(c, history);
    DeliveriesAreExact(c, m, entries, names);
    var ds := Deliveries(c, m, entries, names);
    forall i | 0 <= i < |ds|
      ensures LatestRestorable(c, history, ds[i].key)
           && ComesBack(c, m, Latest(c, history, ds[i].key).value, ds[i].write)
    {
      var k := ds[i].key;
      assert IsDelivery(c, m, entries, names, ds[i]);
      LatestHasKey(c, history, k);
      RestoredComesBack(c, m, Latest(c, history, k).value, ds[i].write);
    }
    forall k: Key | LatestRestorable(c, history, k)
      ensures Delivers(ds, k)
    {
      assert Restorable(c, entries, k);
      LatestHasKey(c, history, k);
      RightNameIsListed(c, Latest(c, history, k).value, entries, names);
    }
  }

  lemma RestoredComesBack(c: Config, m: Memory, latest: WriteProperty, w: WriteProperty)
    requires Consistent(c.rules) && IsRestored(c, m, StoreKey(c.rules, latest), latest.data, w)
    ensures ComesBack(c, m, latest, w)
  {
    hide Received;
    var n: nat :| w == RestoredWrite(c.rules, StoreKey(c.rules, latest), Received(c, m(n), latest.data));
    var data := Received(c, m(n), latest.data);
    StoreThenRestore(c.rules, latest.(data := data), latest);
    assert w == Normal(c.rules, latest).(data := data);
  }

  lemma RightNameIsListed(c: Config, w: WriteProperty, entries: Entries, names: seq<string>)
    requires NamesAreRight(c) && IsListing(names, entries, c.handler)
    requires Restorable(c, entries, StoreKey(c.rules, w))
    ensures Name(c.base, StoreKey(c.rules, w)) in names
  {
    hide Name, KeyDecodes, KeyOfPath;
    assert IsStoreKey(c.rules, StoreKey(c.rules, w));
    assert IsRightEntry(c, StoreKey(c.rules, w));
  }

  // ----- exactly when every write comes back -----

  /** Each delivery is the latest write in normal form, with its own data, and every
      restorable key is delivered. */
  ghost predicate IsExactReplay(c: Config, history: seq<WriteProperty>, ds: seq<Delivery>) {
    && (forall i :: 0 <= i < |ds| ==>
          LatestRestorable(c, history, ds[i].key)
          && ds[i].write == Normal(c.rules, Latest(c, history, ds[i].key).value))
    && (forall k: Key :: LatestRestorable(c, history, k) ==> Delivers(ds, k))
    && NoKeyTwice(ds)
  }

  /** The restorable writes of a history are replayed exactly, in whatever order the store is listed and
      whatever lies behind the buffer. */
  ghost predicate ReplaysExactly(c: Config, history: seq<WriteProperty>) {
    forall m: Memory, names: seq<string> ::
      IsListing(names, StoredEntries(c, history), c.handler)
      ==> IsExactReplay(c, history, Deliveries(c, m, StoredEntries(c, history), names))
  }

  /** Every latest write fits the value buffer. */
  ghost predicate LatestFit(c: Config, history: seq<WriteProperty>) {
    forall k: Key :: LatestRestorable(c, history, k) ==> |Latest(c, history, k).value.data| <= c.valueSize
  }

  /** With right names, a history is replayed exactly if and only if every latest
      value fits the buffer. */
  lemma ReplaysExactlyIffLatestFit(c: Config, history: seq<WriteProperty>)
    requires NamesAreRight(c) && Consistent(c.rules)
    ensures ReplaysExactly(c, history) <==> LatestFit(c, history)
  {
    hide Name, StoredEntries, Latest, KeyDecodes, StoreKey, Consistent, NamesAreRight, Deliveries, NoKeyTwice, Normal;
    if LatestFit(c, history) {
      forall m: Memory, names: seq<string> | IsListing(names, StoredEntries(c, history), c.handler)
        ensures IsExactReplay(c, history, Deliveries(c, m, StoredEntries(c, history), names))
      {
        RestoreReplaysLatestWrites(c, m, history, names);
        FittingComesBack(c, m, history, Deliveries(c, m, StoredEntries(c, history), names));
      }
    } else {
      var k: Key :| LatestRestorable(c, history, k) && |Latest(c, history, k).value.data| > c.valueSize;
      LongIsReplayedWrong(c, history, k);
    }
  }

  lemma LongIsReplayedWrong(c: Config, history: seq<WriteProperty>, k: Key)
    requires NamesAreRight(c) && Consistent(c.rules)
    requires LatestRestorable(c, history, k) && |Latest(c, history, k).value.data| > c.valueSize
    ensures !ReplaysExactly(c, history)
  {
    hide Name, StoredEntries, Latest, KeyDecodes, StoreKey, Consistent, NamesAreRight, Deliveries, NoKeyTwice, Normal;
    hide IsListing, ComesBack;
    var latest := Latest(c, history, k).value;
    var other: byte := if latest.data[c.valueSize] == 0 then 1 else 0;
    var m: Memory := _ => _ => other;
    var names := SomeListing(StoredEntries(c, history), c.handler);
    RestoreReplaysLatestWrites(c, m, history, names);
    var ds := Deliveries(c, m, StoredEntries(c, history), names);
    assert Delivers(ds, k);
    var i :| 0 <= i < |ds| && ds[i].key == k;
    LongDiffers(c, m, latest, ds[i].write, other);
    assert !IsExactReplay(c, history, ds);
  }

  lemma FittingComesBack(c: Config, m: Memory, history: seq<WriteProperty>, ds: seq<Delivery>)
    requires LatestFit(c, history)
    requires forall i :: 0 <= i < |ds| ==>
      LatestRestorable(c, history, ds[i].key) && ComesBack(c, m, Latest(c, history, ds[i].key).value, ds[i].write)
    ensures forall i :: 0 <= i < |ds| ==> ds[i].write == Normal(c.rules, Latest(c, history, ds[i].key).value)
  {
    hide Latest, KeyDecodes, StoreKey;
    forall i | 0 <= i < |ds|
      ensures ds[i].write == Normal(c.rules, Latest(c, history, ds[i].key).value)
    {
      var latest := Latest(c, history, ds[i].key).value;
      assert LatestRestorable(c, history, ds[i].key) && ComesBack(c, m, latest, ds[i].write);
      NormalKeepsData(c.rules, latest);
    }
  }

  lemma NormalKeepsData(r: Rules, w: WriteProperty)
    ensures Normal(r, w).data == w.data
  {
  }

  /** One byte too many: what lies behind the buffer comes back instead. */
  lemma LongDiffers(c: Config, m: Memory, latest: WriteProperty, w: WriteProperty, other: byte)
    requires ComesBack(c, m, latest, w) && |latest.data| > c.valueSize
    requires other != latest.data[c.valueSize] && forall n: nat, i: nat :: m(n)(i) == other
    ensures w != Normal(c.rules, latest)
  {
    NormalKeepsData(c.rules, latest);
    var n: nat :| w == Normal(c.rules, latest).(data := Received(c, m(n), latest.data));
    assert w.data[c.valueSize] == m(n)(0) == other;
  }

  lemma {:induction false} SomeListing(entries: Entries, subtree: string) returns (names: seq<string>)
    ensures IsListing(names, entries, subtree)
    decreases |entries|
  {
    names := [];
    if entries != map[] {
      var n :| n in entries;
      var rest := SomeListing(entries - {n}, subtree);
      names := if AtOrBelow(n, subtree) then rest + [n] else rest;
    }
  }
}
