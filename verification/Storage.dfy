/** The persistent store as a settings backend (a tree of names with values) and
    the operations of the storage layer over it, which present it as a finite
    map from keys to values. */
module Storage {
  import opened Basics
  import opened StorageKey

  type Bytes = seq<byte>
  type Entries = map<string, Bytes>

  /** A name is another or lies below it. */
  predicate AtOrBelow(name: string, subtree: string) {
    name == subtree || subtree + "/" <= name
  }

  /** What a subtree loader passes to its callback: nothing for the subtree's own
      entry, otherwise the part of the name below it. */
  function Below(name: string, subtree: string): Option<string>
    requires AtOrBelow(name, subtree)
  {
    if name == subtree then None else Some(name[|subtree| + 1..])
  }

  /** The names of a subtree, each once, in the order a loader visits them. */
  predicate IsListing(names: seq<string>, entries: Entries, subtree: string) {
    && (forall i :: 0 <= i < |names| ==> names[i] in entries && AtOrBelow(names[i], subtree))
    && (forall n :: n in entries && AtOrBelow(n, subtree) ==> n in names)
    && (forall i, j :: 0 <= i < j < |names| ==> names[i] != names[j])
  }

  /** The value of a key, as the map the store presents. */
  function Find(base: string, entries: Entries, k: Key): Option<Bytes> {
    if Name(base, k) in entries then Some(entries[Name(base, k)]) else None
  }

  /** Every entry below the base is some key's, and none is empty: saving an
      empty value deletes. */
  ghost predicate Clean(base: string, entries: Entries) {
    && (forall n :: n in entries && AtOrBelow(n, base) && n != base ==> exists k: Key :: n == Name(base, k))
    && (forall n :: n in entries ==> entries[n] != [])
  }

  function Saved(entries: Entries, name: string, value: Bytes): Entries {
    if value == [] then entries - {name} else entries[name := value]
  }

  /** A save under one key's name changes what that key finds and nothing else. */
  lemma SaveChangesOneKey(base: string, entries: Entries, k: Key, value: Bytes, other: Key)
    ensures Find(base, Saved(entries, Name(base, k), value), other)
         == if other != k then Find(base, entries, other)
            else if value == [] then None else Some(value)
  {
    hide Name;
    if other != k && Name(base, other) == Name(base, k) {
      NameInjective(base, other, k);
    }
  }

  lemma NameIsBelow(base: string, k: Key)
    ensures AtOrBelow(Name(base, k), base) && Below(Name(base, k), base) == Some(Tail(k))
  {
    hide Tail;
    assert Name(base, k)[|base| + 1..] == Tail(k);
  }

  lemma SaveKeepsClean(base: string, entries: Entries, k: Key, value: Bytes)
    requires Clean(base, entries)
    ensures Clean(base, Saved(entries, Name(base, k), value))
  {
  }

  /** Exact match: below a key's name only the key's own entry passes the
      loader's test, so a property without index never picks up an indexed one. */
  lemma OnlyTheExactEntryMatches(base: string, entries: Entries, k: Key, n: string)
    requires Clean(base, entries) && n in entries && AtOrBelow(n, Name(base, k))
    ensures NameNext(Below(n, Name(base, k))).0 == 0 <==> n == Name(base, k)
  {
    hide Name, NameNext;
    if n == Name(base, k) {
      NextOfNone();
    } else {
      NameIsBelow(base, k);
      var rest := Below(n, Name(base, k)).value;
      assert n == Name(base, k) + ("/" + rest);
      assert AtOrBelow(n, base);
      var below: Key :| n == Name(base, below);
      DescendantIsSkipped(base, k, below, rest);
    }
  }

  lemma NextOfNone()
    ensures NameNext(None).0 == 0
  {
  }

  /** The storage layer over a backend whose n-th write may fail. */
  class Store {
    const base: string
    const limit: nat
    /** The outcome of the n-th write to the backend. */
    const writeStatus: nat -> Status

    var entries: Entries
    var writes: nat

    constructor (base: string, limit: nat, writeStatus: nat -> Status, entries: Entries)
      requires Fits(base, limit) && Clean(base, entries)
      ensures Valid() && this.base == base && this.limit == limit && this.writeStatus == writeStatus
      ensures this.entries == entries && writes == 0
    {
      this.base, this.limit, this.writeStatus, this.entries, writes := base, limit, writeStatus, entries, 0;
    }

    ghost predicate Valid()
      reads this
    {
      Fits(base, limit) && Clean(base, entries)
    }

    // ----- the backend -----

    /** `settings_save_one` */
    method SaveOne(name: string, value: Bytes) returns (status: Status)
      modifies this
      ensures writes == old(writes) + 1 && status == writeStatus(old(writes))
      ensures entries == if status == Ok then Saved(old(entries), name, value) else old(entries)
    {
      status := writeStatus(writes);
      writes := writes + 1;
      if status == Ok {
        entries := if value == [] then entries - {name} else entries[name := value];
      }
    }

    /** The names a subtree load visits, in some order. */
    method List(subtree: string) returns (names: seq<string>)
      ensures IsListing(names, entries, subtree)
    {
      var rest := entries.Keys;
      names := [];
      while rest != {}
        invariant rest <= entries.Keys
        invariant forall i :: 0 <= i < |names| ==> names[i] in entries && names[i] !in rest && AtOrBelow(names[i], subtree)
        invariant forall n :: n in entries && AtOrBelow(n, subtree) && n !in rest ==> n in names
        invariant forall i, j :: 0 <= i < j < |names| ==> names[i] != names[j]
        decreases |rest|
      {
        var n :| n in rest;
        rest := rest - {n};
        if AtOrBelow(n, subtree) {
          names := names + [n];
        }
      }
    }

    // ----- set, get, delete -----

    /** `bacnet_storage_set`: on success the key finds the value just set (nothing,
        for an empty one); a failed write changes nothing. No other key is
        affected either way. */
    method Set(k: Key, value: Bytes) returns (status: Status)
      requires Valid()
      modifies this
      ensures Valid() && status == writeStatus(old(writes)) && writes == old(writes) + 1
      ensures forall other: Key :: Find(base, entries, other) ==
                (if other != k || status != Ok then old(Find(base, entries, other))
                 else if value == [] then None else Some(value))
      ensures entries == if status == Ok then Saved(old(entries), Name(base, k), value) else old(entries)
    {
      hide Name, Clean;
      var name := EncodedName(base, limit, k);
      NameNotCut(base, limit, k);
      SaveKeepsClean(base, entries, k, value);
      forall other: Key {
        SaveChangesOneKey(base, entries, k, value, other);
      }
      status := SaveOne(name, value);
    }

    /** `bacnet_storage_get` into a buffer: the value, cut to the buffer, or
        ENOENT. The loader walks the key's subtree and takes exact matches only. */
    method Get(k: Key, size: nat) returns (result: Result<Bytes>)
      requires Valid()
      ensures result == match Find(base, entries, k)
        case Some(value) => Success(value[..Min(|value|, size)])
        case None => Failure(ENOENT)
    {
      hide Name, Clean, NameNext;
      var name := EncodedName(base, limit, k);
      NameNotCut(base, limit, k);
      var names := List(name);
      var fetched, value: Bytes := false, [];
      var i := 0;
      while i < |names|
        invariant 0 <= i <= |names|
        invariant fetched <==> name in names[..i]
        invariant fetched ==> value == entries[name][..Min(|entries[name]|, size)]
      {
        OnlyTheExactEntryMatches(base, entries, k, names[i]);
        var (length, _) := NameNext(Below(names[i], name));
        if length == 0 {
          fetched, value := true, entries[names[i]][..Min(|entries[names[i]]|, size)];
        }
        i := i + 1;
      }
      assert names[..i] == names;
      assert AtOrBelow(name, name);
      return if fetched then Success(value) else Failure(ENOENT);
    }

    /** `bacnet_storage_delete` */
    method Delete(k: Key) returns (status: Status)
      requires Valid()
      modifies this
      ensures Valid() && status == writeStatus(old(writes)) && writes == old(writes) + 1
      ensures forall other: Key :: Find(base, entries, other) ==
                (if other == k && status == Ok then None else old(Find(base, entries, other)))
    {
      status := Set(k, []);
    }

    // ----- clear -----

    /** `bacnet_storage_clear_cb`: the full name again, and its deletion. The
        rebuilt name always fits, so this never stops the walk. */
    method ClearEntry(name: string, sofar: Status) returns (status: Status)
      requires |name| <= limit && AtOrBelow(name, base)
      modifies this
      ensures writes == old(writes) + 1
      ensures status == if sofar == Ok then writeStatus(old(writes)) else sofar
      ensures entries == if writeStatus(old(writes)) == Ok then old(entries) - {name} else old(entries)
    {
      var key := Below(name, base);
      var path := if key.None? then base else base + "/" + key.value;
      assert path == name;
      if |path| > limit {
        assert false;
      }
      var rc := SaveOne(path, []);
      return if rc != Ok && sofar == Ok then rc else sofar;
    }

    /** `bacnet_storage_clear`: it tries to delete each entry at or below the base
        exactly once, whatever fails on the way; deletes exactly those whose
        delete succeeds; and returns the first failure. */
    method Clear() returns (status: Status, ghost names: seq<string>)
      requires forall n :: n in entries && AtOrBelow(n, base) ==> |n| <= limit
      modifies this
      ensures old(Valid()) ==> Valid()
      ensures IsListing(names, old(entries), base)
      ensures writes == old(writes) + |names|
      ensures status == FirstFailure(writeStatus, old(writes), |names|)
      ensures entries == AfterClear(old(entries), names, writeStatus, old(writes), |names|)
    {
      hide Clean;
      var listing := List(base);
      names := listing;
      status := Ok;
      var i := 0;
      while i < |listing|
        invariant 0 <= i <= |listing| && writes == old(writes) + i
        invariant status == FirstFailure(writeStatus, old(writes), i)
        invariant entries == AfterClear(old(entries), listing, writeStatus, old(writes), i)
      {
        status := ClearEntry(listing[i], status);
        i := i + 1;
      }
      AfterClearHas(old(entries), listing, writeStatus, old(writes), i);
      if old(Valid()) { FewerEntriesAreClean(base, old(entries), entries); }
    }
  }

  /** The first failure among a run of writes. */
  function FirstFailure(writeStatus: nat -> Status, from: nat, count: nat): Status {
    if count == 0 then Ok
    else if FirstFailure(writeStatus, from, count - 1) != Ok then FirstFailure(writeStatus, from, count - 1)
    else writeStatus(from + count - 1)
  }

  /** What is left after the first `count` deletes of a clear. */
  function AfterClear(entries: Entries, names: seq<string>, writeStatus: nat -> Status, from: nat, count: nat): Entries
    requires count <= |names|
  {
    if count == 0 then entries
    else
      var before := AfterClear(entries, names, writeStatus, from, count - 1);
      if writeStatus(from + count - 1) == Ok then before - {names[count - 1]} else before
  }

  /** A store whose base leaves room for every key holds no name that is too long
      to clear. */
  lemma CleanNamesFit(base: string, limit: nat, entries: Entries)
    requires Fits(base, limit) && Clean(base, entries)
    ensures forall n :: n in entries && AtOrBelow(n, base) ==> |n| <= limit
  {
    hide Name;
    forall n | n in entries && AtOrBelow(n, base)
      ensures |n| <= limit
    {
      if n != base {
        var k: Key :| n == Name(base, k);
        NameLength(base, k);
      }
    }
  }

  lemma FewerEntriesAreClean(base: string, before: Entries, after: Entries)
    requires Clean(base, before)
    requires forall n :: n in after ==> n in before && after[n] == before[n]
    ensures Clean(base, after)
  {
  }

  /** The delete of this name is among the first `count`, and succeeds. */
  predicate IsDeleted(names: seq<string>, writeStatus: nat -> Status, from: nat, count: nat, name: string)
    requires count <= |names|
  {
    exists i :: 0 <= i < count && names[i] == name && writeStatus(from + i) == Ok
  }

  /** A clear removes exactly the entries whose delete succeeds and leaves every
      other entry as it was. */
  lemma {:induction false} AfterClearHas(
      entries: Entries, names: seq<string>, writeStatus: nat -> Status, from: nat, count: nat)
    requires count <= |names|
    ensures forall n :: n in AfterClear(entries, names, writeStatus, from, count)
              <==> n in entries && !IsDeleted(names, writeStatus, from, count, n)
    ensures forall n :: n in AfterClear(entries, names, writeStatus, from, count)
              ==> n in entries && AfterClear(entries, names, writeStatus, from, count)[n] == entries[n]
  {
    if count > 0 {
      AfterClearHas(entries, names, writeStatus, from, count - 1);
      forall n
        ensures IsDeleted(names, writeStatus, from, count, n) <==>
                (IsDeleted(names, writeStatus, from, count - 1, n)
                 || (names[count - 1] == n && writeStatus(from + count - 1) == Ok))
      {
      }
    }
  }

  /** What a clear returns: 0 when every write succeeds, otherwise the status of
      a write before which none failed. */
  lemma {:induction false} FirstFailureIsFirst(writeStatus: nat -> Status, from: nat, count: nat) returns (i: nat)
    ensures FirstFailure(writeStatus, from, count) != Ok ==>
      i < count && writeStatus(from + i) == FirstFailure(writeStatus, from, count)
      && FirstFailure(writeStatus, from, i) == Ok
  {
    i := 0;
    if count > 0 {
      if FirstFailure(writeStatus, from, count - 1) != Ok {
        i := FirstFailureIsFirst(writeStatus, from, count - 1);
      } else {
        i := count - 1;
      }
    }
  }

  lemma {:induction false} NoFailure(writeStatus: nat -> Status, from: nat, count: nat, i: nat)
    requires FirstFailure(writeStatus, from, count) == Ok && i < count
    ensures writeStatus(from + i) == Ok
  {
    if i < count - 1 { NoFailure(writeStatus, from, count - 1, i); }
  }

  /** When a clear returns 0, exactly the entries at or below the base are gone and
      every get on any key finds nothing; entries elsewhere are untouched. */
  lemma ClearedStoreIsEmpty(
      base: string, before: Entries, names: seq<string>, writeStatus: nat -> Status, from: nat)
    requires IsListing(names, before, base) && FirstFailure(writeStatus, from, |names|) == Ok
    ensures var after := AfterClear(before, names, writeStatus, from, |names|);
      && (forall k: Key :: Find(base, after, k) == None)
      && (forall n :: n in after <==> n in before && !AtOrBelow(n, base))
      && (forall n :: n in after ==> after[n] == before[n])
  {
    hide Name, Clean, AfterClear, FirstFailure;
    var after := AfterClear(before, names, writeStatus, from, |names|);
    AfterClearHas(before, names, writeStatus, from, |names|);
    forall n | n in before
      ensures n in after <==> !AtOrBelow(n, base)
    {
      if AtOrBelow(n, base) {
        assert n in names;
        var i :| 0 <= i < |names| && names[i] == n;
        NoFailure(writeStatus, from, |names|, i);
        assert IsDeleted(names, writeStatus, from, |names|, n);
      }
    }
    forall k: Key
      ensures Find(base, after, k) == None
    {
      NameIsBelow(base, k);
    }
  }
}
