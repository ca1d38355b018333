/** The namespaced key/value store of `useStorage`: every key the application writes to the
    browser's `localStorage` carries the prefix `pomotrack-`, reads fall back to a default, and
    write failures are swallowed.

    `localStorage` is a map from keys to strings; JSON is an abstract codec whose `decode`
    fails with `None`; whether the browser accepts a write (it refuses one when its quota is
    full) is a parameter. */
module Storage {
  import opened Wrappers
  import Text

  const STORAGE_PREFIX: string := "pomotrack-"

  /** `JSON.stringify` and `JSON.parse` for the values of one stored setting. */
  datatype Codec<!V> = Codec(encode: V -> string, decode: string -> Option<V>)

  /** The codec reads back whatever it writes. */
  ghost predicate RoundTrips<V(!new)>(codec: Codec<V>) {
    forall v :: codec.decode(codec.encode(v)) == Some(v)
  }

  predicate IsAppKey(k: string) {
    Text.StartsWith(k, STORAGE_PREFIX)
  }

  /** `STORAGE_PREFIX + key`. */
  function StorageKey(key: string): (k: string)
    ensures IsAppKey(k) && k[|STORAGE_PREFIX|..] == key
    ensures |k| == |STORAGE_PREFIX| + |key|
  {
    STORAGE_PREFIX + key
  }

  /** Distinct keys never share a storage slot. */
  lemma StorageKeyInjective(a: string, b: string)
    ensures StorageKey(a) == StorageKey(b) <==> a == b
  {
    if StorageKey(a) == StorageKey(b) {
      assert a == StorageKey(a)[|STORAGE_PREFIX|..];
    }
  }

  /** `getStorageValue`, and the initial read of `useStorage`: the decoded stored value, or the
      default when the key is absent or its text does not decode. */
  function GetStorageValue<V>(items: map<string, string>, key: string, defaultValue: V, codec: Codec<V>): (v: V)
    ensures StorageKey(key) !in items ==> v == defaultValue
    ensures StorageKey(key) in items && codec.decode(items[StorageKey(key)]).None? ==> v == defaultValue
    ensures StorageKey(key) in items && codec.decode(items[StorageKey(key)]).Some? ==>
      v == codec.decode(items[StorageKey(key)]).value
  {
    var storageKey := STORAGE_PREFIX + key;
    if storageKey !in items then defaultValue
    else
      match codec.decode(items[storageKey])
      case Some(parsed) => parsed
      case None => defaultValue
  }

  /** `localStorage.setItem(STORAGE_PREFIX + key, JSON.stringify(value))`, which leaves the store
      as it was when the browser refuses the write. */
  function Written<V>(items: map<string, string>, key: string, value: V, codec: Codec<V>, accepted: bool): (r: map<string, string>)
    ensures forall k :: k != StorageKey(key) ==> (k in r <==> k in items)
    ensures forall k :: k != StorageKey(key) && k in items ==> r[k] == items[k]
    ensures accepted ==> StorageKey(key) in r && r[StorageKey(key)] == codec.encode(value)
    ensures !accepted ==> r == items
  {
    if accepted then items[STORAGE_PREFIX + key := codec.encode(value)] else items
  }

  /** The store once every key with the application prefix is gone. */
  function Cleared(items: map<string, string>): (r: map<string, string>)
    ensures forall k :: k in r <==> k in items && !IsAppKey(k)
    ensures forall k :: k in r ==> r[k] == items[k]
  {
    map k | k in items && !IsAppKey(k) :: items[k]
  }

  /** A value written and then read back with a round-tripping codec is the value written. */
  lemma SetThenGet<V(!new)>(items: map<string, string>, key: string, value: V, defaultValue: V, codec: Codec<V>)
    requires RoundTrips(codec)
    ensures GetStorageValue(Written(items, key, value, codec, true), key, defaultValue, codec) == value
  {
    assert codec.decode(codec.encode(value)) == Some(value);
  }

  /** A refused write changes no value that can be read. */
  lemma FailedWriteKeepsValues<V>(items: map<string, string>, key: string, value: V, codec: Codec<V>,
                                  other: string, defaultValue: V)
    ensures GetStorageValue(Written(items, key, value, codec, false), other, defaultValue, codec)
      == GetStorageValue(items, other, defaultValue, codec)
  {
  }

  /** Writing one setting leaves every other setting reading as before. */
  lemma {:induction false} WriteIsolated<V, W>(items: map<string, string>, key: string, value: V, codec: Codec<V>,
                                               accepted: bool, other: string, otherDefault: W, otherCodec: Codec<W>)
    requires other != key
    ensures GetStorageValue(Written(items, key, value, codec, accepted), other, otherDefault, otherCodec)
      == GetStorageValue(items, other, otherDefault, otherCodec)
  {
    StorageKeyInjective(key, other);
  }

  /** Clearing twice is clearing once. */
  lemma ClearIdempotent(items: map<string, string>)
    ensures Cleared(Cleared(items)) == Cleared(items)
  {
  }

  /** After clearing, every setting reads as its default. */
  lemma GetAfterClear<V>(items: map<string, string>, key: string, defaultValue: V, codec: Codec<V>)
    ensures GetStorageValue(Cleared(items), key, defaultValue, codec) == defaultValue
  {
  }

  /** The browser's `localStorage`. */
  class LocalStorage {
    var items: map<string, string>

    constructor (items: map<string, string>)
      ensures this.items == items
    {
      this.items := items;
    }

    /** `setStorageValue`: a refused write is swallowed. */
    method SetStorageValue<V>(key: string, value: V, codec: Codec<V>, accepted: bool)
      modifies this
      ensures items == Written(old(items), key, value, codec, accepted)
    {
      var storageKey := STORAGE_PREFIX + key;
      if accepted {
        items := items[storageKey := codec.encode(value)];
      }
    }

    /** `clearAllStorage`: collect the keys with the application prefix, in whatever order the
        browser enumerates them, then remove each one. */
    method ClearAllStorage()
      modifies this
      ensures items == Cleared(old(items))
    {
      var keysToRemove: seq<string> := [];
      var unvisited := items.Keys;
      while unvisited != {}
        invariant unvisited <= items.Keys
        invariant forall k :: k in keysToRemove <==> k in items && k !in unvisited && IsAppKey(k)
        decreases unvisited
      {
        var key :| key in unvisited;
        if Text.StartsWith(key, STORAGE_PREFIX) {
          keysToRemove := keysToRemove + [key];
        }
        unvisited := unvisited - {key};
      }
      var i := 0;
      while i < |keysToRemove|
        invariant 0 <= i <= |keysToRemove|
        invariant forall k :: k in items <==> k in old(items) && k !in keysToRemove[..i]
        invariant forall k :: k in items ==> items[k] == old(items)[k]
      {
        assert keysToRemove[..i + 1] == keysToRemove[..i] + [keysToRemove[i]];
        items := items - {keysToRemove[i]};
        i := i + 1;
      }
      assert keysToRemove[..i] == keysToRemove;
    }
  }

  /** The ref `useStorage` returns: a value kept in step with its storage slot. */
  class StoredRef<V> {
    const storage: LocalStorage
    const key: string
    const codec: Codec<V>
    var value: V

    /** `useStorage(key, defaultValue)`: starts from the stored value, or the default. */
    constructor UseStorage(storage: LocalStorage, key: string, defaultValue: V, codec: Codec<V>)
      ensures this.storage == storage && this.key == key && this.codec == codec
      ensures value == GetStorageValue(storage.items, key, defaultValue, codec)
    {
      this.storage := storage;
      this.key := key;
      this.codec := codec;
      var storageKey := STORAGE_PREFIX + key;
      if storageKey in storage.items {
        match codec.decode(storage.items[storageKey]) {
          case Some(parsed) => value := parsed;
          case None => value := defaultValue;
        }
      } else {
        value := defaultValue;
      }
    }

    /** Assigning the ref runs the watcher, which persists the new value; a refused write is
        swallowed and the ref keeps the new value all the same. */
    method Assign(newValue: V, accepted: bool)
      modifies this, storage
      ensures value == newValue
      ensures storage.items == Written(old(storage.items), key, newValue, codec, accepted)
    {
      value := newValue;
      storage.SetStorageValue(key, newValue, codec, accepted);
    }
  }
}
