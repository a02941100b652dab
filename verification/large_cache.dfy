// The cache of large values in front of the kernel store:
// frameworks/native/src/preferences_enhance_impl.cpp. One process writes the store, and a database
// call that fails has no effect on it.
module LargeCache {
  import opened Bits
  import opened Options
  import opened Values
  import Parcel

  const CACHED_THRESHOLDS := 512 * 1024
  const INT64_MAX := 0x7FFF_FFFF_FFFF_FFFF

  type Blobs = map<Key, Bytes>

  /** How a database call ends: E_OK, or the error of a call that failed. */
  type DbCode = Code

  // ----- the store without a cache

  function Unmarshalled(data: Bytes): (Code, Value) {
    match Parcel.Decoding(data)
    case Ok(v) => (E_OK, v)
    case _ => (E_INVALID_ARGS, Int(0))
  }

  function PlainGetValue(db: Option<Blobs>, key: Key, default: Value, version: Option<Int64>, get: DbCode): (Code, Value) {
    if CheckKey(key) != E_OK then (CheckKey(key), default)
    else if db.None? then (E_ALREADY_CLOSED, default)
    else if version.None? then (E_ERROR, default)
    else if get != E_OK then (get, default)
    else if key !in db.value then (E_NO_DATA, default)
    else
      var item := Unmarshalled(db.value[key]);
      if item.0 != E_OK then (item.0, default) else item
  }

  predicate PlainHasKey(db: Option<Blobs>, key: Key, version: Option<Int64>, get: DbCode) {
    CheckKey(key) == E_OK && db.Some? && version.Some? && get == E_OK && key in db.value
  }

  /** Every blob of the store is the encoding of a value. */
  predicate AllReadable(db: Blobs) {
    forall key :: key in db ==> Unmarshalled(db[key]).0 == E_OK
  }

  function PlainGetAll(db: Blobs): ValueMap {
    map key | key in db :: Unmarshalled(db[key]).1
  }

  // ----- the cache

  /** A cached value is what a read of the store would return, and its blob is large. */
  ghost predicate Coherent(db: Option<Blobs>, cache: ValueMap) {
    forall key :: key in cache ==>
      db.Some? && key in db.value && Parcel.Decoding(db.value[key]) == Parcel.Ok(cache[key])
      && |db.value[key]| >= CACHED_THRESHOLDS
  }

  predicate Hit(cache: ValueMap, cachedVersion: int, key: Key, version: Option<Int64>) {
    version == Some(cachedVersion) && key in cache
  }

  /** A read that the cache answers does not depend on the outcome of the database call. */
  function Outcome(hit: bool, get: DbCode): DbCode {
    if hit then E_OK else get
  }

  /** A read of a large blob from the store puts its value into the cache, with the version the kernel
      reported. */
  function CacheAfterRead(cache: ValueMap, cachedVersion: Int64, db: Option<Blobs>, key: Key, version: Option<Int64>, get: DbCode)
    : (ValueMap, Int64)
  {
    if PlainHasKey(db, key, version, get) && !Hit(cache, cachedVersion, key, version)
       && |db.value[key]| >= CACHED_THRESHOLDS && Unmarshalled(db.value[key]).0 == E_OK
    then (cache[key := Unmarshalled(db.value[key]).1], version.value)
    else (cache, cachedVersion)
  }

  function LargeOnes(db: Blobs): ValueMap {
    map key | key in db && |db[key]| >= CACHED_THRESHOLDS :: Unmarshalled(db[key]).1
  }

  function NextVersion(version: Int64): Int64 {
    if version == INT64_MAX then 0 else version + 1
  }

  class PreferencesEnhanceImpl {
    var db: Option<Blobs>
    var largeCachedData: ValueMap
    var cachedDataVersion: Int64

    ghost predicate Valid()
      reads this
    {
      Coherent(db, largeCachedData)
    }

    constructor (db: Blobs)
      ensures Valid() && this.db == Some(db) && largeCachedData == map[]
    {
      this.db, largeCachedData, cachedDataVersion := Some(db), map[], 0;
    }

    method CacheLarge(key: Key, value: Value, blob: Bytes, version: Int64)
      requires Valid() && db.Some? && key in db.value && db.value[key] == blob && Parcel.Decoding(blob) == Parcel.Ok(value)
      modifies this`largeCachedData, this`cachedDataVersion
      ensures Valid()
      ensures (largeCachedData, cachedDataVersion) ==
        if |blob| >= CACHED_THRESHOLDS then (old(largeCachedData)[key := value], version) else old((largeCachedData, cachedDataVersion))
    {
      if |blob| >= CACHED_THRESHOLDS {
        largeCachedData := largeCachedData[key := value];
        cachedDataVersion := version;
      }
    }

    /** `version`: what the kernel reports as its data version, None when the call fails. */
    method GetValue(key: Key, default: Value, version: Option<Int64>, get: DbCode) returns (r: (Code, Value))
      requires Valid()
      modifies this`largeCachedData, this`cachedDataVersion
      ensures Valid()
      ensures r == PlainGetValue(db, key, default, version,
                                 Outcome(Hit(old(largeCachedData), old(cachedDataVersion), key, version), get))
      ensures (largeCachedData, cachedDataVersion) ==
        CacheAfterRead(old(largeCachedData), old(cachedDataVersion), db, key, version, get)
    {
      hide Parcel.Decoding;
      var errCode := CheckKey(key);
      if errCode != E_OK {
        return (errCode, default);
      }
      if db.None? {
        return (E_ALREADY_CLOSED, default);
      }
      if version.None? {
        return (E_ERROR, default);
      }
      if version.value == cachedDataVersion {
        if key in largeCachedData {
          return (E_OK, largeCachedData[key]);
        }
      }
      if get != E_OK {
        return (get, default);
      }
      if key !in db.value {
        return (E_NO_DATA, default);
      }
      var oriValue := db.value[key];
      var item := Parcel.UnmarshallingPreferenceValue(oriValue);
      if !item.Ok? {
        return (E_INVALID_ARGS, default);
      }
      CacheLarge(key, item.value, oriValue, version.value);
      return (E_OK, item.value);
    }

    /** Get is GetValue without the code. */
    method Get(key: Key, default: Value, version: Option<Int64>, get: DbCode) returns (r: Value)
      requires Valid()
      modifies this`largeCachedData, this`cachedDataVersion
      ensures Valid()
      ensures r == PlainGetValue(db, key, default, version,
                                 Outcome(Hit(old(largeCachedData), old(cachedDataVersion), key, version), get)).1
      ensures (largeCachedData, cachedDataVersion) ==
        CacheAfterRead(old(largeCachedData), old(cachedDataVersion), db, key, version, get)
    {
      hide Parcel.Decoding, CheckKey, PlainGetValue, CacheAfterRead, Coherent;
      GetCases(db, largeCachedData, cachedDataVersion, key, default, version, get);
      if CheckKey(key) != E_OK {
        return default;
      }
      if db.None? {
        return default;
      }
      if version.None? {
        return default;
      }
      if version.value == cachedDataVersion {
        if key in largeCachedData {
          return largeCachedData[key];
        }
      }
      if get != E_OK {
        return default;
      }
      if key !in db.value {
        return default;
      }
      var oriValue := db.value[key];
      var item := Parcel.UnmarshallingPreferenceValue(oriValue);
      if !item.Ok? {
        return default;
      }
      CacheLarge(key, item.value, oriValue, version.value);
      return item.value;
    }

    method HasKey(key: Key, version: Option<Int64>, get: DbCode) returns (r: bool)
      requires Valid()
      modifies this`largeCachedData, this`cachedDataVersion
      ensures Valid()
      ensures r ==> db.Some? && key in db.value
      ensures CheckKey(key) == E_OK && db.Some? && version.Some? && get == E_OK ==> (r <==> key in db.value)
      ensures r == PlainHasKey(db, key, version,
                               Outcome(Hit(old(largeCachedData), old(cachedDataVersion), key, version), get))
      ensures (largeCachedData, cachedDataVersion) ==
        CacheAfterRead(old(largeCachedData), old(cachedDataVersion), db, key, version, get)
    {
      hide Parcel.Decoding, CheckKey;
      if CheckKey(key) != E_OK {
        return false;
      }
      if db.None? {
        return false;
      }
      if version.None? {
        return false;
      }
      if version.value == cachedDataVersion {
        if key in largeCachedData {
          return true;
        }
      }
      if get != E_OK {
        return false;
      }
      if key !in db.value {
        return false;
      }
      var oriValue := db.value[key];
      if |oriValue| >= CACHED_THRESHOLDS {
        var item := Parcel.UnmarshallingPreferenceValue(oriValue);
        if !item.Ok? {
          return true;
        }
        CacheLarge(key, item.value, oriValue, version.value);
      }
      return true;
    }

    /** The caller's buffer has the size CalSize returns, which the encoding must not exceed. */
    method Put(key: Key, value: Value, put: DbCode) returns (code: Code)
      requires Valid() && |Parcel.Encoding(value)| < TWO_POW_32
      modifies this
      ensures Valid()
      ensures code == if CheckPut(key, value) != E_OK then CheckPut(key, value) else if old(db).None? then E_ERROR
                      else if !Parcel.Supported(value) then E_INVALID_ARGS else put
      ensures db == if code == E_OK then Some(old(db).value[key := Parcel.Encoding(value)]) else old(db)
      ensures (largeCachedData, cachedDataVersion) ==
        if code != E_OK then old((largeCachedData, cachedDataVersion))
        else if |Parcel.Encoding(value)| >= CACHED_THRESHOLDS then (old(largeCachedData)[key := value], NextVersion(old(cachedDataVersion)))
        else (old(largeCachedData) - {key}, old(cachedDataVersion))
    {
      hide Parcel.Encoding, Parcel.Decoding, CheckPut;
      code := CheckPut(key, value);
      if code != E_OK {
        return;
      }
      if db.None? {
        return E_ERROR;
      }
      var oriValueLen := Parcel.CalSize(value);
      var oriValue := new byte[oriValueLen];
      code := Parcel.MarshallingPreferenceValue(value, oriValue);
      if code != E_OK {
        return;
      }
      Parcel.DecodeOfEncode(value, []);
      assert Parcel.Encoding(value) + [] == Parcel.Encoding(value) == oriValue[..];
      if put != E_OK {
        return put;
      }
      db := Some(db.value[key := oriValue[..]]);
      if oriValueLen >= CACHED_THRESHOLDS {
        largeCachedData := largeCachedData[key := value];
        cachedDataVersion := NextVersion(cachedDataVersion);
      } else {
        assert key !in largeCachedData ==> largeCachedData - {key} == largeCachedData;
        if key in largeCachedData {
          largeCachedData := largeCachedData - {key};
        }
      }
      return E_OK;
    }

    method Delete(key: Key, delete: DbCode) returns (code: Code)
      requires Valid()
      modifies this
      ensures Valid()
      ensures code == if CheckKey(key) != E_OK then CheckKey(key) else if old(db).None? then E_ERROR else delete
      ensures db == if code == E_OK then Some(old(db).value - {key}) else old(db)
      ensures (largeCachedData, cachedDataVersion) ==
        if code == E_OK && key in old(largeCachedData) then (old(largeCachedData) - {key}, NextVersion(old(cachedDataVersion)))
        else old((largeCachedData, cachedDataVersion))
    {
      code := CheckKey(key);
      if code != E_OK {
        return;
      }
      if db.None? {
        return E_ERROR;
      }
      if delete != E_OK {
        return delete;
      }
      db := Some(db.value - {key});
      if key in largeCachedData {
        largeCachedData := largeCachedData - {key};
        cachedDataVersion := NextVersion(cachedDataVersion);
      }
      return E_OK;
    }

    /** `order`: the keys in the order the kernel's cursor returns them. */
    method GetAllInner(order: seq<Key>, version: Option<Int64>, getAll: DbCode) returns (r: (Code, ValueMap))
      requires Valid()
      requires db.Some? ==> Enumerates(order, db.value)
      modifies this`largeCachedData, this`cachedDataVersion
      ensures Valid()
      ensures r.0 == if db.None? then E_ALREADY_CLOSED else if version.None? then E_ERROR else if getAll != E_OK then getAll
                     else if AllReadable(db.value) then E_OK else E_INVALID_ARGS
      ensures r.1 == if r.0 == E_OK then PlainGetAll(db.value) else map[]
      ensures r.0 == E_OK ==> cachedDataVersion == version.value && largeCachedData == old(largeCachedData) + LargeOnes(db.value)
      ensures r.0 != E_OK ==> cachedDataVersion == old(cachedDataVersion) && old(largeCachedData.Keys) <= largeCachedData.Keys
    {
      hide Parcel.Decoding, Read, LargeOnes;
      if db.None? {
        return (E_ALREADY_CLOSED, map[]);
      }
      if version.None? {
        return (E_ERROR, map[]);
      }
      if getAll != E_OK {
        return (getAll, map[]);
      }
      var result: ValueMap := map[];
      ReadNothing(db.value, largeCachedData);
      for i := 0 to |order|
        invariant Valid() && cachedDataVersion == old(cachedDataVersion)
        invariant Read(db.value, order[..i], result, old(largeCachedData), largeCachedData)
      {
        var key := order[i];
        var item := Parcel.UnmarshallingPreferenceValue(db.value[key]);
        if !item.Ok? {
          ReadKeeps(db.value, order[..i], result, old(largeCachedData), largeCachedData);
          return (E_INVALID_ARGS, map[]);
        }
        assert order[..i + 1] == order[..i] + [key];
        ReadOne(db.value, order[..i], key, result, old(largeCachedData), largeCachedData);
        if key !in result {
          result := result[key := item.value];
        }
        if |db.value[key]| >= CACHED_THRESHOLDS {
          largeCachedData := largeCachedData[key := item.value];
        }
      }
      cachedDataVersion := version.value;
      assert order[..|order|] == order;
      ReadAll(db.value, order, result, old(largeCachedData), largeCachedData);
      return (E_OK, result);
    }

    /** After the drop the store reads as empty, also when the new collection cannot be created. */
    method Clear(order: seq<Key>, version: Option<Int64>, getAll: DbCode, drop: DbCode, create: DbCode) returns (code: Code)
      requires Valid()
      requires db.Some? ==> Enumerates(order, db.value)
      modifies this
      ensures code == if old(db).None? then E_ERROR else if version.None? then E_ERROR else if getAll != E_OK then getAll
                      else if !AllReadable(old(db).value) then E_INVALID_ARGS else if drop != E_OK then drop else create
      ensures db == if code == E_OK || Dropped(old(db), version, getAll, drop) then Some(map[]) else old(db)
      ensures code == E_OK ==> largeCachedData == map[] && cachedDataVersion == NextVersion(version.value)
      ensures Valid() <==> !(Dropped(old(db), version, getAll, drop) && create != E_OK && HoldsLarge(old(db).value))
    {
      hide AllReadable;
      if db.None? {
        return E_ERROR;
      }
      var res := GetAllInner(order, version, getAll);
      if res.0 != E_OK {
        return res.0;
      }
      if drop != E_OK {
        return drop;
      }
      db := Some(map[]);
      if create != E_OK {
        return create;
      }
      largeCachedData := map[];
      cachedDataVersion := NextVersion(cachedDataVersion);
      return E_OK;
    }

    method CloseDb(close: DbCode) returns (code: Code)
      requires Valid()
      modifies this
      ensures Valid()
      ensures code == if old(db).None? then E_OK else close
      ensures db == if code == E_OK then None else old(db)
      ensures largeCachedData == (if code == E_OK then map[] else old(largeCachedData)) && cachedDataVersion == old(cachedDataVersion)
    {
      if db.None? {
        return E_OK;
      }
      if close != E_OK {
        return close;
      }
      largeCachedData := map[];
      db := None;
      return E_OK;
    }
  }

  // A value that was put is what the store without the cache gives back, until the key is put again.
  lemma PutIsReadBack(db: Blobs, key: Key, value: Value, other: Key, default: Value, version: Int64)
    requires CheckPut(key, value) == E_OK && Parcel.Supported(value) && |Parcel.Encoding(value)| < TWO_POW_32
    ensures var after := Some(db[key := Parcel.Encoding(value)]);
      && PlainGetValue(after, key, default, Some(version), E_OK) == (E_OK, value)
      && (other != key ==> PlainGetValue(after, other, default, Some(version), E_OK)
                           == PlainGetValue(Some(db), other, default, Some(version), E_OK))
  {
    hide Parcel.Encoding, Parcel.Decoding;
    Parcel.DecodeOfEncode(value, []);
    assert Parcel.Encoding(value) + [] == Parcel.Encoding(value);
  }

  // What the store without the cache answers: a value exactly if every call works and the key is there
  // with a blob that decodes to it; the default otherwise, with a code that says why.
  lemma GetValueExactly(db: Option<Blobs>, key: Key, default: Value, version: Option<Int64>, get: DbCode)
    ensures var r := PlainGetValue(db, key, default, version, get);
      var called := 1 <= |key| <= 1024 && db.Some? && version.Some?;
      && (r.0 == E_OK <==> called && get == E_OK && key in db.value && Parcel.Decoding(db.value[key]) == Parcel.Ok(r.1))
      && (r.0 != E_OK ==> r.1 == default)
      && (called && get != E_OK ==> r.0 == get)
      && (called && get == E_OK ==> (r.0 == E_NO_DATA <==> key !in db.value))
      && (called && get == E_OK && key in db.value && !Parcel.Decoding(db.value[key]).Ok? ==> r.0 == E_INVALID_ARGS)
      && (1 <= |key| <= 1024 && db.None? ==> r.0 == E_ALREADY_CLOSED)
      && (1 <= |key| <= 1024 && db.Some? && version.None? ==> r.0 == E_ERROR)
  {
    hide Parcel.Decoding;
    LegalExactly(key, default);
  }

  // A key is reported exactly if it is in an open store and every call works; that is exactly when a get
  // finds it, or finds a blob that cannot be decoded.
  lemma HasKeyExactly(db: Option<Blobs>, key: Key, default: Value, version: Option<Int64>, get: DbCode)
    ensures PlainHasKey(db, key, version, get) <==>
      1 <= |key| <= 1024 && db.Some? && version.Some? && get == E_OK && key in db.value
    ensures PlainHasKey(db, key, version, get) <==>
      get == E_OK && PlainGetValue(db, key, default, version, get).0 in {E_OK, E_INVALID_ARGS}
  {
    hide Parcel.Decoding;
    LegalExactly(key, default);
  }

  // A cached value is in the store, and its blob has at least 512 KiB.
  lemma CachedValuesAreLarge(db: Option<Blobs>, cache: ValueMap, key: Key)
    requires Coherent(db, cache) && key in cache
    ensures db.Some? && key in db.value && |db.value[key]| >= 524288 && Unmarshalled(db.value[key]) == (E_OK, cache[key])
  {
    hide Parcel.Decoding;
  }

  lemma GetCases(db: Option<Blobs>, cache: ValueMap, cachedVersion: Int64, key: Key, default: Value, version: Option<Int64>, get: DbCode)
    requires Coherent(db, cache)
    ensures var r := PlainGetValue(db, key, default, version, Outcome(Hit(cache, cachedVersion, key, version), get)).1;
      var after := CacheAfterRead(cache, cachedVersion, db, key, version, get);
      if CheckKey(key) != E_OK || db.None? || version.None? then r == default && after == (cache, cachedVersion)
      else if version.value == cachedVersion && key in cache then r == cache[key] && after == (cache, cachedVersion)
      else if get != E_OK || key !in db.value || Unmarshalled(db.value[key]).0 != E_OK then
        r == default && after == (cache, cachedVersion)
      else
        && r == Unmarshalled(db.value[key]).1
        && after == if |db.value[key]| >= CACHED_THRESHOLDS then (cache[key := r], version.value) else (cache, cachedVersion)
  {
    hide Parcel.Decoding, CheckKey;
  }

  // After a large value has been put, a read for which the kernel reports the next version, 0 after the
  // largest, is answered from the cache.
  lemma LargePutIsHit(cache: ValueMap, key: Key, value: Value, version: Int64)
    ensures Hit(cache[key := value], NextVersion(version), key, Some(if version == 0x7FFF_FFFF_FFFF_FFFF then 0 else version + 1))
  {
  }

  // A key that was put is there, one that was deleted is not, and no other key notices.
  lemma PresenceFollowsUpdates(db: Blobs, key: Key, blob: Bytes, other: Key, default: Value, version: Int64)
    requires CheckKey(key) == E_OK && CheckKey(other) == E_OK
    ensures PlainHasKey(Some(db[key := blob]), key, Some(version), E_OK)
    ensures !PlainHasKey(Some(db - {key}), key, Some(version), E_OK)
    ensures PlainGetValue(Some(db - {key}), key, default, Some(version), E_OK) == (E_NO_DATA, default)
    ensures other != key ==>
      && (PlainHasKey(Some(db[key := blob]), other, Some(version), E_OK) <==> other in db)
      && (PlainHasKey(Some(db - {key}), other, Some(version), E_OK) <==> other in db)
      && PlainGetValue(Some(db - {key}), other, default, Some(version), E_OK)
         == PlainGetValue(Some(db), other, default, Some(version), E_OK)
  {
    hide Parcel.Decoding;
  }

  // The map of the whole store agrees with a get of each key.
  lemma GetAllAgreesWithGet(db: Blobs, key: Key, default: Value, version: Int64)
    requires AllReadable(db) && CheckKey(key) == E_OK
    ensures PlainGetValue(Some(db), key, default, Some(version), E_OK) ==
      if key in PlainGetAll(db) then (E_OK, PlainGetAll(db)[key]) else (E_NO_DATA, default)
  {
    hide Parcel.Decoding;
  }

  // The whole store can be read exactly if no blob makes a get fail.
  lemma ReadableExactly(db: Blobs)
    ensures AllReadable(db) <==> forall key :: key in db ==> Parcel.Decoding(db[key]).Ok?
  {
    hide Parcel.Decoding;
  }

  ghost predicate Enumerates(order: seq<Key>, db: Blobs) {
    (forall i :: 0 <= i < |order| ==> order[i] in db) && (forall key :: key in db ==> key in order)
  }

  predicate HoldsLarge(db: Blobs) {
    exists key :: key in db && |db[key]| >= CACHED_THRESHOLDS
  }

  /** Clear got as far as dropping the collection. */
  predicate Dropped(db: Option<Blobs>, version: Option<Int64>, getAll: DbCode, drop: DbCode) {
    db.Some? && version.Some? && getAll == E_OK && AllReadable(db.value) && drop == E_OK
  }

  /** The blobs of these keys have been read: all were readable, and the large ones are cached. */
  ghost predicate Read(db: Blobs, keys: seq<Key>, result: ValueMap, before: ValueMap, cache: ValueMap) {
    && (forall key :: key in keys ==> key in db && key in result && Unmarshalled(db[key]) == (E_OK, result[key]))
    && (forall key :: key in result ==> key in keys)
    && (forall key :: key in keys && |db[key]| >= CACHED_THRESHOLDS ==> key in cache && cache[key] == result[key])
    && (forall key :: key in cache <==> key in before || (key in keys && |db[key]| >= CACHED_THRESHOLDS))
    && (forall key :: key in before && !(key in keys && |db[key]| >= CACHED_THRESHOLDS) ==> cache[key] == before[key])
  }

  lemma ReadNothing(db: Blobs, cache: ValueMap)
    ensures Read(db, [], map[], cache, cache)
  {
  }

  lemma ReadKeeps(db: Blobs, keys: seq<Key>, result: ValueMap, before: ValueMap, cache: ValueMap)
    requires Read(db, keys, result, before, cache)
    ensures before.Keys <= cache.Keys
  {
  }

  lemma ReadOne(db: Blobs, keys: seq<Key>, key: Key, result: ValueMap, before: ValueMap, cache: ValueMap)
    requires Read(db, keys, result, before, cache) && key in db && Unmarshalled(db[key]).0 == E_OK
    ensures var value := Unmarshalled(db[key]).1;
      Read(db, keys + [key], if key in result then result else result[key := value], before,
           if |db[key]| >= CACHED_THRESHOLDS then cache[key := value] else cache)
  {
    hide Unmarshalled;
  }

  lemma ReadAll(db: Blobs, order: seq<Key>, result: ValueMap, before: ValueMap, cache: ValueMap)
    requires Read(db, order, result, before, cache) && Enumerates(order, db)
    ensures AllReadable(db) && result == PlainGetAll(db) && cache == before + LargeOnes(db)
  {
    hide Unmarshalled;
    assert forall key :: key in cache <==> key in before + LargeOnes(db);
  }
}
