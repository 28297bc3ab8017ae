/** `localStorage` as the day-record code of src/main.js sees it: a map from
    storage keys to day records, read by `getStoredData` and written by
    `saveData`. The JSON encoding is taken to round-trip exactly, so the map
    holds the records themselves. */
module Store {
  import opened Records

  type Storage = map<string, DayRecord>

  /** Every storage key of a day starts with this prefix. */
  const KeyPrefix: string := "todo-"

  /** `todo-${dateKey}` */
  function StorageKey(dateKey: string): (k: string)
    ensures |k| == |KeyPrefix| + |dateKey|
    ensures k[..|KeyPrefix|] == KeyPrefix && k[|KeyPrefix|..] == dateKey
  {
    KeyPrefix + dateKey
  }

  /** Different days never share a storage key. */
  lemma StorageKeyInjective(a: string, b: string)
    ensures StorageKey(a) == StorageKey(b) <==> a == b
  {
    if StorageKey(a) == StorageKey(b) {
      assert a == StorageKey(a)[|KeyPrefix|..];
    }
  }

  /** Every record in the store has the shape the application writes. */
  ghost predicate StoreWellFormed(storage: Storage) {
    forall k :: k in storage ==> WellFormed(storage[k])
  }

  /** `getStoredData(dateKey)`: the record saved under the day's key, or a
      fresh empty record when there is none. It never invents a record:
      the result is either stored or the empty one. */
  function GetStoredData(storage: Storage, dateKey: string): (r: DayRecord)
    ensures r in storage.Values || r == EmptyRecord
    ensures StoreWellFormed(storage) ==> WellFormed(r)
  {
    var k := StorageKey(dateKey);
    if k in storage then storage[k] else EmptyRecord
  }

  /** The store after `saveData(dateKey, data)`: the day's whole record is
      replaced, nothing else is touched. */
  function Saved(storage: Storage, dateKey: string, data: DayRecord): (s: Storage)
    ensures s.Keys == storage.Keys + {StorageKey(dateKey)}
  {
    storage[StorageKey(dateKey) := data]
  }

  /** A read that misses gives no todos and three empty gratitudes. */
  lemma LoadMiss(storage: Storage, dateKey: string)
    requires StorageKey(dateKey) !in storage
    ensures GetStoredData(storage, dateKey).todos == []
    ensures GetStoredData(storage, dateKey).gratitudes == ["", "", ""]
  {
  }

  /** Loading a day just saved gives back the record saved. */
  lemma LoadAfterSave(storage: Storage, dateKey: string, data: DayRecord)
    ensures GetStoredData(Saved(storage, dateKey, data), dateKey) == data
  {
  }

  /** Saving one day leaves what every other day loads unchanged. */
  lemma SaveKeepsOtherDays(storage: Storage, dateKey: string, data: DayRecord, other: string)
    requires other != dateKey
    ensures GetStoredData(Saved(storage, dateKey, data), other) == GetStoredData(storage, other)
  {
    StorageKeyInjective(dateKey, other);
  }

  /** Saving the same record twice is saving it once. */
  lemma SaveIdempotent(storage: Storage, dateKey: string, data: DayRecord)
    ensures Saved(Saved(storage, dateKey, data), dateKey, data) == Saved(storage, dateKey, data)
  {
  }

  /** A later save of a day overwrites an earlier one. */
  lemma SaveLastWins(storage: Storage, dateKey: string, first: DayRecord, second: DayRecord)
    ensures Saved(Saved(storage, dateKey, first), dateKey, second) == Saved(storage, dateKey, second)
  {
  }

  /** Saving what a day already holds writes nothing new. On a miss the
      empty record is persisted instead, so the store grows by one key. */
  lemma SaveLoaded(storage: Storage, dateKey: string)
    ensures StorageKey(dateKey) in storage ==> Saved(storage, dateKey, GetStoredData(storage, dateKey)) == storage
    ensures StorageKey(dateKey) !in storage ==>
      Saved(storage, dateKey, GetStoredData(storage, dateKey)) == storage[StorageKey(dateKey) := EmptyRecord]
  {
  }

  /** Saving a well-formed record keeps the whole store well formed. */
  lemma SaveWellFormed(storage: Storage, dateKey: string, data: DayRecord)
    requires StoreWellFormed(storage) && WellFormed(data)
    ensures StoreWellFormed(Saved(storage, dateKey, data))
  {
  }
}
