/** `window.storage` as the app uses it: the shared namespace only, one
    record per redemption code, each call completing before the next. */
module Storage {

  /** The value saved under a code (the fields of the JSON object the app writes). */
  datatype Record = Record(giver: string, receiver: string, sorteoId: string)

  datatype Option<T> = None | Some(value: T)

  class SharedStore {
    /** Everything currently stored, by key. */
    var entries: map<string, Record>

    /** `storage.set(key, value, true)`: writes or overwrites one key. */
    method Set(key: string, value: Record)
      modifies this
      ensures entries == old(entries)[key := value]
    {
      entries := entries[key := value];
    }

    /** `storage.get(key, true)`: the record under `key`, or nothing. */
    method Get(key: string) returns (result: Option<Record>)
      ensures key in entries ==> result == Some(entries[key])
      ensures key !in entries ==> result == None
    {
      if key in entries {
        result := Some(entries[key]);
      } else {
        result := None;
      }
    }

    /** `storage.delete(key, true)`: removes one key, if present. */
    method Delete(key: string)
      modifies this
      ensures entries == old(entries) - {key}
    {
      entries := entries - {key};
    }
  }
}
