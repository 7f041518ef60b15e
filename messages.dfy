/**
 The `MessageTracker` of the client: the in-memory store of messages seen per
 topic, written through to a key-value storage under one storage key and
 restored from it once at start-up.

 The store itself is a value (`MessageRecords.Store`) held in the field
 `messages`. `Set` and `Del` are proved to leave it equal to `Insert` and
 `Remove` of the old store, and the functions `Get` and `Has` are `Lookup` and
 `Contains` of it, so the lemmas about sequences of calls proved there hold
 across any sequence of `set` and `del` calls. `Restore`, `Init`, `Persist`
 and the storage helpers are specified directly by the storage contents; a
 restore replaces the whole store and falls outside those lemmas.
 */
module Messages {

  import opened MessageRecords

  /** A write to the storage that threw; it reaches the caller of `set` or `del`. */
  datatype StorageError = WriteFailed

  datatype Result<T> = Ok(value: T) | Err(error: StorageError)

  /** What a read of the storage key gives: no value, the stored store, or a thrown error. */
  datatype ReadOutcome = Absent | Present(value: Store) | ReadFailed

  /** The storage key: prefix, version tag, "//", then the formatted context name. */
  function StorageKeyOf(prefix: string, version: string, name: string): (key: string)
    ensures |key| == |prefix| + |version| + 2 + |name|
    ensures key[..|prefix|] == prefix
    ensures key[|prefix|..|prefix| + |version|] == version
    ensures key[|prefix| + |version|..|prefix| + |version| + 2] == "//"
    ensures key[|prefix| + |version| + 2..] == name
  {
    prefix + version + "//" + name
  }

  /** Under one prefix and version, distinct context names never share a storage key. */
  lemma StorageKeysSeparateNames(prefix: string, version: string, name1: string, name2: string)
    ensures StorageKeyOf(prefix, version, name1) == StorageKeyOf(prefix, version, name2) <==> name1 == name2
  {
  }

  /**
   The key-value storage the client hands to the tracker. Which operations
   throw is decided by the environment: `readFault` and `writeFault` stand for
   a storage engine whose reads or writes currently fail.
   */
  class Storage {
    var items: map<string, Store>
    var readFault: bool
    var writeFault: bool

    constructor (items: map<string, Store>, readFault: bool, writeFault: bool)
      ensures this.items == items && this.readFault == readFault && this.writeFault == writeFault
    {
      this.items := items;
      this.readFault := readFault;
      this.writeFault := writeFault;
    }

    method GetItem(key: string) returns (r: ReadOutcome)
      ensures readFault ==> r == ReadFailed
      ensures !readFault && key !in items ==> r == Absent
      ensures !readFault && key in items ==> r == Present(items[key])
    {
      if readFault {
        r := ReadFailed;
      } else if key in items {
        r := Present(items[key]);
      } else {
        r := Absent;
      }
    }

    /** Overwrites the whole value at `key`, unless the write throws. */
    method SetItem(key: string, value: Store) returns (ok: bool)
      modifies this`items
      ensures ok == !writeFault
      ensures items == if ok then old(items)[key := value] else old(items)
    {
      ok := !writeFault;
      if ok {
        items := items[key := value];
      }
    }
  }

  class MessageTracker {
    var messages: Store

    const storage: Storage
    const storagePrefix: string
    const version: string
    /** The logger context the storage key is derived from. */
    const context: string
    /** The key-name formatter of the utilities package. */
    const formatStorageKeyName: string -> string
    /** The hashing collaborator. */
    const hashMessage: Message -> Hash

    constructor (storage: Storage, storagePrefix: string, version: string, context: string,
                 formatStorageKeyName: string -> string, hashMessage: Message -> Hash)
      ensures messages == map[]
      ensures this.storage == storage && this.storagePrefix == storagePrefix && this.version == version
      ensures this.context == context && this.formatStorageKeyName == formatStorageKeyName
      ensures this.hashMessage == hashMessage
    {
      messages := map[];
      this.storage := storage;
      this.storagePrefix := storagePrefix;
      this.version := version;
      this.context := context;
      this.formatStorageKeyName := formatStorageKeyName;
      this.hashMessage := hashMessage;
    }

    function StorageKey(): string
    {
      StorageKeyOf(storagePrefix, version, formatStorageKeyName(context))
    }

    /** The storage holds exactly the in-memory store at the storage key. */
    ghost predicate Mirrored()
      reads this, storage
    {
      StorageKey() in storage.items && storage.items[StorageKey()] == messages
    }

    /**
     The three outcomes of a restore, from the store `before` it: a failed
     read or no stored value leaves the store as it was, a stored value
     replaces it (and then memory mirrors storage).
     */
    ghost predicate RestoreOutcome(before: Store)
      reads this, storage
    {
      && (storage.readFault ==> messages == before)
      && (!storage.readFault && StorageKey() !in storage.items ==> messages == before)
      && (!storage.readFault && StorageKey() in storage.items ==> messages == storage.items[StorageKey()])
    }

    method Init()
      modifies this`messages
      ensures RestoreOutcome(old(messages))
    {
      Initialize();
    }

    /**
     Records `message` under `topic` unless its digest is already there, and
     writes the whole store through. A failed write leaves the in-memory
     store updated and the storage as it was.
     */
    method Set(topic: Topic, message: Message) returns (r: Result<Hash>)
      modifies this`messages, storage`items
      ensures messages == Insert(old(messages), hashMessage, topic, message)
      ensures r.Ok? ==> r.value == hashMessage(message)
      ensures hashMessage(message) in old(Get(topic)) ==>
        r == Ok(hashMessage(message)) && storage.items == old(storage.items)
      ensures hashMessage(message) !in old(Get(topic)) ==>
        (r.Ok? <==> !storage.writeFault) &&
        storage.items == if r.Ok? then old(storage.items)[StorageKey() := messages] else old(storage.items)
      ensures r.Ok? && hashMessage(message) !in old(Get(topic)) ==> Mirrored()
      ensures r.Ok? && old(Mirrored()) ==> Mirrored()
      ensures WellHashed(old(messages), hashMessage) ==> WellHashed(messages, hashMessage)
    {
      var hash := hashMessage(message);
      var record := Get(topic);
      if hash in record {
        return Ok(hash);
      }
      record := record[hash := message];
      messages := messages[topic := record];
      if WellHashed(old(messages), hashMessage) {
        InsertPreservesWellHashed(old(messages), hashMessage, topic, message);
      }
      var ok := Persist();
      if !ok {
        return Err(WriteFailed);
      }
      return Ok(hash);
    }

    /** The topic's record, or the empty record for an unknown topic. */
    function Get(topic: Topic): (record: MessageRecord)
      reads this
      ensures topic in messages ==> record == messages[topic]
      ensures topic !in messages ==> record == map[]
    {
      Lookup(messages, topic)
    }

    /**
     Whether the digest of `message` is recorded for `topic`. The TypeScript code reads
     `this.get(topic)` without `await`, so as written it looks the digest up on
     a pending promise and always answers false (`HasAsWritten`); this is the
     intended lookup in the record.
     */
    predicate Has(topic: Topic, message: Message)
      reads this
      ensures Has(topic, message) <==> topic in messages && hashMessage(message) in messages[topic]
    {
      Contains(messages, hashMessage, topic, message)
    }

    /** Removes the topic and writes the whole store through, whether or not the topic was known. */
    method Del(topic: Topic) returns (r: Result<()>)
      modifies this`messages, storage`items
      ensures messages == Remove(old(messages), topic)
      ensures Get(topic) == map[]
      ensures r.Ok? <==> !storage.writeFault
      ensures storage.items == if r.Ok? then old(storage.items)[StorageKey() := messages] else old(storage.items)
      ensures r.Ok? ==> Mirrored()
      ensures WellHashed(old(messages), hashMessage) ==> WellHashed(messages, hashMessage)
    {
      messages := messages - {topic};
      var ok := Persist();
      r := if ok then Ok(()) else Err(WriteFailed);
    }

    // ---------- Private ----------------------------------------------- //

    /** Writes `value` at the storage key (the map-to-object conversion is the identity here). */
    method SetRelayerMessages(value: Store) returns (ok: bool)
      modifies storage`items
      ensures ok == !storage.writeFault
      ensures storage.items == if ok then old(storage.items)[StorageKey() := value] else old(storage.items)
    {
      ok := storage.SetItem(StorageKey(), value);
    }

    /** Reads the storage key (the object-to-map conversion is the identity here). */
    method GetRelayerMessages() returns (r: ReadOutcome)
      ensures storage.readFault ==> r == ReadFailed
      ensures !storage.readFault && StorageKey() !in storage.items ==> r == Absent
      ensures !storage.readFault && StorageKey() in storage.items ==> r == Present(storage.items[StorageKey()])
    {
      r := storage.GetItem(StorageKey());
    }

    /** Writes the whole in-memory store through to the storage. */
    method Persist() returns (ok: bool)
      modifies storage`items
      ensures ok == !storage.writeFault
      ensures storage.items == if ok then old(storage.items)[StorageKey() := messages] else old(storage.items)
      ensures ok ==> Mirrored()
    {
      ok := SetRelayerMessages(messages);
    }

    /**
     Best-effort load: a stored value replaces the in-memory store, no value
     leaves it alone, and a failed read is swallowed (the TypeScript code logs it).
     */
    method Restore()
      modifies this`messages
      ensures RestoreOutcome(old(messages))
    {
      var stored := GetRelayerMessages();
      match stored {
        case Present(value) => messages := value;
        case Absent =>
        case ReadFailed =>
      }
    }

    method Initialize()
      modifies this`messages
      ensures RestoreOutcome(old(messages))
    {
      Restore();
    }
  }

  /**
   A restart: a fresh tracker over the same storage and key parameters, once
   initialised, holds exactly the store the old tracker last wrote through.
   */
  method Restart(tracker: MessageTracker) returns (restarted: MessageTracker)
    requires tracker.Mirrored() && !tracker.storage.readFault
    ensures fresh(restarted)
    ensures restarted.storage == tracker.storage && restarted.StorageKey() == tracker.StorageKey()
    ensures restarted.hashMessage == tracker.hashMessage
    ensures restarted.messages == tracker.messages && restarted.Mirrored()
  {
    restarted := new MessageTracker(tracker.storage, tracker.storagePrefix, tracker.version, tracker.context,
                                    tracker.formatStorageKeyName, tracker.hashMessage);
    restarted.Init();
  }

  /**
   Write-through end to end: a set that succeeds, followed by a restart,
   gives back the store as the set left it, starting from an empty or a
   mirrored tracker.
   */
  method SetThenRestart(tracker: MessageTracker, topic: Topic, message: Message)
    returns (r: Result<Hash>, restarted: MessageTracker)
    requires !tracker.storage.readFault
    requires tracker.Mirrored() || tracker.messages == map[]
    modifies tracker`messages, tracker.storage`items
    ensures tracker.messages == Insert(old(tracker.messages), tracker.hashMessage, topic, message)
    ensures r.Ok? <==> tracker.hashMessage(message) in Lookup(old(tracker.messages), topic) || !tracker.storage.writeFault
    ensures r.Ok? ==> r.value == tracker.hashMessage(message)
    ensures r.Ok? ==> fresh(restarted) && restarted.messages == tracker.messages
    ensures r.Ok? ==> Contains(restarted.messages, restarted.hashMessage, topic, message)
  {
    r := tracker.Set(topic, message);
    restarted := tracker;
    if r.Ok? {
      restarted := Restart(tracker);
      ContainsAfterInsert(old(tracker.messages), tracker.hashMessage, topic, message);
    }
  }
}
