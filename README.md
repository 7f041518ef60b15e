# Message tracker of the WalletConnect client, in Dafny

The client keeps a per-topic deduplication store of relay messages: a map from
topic to a record that maps a message digest to the message body. `set` records
a message unless its digest is already recorded for the topic, `get` returns a
topic's record (empty for an unknown topic), `has` asks whether a message's
digest is recorded, and `del` drops a whole topic. Every successful `set` that
adds an entry and every `del` writes the entire store through to the client's
key-value storage under one storage key. `init` restores the store from that key
once, swallowing any read error.

The project has two modules:

- `records.dfy`, module `MessageRecords`: the store as a value. `Insert`,
  `Remove`, `Lookup` and `Contains` are what `set`, `del`, `get` and `has` do to
  it. The lemmas there cover idempotence, frames, and digest consistency
  (`WellHashed`: every body sits under its own digest). Over arbitrary sequences
  of calls (`Run` over `Op`s), they also prove that entries are never evicted or
  overwritten until their topic is deleted.
- `messages.dfy`, module `Messages`: the `MessageTracker` class. Its field
  `messages` holds the store. The methods `Set` and `Del` are proved to leave
  it equal to `Insert` and `Remove` of the old store. `Get` and `Has` are
  functions that give `Lookup` and `Contains` of it. So the lemmas over
  sequences of calls hold across any sequence of `set` and `del` calls. The
  methods `Restore`, `Init`, `Initialize`, `Persist` and the storage helpers
  are specified directly by the storage contents. A restore replaces the whole
  store, so it falls outside those sequence lemmas. The `Storage` class stands
  for the client's key-value storage. Two client methods, `Restart` and
  `SetThenRestart`, prove the write-through/restore round trip.

The hashing function and the storage-key name formatter are foreign calls. Each
is a constructor parameter of the tracker, a total function of type
`string -> string`. So the only property used of them is that they are
deterministic. Storage failures are decided by the environment. Two flags on
`Storage` stand for them: `readFault` (a read throws) and `writeFault` (a write
throws).

## Model

| member | source | states |
|---|---|---|
| `Messages.MessageTracker.constructor` | packages/client/src/controllers/messages.ts:13-24 | a new tracker starts with an empty store, bound to the given storage, key parts and hash function |
| `Messages.StorageKeyOf` | packages/client/src/controllers/messages.ts:30-32 | the key splits back into prefix, version tag, `//` and the formatted context name, at fixed positions; `MessageTracker.StorageKey()` applies it to the tracker's prefix, version and formatted context |
| `Messages.StorageKeysSeparateNames` | packages/client/src/controllers/messages.ts:30-32 | under one prefix and version, two trackers share a storage key exactly when their formatted context names are equal |
| `Messages.MessageTracker.Init` | packages/client/src/controllers/messages.ts:34-37 | init has the restore outcomes and no error path: a read failure leaves the store unchanged and nothing reaches the caller |
| `Messages.MessageTracker.Set` | packages/client/src/controllers/messages.ts:39-52 | the store becomes `Insert(old store)` and the digest is returned. A digest already recorded for the topic leaves storage untouched (no write). Otherwise the write goes through unless it throws, and then the whole store is mirrored. A failed write returns an error with memory already updated and storage unchanged. Digest consistency is kept |
| `Messages.MessageTracker.Get` | packages/client/src/controllers/messages.ts:54-60 | the topic's record for a known topic, the empty record for an unknown one; a function, so it changes neither the store nor the storage |
| `Messages.MessageTracker.Has` | packages/client/src/controllers/messages.ts:62-66 | true exactly when the topic is known and the message's digest is a key of its record (the intended reading; see Findings) |
| `Messages.MessageTracker.Del` | packages/client/src/controllers/messages.ts:68-71 | the store becomes `Remove(old store, topic)` and `get(topic)` is empty. The whole store is written through even when the topic was absent. On success storage mirrors memory. Digest consistency is kept |
| `Messages.MessageTracker.SetRelayerMessages` | packages/client/src/controllers/messages.ts:75-80 | the given store overwrites the value at the storage key, nothing else in storage changes; a failed write changes nothing |
| `Messages.MessageTracker.GetRelayerMessages` | packages/client/src/controllers/messages.ts:82-87 | a read failure, no value, or exactly the store held at the storage key |
| `Messages.MessageTracker.Persist` | packages/client/src/controllers/messages.ts:89-91 | on success, storage at the key equals the whole in-memory store (write-through of the full map, not one topic) |
| `Messages.MessageTracker.Restore` | packages/client/src/controllers/messages.ts:93-105 | `RestoreOutcome`, three outcomes: failed read leaves the store unchanged, no stored value leaves it unchanged, a stored value replaces it (and then memory mirrors storage) |
| `Messages.MessageTracker.Initialize` | packages/client/src/controllers/messages.ts:107-109 | the same three restore outcomes (`RestoreOutcome`) |
| `Messages.Storage.GetItem` | packages/client/src/controllers/messages.ts:83-85 | the storage read: fails when reads fail, else the value at the key or nothing |
| `Messages.Storage.SetItem` | packages/client/src/controllers/messages.ts:76-79 | the storage write: overwrites the value at the key, or throws and changes nothing |
| `Messages.Restart` | packages/client/src/controllers/messages.ts:75-105 | a fresh tracker with the same storage key, once initialised, holds a store equal to the one last mirrored |
| `Messages.SetThenRestart` | packages/client/src/controllers/messages.ts:39-105 | the tracker's store becomes `Insert(old store)`. The set succeeds exactly when the digest was already recorded or the write does not fail, and it then returns the message's digest. After a successful set on an empty or mirrored tracker, a restarted tracker restores that same store and still reports the message |
| `MessageRecords.Insert` | packages/client/src/controllers/messages.ts:40-49 | the topic then holds the digest. A digest already present changes nothing. A new digest maps to the message, the topic's keys grow by exactly that digest, and every other topic and every earlier entry is unchanged |
| `MessageRecords.Remove` | packages/client/src/controllers/messages.ts:68-69 | the topic is gone, the other topics keep their records, no other key is added or dropped |
| `MessageRecords.InsertIdempotent` | packages/client/src/controllers/messages.ts:45-47 | setting the same message twice gives the store of setting it once (so one entry for its digest) |
| `MessageRecords.ContainsAfterInsert` | packages/client/src/controllers/messages.ts:39-66 | after a set, has reports the message |
| `MessageRecords.LookupAfterRemove` | packages/client/src/controllers/messages.ts:54-71 | after a del, get of the topic is empty and has reports nothing for it |
| `MessageRecords.InsertPreservesWellHashed` | packages/client/src/controllers/messages.ts:40-49 | set keeps every body under its own digest |
| `MessageRecords.RemovePreservesWellHashed` | packages/client/src/controllers/messages.ts:68-69 | del keeps every body under its own digest |
| `MessageRecords.InsertRecordsMessage` | packages/client/src/controllers/messages.ts:40-48 | when no recorded body of the topic collides with the message's digest, the body under the returned digest is the message itself |
| `MessageRecords.AbsentIsEmpty` | packages/client/src/controllers/messages.ts:41-58 | an absent topic and a topic with an empty record answer every get alike |
| `MessageRecords.StepKeepsSameRecords` | packages/client/src/controllers/messages.ts:39-71 | one set or del keeps two get-equivalent stores get-equivalent |
| `MessageRecords.RunKeepsSameRecords` | packages/client/src/controllers/messages.ts:39-71 | any sequence of sets and dels keeps two get-equivalent stores get-equivalent |
| `MessageRecords.RunPreservesWellHashed` | packages/client/src/controllers/messages.ts:39-71 | every store reached by sets and dels from a digest-consistent store is digest-consistent |
| `MessageRecords.EntriesSurviveUntilDeleted` | packages/client/src/controllers/messages.ts:39-71 | no eviction and no overwrite: a recorded entry keeps its body through any calls that do not delete its topic |
| `MessageRecords.SetIsRemembered` | packages/client/src/controllers/messages.ts:39-71 | a message set at some point is still reported by has at the end unless its topic was deleted later |
| `MessageRecords.Scenario` | packages/client/src/controllers/messages.ts:39-71 | "hello" set twice leaves one entry, "world" adds a second under its own digest, del empties the topic |
| `MessageRecords.HasAsWrittenMissesSetMessage` | packages/client/src/controllers/messages.ts:62-66 | for every store and message, right after a set the as-written `has` and the intended lookup give different answers for the message just set |

## Left out

- Logging: the child logger, the logger context and the trace, debug and error calls. The context string the storage key is built from is a constructor parameter.
- `hashMessage` is a constructor parameter, a total function. A hashing failure, which would reach the caller of `set` or `has`, is not modelled.
- `formatStorageKeyName` is a constructor parameter. `../constants` is not part of this model, so the values of `MESSAGES_CONTEXT` and `MESSAGES_STORAGE_VERSION` are not fixed here; the version tag is a constructor parameter. The `name` field only names the logger and is left out.
- The storage engine is not part of this model. `Storage` holds, at each key, a value of the store's type. `mapToObj` and `objToMap` are the identity on that value. Malformed stored data therefore cannot arise; a read that throws is the `readFault` outcome.
- Record lookups treat a plain JavaScript object as a map. Property names inherited from the object prototype (`constructor`, `toString`, ...) are ignored; hex digests never equal them.
- `async`, and the interleaving of concurrent `set` and `del` calls, are not modelled. Each method is one atomic step, so the lost-update race between concurrent mutators is not captured.
- Aliasing: `get` returns the live record object, and `set` writes into it in place. In the model records are values, so a caller that mutates a record obtained from `get` is not captured.
- The two-state lifecycle (uninitialised, then ready once) is not enforced. The code has no flag for it and `init` may be called again; each call restores as `Init` states.

## Findings

| source | as written | input that shows it | evidently intended | confidence | as-written member | corrected member |
|---|---|---|---|---|---|---|
| packages/client/src/controllers/messages.ts:62-66 | `has` calls `this.get(topic)` without `await`, so the digest is looked up on a pending promise and the answer is always false | `set(t, m)` then `has(t, m)`: the record holds the digest, `has` answers false | `has` answers whether the message's digest is a key of the topic's record | high; not executed | `MessageRecords.HasAsWritten` | `Messages.MessageTracker.Has` |
