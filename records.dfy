/**
 The message store as a value: a map from topic to the topic's record, which
 maps a message digest to the message body. `Insert`, `Remove`, `Lookup` and
 `Contains` are what `set`, `del`, `get` and `has` of the tracker do to this
 value; the lemmas below state the deduplication contract over single calls
 and over whole sequences of calls.

 The hashing collaborator is a parameter `hash: Message -> Hash`: any total
 function, so the only property relied on is that it is deterministic.
 */
module MessageRecords {

  type Topic = string
  type Hash = string
  type Message = string
  type MessageRecord = map<Hash, Message>
  type Store = map<Topic, MessageRecord>

  /** The record of `topic`; a topic that is not in the store reads as the empty record. */
  function Lookup(s: Store, topic: Topic): MessageRecord
  {
    if topic in s then s[topic] else map[]
  }

  /**
   The store after `set(topic, message)`. The deduplication key is the digest:
   when the digest is already recorded for the topic, nothing changes (even if
   the recorded body is a different message with the same digest).
   */
  function Insert(s: Store, hash: Message -> Hash, topic: Topic, message: Message): (r: Store)
    ensures topic in r && hash(message) in r[topic]
    ensures hash(message) in Lookup(s, topic) ==> r == s
    ensures hash(message) !in Lookup(s, topic) ==> r[topic][hash(message)] == message
    ensures r.Keys == s.Keys + {topic}
    ensures r[topic].Keys == Lookup(s, topic).Keys + {hash(message)}
    ensures forall t :: t in s && t != topic ==> r[t] == s[t]
    ensures forall h :: h in Lookup(s, topic) ==> r[topic][h] == Lookup(s, topic)[h]
  {
    var record := Lookup(s, topic);
    var h := hash(message);
    if h in record then s else s[topic := record[h := message]]
  }

  /** The store after `del(topic)`: the topic and its whole record are gone, nothing else moves. */
  function Remove(s: Store, topic: Topic): (r: Store)
    ensures topic !in r
    ensures r.Keys == s.Keys - {topic}
    ensures forall t :: t in r ==> r[t] == s[t]
  {
    s - {topic}
  }

  /** Whether the digest of `message` is recorded for `topic` (what `has` is meant to answer). */
  predicate Contains(s: Store, hash: Message -> Hash, topic: Topic, message: Message)
  {
    hash(message) in Lookup(s, topic)
  }

  /** Every recorded body sits under its own digest. */
  ghost predicate WellHashed(s: Store, hash: Message -> Hash)
  {
    forall t, h :: t in s && h in s[t] ==> hash(s[t][h]) == h
  }

  /** Two stores that answer every `get` alike. */
  ghost predicate SameRecords(s1: Store, s2: Store)
  {
    forall t :: Lookup(s1, t) == Lookup(s2, t)
  }

  // ---------- One call ---------------------------------------------------- //

  /** Setting the same message twice is the same as setting it once. */
  lemma InsertIdempotent(s: Store, hash: Message -> Hash, topic: Topic, message: Message)
    ensures Insert(Insert(s, hash, topic, message), hash, topic, message) == Insert(s, hash, topic, message)
  {
  }

  /** After a set, has reports the message. */
  lemma ContainsAfterInsert(s: Store, hash: Message -> Hash, topic: Topic, message: Message)
    ensures Contains(Insert(s, hash, topic, message), hash, topic, message)
  {
  }

  /** After a del, get of that topic is the empty record, and has reports nothing for it. */
  lemma LookupAfterRemove(s: Store, hash: Message -> Hash, topic: Topic, message: Message)
    ensures Lookup(Remove(s, topic), topic) == map[]
    ensures !Contains(Remove(s, topic), hash, topic, message)
  {
  }

  lemma InsertPreservesWellHashed(s: Store, hash: Message -> Hash, topic: Topic, message: Message)
    requires WellHashed(s, hash)
    ensures WellHashed(Insert(s, hash, topic, message), hash)
  {
  }

  lemma RemovePreservesWellHashed(s: Store, hash: Message -> Hash, topic: Topic)
    requires WellHashed(s, hash)
    ensures WellHashed(Remove(s, topic), hash)
  {
  }

  /**
   When the digest has no collision among the topic's recorded bodies, the
   body recorded under the returned digest is the message itself.
   */
  lemma InsertRecordsMessage(s: Store, hash: Message -> Hash, topic: Topic, message: Message)
    requires WellHashed(s, hash)
    requires forall h :: h in Lookup(s, topic) && hash(Lookup(s, topic)[h]) == hash(message) ==> Lookup(s, topic)[h] == message
    ensures Insert(s, hash, topic, message)[topic][hash(message)] == message
  {
  }

  /** An absent topic and a topic with an empty record are told apart by no `get`. */
  lemma AbsentIsEmpty(s: Store, topic: Topic)
    requires topic !in s
    ensures SameRecords(s, s[topic := map[]])
  {
  }

  // ---------- Sequences of calls ------------------------------------------ //

  /** One mutating call on the store. */
  datatype Op = SetOp(topic: Topic, message: Message) | DelOp(topic: Topic)

  function Step(s: Store, hash: Message -> Hash, op: Op): Store
  {
    match op
    case SetOp(topic, message) => Insert(s, hash, topic, message)
    case DelOp(topic) => Remove(s, topic)
  }

  /** The store after the calls `ops`, in order. */
  function Run(s: Store, hash: Message -> Hash, ops: seq<Op>): Store
    decreases |ops|
  {
    if ops == [] then s else Run(Step(s, hash, ops[0]), hash, ops[1..])
  }

  /** Every store reachable by set and del from a well-hashed store is well hashed. */
  lemma {:induction false} RunPreservesWellHashed(s: Store, hash: Message -> Hash, ops: seq<Op>)
    requires WellHashed(s, hash)
    ensures WellHashed(Run(s, hash, ops), hash)
    decreases |ops|
  {
    if ops != [] {
      match ops[0] {
        case SetOp(topic, message) => InsertPreservesWellHashed(s, hash, topic, message);
        case DelOp(topic) => RemovePreservesWellHashed(s, hash, topic);
      }
      RunPreservesWellHashed(Step(s, hash, ops[0]), hash, ops[1..]);
    }
  }

  lemma StepKeepsSameRecords(s1: Store, s2: Store, hash: Message -> Hash, op: Op)
    requires SameRecords(s1, s2)
    ensures SameRecords(Step(s1, hash, op), Step(s2, hash, op))
  {
    var r1, r2 := Step(s1, hash, op), Step(s2, hash, op);
    forall t
      ensures Lookup(r1, t) == Lookup(r2, t)
    {
      assert Lookup(s1, t) == Lookup(s2, t);
      assert Lookup(s1, op.topic) == Lookup(s2, op.topic);
    }
  }

  /**
   Stores that answer every `get` alike keep doing so under any sequence of
   calls; with `AbsentIsEmpty`, an absent topic and an empty one are
   interchangeable for the rest of the store's life.
   */
  lemma {:induction false} RunKeepsSameRecords(s1: Store, s2: Store, hash: Message -> Hash, ops: seq<Op>)
    requires SameRecords(s1, s2)
    ensures SameRecords(Run(s1, hash, ops), Run(s2, hash, ops))
    decreases |ops|
  {
    if ops != [] {
      StepKeepsSameRecords(s1, s2, hash, ops[0]);
      RunKeepsSameRecords(Step(s1, hash, ops[0]), Step(s2, hash, ops[0]), hash, ops[1..]);
    }
  }

  /**
   Nothing is evicted or overwritten: an entry stays, with the same body,
   until its topic is deleted.
   */
  lemma {:induction false} EntriesSurviveUntilDeleted(s: Store, hash: Message -> Hash, ops: seq<Op>, topic: Topic, h: Hash)
    requires h in Lookup(s, topic)
    requires forall i :: 0 <= i < |ops| ==> ops[i] != DelOp(topic)
    ensures h in Lookup(Run(s, hash, ops), topic)
    ensures Lookup(Run(s, hash, ops), topic)[h] == Lookup(s, topic)[h]
    decreases |ops|
  {
    if ops != [] {
      var next := Step(s, hash, ops[0]);
      assert ops[0] != DelOp(topic);
      assert h in Lookup(next, topic) && Lookup(next, topic)[h] == Lookup(s, topic)[h];
      assert forall i :: 0 <= i < |ops[1..]| ==> ops[1..][i] == ops[i + 1];
      EntriesSurviveUntilDeleted(next, hash, ops[1..], topic, h);
    }
  }

  /** A message that was set stays reported by has until its topic is deleted. */
  lemma {:induction false} SetIsRemembered(s: Store, hash: Message -> Hash, ops: seq<Op>, i: nat)
    requires i < |ops| && ops[i].SetOp?
    requires forall j :: i < j < |ops| ==> ops[j] != DelOp(ops[i].topic)
    ensures Contains(Run(s, hash, ops), hash, ops[i].topic, ops[i].message)
    decreases i
  {
    var next := Step(s, hash, ops[0]);
    assert forall j :: 0 <= j < |ops[1..]| ==> ops[1..][j] == ops[j + 1];
    if i == 0 {
      ContainsAfterInsert(s, hash, ops[0].topic, ops[0].message);
      EntriesSurviveUntilDeleted(next, hash, ops[1..], ops[0].topic, hash(ops[0].message));
    } else {
      SetIsRemembered(next, hash, ops[1..], i - 1);
    }
  }

  /**
   The worked scenario: "hello" twice leaves one entry, "world" adds a second
   under a different digest, and del empties the topic.
   */
  lemma Scenario(hash: Message -> Hash)
    requires hash("hello") != hash("world")
    ensures var ops := [SetOp("topicA", "hello"), SetOp("topicA", "hello")];
            Lookup(Run(map[], hash, ops), "topicA") == map[hash("hello") := "hello"]
    ensures var ops := [SetOp("topicA", "hello"), SetOp("topicA", "hello"), SetOp("topicA", "world")];
            Lookup(Run(map[], hash, ops), "topicA") == map[hash("hello") := "hello", hash("world") := "world"]
    ensures var ops := [SetOp("topicA", "hello"), SetOp("topicA", "hello"), SetOp("topicA", "world"), DelOp("topicA")];
            Lookup(Run(map[], hash, ops), "topicA") == map[]
  {
  }

  // ---------- has, as written --------------------------------------------- //

  /**
   `has` as the TypeScript code writes it: `this.get(topic)` is not awaited, so the
   digest is looked up on the pending promise instead of on the record. A
   promise has no property named by a digest, so the answer is always false,
   whatever the store holds.
   */
  function HasAsWritten(s: Store, hash: Message -> Hash, topic: Topic, message: Message): bool
  {
    false
  }

  /** Right after a set, the as-written `has` and the intended lookup disagree on the message just set. */
  lemma HasAsWrittenMissesSetMessage(s: Store, hash: Message -> Hash, topic: Topic, message: Message)
    ensures HasAsWritten(Insert(s, hash, topic, message), hash, topic, message)
            != Contains(Insert(s, hash, topic, message), hash, topic, message)
  {
    ContainsAfterInsert(s, hash, topic, message);
  }
}
