/**
  Message import: the single write and the deduplicating batch loop over the messages table.
  The content digest is an arbitrary function of the text.
*/
module Messages {
  import opened Basics

  /** What UNIQUE(event_source_id, content_hash, message_time) and the duplicate check look at. */
  datatype Key = Key(source: Option<Uuid>, hash: string, time: int)

  datatype Draft = Draft(text: string, time: int, source: Option<Uuid>)

  datatype Message = Message(id: Uuid, conversation: Uuid, key: Key, text: string)

  /** `msg.event_source_id or batch_event_source_id` */
  function KeyOf(d: Draft, batchSource: Option<Uuid>, digest: string -> string): Key {
    Key(if d.source.Some? then d.source else batchSource, digest(d.text), d.time)
  }

  /** The WHERE clause of the duplicate check: a missing source matches every source. */
  predicate Covers(there: Key, asked: Key) {
    (asked.source == None || there.source == asked.source) && there.hash == asked.hash && there.time == asked.time
  }

  predicate Covered(rows: seq<Message>, key: Key) { exists i :: 0 <= i < |rows| && Covers(rows[i].key, key) }

  /** SQL's UNIQUE: a NULL source never conflicts. */
  predicate Violates(rows: seq<Message>, key: Key) { key.source.Some? && exists i :: 0 <= i < |rows| && rows[i].key == key }

  ghost predicate KeysUnique(rows: seq<Message>) {
    forall i, j :: 0 <= i < j < |rows| && rows[i].key.source.Some? ==> rows[i].key != rows[j].key
  }

  lemma CoversTransitive(a: Key, b: Key, c: Key)
    requires Covers(a, b) && Covers(b, c)
    ensures Covers(a, c)
  {
  }

  /**
    The check is documented as matching the constraint.  It never lets a violation through, and it agrees with
    the constraint exactly when the message names a source or nothing with its hash and time is stored.
    */
  lemma CheckAgainstConstraint(rows: seq<Message>, key: Key)
    ensures Violates(rows, key) ==> Covered(rows, key)
    ensures (Violates(rows, key) <==> Covered(rows, key)) <==> (key.source.Some? || !Covered(rows, key))
  {
    if key.source.Some? && Covered(rows, key) {
      var i :| 0 <= i < |rows| && Covers(rows[i].key, key);
      assert rows[i].key == key;
    }
    if Violates(rows, key) {
      var i :| 0 <= i < |rows| && rows[i].key == key;
      assert Covers(rows[i].key, key);
    }
  }

  // ---------------------------------------------------------------------------------
  // The batch
  // ---------------------------------------------------------------------------------

  /** The constant inputs of one batch; ids are the generated ones, one for each message. */
  datatype Batch = Batch(conversation: Uuid, drafts: seq<Draft>, ids: seq<Uuid>, source: Option<Uuid>, digest: string -> string)
  {
    ghost predicate Valid() { |ids| == |drafts| }

    function KeyAt(i: nat): Key
      requires i < |drafts|
    {
      KeyOf(drafts[i], source, digest)
    }

    function MessageAt(i: nat): Message
      requires i < |drafts| && |ids| == |drafts|
    {
      Message(ids[i], conversation, KeyAt(i), drafts[i].text)
    }
  }

  /** Message i is new: nothing stored covers it and no earlier message of the batch does. */
  predicate IsNew(rows: seq<Message>, b: Batch, i: nat)
    requires i < |b.drafts|
  {
    !Covered(rows, b.KeyAt(i)) && forall j :: 0 <= j < i ==> !Covers(b.KeyAt(j), b.KeyAt(i))
  }

  /** The messages among the first n that are new. */
  function NewMessages(rows: seq<Message>, b: Batch, n: nat): seq<Message>
    requires b.Valid() && n <= |b.drafts|
  {
    if n == 0 then []
    else if IsNew(rows, b, n - 1) then NewMessages(rows, b, n - 1) + [b.MessageAt(n - 1)]
    else NewMessages(rows, b, n - 1)
  }

  function Ids(rows: seq<Message>): seq<Uuid> { seq(|rows|, i requires 0 <= i < |rows| => rows[i].id) }

  lemma {:induction false} NewMessagesBounded(rows: seq<Message>, b: Batch, n: nat)
    requires b.Valid() && n <= |b.drafts|
    ensures |NewMessages(rows, b, n)| <= n
  {
    if n > 0 {
      NewMessagesBounded(rows, b, n - 1);
    }
  }

  /** A key is covered by the store after n messages exactly if the store or one of those messages covers it. */
  lemma {:induction false} CoveredAfter(rows: seq<Message>, b: Batch, n: nat, key: Key)
    requires b.Valid() && n <= |b.drafts|
    ensures Covered(rows + NewMessages(rows, b, n), key)
       <==> Covered(rows, key) || exists j :: 0 <= j < n && Covers(b.KeyAt(j), key)
  {
    if n == 0 {
      assert rows + [] == rows;
    } else {
      var before := NewMessages(rows, b, n - 1);
      CoveredAfter(rows, b, n - 1, key);
      CoveredAfter(rows, b, n - 1, b.KeyAt(n - 1));
      if IsNew(rows, b, n - 1) {
        CoveredPush(rows + before, b.MessageAt(n - 1), key);
        assert rows + (before + [b.MessageAt(n - 1)]) == rows + before + [b.MessageAt(n - 1)];
      } else if Covers(b.KeyAt(n - 1), key) {
        SkippedIsCovered(rows, b, n - 1, key);
      }
    }
  }

  lemma CoveredPush(rows: seq<Message>, m: Message, key: Key)
    ensures Covered(rows + [m], key) <==> Covered(rows, key) || Covers(m.key, key)
  {
    if Covered(rows, key) {
      var i :| 0 <= i < |rows| && Covers(rows[i].key, key);
      assert Covers((rows + [m])[i].key, key);
    }
    if Covers(m.key, key) {
      assert Covers((rows + [m])[|rows|].key, key);
    }
  }

  /** What a skipped message covers was covered before it. */
  lemma SkippedIsCovered(rows: seq<Message>, b: Batch, n: nat, key: Key)
    requires b.Valid() && n < |b.drafts| && !IsNew(rows, b, n) && Covers(b.KeyAt(n), key)
    ensures Covered(rows, key) || exists j :: 0 <= j < n && Covers(b.KeyAt(j), key)
  {
    if Covered(rows, b.KeyAt(n)) {
      var i :| 0 <= i < |rows| && Covers(rows[i].key, b.KeyAt(n));
      CoversTransitive(rows[i].key, b.KeyAt(n), key);
    } else {
      var j :| 0 <= j < n && Covers(b.KeyAt(j), b.KeyAt(n));
      CoversTransitive(b.KeyAt(j), b.KeyAt(n), key);
    }
  }

  /** The check against the growing store decides exactly whether the message is new. */
  lemma CheckDecidesNew(rows: seq<Message>, b: Batch, n: nat)
    requires b.Valid() && n < |b.drafts|
    ensures IsNew(rows, b, n) <==> !Covered(rows + NewMessages(rows, b, n), b.KeyAt(n))
  {
    CoveredAfter(rows, b, n, b.KeyAt(n));
  }

  /** A batch keeps the UNIQUE constraint. */
  lemma {:induction false} BatchKeepsUnique(rows: seq<Message>, b: Batch, n: nat)
    requires b.Valid() && n <= |b.drafts| && KeysUnique(rows)
    ensures KeysUnique(rows + NewMessages(rows, b, n))
  {
    if n == 0 {
      assert rows + [] == rows;
    } else {
      BatchKeepsUnique(rows, b, n - 1);
      if IsNew(rows, b, n - 1) {
        var before := rows + NewMessages(rows, b, n - 1);
        CheckDecidesNew(rows, b, n - 1);
        CheckAgainstConstraint(before, b.KeyAt(n - 1));
        assert rows + NewMessages(rows, b, n) == before + [b.MessageAt(n - 1)];
      }
    }
  }

  /** Importing messages that were all part of an earlier batch stores nothing, whatever came in between. */
  lemma {:induction false} ReimportStoresNothing(rows: seq<Message>, b: Batch, later: seq<Message>, again: Batch, n: nat)
    requires b.Valid() && again.Valid() && n <= |again.drafts|
    requires forall i :: 0 <= i < |again.drafts| ==> HasKey(b, again.KeyAt(i))
    ensures NewMessages(rows + NewMessages(rows, b, |b.drafts|) + later, again, n) == []
  {
    if n > 0 {
      ReimportStoresNothing(rows, b, later, again, n - 1);
      var j :| 0 <= j < |b.drafts| && b.KeyAt(j) == again.KeyAt(n - 1);
      var key, stored := b.KeyAt(j), rows + NewMessages(rows, b, |b.drafts|);
      CoveredAfter(rows, b, |b.drafts|, key);
      assert Covers(b.KeyAt(j), key);
      var i :| 0 <= i < |stored| && Covers(stored[i].key, key);
      assert Covers((stored + later)[i].key, key);
    }
  }

  // ---------------------------------------------------------------------------------
  // What is stored, on the fields
  // ---------------------------------------------------------------------------------

  /** Two dedup triples count as the same message: equal text digest and time, and equal source unless none is asked for. */
  predicate IsCopy(there: Option<Uuid>, thereHash: string, thereTime: int, asked: Option<Uuid>, hash: string, time: int) {
    thereHash == hash && thereTime == time && (asked.None? || there == asked)
  }

  /** Row m is the i-th message of the batch, and no copy of it was there or came before it. */
  ghost predicate StoredAs(rows: seq<Message>, b: Batch, i: int, m: Message)
    requires b.Valid()
  {
    && 0 <= i < |b.drafts|
    && var d := b.drafts[i];
    var source := if d.source.Some? then d.source else b.source;
    && m == Message(b.ids[i], b.conversation, Key(source, b.digest(d.text), d.time), d.text)
    && (forall k :: 0 <= k < |rows| ==>
          !IsCopy(rows[k].key.source, rows[k].key.hash, rows[k].key.time, source, b.digest(d.text), d.time))
    && (forall j :: 0 <= j < i ==>
          var e := b.drafts[j];
          !IsCopy(if e.source.Some? then e.source else b.source, b.digest(e.text), e.time, source, b.digest(d.text), d.time))
  }

  /** Which rows a batch adds, on the fields of its messages: source, digest, time and text of each message without a copy. */
  lemma StoredExactly(rows: seq<Message>, b: Batch, m: Message)
    requires b.Valid()
    ensures m in NewMessages(rows, b, |b.drafts|) <==> exists i :: StoredAs(rows, b, i, m)
  {
    hide NewMessages, StoredAs;
    StoredKeysAreNew(rows, b, |b.drafts|, m);
    forall i ensures StoredAs(rows, b, i, m) <==> 0 <= i < |b.drafts| && IsNew(rows, b, i) && b.MessageAt(i) == m {
      StoredAsNew(rows, b, i, m);
    }
  }

  lemma StoredAsNew(rows: seq<Message>, b: Batch, i: int, m: Message)
    requires b.Valid()
    ensures StoredAs(rows, b, i, m) <==> 0 <= i < |b.drafts| && IsNew(rows, b, i) && b.MessageAt(i) == m
  {
    if 0 <= i < |b.drafts| {
      var d := b.drafts[i];
      var source := if d.source.Some? then d.source else b.source;
      CoveredExactly(rows, d, b.source, b.digest);
      assert b.KeyAt(i) == Key(source, b.digest(d.text), d.time);
      forall j | 0 <= j < i
        ensures var e := b.drafts[j];
                Covers(b.KeyAt(j), b.KeyAt(i))
                <==> IsCopy(if e.source.Some? then e.source else b.source, b.digest(e.text), e.time, source, b.digest(d.text), d.time)
      {
      }
    }
  }

  /** The rows a batch adds are in the order of its messages. */
  lemma {:induction false} StoredInOrder(rows: seq<Message>, b: Batch, n: nat, k: nat, l: nat) returns (i: nat, j: nat)
    requires b.Valid() && n <= |b.drafts| && k < l < |NewMessages(rows, b, n)|
    ensures i < j < n && StoredAs(rows, b, i, NewMessages(rows, b, n)[k]) && StoredAs(rows, b, j, NewMessages(rows, b, n)[l])
  {
    hide StoredAs, IsNew;
    var init := NewMessages(rows, b, n - 1);
    if l < |init| {
      i, j := StoredInOrder(rows, b, n - 1, k, l);
    } else {
      StoredKeysAreNew(rows, b, n - 1, init[k]);
      i :| 0 <= i < n - 1 && IsNew(rows, b, i) && b.MessageAt(i) == init[k];
      j := n - 1;
      StoredAsNew(rows, b, i, init[k]);
      StoredAsNew(rows, b, j, b.MessageAt(j));
    }
  }

  /** When the duplicate check finds something, on the fields. */
  lemma CoveredExactly(rows: seq<Message>, d: Draft, batchSource: Option<Uuid>, digest: string -> string)
    ensures var source := if d.source.Some? then d.source else batchSource;
            Covered(rows, KeyOf(d, batchSource, digest)) <==> (
              exists k :: 0 <= k < |rows|
                && IsCopy(rows[k].key.source, rows[k].key.hash, rows[k].key.time, source, digest(d.text), d.time))
  {
    var key := KeyOf(d, batchSource, digest);
    forall k | 0 <= k < |rows|
      ensures Covers(rows[k].key, key) <==>
                IsCopy(rows[k].key.source, rows[k].key.hash, rows[k].key.time, key.source, key.hash, key.time) {
    }
  }

  // ---------------------------------------------------------------------------------
  // When the order of the messages matters
  // ---------------------------------------------------------------------------------

  /** The keys a batch stores. */
  ghost function StoredKeys(rows: seq<Message>, b: Batch): set<Key> {
    set i | 0 <= i < |b.drafts| && IsNew(rows, b, i) :: b.KeyAt(i)
  }

  lemma {:induction false} StoredKeysAreNew(rows: seq<Message>, b: Batch, n: nat, m: Message)
    requires b.Valid() && n <= |b.drafts|
    ensures m in NewMessages(rows, b, n) <==> exists i :: 0 <= i < n && IsNew(rows, b, i) && b.MessageAt(i) == m
  {
    hide IsNew;
    if n > 0 {
      StoredKeysAreNew(rows, b, n - 1, m);
      assert NewMessages(rows, b, n)
          == if IsNew(rows, b, n - 1) then NewMessages(rows, b, n - 1) + [b.MessageAt(n - 1)] else NewMessages(rows, b, n - 1);
    }
  }

  /** The stored keys are those of the rows the batch adds. */
  lemma StoredKeysAreAdded(rows: seq<Message>, b: Batch, key: Key)
    requires b.Valid()
    ensures key in StoredKeys(rows, b) <==> exists m :: m in NewMessages(rows, b, |b.drafts|) && m.key == key
  {
    hide IsNew, NewMessages;
    if key in StoredKeys(rows, b) {
      var i :| 0 <= i < |b.drafts| && IsNew(rows, b, i) && b.KeyAt(i) == key;
      StoredKeysAreNew(rows, b, |b.drafts|, b.MessageAt(i));
      assert b.MessageAt(i) in NewMessages(rows, b, |b.drafts|) && b.MessageAt(i).key == key;
    }
    forall m | m in NewMessages(rows, b, |b.drafts|) && m.key == key ensures key in StoredKeys(rows, b) {
      StoredKeysAreNew(rows, b, |b.drafts|, m);
    }
  }

  /** The same messages in another order. */
  ghost predicate Reorders(b: Batch, b': Batch) {
    && multiset(b'.drafts) == multiset(b.drafts)
    && b'.source == b.source && b'.digest == b.digest && b'.conversation == b.conversation
  }

  /** Whatever the order of the messages, the same keys are stored. */
  ghost predicate OrderFree(rows: seq<Message>, b: Batch) {
    forall b' :: Reorders(b, b') ==> StoredKeys(rows, b') == StoredKeys(rows, b)
  }

  predicate HasKey(b: Batch, key: Key) { exists i :: 0 <= i < |b.drafts| && b.KeyAt(i) == key }

  /** A message without a source, not covered by the store, and a sourced one with its hash and time. */
  predicate MixedPair(rows: seq<Message>, b: Batch, i: nat, j: nat) {
    && i < |b.drafts| && j < |b.drafts|
    && b.KeyAt(i).source == None && b.KeyAt(j).source.Some?
    && b.KeyAt(i).hash == b.KeyAt(j).hash && b.KeyAt(i).time == b.KeyAt(j).time
    && !Covered(rows, b.KeyAt(i))
  }

  lemma SameKeys(b: Batch, b': Batch, key: Key)
    requires Reorders(b, b') && HasKey(b, key)
    ensures HasKey(b', key)
  {
    var i :| 0 <= i < |b.drafts| && b.KeyAt(i) == key;
    assert b.drafts[i] in multiset(b'.drafts);
    var k :| 0 <= k < |b'.drafts| && b'.drafts[k] == b.drafts[i];
    assert b'.KeyAt(k) == key;
  }

  /** The first message with a key. */
  lemma FirstWithKey(b: Batch, key: Key, n: nat) returns (i: nat)
    requires n < |b.drafts| && b.KeyAt(n) == key
    ensures i <= n && b.KeyAt(i) == key && forall k :: 0 <= k < i ==> b.KeyAt(k) != key
  {
    i := n;
    if k :| 0 <= k < n && b.KeyAt(k) == key {
      i := FirstWithKey(b, key, k);
    }
  }

  /** Without a mixed pair the batch stores exactly its keys that the store does not cover. */
  lemma UnmixedStores(rows: seq<Message>, b: Batch, key: Key)
    requires forall i, j :: !MixedPair(rows, b, i, j)
    ensures key in StoredKeys(rows, b) <==> HasKey(b, key) && !Covered(rows, key)
  {
    if HasKey(b, key) && !Covered(rows, key) {
      var n :| 0 <= n < |b.drafts| && b.KeyAt(n) == key;
      var i := FirstWithKey(b, key, n);
      forall k | 0 <= k < i ensures !Covers(b.KeyAt(k), key) {
        assert !MixedPair(rows, b, i, k);
      }
      assert IsNew(rows, b, i);
    }
  }

  /** Message i moved to the front. */
  function ToFront(b: Batch, i: nat): (b': Batch)
    requires i < |b.drafts|
    ensures Reorders(b, b')
  {
    assert b.drafts == b.drafts[..i] + [b.drafts[i]] + b.drafts[i + 1..];
    b.(drafts := [b.drafts[i]] + (b.drafts[..i] + b.drafts[i + 1..]))
  }

  /** With a sourced message in front, what it covers is not stored; with a message in front, it is. */
  lemma FrontDecides(rows: seq<Message>, b: Batch, key: Key)
    requires b.drafts != [] && !Covered(rows, key)
    ensures b.KeyAt(0) == key ==> key in StoredKeys(rows, b)
    ensures b.KeyAt(0) != key && Covers(b.KeyAt(0), key) ==> key !in StoredKeys(rows, b)
  {
    if b.KeyAt(0) == key {
      assert IsNew(rows, b, 0);
    }
  }

  /**
    What a batch stores is independent of the order of its messages exactly if no message without a source
    that the store does not cover shares text digest and time with a sourced message of the batch.
    */
  lemma OrderFreeExactly(rows: seq<Message>, b: Batch)
    ensures OrderFree(rows, b) <==> forall i, j :: !MixedPair(rows, b, i, j)
  {
    hide StoredKeys, Covered;
    if forall i, j :: !MixedPair(rows, b, i, j) {
      forall b' | Reorders(b, b') ensures StoredKeys(rows, b') == StoredKeys(rows, b) {
        forall i, j ensures !MixedPair(rows, b', i, j) {
          UnmixedReordered(rows, b, b', i, j);
        }
        forall key ensures key in StoredKeys(rows, b') <==> key in StoredKeys(rows, b) {
          UnmixedStores(rows, b, key);
          UnmixedStores(rows, b', key);
          ReordersBack(b, b');
          if HasKey(b, key) { SameKeys(b, b', key); }
          if HasKey(b', key) { SameKeys(b', b, key); }
        }
      }
    } else {
      var i, j :| MixedPair(rows, b, i, j);
      var key := b.KeyAt(i);
      var bareFirst, sourcedFirst := ToFront(b, i), ToFront(b, j);
      FrontDecides(rows, bareFirst, key);
      FrontDecides(rows, sourcedFirst, key);
      assert bareFirst.KeyAt(0) == key && sourcedFirst.KeyAt(0) == b.KeyAt(j);
      assert StoredKeys(rows, bareFirst) != StoredKeys(rows, sourcedFirst);
    }
  }

  lemma ReordersBack(b: Batch, b': Batch)
    requires Reorders(b, b')
    ensures Reorders(b', b)
  {
  }

  lemma UnmixedReordered(rows: seq<Message>, b: Batch, b': Batch, i: nat, j: nat)
    requires Reorders(b, b') && forall i, j :: !MixedPair(rows, b, i, j)
    ensures !MixedPair(rows, b', i, j)
  {
    hide Covered;
    if i < |b'.drafts| && j < |b'.drafts| {
      var bare, sourced := b'.KeyAt(i), b'.KeyAt(j);
      SameKeys(b', b, bare);
      SameKeys(b', b, sourced);
      var k :| 0 <= k < |b.drafts| && b.KeyAt(k) == bare;
      var n :| 0 <= n < |b.drafts| && b.KeyAt(n) == sourced;
      assert !MixedPair(rows, b, k, n);
    }
  }

  /** For instance: a message without a source is dropped after its sourced copy, but kept before it. */
  lemma OrderMatters(sourced: Draft, id: Uuid, conversation: Uuid, digest: string -> string)
    requires sourced.source.Some?
    ensures var bare := sourced.(source := None);
            && |NewMessages([], Batch(conversation, [sourced, bare], [id, id], None, digest), 2)| == 1
            && |NewMessages([], Batch(conversation, [bare, sourced], [id, id], None, digest), 2)| == 2
  {
    var bare := sourced.(source := None);
    var x := Batch(conversation, [sourced, bare], [id, id], None, digest);
    var y := Batch(conversation, [bare, sourced], [id, id], None, digest);
    NewOfTwo(x);
    NewOfTwo(y);
  }

  lemma NewOfTwo(b: Batch)
    requires b.Valid() && |b.drafts| == 2
    ensures |NewMessages([], b, 2)| == if Covers(b.KeyAt(0), b.KeyAt(1)) then 1 else 2
  {
    assert IsNew([], b, 0);
    assert IsNew([], b, 1) <==> !Covers(b.KeyAt(0), b.KeyAt(1));
    hide IsNew;
    assert |NewMessages([], b, 1)| == 1;
  }

  // ---------------------------------------------------------------------------------
  // The table
  // ---------------------------------------------------------------------------------

  datatype BatchResult = BatchResult(imported: nat, skipped: nat, ids: seq<Uuid>, first: Option<int>, last: Option<int>)

  ghost predicate IsEarliest(t: int, drafts: seq<Draft>) {
    (exists i :: 0 <= i < |drafts| && drafts[i].time == t) && forall i :: 0 <= i < |drafts| ==> t <= drafts[i].time
  }

  method EarliestTime(drafts: seq<Draft>) returns (earliest: Option<int>)
    ensures earliest.Some? <==> drafts != []
    ensures earliest.Some? ==> IsEarliest(earliest.value, drafts)
  {
    earliest := None;
    var i := 0;
    while i < |drafts|
      invariant 0 <= i <= |drafts|
      invariant earliest.Some? <==> i > 0
      invariant earliest.Some? ==> IsEarliest(earliest.value, drafts[..i])
    {
      assert drafts[..i + 1] == drafts[..i] + [drafts[i]];
      assert (drafts[..i] + [drafts[i]])[i] == drafts[i];
      assert forall j :: 0 <= j < i ==> drafts[..i + 1][j] == drafts[..i][j];
      if earliest == None || drafts[i].time < earliest.value {
        earliest := Some(drafts[i].time);
      }
      i := i + 1;
    }
    assert drafts[..i] == drafts;
  }

  class MessageStore {
    var rows: seq<Message>
    /** conversation.started_at; a conversation that does not exist is not in the map */
    var startedAt: map<Uuid, Option<int>>

    function StartedAfter(conversation: Uuid, time: int): map<Uuid, Option<int>>
      reads this
    {
      if conversation in startedAt && startedAt[conversation] == None then startedAt[conversation := Some(time)]
      else startedAt
    }

    method EnsureStartedAt(conversation: Uuid, time: int)
      modifies this`startedAt
      ensures startedAt == old(StartedAfter(conversation, time))
    {
      if conversation in startedAt && startedAt[conversation] == None {
        startedAt := startedAt[conversation := Some(time)];
      }
    }

    method CreateMessage(conversation: Uuid, payload: Draft, id: Uuid, digest: string -> string) returns (m: Message)
      requires KeysUnique(rows)
      modifies this
      ensures KeysUnique(rows)
      ensures m in rows && Covers(m.key, KeyOf(payload, None, digest))
      ensures old(Covered(rows, KeyOf(payload, None, digest))) ==> rows == old(rows) && startedAt == old(startedAt)
      ensures !old(Covered(rows, KeyOf(payload, None, digest))) ==>
                && m == Message(id, conversation, Key(payload.source, digest(payload.text), payload.time), payload.text)
                && rows == old(rows) + [m]
                && startedAt == (if conversation in old(startedAt) && old(startedAt)[conversation].None?
                                 then old(startedAt)[conversation := Some(payload.time)] else old(startedAt))
    {
      var key := KeyOf(payload, None, digest);
      if Covered(rows, key) {
        var i :| 0 <= i < |rows| && Covers(rows[i].key, key);
        return rows[i];
      }
      EnsureStartedAt(conversation, payload.time);
      CheckAgainstConstraint(rows, key);
      m := Message(id, conversation, key, payload.text);
      rows := rows + [m];
    }

    method CreateMessageBatch(b: Batch) returns (r: BatchResult)
      requires b.Valid() && KeysUnique(rows)
      modifies this
      ensures KeysUnique(rows)
      ensures rows == old(rows) + NewMessages(old(rows), b, |b.drafts|)
      ensures r.ids == Ids(NewMessages(old(rows), b, |b.drafts|))
      ensures r.imported == |r.ids| && r.imported + r.skipped == |b.drafts|
      ensures r.first.Some? <==> b.drafts != []
      ensures r.first.Some? ==>
                && (exists i :: 0 <= i < |b.drafts| && b.drafts[i].time == r.first.value)
                && (forall i :: 0 <= i < |b.drafts| ==> r.first.value <= b.drafts[i].time)
                && startedAt == (if b.conversation in old(startedAt) && old(startedAt)[b.conversation].None?
                                 then old(startedAt)[b.conversation := r.first] else old(startedAt))
      ensures r.first.None? ==> startedAt == old(startedAt)
      ensures r.last.Some? <==> r.ids != []
      ensures r.last.Some? ==> r.last.value == rows[|rows| - 1].key.time
    {
      hide Covered, IsNew, Violates, KeysUnique;
      ghost var rows0 := rows;
      var earliest := EarliestTime(b.drafts);
      if earliest.Some? {
        EnsureStartedAt(b.conversation, earliest.value);
      }
      var insertedIds: seq<Uuid>, skipped, last := [], 0, None;
      var i := 0;
      assert rows0 + [] == rows0;
      while i < |b.drafts|
        invariant 0 <= i <= |b.drafts|
        invariant rows == rows0 + NewMessages(rows0, b, i)
        invariant insertedIds == Ids(NewMessages(rows0, b, i)) && |insertedIds| + skipped == i
        invariant last.Some? <==> insertedIds != []
        invariant last.Some? ==> last.value == rows[|rows| - 1].key.time
        modifies this`rows
      {
        CheckDecidesNew(rows0, b, i);
        var msg := b.drafts[i];
        var key := KeyOf(msg, b.source, b.digest);
        if Covered(rows, key) {
          skipped := skipped + 1;
        } else {
          rows := rows + [Message(b.ids[i], b.conversation, key, msg.text)];
          insertedIds := insertedIds + [b.ids[i]];
          last := Some(msg.time);
        }
        i := i + 1;
      }
      BatchKeepsUnique(rows0, b, |b.drafts|);
      r := BatchResult(|insertedIds|, skipped, insertedIds, earliest, last);
    }
  }
}
